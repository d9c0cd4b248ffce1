/** The vocabulary a tokenizer is built from, the lookups made in it, and the
    facts its construction guarantees. */
module Vocabulary {
  import opened Wrappers
  import opened BpeMerge
  import opened Utf8
  import PreTokenizer

  type TokenId = nat

  datatype Error =
    | EmptyVocabulary
    | ShortScores
    | ShortKinds
    | UnknownKind(value: int)
    | IdOutOfRange(id: TokenId)
    | NonByteCharacter(text: string, ch: char)
    | MissingToken(symbol: string)
    | MissingByteToken(byte: Byte)
    | PrefixChanged

  datatype Result<T> = Ok(value: T) | Err(error: Error)

  /** A result with `ids` in front of its ids. */
  function After(ids: seq<TokenId>, r: Result<seq<TokenId>>): Result<seq<TokenId>> {
    match r
    case Ok(rest) => Ok(ids + rest)
    case Err(e) => Err(e)
  }

  lemma AfterTwice(a: seq<TokenId>, b: seq<TokenId>, r: Result<seq<TokenId>>)
    ensures After(a, After(b, r)) == After(a + b, r)
    ensures After([], r) == r
  {
    match r
    case Ok(rest) => assert a + (b + rest) == a + b + rest && [] + rest == rest;
    case Err(e) =>
  }

  datatype Model = LlamaSpm | Gpt2Bpe

  datatype TokenKind = Undefined | Normal | Unknown | Control | UserDefined | Unused | ByteKind

  function KindOf(value: int): (kind: Option<TokenKind>) {
    match value
    case 0 => Some(Undefined)
    case 1 => Some(Normal)
    case 2 => Some(Unknown)
    case 3 => Some(Control)
    case 4 => Some(UserDefined)
    case 5 => Some(Unused)
    case 6 => Some(ByteKind)
    case _ => None
  }

  const KINDS: seq<TokenKind> := [Undefined, Normal, Unknown, Control, UserDefined, Unused, ByteKind]

  /** Kinds are numbered in the order the file format lists them. */
  lemma KindsAreNumbered(value: int)
    ensures KindOf(value) == if 0 <= value < |KINDS| then Some(KINDS[value]) else None
  {
  }

  datatype Token = Token(id: TokenId, text: string, score: real, kind: TokenKind)

  datatype SpecialTokens = SpecialTokens(
    bos: Option<TokenId>, eos: Option<TokenId>, eot: Option<TokenId>, eom: Option<TokenId>,
    unk: Option<TokenId>, sep: Option<TokenId>, pad: Option<TokenId>, mask: Option<TokenId>)
  {
    predicate Has(id: TokenId) {
      bos == Some(id) || eos == Some(id) || eot == Some(id) || eom == Some(id) ||
      sep == Some(id) || pad == Some(id) || mask == Some(id)
    }
  }

  datatype Config = Config(addBos: bool, addEos: bool, addSpacePrefix: bool)

  datatype Tokenizer = Tokenizer(
    model: Model,
    dialect: PreTokenizer.Dialect,
    tokens: seq<Token>,
    tokenToId: map<string, TokenId>,
    byteTokenToId: map<Byte, TokenId>,
    ranks: Ranks,
    special: SpecialTokens,
    config: Config)

  // -------------------------------------------------------------- byte tokens

  function HexDigit(c: char): Option<nat> {
    if '0' <= c <= '9' then Some(c as int - '0' as int)
    else if 'a' <= c <= 'f' then Some(c as int - 'a' as int + 10)
    else if 'A' <= c <= 'F' then Some(c as int - 'A' as int + 10)
    else None
  }

  /** Two characters read as a hexadecimal byte; a leading plus sign is allowed. */
  function ParseHex(a: char, b: char): (byte: Option<Byte>) {
    match (HexDigit(a), HexDigit(b))
    case (Some(high), Some(low)) => assert high < 16 && low < 16; Some(high * 16 + low)
    case (None, Some(low)) => if a == '+' then Some(low) else None
    case _ => None
  }

  /** `<0xHH>` */
  function ParseByteToken(text: string): (byte: Option<Byte>) {
    if |text| == 6 && text[..3] == "<0x" && text[5] == '>' then ParseHex(text[3], text[4]) else None
  }

  /** The writer's side: a hexadecimal digit in either case. */
  function HexChar(n: nat, upper: bool): (c: char)
    requires n < 16
  {
    if upper then "0123456789ABCDEF"[n] else "0123456789abcdef"[n]
  }

  function ByteTokenText(b: Byte, upperHigh: bool, upperLow: bool): string {
    "<0x" + [HexChar(b / 16, upperHigh), HexChar(b % 16, upperLow)] + ">"
  }

  lemma HexDigitReads(n: nat, upper: bool)
    requires n < 16
    ensures HexDigit(HexChar(n, upper)) == Some(n)
  {
  }

  lemma HexDigitIsWritten(c: char) returns (upper: bool)
    requires HexDigit(c).Some?
    ensures HexDigit(c).value < 16 && c == HexChar(HexDigit(c).value, upper)
  {
    upper := 'A' <= c <= 'F';
  }

  /** A byte token reads as the byte whose two digits it shows, in either case. */
  lemma ByteTokenReads(b: Byte, upperHigh: bool, upperLow: bool)
    ensures ParseByteToken(ByteTokenText(b, upperHigh, upperLow)) == Some(b)
  {
    HexDigitReads(b / 16, upperHigh);
    HexDigitReads(b % 16, upperLow);
  }

  lemma SixCharacters(s: string)
    requires |s| == 6 && s[..3] == "<0x" && s[5] == '>'
    ensures s == "<0x" + [s[3], s[4]] + ">"
  {
    assert s == s[..3] + [s[3], s[4], s[5]];
  }

  lemma TwoDigits(high: nat, low: nat)
    requires high < 16 && low < 16
    ensures (high * 16 + low) / 16 == high && (high * 16 + low) % 16 == low
  {
  }

  lemma DigitsAreWritten(a: char, c: char) returns (upperHigh: bool, upperLow: bool)
    requires ParseHex(a, c).Some?
    ensures var b := ParseHex(a, c).value;
            || (a == HexChar(b / 16, upperHigh) && c == HexChar(b % 16, upperLow))
            || (a == '+' && b < 16 && c == HexChar(b, upperLow))
  {
    upperHigh := false;
    upperLow := HexDigitIsWritten(c);
    if HexDigit(a).Some? {
      upperHigh := HexDigitIsWritten(a);
      TwoDigits(HexDigit(a).value, HexDigit(c).value);
    }
  }

  /** Nothing else reads as a byte but a plus sign before a single digit. */
  lemma ByteTokensAreWritten(s: string) returns (upperHigh: bool, upperLow: bool)
    requires ParseByteToken(s).Some?
    ensures var b := ParseByteToken(s).value;
            s == ByteTokenText(b, upperHigh, upperLow) || (b < 16 && s == "<0x" + ['+', HexChar(b, upperLow)] + ">")
  {
    SixCharacters(s);
    upperHigh, upperLow := DigitsAreWritten(s[3], s[4]);
  }

  // ------------------------------------------------------------- construction

  /** What construction guarantees about the three tables. */
  ghost predicate WellBuilt(tokens: seq<Token>, ids: map<string, TokenId>, byteIds: map<Byte, TokenId>) {
    && (forall i :: 0 <= i < |tokens| ==> tokens[i].text in ids)
    && (forall s :: s in ids ==> ids[s] < |tokens| && tokens[ids[s]].text == s)
    && (forall b :: b in byteIds ==> byteIds[b] < |tokens| && ParseByteToken(tokens[byteIds[b]].text) == Some(b))
    && (forall i :: 0 <= i < |tokens| && ParseByteToken(tokens[i].text).Some? ==>
          ParseByteToken(tokens[i].text).value in byteIds)
  }

  ghost predicate Sound(tk: Tokenizer) {
    WellBuilt(tk.tokens, tk.tokenToId, tk.byteTokenToId)
  }

  /** The tokens are the first `n` texts in order, and no id precedes a text or a
      byte it is the id of: of two the last counts. */
  ghost predicate Lists(
    tokens: seq<Token>, ids: map<string, TokenId>, byteIds: map<Byte, TokenId>,
    texts: seq<string>, scores: seq<real>, kinds: seq<int>, n: nat)
    requires n <= |texts| <= |scores| && |texts| <= |kinds|
  {
    && |tokens| == n
    && forall i :: 0 <= i < n ==>
         && KindOf(kinds[i]).Some?
         && tokens[i] == Token(i, texts[i], scores[i], KindOf(kinds[i]).value)
         && texts[i] in ids && i <= ids[texts[i]]
         && (ParseByteToken(texts[i]).Some? ==>
               ParseByteToken(texts[i]).value in byteIds && i <= byteIds[ParseByteToken(texts[i]).value])
  }

  lemma AddToken(tokens: seq<Token>, ids: map<string, TokenId>, byteIds: map<Byte, TokenId>,
                 texts: seq<string>, scores: seq<real>, kinds: seq<int>, n: nat, token: Token)
    requires n < |texts| <= |scores| && |texts| <= |kinds| && KindOf(kinds[n]).Some?
    requires token == Token(n, texts[n], scores[n], KindOf(kinds[n]).value)
    requires WellBuilt(tokens, ids, byteIds) && Lists(tokens, ids, byteIds, texts, scores, kinds, n)
    ensures var more, moreIds := tokens + [token], ids[texts[n] := n];
            var byte := ParseByteToken(texts[n]);
            var moreBytes := if byte.Some? then byteIds[byte.value := n] else byteIds;
            WellBuilt(more, moreIds, moreBytes) && Lists(more, moreIds, moreBytes, texts, scores, kinds, n + 1)
  {
    StaysBuilt(tokens, ids, byteIds, token);
    var byte := ParseByteToken(texts[n]);
    StillLists(tokens, ids, byteIds, if byte.Some? then byteIds[byte.value := n] else byteIds,
               texts, scores, kinds, n, token);
  }

  lemma StaysBuilt(tokens: seq<Token>, ids: map<string, TokenId>, byteIds: map<Byte, TokenId>, token: Token)
    requires WellBuilt(tokens, ids, byteIds) && token.id == |tokens|
    ensures var byte := ParseByteToken(token.text);
            WellBuilt(tokens + [token], ids[token.text := token.id],
                      if byte.Some? then byteIds[byte.value := token.id] else byteIds)
  {
  }

  lemma StillLists(
    tokens: seq<Token>, ids: map<string, TokenId>, byteIds: map<Byte, TokenId>, moreBytes: map<Byte, TokenId>,
    texts: seq<string>, scores: seq<real>, kinds: seq<int>, n: nat, token: Token)
    requires n < |texts| <= |scores| && |texts| <= |kinds| && KindOf(kinds[n]).Some?
    requires token == Token(n, texts[n], scores[n], KindOf(kinds[n]).value)
    requires Lists(tokens, ids, byteIds, texts, scores, kinds, n)
    requires var byte := ParseByteToken(texts[n]);
             moreBytes == if byte.Some? then byteIds[byte.value := n] else byteIds
    ensures Lists(tokens + [token], ids[texts[n] := n], moreBytes, texts, scores, kinds, n + 1)
  {
  }

  /** The vocabulary loop. A text listed twice keeps its last id. */
  method BuildVocabulary(texts: seq<string>, scores: seq<real>, kinds: seq<int>)
    returns (error: Option<Error>, tokens: seq<Token>, ids: map<string, TokenId>, byteIds: map<Byte, TokenId>)
    requires |texts| <= 1_000_000
    ensures error.None? <==>
              && 0 < |texts| <= |scores| && |texts| <= |kinds|
              && forall i :: 0 <= i < |texts| ==> KindOf(kinds[i]).Some?
    ensures error.None? ==>
              WellBuilt(tokens, ids, byteIds) && Lists(tokens, ids, byteIds, texts, scores, kinds, |texts|)
  {
    tokens, ids, byteIds := [], map[], map[];
    if texts == [] {
      return Some(EmptyVocabulary), tokens, ids, byteIds;
    }
    if |scores| < |texts| {
      return Some(ShortScores), tokens, ids, byteIds;
    }
    if |kinds| < |texts| {
      return Some(ShortKinds), tokens, ids, byteIds;
    }
    for i := 0 to |texts|
      invariant WellBuilt(tokens, ids, byteIds) && Lists(tokens, ids, byteIds, texts, scores, kinds, i)
    {
      var kind := KindOf(kinds[i]);
      if kind.None? {
        return Some(UnknownKind(kinds[i])), tokens, ids, byteIds;
      }
      var id := i % 0x1_0000_0000;
      var token := Token(id, texts[i], scores[i], kind.value);
      AddToken(tokens, ids, byteIds, texts, scores, kinds, i, token);
      var byte := ParseByteToken(texts[i]);
      if byte.Some? {
        byteIds := byteIds[byte.value := id];
      }
      ids := ids[texts[i] := id];
      tokens := tokens + [token];
    }
    error := None;
  }

  // ----------------------------------------------------------- special tokens

  predicate IsChatControlMarker(token: Token) {
    token.kind == UserDefined && "<|" <= token.text && |token.text| >= 2 && token.text[|token.text| - 2..] == "|>"
  }

  predicate StartsAt(text: string, i: nat, s: string) {
    i + |s| <= |text| && text[i..i + |s|] == s
  }

  /** User-defined tokens always take part in the special-token scan; control
      tokens only when asked for. */
  predicate IsCandidate(token: Token, includeControl: bool) {
    (token.kind == UserDefined || (includeControl && token.kind == Control)) && token.text != ""
  }

  /** The longest candidate text that starts at `i`. */
  function LongestAmong(tokens: seq<Token>, text: string, i: nat, includeControl: bool): (best: Option<string>)
    ensures best.Some? ==> best.value != "" && StartsAt(text, i, best.value)
  {
    if tokens == [] then None
    else
      var last := |tokens| - 1;
      var best := LongestAmong(tokens[..last], text, i, includeControl);
      var token := tokens[last];
      if IsCandidate(token, includeControl) && StartsAt(text, i, token.text) &&
         (best.None? || |best.value| <= |token.text|)
      then Some(token.text) else best
  }

  /** `s` is the text of a token that starts at `i`: a user-defined one or, if asked
      for, a control one. */
  ghost predicate SpecialAt(tokens: seq<Token>, text: string, i: nat, s: string, includeControl: bool) {
    && s != "" && i + |s| <= |text| && text[i..i + |s|] == s
    && exists k :: 0 <= k < |tokens| && tokens[k].text == s &&
         (tokens[k].kind == UserDefined || (tokens[k].kind == Control && includeControl))
  }

  /** The scan takes a special token, and none that starts there is longer. */
  lemma {:induction false} LongestIsLongest(tokens: seq<Token>, text: string, i: nat, includeControl: bool)
    ensures var best := LongestAmong(tokens, text, i, includeControl);
            && (best.Some? ==> SpecialAt(tokens, text, i, best.value, includeControl))
            && forall s :: SpecialAt(tokens, text, i, s, includeControl) ==> best.Some? && |s| <= |best.value|
  {
    if tokens != [] {
      var last := |tokens| - 1;
      LongestIsLongest(tokens[..last], text, i, includeControl);
      SpecialSnoc(tokens[..last], tokens[last], text, i, includeControl);
      assert tokens == tokens[..last] + [tokens[last]];
    }
  }

  lemma SpecialSnoc(tokens: seq<Token>, last: Token, text: string, i: nat, includeControl: bool)
    ensures forall s :: SpecialAt(tokens + [last], text, i, s, includeControl) <==>
              || SpecialAt(tokens, text, i, s, includeControl)
              || (s == last.text && s != "" && i + |s| <= |text| && text[i..i + |s|] == s &&
                  (last.kind == UserDefined || (last.kind == Control && includeControl)))
  {
    var more := tokens + [last];
    forall s | SpecialAt(tokens, text, i, s, includeControl) ensures SpecialAt(more, text, i, s, includeControl) {
      var k :| 0 <= k < |tokens| && tokens[k].text == s &&
        (tokens[k].kind == UserDefined || (tokens[k].kind == Control && includeControl));
      assert more[k] == tokens[k];
    }
    assert more[|tokens|] == last;
  }

  function LongestControlAt(tk: Tokenizer, text: string, i: nat, includeControl: bool): (best: Option<string>)
    ensures best.Some? ==> best.value != "" && StartsAt(text, i, best.value)
  {
    LongestAmong(tk.tokens, text, i, includeControl)
  }

  ghost predicate SpecialStartsAt(tk: Tokenizer, text: string, i: nat, includeControl: bool) {
    exists s :: SpecialAt(tk.tokens, text, i, s, includeControl)
  }

  /** `s` is the longest special token that starts at `i`. */
  ghost predicate LongestSpecial(tk: Tokenizer, text: string, i: nat, s: string, includeControl: bool) {
    && SpecialAt(tk.tokens, text, i, s, includeControl)
    && forall t :: SpecialAt(tk.tokens, text, i, t, includeControl) ==> |t| <= |s|
  }

  /** No special token starts from `i` on before `end`, but one does there unless the
      text ends. */
  ghost predicate PlainUntil(tk: Tokenizer, text: string, i: nat, end: nat, includeControl: bool) {
    && (forall j: nat :: i <= j < end ==> !SpecialStartsAt(tk, text, j, includeControl))
    && (end < |text| ==> SpecialStartsAt(tk, text, end, includeControl))
  }

  lemma FoundIfThere(tk: Tokenizer, text: string, i: nat, includeControl: bool)
    ensures LongestControlAt(tk, text, i, includeControl).Some? <==> SpecialStartsAt(tk, text, i, includeControl)
  {
    LongestIsLongest(tk.tokens, text, i, includeControl);
  }

  /** The first position from `i` on where a special token starts. */
  function NextControlStart(tk: Tokenizer, text: string, i: nat, includeControl: bool): (next: Option<nat>)
    requires i <= |text|
    ensures next.Some? ==> i <= next.value < |text| && LongestControlAt(tk, text, next.value, includeControl).Some?
    ensures forall j :: i <= j < (if next.Some? then next.value else |text|) ==>
              LongestControlAt(tk, text, j, includeControl).None?
    decreases |text| - i
  {
    if i == |text| then None
    else if LongestControlAt(tk, text, i, includeControl).Some? then Some(i)
    else NextControlStart(tk, text, i + 1, includeControl)
  }

  /** A special-token text found in the text is a key of the vocabulary. */
  lemma ControlTextHasId(tk: Tokenizer, text: string, i: nat, includeControl: bool)
    requires Sound(tk) && LongestControlAt(tk, text, i, includeControl).Some?
    ensures var s := LongestControlAt(tk, text, i, includeControl).value;
            s in tk.tokenToId && tk.tokenToId[s] < |tk.tokens| && tk.tokens[tk.tokenToId[s]].text == s
  {
    LongestIsLongest(tk.tokens, text, i, includeControl);
  }
}
