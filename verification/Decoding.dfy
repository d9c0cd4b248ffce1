/** Token ids back to text: the two vocabulary families' decoders, which hold
    back the bytes of an unfinished character, and the incremental decoder. */
module Decoding {
  import opened Sequences
  import opened Wrappers
  import opened Utf8
  import opened ByteAlphabet
  import opened Vocabulary

  const SPM_SPACE: char := '\U{2581}'

  /** Whether a token is left out of the text. */
  predicate IsRemoved(tk: Tokenizer, id: TokenId, removeSpecial: bool) {
    removeSpecial &&
    (tk.special.Has(id) ||
     (id < |tk.tokens| && (tk.tokens[id].kind == Control || IsChatControlMarker(tk.tokens[id]))))
  }

  function SpaceForMarker(c: char): char {
    if c == SPM_SPACE then ' ' else c
  }

  /** `replace('▁', " ")` */
  function MarkersToSpaces(s: string): (r: string)
    ensures |r| == |s|
  {
    seq(|s|, i requires 0 <= i < |s| => SpaceForMarker(s[i]))
  }

  // -------------------------------------------------------- SentencePiece text

  /** What one token contributes: a raw byte, or text. */
  datatype Piece = RawByte(byte: Byte) | Text(text: string)

  function PieceOf(token: Token): Piece {
    match ParseByteToken(token.text)
    case Some(b) => RawByte(b)
    case None => Text(MarkersToSpaces(token.text))
  }

  function Pieces(tk: Tokenizer, ids: seq<TokenId>, removeSpecial: bool): (r: Result<seq<Piece>>) {
    if ids == [] then Ok([])
    else
      var last := |ids| - 1;
      match Pieces(tk, ids[..last], removeSpecial)
      case Err(e) => Err(e)
      case Ok(before) =>
        if IsRemoved(tk, ids[last], removeSpecial) then Ok(before)
        else if ids[last] >= |tk.tokens| then Err(IdOutOfRange(ids[last]))
        else Ok(before + [PieceOf(tk.tokens[ids[last]])])
  }

  /** A maximal run of bytes becomes the longest whole-character text it starts
      with; what is left of the run is dropped. `pending` are the bytes of the
      run so far. */
  function Render(pending: seq<Byte>, pieces: seq<Piece>): string
    decreases pieces
  {
    if pieces == [] then ValidText(pending)
    else match pieces[0]
      case RawByte(b) => Render(pending + [b], pieces[1..])
      case Text(s) => ValidText(pending) + s + Render([], pieces[1..])
  }

  // ------------------------------------------------------ byte-level BPE bytes

  function BpeBytes(tk: Tokenizer, ids: seq<TokenId>, removeSpecial: bool): (r: Result<seq<Byte>>) {
    if ids == [] then Ok([])
    else
      var last := |ids| - 1;
      match BpeBytes(tk, ids[..last], removeSpecial)
      case Err(e) => Err(e)
      case Ok(before) =>
        if IsRemoved(tk, ids[last], removeSpecial) then Ok(before)
        else if ids[last] >= |tk.tokens| then Err(IdOutOfRange(ids[last]))
        else
          var text := tk.tokens[ids[last]].text;
          match CharBytes(text)
          case Some(bytes) => Ok(before + bytes)
          case None => Err(NonByteCharacter(text, FirstOutside(text)))
  }

  function FirstOutside(text: string): (ch: char)
    requires CharBytes(text).None?
  {
    if CharToByte(text[0]).None? then text[0] else FirstOutside(text[1..])
  }

  function DecodeText(tk: Tokenizer, ids: seq<TokenId>, removeSpecial: bool): (r: Result<string>) {
    if tk.model == Gpt2Bpe then
      match BpeBytes(tk, ids, removeSpecial)
      case Err(e) => Err(e)
      case Ok(bytes) => Ok(ValidText(bytes))
    else
      match Pieces(tk, ids, removeSpecial)
      case Err(e) => Err(e)
      case Ok(pieces) => Ok(Render([], pieces))
  }

  // ------------------------------------------------------------- the decoders

  /** The text so far and the bytes still pending render to the same text as the
      pieces they came from. */
  lemma {:induction false} RenderSplits(pending: seq<Byte>, a: seq<Piece>, b: seq<Piece>)
    ensures Render(pending, a + b) == Rendered(pending, a).0 + Render(Rendered(pending, a).1, b)
    decreases a
  {
    if a == [] {
      assert a + b == b;
    } else {
      assert (a + b)[1..] == a[1..] + b && (a + b)[0] == a[0];
      match a[0]
      case RawByte(x) => RenderSplits(pending + [x], a[1..], b);
      case Text(s) =>
        RenderSplits([], a[1..], b);
        var head := ValidText(pending) + s;
        var (text, left) := Rendered([], a[1..]);
        assert head + (text + Render(left, b)) == head + text + Render(left, b);
    }
  }

  /** The text flushed while reading `pieces`, and the bytes left unflushed. */
  function Rendered(pending: seq<Byte>, pieces: seq<Piece>): (string, seq<Byte>)
    decreases pieces
  {
    if pieces == [] then ("", pending)
    else match pieces[0]
      case RawByte(b) => Rendered(pending + [b], pieces[1..])
      case Text(s) =>
        var rest := Rendered([], pieces[1..]);
        (ValidText(pending) + s + rest.0, rest.1)
  }

  lemma {:induction false} RenderedSnoc(pending: seq<Byte>, pieces: seq<Piece>, last: Piece)
    ensures var (text, left) := Rendered(pending, pieces);
            Rendered(pending, pieces + [last]) ==
            match last
            case RawByte(b) => (text, left + [b])
            case Text(s) => (text + ValidText(left) + s, [])
    decreases pieces
  {
    if pieces == [] {
      assert pieces + [last] == [last];
      assert [last][1..] == [];
      match last
      case RawByte(b) =>
      case Text(s) => assert "" + ValidText(pending) + s == ValidText(pending) + s + "";
    } else {
      assert (pieces + [last])[1..] == pieces[1..] + [last] && (pieces + [last])[0] == pieces[0];
      match pieces[0]
      case RawByte(x) => RenderedSnoc(pending + [x], pieces[1..], last);
      case Text(s) =>
        RenderedSnoc([], pieces[1..], last);
        var head := ValidText(pending) + s;
        var (text, left) := Rendered([], pieces[1..]);
        if last.Text? {
          assert head + (text + ValidText(left) + last.text) == head + text + ValidText(left) + last.text;
        }
    }
  }

  /** Adds the longest text whose encoding starts the bytes. */
  method FlushBytes(bytes: seq<Byte>, text: string) returns (flushed: string)
    ensures flushed == text + ValidText(bytes)
    ensures text <= flushed && Encode(flushed[|text|..]) <= bytes
    ensures forall longer :: Encode(longer) <= bytes ==> longer <= flushed[|text|..]
  {
    ValidTextIsPrefix(bytes);
    forall longer | Encode(longer) <= bytes ensures longer <= ValidText(bytes) {
      ValidTextIsLongest(bytes, longer);
    }
    assert (text + ValidText(bytes))[|text|..] == ValidText(bytes);
    if bytes == [] {
      return text;
    }
    flushed := text + ValidText(bytes);
  }

  method Decode(tk: Tokenizer, ids: seq<TokenId>, removeSpecial: bool) returns (r: Result<string>)
    ensures r == DecodeText(tk, ids, removeSpecial)
  {
    if tk.model == Gpt2Bpe {
      r := DecodeBpe(tk, ids, removeSpecial);
      return;
    }
    var bytes: seq<Byte>, text := [], "";
    ghost var pieces := [];
    for i := 0 to |ids|
      invariant Pieces(tk, ids[..i], removeSpecial) == Ok(pieces)
      invariant Rendered([], pieces) == (text, bytes)
    {
      assert ids[..i + 1][..i] == ids[..i];
      if removeSpecial && tk.special.Has(ids[i]) {
        continue;
      }
      if ids[i] >= |tk.tokens| {
        PiecesFail(tk, ids, i + 1, removeSpecial);
        return Err(IdOutOfRange(ids[i]));
      }
      var token := tk.tokens[ids[i]];
      if removeSpecial && (token.kind == Control || IsChatControlMarker(token)) {
        continue;
      }
      RenderedSnoc([], pieces, PieceOf(token));
      pieces := pieces + [PieceOf(token)];
      var byte := ParseByteToken(token.text);
      if byte.Some? {
        bytes := bytes + [byte.value];
        continue;
      }
      text := FlushBytes(bytes, text);
      bytes := [];
      text := text + MarkersToSpaces(token.text);
    }
    assert ids[..|ids|] == ids && pieces + [] == pieces;
    RenderSplits([], pieces, []);
    text := FlushBytes(bytes, text);
    r := Ok(text);
  }

  /** A failure on a prefix is the failure of the whole. */
  lemma {:induction false} PiecesFail(tk: Tokenizer, ids: seq<TokenId>, n: nat, removeSpecial: bool)
    requires n <= |ids| && Pieces(tk, ids[..n], removeSpecial).Err?
    ensures Pieces(tk, ids, removeSpecial) == Pieces(tk, ids[..n], removeSpecial)
    decreases |ids|
  {
    if n == |ids| {
      assert ids[..n] == ids;
    } else {
      assert ids[..|ids| - 1][..n] == ids[..n];
      PiecesFail(tk, ids[..|ids| - 1], n, removeSpecial);
    }
  }

  lemma {:induction false} BpeBytesFail(tk: Tokenizer, ids: seq<TokenId>, n: nat, removeSpecial: bool)
    requires n <= |ids| && BpeBytes(tk, ids[..n], removeSpecial).Err?
    ensures BpeBytes(tk, ids, removeSpecial) == BpeBytes(tk, ids[..n], removeSpecial)
    decreases |ids|
  {
    if n == |ids| {
      assert ids[..n] == ids;
    } else {
      assert ids[..|ids| - 1][..n] == ids[..n];
      BpeBytesFail(tk, ids[..|ids| - 1], n, removeSpecial);
    }
  }

  method DecodeBpe(tk: Tokenizer, ids: seq<TokenId>, removeSpecial: bool) returns (r: Result<string>)
    requires tk.model == Gpt2Bpe
    ensures r == DecodeText(tk, ids, removeSpecial)
  {
    var bytes: seq<Byte> := [];
    for i := 0 to |ids|
      invariant BpeBytes(tk, ids[..i], removeSpecial) == Ok(bytes)
    {
      assert ids[..i + 1][..i] == ids[..i];
      if removeSpecial && tk.special.Has(ids[i]) {
        continue;
      }
      if ids[i] >= |tk.tokens| {
        BpeBytesFail(tk, ids, i + 1, removeSpecial);
        return Err(IdOutOfRange(ids[i]));
      }
      var token := tk.tokens[ids[i]];
      if removeSpecial && (token.kind == Control || IsChatControlMarker(token)) {
        continue;
      }
      var error;
      bytes, error := PushTokenBytes(token, bytes, removeSpecial);
      if error.Some? {
        BpeBytesFail(tk, ids, i + 1, removeSpecial);
        return Err(error.value);
      }
    }
    assert ids[..|ids|] == ids;
    r := Ok(ValidText(bytes));
  }

  method PushTokenBytes(token: Token, bytes: seq<Byte>, removeSpecial: bool)
    returns (out: seq<Byte>, error: Option<Error>)
    requires !(removeSpecial && token.kind == Control)
    ensures match CharBytes(token.text)
            case Some(b) => out == bytes + b && error.None?
            case None => error == Some(NonByteCharacter(token.text, FirstOutside(token.text)))
  {
    out := bytes;
    assert token.text[0..] == token.text;
    for i := 0 to |token.text|
      invariant match CharBytes(token.text[i..])
                case Some(b) => CharBytes(token.text).Some? && out + b == bytes + CharBytes(token.text).value
                case None => CharBytes(token.text).None? && FirstOutside(token.text) == FirstOutside(token.text[i..])
    {
      var ch := token.text[i];
      assert token.text[i..][0] == ch && token.text[i..][1..] == token.text[i + 1..];
      var byte := CharToByte(ch);
      if byte.Some? {
        out := out + [byte.value];
      } else if !removeSpecial || token.kind != Control {
        return out, Some(NonByteCharacter(token.text, ch));
      }
    }
    assert token.text[|token.text|..] == "";
    error := None;
  }

  // --------------------------------------------- more tokens only add text

  lemma {:induction false} RenderGrows(pending: seq<Byte>, pieces: seq<Piece>, more: seq<Piece>)
    ensures Render(pending, pieces) <= Render(pending, pieces + more)
  {
    RenderSplits(pending, pieces, []);
    RenderSplits(pending, pieces, more);
    assert pieces + [] == pieces;
    PendingTextIsKept(Rendered(pending, pieces).1, more);
  }

  lemma {:induction false} PendingTextIsKept(pending: seq<Byte>, pieces: seq<Piece>)
    ensures ValidText(pending) <= Render(pending, pieces)
    decreases pieces
  {
    if pieces != [] && pieces[0].RawByte? {
      ValidTextMonotone(pending, [pieces[0].byte]);
      PendingTextIsKept(pending + [pieces[0].byte], pieces[1..]);
    }
  }

  /** Decoding one token more succeeds only if decoding without it does, and only
      adds text at the end. */
  lemma DecodeGrows(tk: Tokenizer, ids: seq<TokenId>, id: TokenId, removeSpecial: bool)
    requires DecodeText(tk, ids + [id], removeSpecial).Ok?
    ensures DecodeText(tk, ids, removeSpecial).Ok?
    ensures DecodeText(tk, ids, removeSpecial).value <= DecodeText(tk, ids + [id], removeSpecial).value
  {
    var longer := ids + [id];
    assert longer[..|ids|] == ids && longer[|ids|] == id;
    if tk.model == Gpt2Bpe {
      var before := BpeBytes(tk, ids, removeSpecial).value;
      var after := BpeBytes(tk, longer, removeSpecial).value;
      assert before + after[|before|..] == after;
      ValidTextMonotone(before, after[|before|..]);
    } else {
      var before := Pieces(tk, ids, removeSpecial).value;
      var after := Pieces(tk, longer, removeSpecial).value;
      assert before + after[|before|..] == after;
      RenderGrows([], before, after[|before|..]);
    }
  }

  // ------------------------------------------------- what is removed, what fails

  /** What `remove_special` takes out: ids with a special role, the unknown token's
      aside, control tokens, and user-defined tokens of the form <|...|>. */
  ghost predicate IsScaffolding(tk: Tokenizer, id: TokenId) {
    || Some(id) in [tk.special.bos, tk.special.eos, tk.special.eot, tk.special.eom,
                    tk.special.sep, tk.special.pad, tk.special.mask]
    || (id < |tk.tokens| &&
          (|| tk.tokens[id].kind == Control
           || (tk.tokens[id].kind == UserDefined && "<|" <= tk.tokens[id].text &&
                 exists front :: tk.tokens[id].text == front + "|>")))
  }

  ghost function WithoutScaffolding(tk: Tokenizer, ids: seq<TokenId>): seq<TokenId>
    decreases ids
  {
    if ids == [] then []
    else
      var last := |ids| - 1;
      WithoutScaffolding(tk, ids[..last]) + if IsScaffolding(tk, ids[last]) then [] else [ids[last]]
  }

  lemma RemovedIsScaffolding(tk: Tokenizer, id: TokenId)
    ensures IsRemoved(tk, id, true) <==> IsScaffolding(tk, id)
    ensures !IsRemoved(tk, id, false)
  {
    if id < |tk.tokens| {
      EndsInMarker(tk.tokens[id].text);
    }
  }

  lemma EndsInMarker(s: string)
    ensures (exists front :: s == front + "|>") <==> |s| >= 2 && s[|s| - 2..] == "|>"
  {
    if |s| >= 2 && s[|s| - 2..] == "|>" {
      assert s == s[..|s| - 2] + "|>";
    }
  }

  /** Decoding with removal is decoding what is left without it. */
  lemma RemovalIsFiltering(tk: Tokenizer, ids: seq<TokenId>)
    ensures DecodeText(tk, ids, true) == DecodeText(tk, WithoutScaffolding(tk, ids), false)
  {
    FilteredPieces(tk, ids);
    FilteredBytes(tk, ids);
  }

  lemma PiecesSnoc(tk: Tokenizer, ids: seq<TokenId>, id: TokenId, removeSpecial: bool)
    ensures Pieces(tk, ids + [id], removeSpecial) ==
            if Pieces(tk, ids, removeSpecial).Err? || IsRemoved(tk, id, removeSpecial)
            then Pieces(tk, ids, removeSpecial)
            else if id >= |tk.tokens| then Err(IdOutOfRange(id))
            else Ok(Pieces(tk, ids, removeSpecial).value + [PieceOf(tk.tokens[id])])
  {
    assert (ids + [id])[..|ids|] == ids;
  }

  lemma BpeBytesSnoc(tk: Tokenizer, ids: seq<TokenId>, id: TokenId, removeSpecial: bool)
    ensures BpeBytes(tk, ids + [id], removeSpecial) ==
            if BpeBytes(tk, ids, removeSpecial).Err? || IsRemoved(tk, id, removeSpecial)
            then BpeBytes(tk, ids, removeSpecial)
            else if id >= |tk.tokens| then Err(IdOutOfRange(id))
            else match CharBytes(tk.tokens[id].text)
              case Some(bytes) => Ok(BpeBytes(tk, ids, removeSpecial).value + bytes)
              case None => Err(NonByteCharacter(tk.tokens[id].text, FirstOutside(tk.tokens[id].text)))
  {
    assert (ids + [id])[..|ids|] == ids;
  }

  lemma {:induction false} FilteredPieces(tk: Tokenizer, ids: seq<TokenId>)
    ensures Pieces(tk, ids, true) == Pieces(tk, WithoutScaffolding(tk, ids), false)
    decreases ids
  {
    if ids != [] {
      var last, before := ids[|ids| - 1], ids[..|ids| - 1];
      FilteredPieces(tk, before);
      RemovedIsScaffolding(tk, last);
      assert ids == before + [last];
      PiecesSnoc(tk, before, last, true);
      PiecesSnoc(tk, WithoutScaffolding(tk, before), last, false);
      Neutral(WithoutScaffolding(tk, before));
    }
  }

  lemma {:induction false} FilteredBytes(tk: Tokenizer, ids: seq<TokenId>)
    ensures BpeBytes(tk, ids, true) == BpeBytes(tk, WithoutScaffolding(tk, ids), false)
    decreases ids
  {
    if ids != [] {
      var last, before := ids[|ids| - 1], ids[..|ids| - 1];
      FilteredBytes(tk, before);
      RemovedIsScaffolding(tk, last);
      assert ids == before + [last];
      BpeBytesSnoc(tk, before, last, true);
      BpeBytesSnoc(tk, WithoutScaffolding(tk, before), last, false);
      Neutral(WithoutScaffolding(tk, before));
    }
  }

  /** What makes decoding fail: an id the vocabulary does not have or, with bytes
      written as characters, a token with a character that stands for none. */
  ghost predicate IsBad(tk: Tokenizer, id: TokenId) {
    || id >= |tk.tokens|
    || (tk.model == Gpt2Bpe && exists j :: 0 <= j < |tk.tokens[id].text| && CharToByte(tk.tokens[id].text[j]).None?)
  }

  /** The failure a bad id gives. */
  ghost predicate Reports(tk: Tokenizer, id: TokenId, r: Result<string>) {
    if id >= |tk.tokens| then r == Err(IdOutOfRange(id))
    else exists j: nat :: IsFirstOutside(tk.tokens[id].text, j) &&
           r == Err(NonByteCharacter(tk.tokens[id].text, tk.tokens[id].text[j]))
  }

  ghost predicate IsFirstOutside(text: string, j: nat) {
    && j < |text| && CharToByte(text[j]).None?
    && forall i :: 0 <= i < j ==> CharToByte(text[i]).Some?
  }

  lemma {:induction false} OutsideIsFound(text: string) returns (j: nat)
    ensures CharBytes(text).Some? <==> forall i :: 0 <= i < |text| ==> CharToByte(text[i]).Some?
    ensures CharBytes(text).None? ==> IsFirstOutside(text, j) && FirstOutside(text) == text[j]
  {
    j := 0;
    if text != "" {
      var k := OutsideIsFound(text[1..]);
      if CharToByte(text[0]).Some? {
        j := k + 1;
      }
      assert text == [text[0]] + text[1..];
    }
  }

  lemma DecodeSnoc(tk: Tokenizer, ids: seq<TokenId>, id: TokenId)
    ensures DecodeText(tk, ids, false).Err? ==> DecodeText(tk, ids + [id], false) == DecodeText(tk, ids, false)
    ensures DecodeText(tk, ids, false).Ok? ==>
              if IsBad(tk, id) then Reports(tk, id, DecodeText(tk, ids + [id], false))
              else DecodeText(tk, ids + [id], false).Ok?
  {
    PiecesSnoc(tk, ids, id, false);
    BpeBytesSnoc(tk, ids, id, false);
    if id < |tk.tokens| {
      var j := OutsideIsFound(tk.tokens[id].text);
    }
  }

  ghost predicate FirstBadAt(tk: Tokenizer, ids: seq<TokenId>, k: nat) {
    k < |ids| && IsBad(tk, ids[k]) && forall i :: 0 <= i < k ==> !IsBad(tk, ids[i])
  }

  /** Decoding without removal succeeds exactly if no id is bad, and else reports the
      first that is. */
  lemma {:induction false} DecodeReportsFirstBad(tk: Tokenizer, ids: seq<TokenId>)
    ensures DecodeText(tk, ids, false).Ok? <==> forall i :: 0 <= i < |ids| ==> !IsBad(tk, ids[i])
    ensures forall k: nat :: FirstBadAt(tk, ids, k) ==> Reports(tk, ids[k], DecodeText(tk, ids, false))
    decreases ids
  {
    if ids != [] {
      var last, before := ids[|ids| - 1], ids[..|ids| - 1];
      DecodeReportsFirstBad(tk, before);
      DecodeSnoc(tk, before, last);
      assert ids == before + [last];
      forall k: nat | FirstBadAt(tk, ids, k) ensures Reports(tk, ids[k], DecodeText(tk, ids, false)) {
        if k < |before| {
          assert FirstBadAt(tk, before, k);
        } else {
          assert forall i :: 0 <= i < |before| ==> before[i] == ids[i];
        }
      }
      assert DecodeText(tk, before, false).Err? ==> exists i :: 0 <= i < |before| && IsBad(tk, ids[i]);
    }
  }

  // --------------------------------------------------- the incremental decoder

  datatype DecoderState = DecoderState(ids: seq<TokenId>, emitted: string)

  /** `push`, with the check that nothing already emitted changes. */
  function PushStep(tk: Tokenizer, removeSpecial: bool, s: DecoderState, id: TokenId): (DecoderState, Result<string>) {
    match DecodeText(tk, s.ids + [id], removeSpecial)
    case Err(e) => (s, Err(e))
    case Ok(decoded) =>
      if s.emitted <= decoded
      then (DecoderState(s.ids + [id], decoded), Ok(decoded[|s.emitted|..]))
      else (s, Err(PrefixChanged))
  }

  ghost predicate InStep(tk: Tokenizer, removeSpecial: bool, s: DecoderState) {
    DecodeText(tk, s.ids, removeSpecial) == Ok(s.emitted)
  }

  /** One push: the check never fires, and the state stays in step with decoding. */
  lemma PushStaysInStep(tk: Tokenizer, removeSpecial: bool, s: DecoderState, id: TokenId)
    requires InStep(tk, removeSpecial, s)
    ensures InStep(tk, removeSpecial, PushStep(tk, removeSpecial, s, id).0)
    ensures var (next, r) := PushStep(tk, removeSpecial, s, id);
            if r.Ok? then next == DecoderState(s.ids + [id], s.emitted + r.value)
            else next == s && r == DecodeText(tk, s.ids + [id], removeSpecial)
  {
    if DecodeText(tk, s.ids + [id], removeSpecial).Ok? {
      DecodeGrows(tk, s.ids, id, removeSpecial);
      PrefixAndRest(s.emitted, DecodeText(tk, s.ids + [id], removeSpecial).value);
    }
  }

  /** A run of pushes: the final state and what every push returned. */
  function PushRun(tk: Tokenizer, removeSpecial: bool, s: DecoderState, ids: seq<TokenId>)
    : (DecoderState, seq<Result<string>>)
    decreases ids
  {
    if ids == [] then (s, [])
    else
      var step := PushStep(tk, removeSpecial, s, ids[0]);
      var rest := PushRun(tk, removeSpecial, step.0, ids[1..]);
      (rest.0, [step.1] + rest.1)
  }

  function Accepted(ids: seq<TokenId>, results: seq<Result<string>>): seq<TokenId>
    requires |ids| == |results|
  {
    if ids == [] then []
    else (if results[0].Ok? then [ids[0]] else []) + Accepted(ids[1..], results[1..])
  }

  function Deltas(results: seq<Result<string>>): string {
    if results == [] then ""
    else (if results[0].Ok? then results[0].value else "") + Deltas(results[1..])
  }

  /** From a fresh decoder, for every sequence of pushes: the deltas put together
      are the decoding of the accepted ids, and no push is refused for changing
      what was already emitted. */
  lemma DeltasAreDecode(tk: Tokenizer, removeSpecial: bool, ids: seq<TokenId>)
    ensures var (s, results) := PushRun(tk, removeSpecial, DecoderState([], ""), ids);
            |results| == |ids| && s.ids == Accepted(ids, results)
    ensures DecodeText(tk, PushRun(tk, removeSpecial, DecoderState([], ""), ids).0.ids, removeSpecial) ==
            Ok(Deltas(PushRun(tk, removeSpecial, DecoderState([], ""), ids).1))
    ensures NoneReportsPrefix(PushRun(tk, removeSpecial, DecoderState([], ""), ids).1)
  {
    var start := DecoderState([], "");
    DeltasFrom(tk, removeSpecial, start, ids);
    var (s, results) := PushRun(tk, removeSpecial, start, ids);
    Neutral(Accepted(ids, results));
    Neutral(Deltas(results));
  }

  lemma {:induction false} DeltasFrom(tk: Tokenizer, removeSpecial: bool, s: DecoderState, ids: seq<TokenId>)
    requires InStep(tk, removeSpecial, s)
    ensures var (end, results) := PushRun(tk, removeSpecial, s, ids);
            && |results| == |ids|
            && end.ids == s.ids + Accepted(ids, results)
            && end.emitted == s.emitted + Deltas(results)
            && InStep(tk, removeSpecial, end)
            && NoneReportsPrefix(results)
    decreases ids
  {
    if ids != [] {
      var (next, r) := PushStep(tk, removeSpecial, s, ids[0]);
      PushStaysInStep(tk, removeSpecial, s, ids[0]);
      DecodeNeverReportsPrefix(tk, s.ids + [ids[0]], removeSpecial);
      DeltasFrom(tk, removeSpecial, next, ids[1..]);
      ConsRun(ids[0], ids[1..], r, PushRun(tk, removeSpecial, next, ids[1..]).1, s, next);
    }
  }

  ghost predicate NoneReportsPrefix(results: seq<Result<string>>) {
    forall k :: 0 <= k < |results| ==> results[k] != Err(PrefixChanged)
  }

  lemma ConsRun(
    id: TokenId, ids: seq<TokenId>, r: Result<string>, rs: seq<Result<string>>, s: DecoderState, next: DecoderState)
    requires |ids| == |rs|
    requires r.Ok? ==> next.ids == s.ids + [id] && next.emitted == s.emitted + r.value
    requires r.Err? ==> next == s
    ensures s.ids + Accepted([id] + ids, [r] + rs) == next.ids + Accepted(ids, rs)
    ensures s.emitted + Deltas([r] + rs) == next.emitted + Deltas(rs)
  {
    AcceptedCons(id, ids, r, rs);
    DeltasCons(r, rs);
    var a, d := Accepted(ids, rs), Deltas(rs);
    if r.Ok? {
      Regroup(s.ids, [id], a);
      Regroup(s.emitted, r.value, d);
    } else {
      Neutral(a);
      Neutral(d);
    }
  }

  lemma AcceptedCons(id: TokenId, ids: seq<TokenId>, r: Result<string>, rs: seq<Result<string>>)
    requires |ids| == |rs|
    ensures Accepted([id] + ids, [r] + rs) == (if r.Ok? then [id] else []) + Accepted(ids, rs)
  {
    assert ([id] + ids)[1..] == ids && ([r] + rs)[1..] == rs;
  }

  lemma DeltasCons(r: Result<string>, rs: seq<Result<string>>)
    ensures Deltas([r] + rs) == (if r.Ok? then r.value else "") + Deltas(rs)
  {
    assert ([r] + rs)[1..] == rs;
  }

  lemma DecodeNeverReportsPrefix(tk: Tokenizer, ids: seq<TokenId>, removeSpecial: bool)
    ensures DecodeText(tk, ids, removeSpecial) != Err(PrefixChanged)
  {
    PiecesNeverReportPrefix(tk, ids, removeSpecial);
    BpeBytesNeverReportPrefix(tk, ids, removeSpecial);
  }

  lemma {:induction false} PiecesNeverReportPrefix(tk: Tokenizer, ids: seq<TokenId>, removeSpecial: bool)
    ensures Pieces(tk, ids, removeSpecial) != Err(PrefixChanged)
  {
    if ids != [] {
      PiecesNeverReportPrefix(tk, ids[..|ids| - 1], removeSpecial);
    }
  }

  lemma {:induction false} BpeBytesNeverReportPrefix(tk: Tokenizer, ids: seq<TokenId>, removeSpecial: bool)
    ensures BpeBytes(tk, ids, removeSpecial) != Err(PrefixChanged)
  {
    if ids != [] {
      BpeBytesNeverReportPrefix(tk, ids[..|ids| - 1], removeSpecial);
    }
  }

  class IncrementalDecoder {
    const tokenizer: Tokenizer
    const removeSpecial: bool
    var tokenIds: seq<TokenId>
    var emitted: string

    constructor (tokenizer: Tokenizer, removeSpecial: bool)
      ensures Valid() && this.tokenizer == tokenizer && this.removeSpecial == removeSpecial
      ensures State() == DecoderState([], "")
    {
      this.tokenizer, this.removeSpecial := tokenizer, removeSpecial;
      tokenIds, emitted := [], "";
    }

    ghost function State(): DecoderState
      reads this
    {
      DecoderState(tokenIds, emitted)
    }

    ghost predicate Valid()
      reads this
    {
      InStep(tokenizer, removeSpecial, State())
    }

    method Push(id: TokenId) returns (r: Result<string>)
      requires Valid()
      modifies this
      ensures Valid()
      ensures (State(), r) == PushStep(tokenizer, removeSpecial, old(State()), id)
      ensures r.Ok? ==> tokenIds == old(tokenIds) + [id] && emitted == old(emitted) + r.value
      ensures r.Err? ==> tokenIds == old(tokenIds) && emitted == old(emitted)
    {
      var before := tokenIds;
      tokenIds := tokenIds + [id];
      var decoded := Decode(tokenizer, tokenIds, removeSpecial);
      if decoded.Err? {
        tokenIds := before;
        return decoded;
      }
      if !(emitted <= decoded.value) {
        tokenIds := before;
        return Err(PrefixChanged);
      }
      r := Ok(decoded.value[|emitted|..]);
      emitted := decoded.value;
    }
  }
}
