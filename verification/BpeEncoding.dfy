/** Encoding text with a byte-level BPE vocabulary, and its round trip through
    decoding. */
module BpeEncoding {
  import opened Sequences
  import opened Wrappers
  import opened BpeMerge
  import opened Utf8
  import opened ByteAlphabet
  import opened Vocabulary
  import opened Decoding
  import opened PreTokenizer

  function Lookup(tk: Tokenizer, symbols: seq<string>): (r: Result<seq<TokenId>>) {
    if symbols == [] then Ok([])
    else if symbols[0] !in tk.tokenToId then Err(MissingToken(symbols[0]))
    else After([tk.tokenToId[symbols[0]]], Lookup(tk, symbols[1..]))
  }

  /** The symbols of a segment: its bytes as alphabet characters, merged. */
  ghost function SegmentSymbols(tk: Tokenizer, segment: string): seq<string> {
    MergeInRounds(tk.ranks, Singles(ByteChars(Encode(segment))))
  }

  ghost function EncodeSegments(tk: Tokenizer, segments: seq<string>): (r: Result<seq<TokenId>>) {
    if segments == [] then Ok([])
    else match Lookup(tk, SegmentSymbols(tk, segments[0]))
      case Err(e) => Err(e)
      case Ok(ids) => After(ids, EncodeSegments(tk, segments[1..]))
  }

  /** Text without special tokens, segment by segment. */
  ghost function EncodePlain(tk: Tokenizer, classes: Classes, text: string): (r: Result<seq<TokenId>>)
    requires tk.dialect.RulesFor(classes).Sound()
  {
    EncodeSegments(tk, Segments(tk.dialect.RulesFor(classes), tk.dialect.DigitGroupMax(), text, 0))
  }

  /** The special-token partition: special tokens and the text between them. */
  datatype Part = Special(text: string) | Plain(text: string)

  /** Where the plain text that starts at `i` ends: at the next special token. */
  function PlainEnd(tk: Tokenizer, text: string, i: nat, parseSpecial: bool): (end: nat)
    requires i < |text| && LongestControlAt(tk, text, i, parseSpecial).None?
    ensures i < end <= |text|
  {
    var next := NextControlStart(tk, text, i, parseSpecial);
    if next.Some? then next.value else |text|
  }

  /** The part that starts at `i`. */
  function PartAt(tk: Tokenizer, text: string, i: nat, parseSpecial: bool): (part: Part)
    requires i < |text|
    ensures part.text != "" && StartsAt(text, i, part.text)
  {
    match LongestControlAt(tk, text, i, parseSpecial)
    case Some(special) => Special(special)
    case None => Plain(text[i..PlainEnd(tk, text, i, parseSpecial)])
  }

  function Parts(tk: Tokenizer, text: string, i: nat, parseSpecial: bool): seq<Part>
    requires i <= |text|
    decreases |text| - i
  {
    if i == |text| then []
    else
      var part := PartAt(tk, text, i, parseSpecial);
      [part] + Parts(tk, text, i + |part.text|, parseSpecial)
  }

  ghost function EncodePart(tk: Tokenizer, classes: Classes, part: Part): (r: Result<seq<TokenId>>)
    requires tk.dialect.RulesFor(classes).Sound()
  {
    match part
    case Special(s) => if s in tk.tokenToId then Ok([tk.tokenToId[s]]) else Err(MissingToken(s))
    case Plain(s) => EncodePlain(tk, classes, s)
  }

  ghost function EncodeParts(tk: Tokenizer, classes: Classes, parts: seq<Part>): (r: Result<seq<TokenId>>)
    requires tk.dialect.RulesFor(classes).Sound()
  {
    if parts == [] then Ok([])
    else match EncodePart(tk, classes, parts[0])
      case Err(e) => Err(e)
      case Ok(ids) => After(ids, EncodeParts(tk, classes, parts[1..]))
  }

  /** The parts put together are the text. */
  function TextOf(parts: seq<Part>): string {
    if parts == [] then "" else parts[0].text + TextOf(parts[1..])
  }

  ghost predicate SpecialsKnown(tk: Tokenizer, parts: seq<Part>) {
    forall k :: 0 <= k < |parts| && parts[k].Special? ==> parts[k].text in tk.tokenToId
  }

  lemma {:induction false} PartsPartitionText(tk: Tokenizer, text: string, i: nat, parseSpecial: bool)
    requires i <= |text|
    ensures TextOf(Parts(tk, text, i, parseSpecial)) == text[i..]
    ensures Sound(tk) ==> SpecialsKnown(tk, Parts(tk, text, i, parseSpecial))
    decreases |text| - i
  {
    if i < |text| {
      var part := PartAt(tk, text, i, parseSpecial);
      var next := i + |part.text|;
      var rest := Parts(tk, text, next, parseSpecial);
      PartsPartitionText(tk, text, next, parseSpecial);
      if Sound(tk) && part.Special? {
        ControlTextHasId(tk, text, i, parseSpecial);
      }
      PartsCons(tk, part, rest);
      CutAt(text, i, next);
      assert Parts(tk, text, i, parseSpecial) == [part] + rest;
    }
  }

  lemma PartsCons(tk: Tokenizer, part: Part, rest: seq<Part>)
    ensures TextOf([part] + rest) == part.text + TextOf(rest)
    ensures SpecialsKnown(tk, rest) && (part.Special? ==> part.text in tk.tokenToId) ==>
              SpecialsKnown(tk, [part] + rest)
  {
    assert ([part] + rest)[1..] == rest;
  }

  // ------------------------------------------------ what the parts and ids are

  /** The longest special token where one starts, and else the text up to where the
      next one starts. */
  ghost predicate PartScanned(tk: Tokenizer, text: string, i: nat, part: Part, parseSpecial: bool) {
    && part.text != "" && StartsAt(text, i, part.text)
    && if part.Special? then LongestSpecial(tk, text, i, part.text, parseSpecial)
       else PlainUntil(tk, text, i, i + |part.text|, parseSpecial)
  }

  /** At every position the scan reaches. */
  lemma PartIsScanned(tk: Tokenizer, text: string, i: nat, parseSpecial: bool)
    requires i < |text|
    ensures PartScanned(tk, text, i, PartAt(tk, text, i, parseSpecial), parseSpecial)
  {
    var part := PartAt(tk, text, i, parseSpecial);
    if part.Special? {
      LongestIsLongest(tk.tokens, text, i, parseSpecial);
    } else {
      PlainIsMaximal(tk, text, i, i + |part.text|, parseSpecial);
    }
  }

  lemma PlainIsMaximal(tk: Tokenizer, text: string, i: nat, end: nat, parseSpecial: bool)
    requires i < |text| && LongestControlAt(tk, text, i, parseSpecial).None?
    requires end == PlainEnd(tk, text, i, parseSpecial)
    ensures PlainUntil(tk, text, i, end, parseSpecial)
  {
    forall j: nat | i <= j < end ensures !SpecialStartsAt(tk, text, j, parseSpecial) {
      FoundIfThere(tk, text, j, parseSpecial);
    }
    FoundIfThere(tk, text, end, parseSpecial);
  }

  /** The token texts of a list of segments: the bytes of each as alphabet
      characters, merged in rounds. */
  ghost function MergedTexts(tk: Tokenizer, segments: seq<string>): seq<string> {
    if segments == [] then []
    else MergeInRounds(tk.ranks, Singles(ByteChars(Encode(segments[0])))) + MergedTexts(tk, segments[1..])
  }

  ghost function PartTexts(tk: Tokenizer, classes: Classes, parts: seq<Part>): seq<string>
    requires tk.dialect.RulesFor(classes).Sound()
  {
    if parts == [] then []
    else
      (match parts[0]
       case Special(s) => [s]
       case Plain(s) => MergedTexts(tk, Segments(tk.dialect.RulesFor(classes), tk.dialect.DigitGroupMax(), s, 0))) +
      PartTexts(tk, classes, parts[1..])
  }

  /** Looking texts up succeeds exactly if all are in the vocabulary, gives ids of
      these texts in order, and else reports the first that is missing. */
  lemma {:induction false} LookupIsExact(tk: Tokenizer, texts: seq<string>)
    ensures Lookup(tk, texts).Ok? <==> forall k :: 0 <= k < |texts| ==> texts[k] in tk.tokenToId
    ensures Lookup(tk, texts).Ok? ==>
              && |Lookup(tk, texts).value| == |texts|
              && forall k :: 0 <= k < |texts| ==> Lookup(tk, texts).value[k] == tk.tokenToId[texts[k]]
    ensures forall k: nat :: FirstMissing(tk, texts, k) ==> Lookup(tk, texts) == Err(MissingToken(texts[k]))
  {
    if texts != [] {
      var rest := texts[1..];
      LookupIsExact(tk, rest);
      assert texts == [texts[0]] + rest;
      forall k: nat | FirstMissing(tk, texts, k) ensures Lookup(tk, texts) == Err(MissingToken(texts[k])) {
        if k > 0 {
          assert rest[k - 1] == texts[k] && FirstMissing(tk, rest, k - 1);
        }
      }
    }
  }

  ghost predicate FirstMissing(tk: Tokenizer, texts: seq<string>, k: nat) {
    k < |texts| && texts[k] !in tk.tokenToId && forall i :: 0 <= i < k ==> texts[i] in tk.tokenToId
  }

  lemma {:induction false} LookupConcat(tk: Tokenizer, a: seq<string>, b: seq<string>)
    ensures Lookup(tk, a + b) == if Lookup(tk, a).Ok? then After(Lookup(tk, a).value, Lookup(tk, b)) else Lookup(tk, a)
  {
    if a == [] {
      AfterTwice([], [], Lookup(tk, b));
      assert a + b == b;
    } else {
      assert (a + b)[1..] == a[1..] + b && (a + b)[0] == a[0];
      LookupConcat(tk, a[1..], b);
      if a[0] in tk.tokenToId && Lookup(tk, a[1..]).Ok? {
        AfterTwice([tk.tokenToId[a[0]]], Lookup(tk, a[1..]).value, Lookup(tk, b));
      }
    }
  }

  lemma {:induction false} SegmentsAreLookedUp(tk: Tokenizer, segments: seq<string>)
    ensures EncodeSegments(tk, segments) == Lookup(tk, MergedTexts(tk, segments))
  {
    if segments != [] {
      SegmentsAreLookedUp(tk, segments[1..]);
      var head := MergeInRounds(tk.ranks, Singles(ByteChars(Encode(segments[0]))));
      LookupConcat(tk, head, MergedTexts(tk, segments[1..]));
    }
  }

  /** Encoding the parts is looking up their texts: a special token's own, and of
      each segment between them what merging its bytes leaves. */
  lemma {:induction false} PartsAreLookedUp(tk: Tokenizer, classes: Classes, parts: seq<Part>)
    requires tk.dialect.RulesFor(classes).Sound()
    ensures EncodeParts(tk, classes, parts) == Lookup(tk, PartTexts(tk, classes, parts))
  {
    if parts != [] {
      PartsAreLookedUp(tk, classes, parts[1..]);
      match parts[0]
      case Special(s) =>
        LookupConcat(tk, [s], PartTexts(tk, classes, parts[1..]));
        assert [s][1..] == [];
        assert s in tk.tokenToId ==> [tk.tokenToId[s]] + [] == [tk.tokenToId[s]];
      case Plain(s) =>
        var segments := Segments(tk.dialect.RulesFor(classes), tk.dialect.DigitGroupMax(), s, 0);
        SegmentsAreLookedUp(tk, segments);
        LookupConcat(tk, MergedTexts(tk, segments), PartTexts(tk, classes, parts[1..]));
    }
  }

  /** Under an ordered table the texts are those of the reference merging, one pair at
      a time. */
  ghost function SteppedTexts(tk: Tokenizer, segments: seq<string>): seq<string> {
    if segments == [] then []
    else MergeOneByOne(tk.ranks, Singles(ByteChars(Encode(segments[0])))) + SteppedTexts(tk, segments[1..])
  }

  lemma {:induction false} MergedAsStepped(tk: Tokenizer, segments: seq<string>)
    requires DistinctRanks(tk.ranks) && JunctionsOrdered(tk.ranks)
    ensures MergedTexts(tk, segments) == SteppedTexts(tk, segments)
  {
    if segments != [] {
      MergedAsStepped(tk, segments[1..]);
      SinglesAreNonEmpty(ByteChars(Encode(segments[0])));
      BatchedMergingIsOneByOne(tk.ranks, Singles(ByteChars(Encode(segments[0]))));
    }
  }

  /** Cut at the segments, the texts hold no adjacent pair a merge is listed for. */
  ghost predicate NothingLeftToMerge(tk: Tokenizer, segments: seq<string>, texts: seq<string>)
    decreases segments
  {
    if segments == [] then texts == []
    else exists n ::
      && 0 <= n <= |texts| && Irreducible(tk.ranks, texts[..n])
      && Concat(texts[..n]) == ByteChars(Encode(segments[0]))
      && NothingLeftToMerge(tk, segments[1..], texts[n..])
  }

  lemma {:induction false} MergedToTheEnd(tk: Tokenizer, segments: seq<string>)
    ensures NothingLeftToMerge(tk, segments, MergedTexts(tk, segments))
  {
    if segments != [] {
      var singles := Singles(ByteChars(Encode(segments[0])));
      var head, tail := MergeInRounds(tk.ranks, singles), MergedTexts(tk, segments[1..]);
      MergedToTheEnd(tk, segments[1..]);
      RoundsEndIrreducible(tk.ranks, singles);
      RoundsKeepText(tk.ranks, singles);
      SinglesConcat(ByteChars(Encode(segments[0])));
      assert (head + tail)[..|head|] == head && (head + tail)[|head|..] == tail;
    }
  }

  // ------------------------------------------------------------- the encoder

  method EncodeSegment(tk: Tokenizer, segment: string, out: seq<TokenId>) returns (r: Result<seq<TokenId>>)
    ensures r == After(out, Lookup(tk, SegmentSymbols(tk, segment)))
    ensures r == After(out, Lookup(tk, MergeInRounds(tk.ranks, Singles(ByteChars(Encode(segment))))))
  {
    if segment == "" {
      EmptySegment(tk);
      assert out + [] == out;
      return Ok(out);
    }
    var symbols := MergeSymbols(tk.ranks, Singles(ByteChars(Encode(segment))));
    var ids := out;
    assert symbols[0..] == symbols;
    for i := 0 to |symbols|
      invariant After(out, Lookup(tk, symbols)) == After(ids, Lookup(tk, symbols[i..]))
    {
      assert symbols[i..][0] == symbols[i] && symbols[i..][1..] == symbols[i + 1..];
      if symbols[i] !in tk.tokenToId {
        return Err(MissingToken(symbols[i]));
      }
      AfterTwice(ids, [tk.tokenToId[symbols[i]]], Lookup(tk, symbols[i + 1..]));
      ids := ids + [tk.tokenToId[symbols[i]]];
    }
    assert symbols[|symbols|..] == [] && ids + [] == ids;
    r := Ok(ids);
  }

  lemma EmptySegment(tk: Tokenizer)
    ensures Lookup(tk, SegmentSymbols(tk, "")) == Ok([])
  {
    assert ByteChars(Encode("")) == "";
    assert Irreducible(tk.ranks, []);
  }

  method EncodeEach(tk: Tokenizer, segments: seq<string>, out: seq<TokenId>) returns (r: Result<seq<TokenId>>)
    ensures r == After(out, EncodeSegments(tk, segments))
  {
    var ids := out;
    assert segments[0..] == segments;
    for i := 0 to |segments|
      invariant After(out, EncodeSegments(tk, segments)) == After(ids, EncodeSegments(tk, segments[i..]))
    {
      assert segments[i..][0] == segments[i] && segments[i..][1..] == segments[i + 1..];
      var encoded := EncodeSegment(tk, segments[i], ids);
      if encoded.Err? {
        return encoded;
      }
      AfterTwice(ids, Lookup(tk, SegmentSymbols(tk, segments[i])).value, EncodeSegments(tk, segments[i + 1..]));
      ids := encoded.value;
    }
    assert segments[|segments|..] == [] && ids + [] == ids;
    r := Ok(ids);
  }

  lemma PartStep(tk: Tokenizer, classes: Classes, part: Part, rest: seq<Part>, out: seq<TokenId>)
    requires tk.dialect.RulesFor(classes).Sound()
    ensures After(out, EncodeParts(tk, classes, [part] + rest)) ==
            if EncodePart(tk, classes, part).Ok?
            then After(out + EncodePart(tk, classes, part).value, EncodeParts(tk, classes, rest))
            else EncodePart(tk, classes, part)
  {
    assert ([part] + rest)[1..] == rest;
    if EncodePart(tk, classes, part).Ok? {
      AfterTwice(out, EncodePart(tk, classes, part).value, EncodeParts(tk, classes, rest));
    }
  }

  method EncodePlainText(
    tk: Tokenizer, classes: Classes, text: string, out: seq<TokenId>)
    returns (r: Result<seq<TokenId>>)
    requires tk.dialect.RulesFor(classes).Sound()
    ensures r == After(out, EncodePlain(tk, classes, text))
  {
    var segments := Pretokenize(tk.dialect.RulesFor(classes), tk.dialect.DigitGroupMax(), text);
    r := EncodeEach(tk, segments, out);
  }

  method EncodeOnePart(tk: Tokenizer, classes: Classes, text: string, start: nat, parseSpecial: bool, out: seq<TokenId>)
    returns (r: Result<seq<TokenId>>, end: nat)
    requires Sound(tk) && tk.dialect.RulesFor(classes).Sound() && start < |text|
    ensures r == After(out, EncodePart(tk, classes, PartAt(tk, text, start, parseSpecial)))
    ensures end == start + |PartAt(tk, text, start, parseSpecial).text|
  {
    var special := LongestControlAt(tk, text, start, parseSpecial);
    if special.Some? {
      ControlTextHasId(tk, text, start, parseSpecial);
      r := Ok(out + [tk.tokenToId[special.value]]);
      end := start + |special.value|;
      return;
    }
    end := PlainEnd(tk, text, start, parseSpecial);
    r := EncodePlainText(tk, classes, text[start..end], out);
  }

  /** The body of the scan: one special token, or the text up to the next one. */
  method EncodeNextPart(
    tk: Tokenizer, classes: Classes, text: string, start: nat, parseSpecial: bool, out: seq<TokenId>)
    returns (r: Result<seq<TokenId>>, end: nat)
    requires Sound(tk) && tk.dialect.RulesFor(classes).Sound() && start < |text|
    ensures start < end <= |text|
    ensures After(out, EncodeParts(tk, classes, Parts(tk, text, start, parseSpecial))) ==
            if r.Ok? then After(r.value, EncodeParts(tk, classes, Parts(tk, text, end, parseSpecial))) else r
  {
    r, end := EncodeOnePart(tk, classes, text, start, parseSpecial, out);
    ghost var part, rest := PartAt(tk, text, start, parseSpecial), Parts(tk, text, end, parseSpecial);
    assert Parts(tk, text, start, parseSpecial) == [part] + rest;
    PartStep(tk, classes, part, rest, out);
  }

  method EncodeBpeText(tk: Tokenizer, classes: Classes, text: string, parseSpecial: bool)
    returns (r: Result<seq<TokenId>>)
    requires Sound(tk) && tk.dialect.RulesFor(classes).Sound()
    ensures r == EncodeParts(tk, classes, Parts(tk, text, 0, parseSpecial))
    ensures r == Lookup(tk, PartTexts(tk, classes, Parts(tk, text, 0, parseSpecial)))
  {
    PartsAreLookedUp(tk, classes, Parts(tk, text, 0, parseSpecial));
    var out: seq<TokenId> := [];
    var start := 0;
    ghost var parts := Parts(tk, text, 0, parseSpecial);
    ghost var whole := EncodeParts(tk, classes, parts);
    AfterTwice([], [], whole);
    while start < |text|
      invariant start <= |text| && parts == Parts(tk, text, start, parseSpecial)
      invariant whole == After(out, EncodeParts(tk, classes, parts))
      decreases |text| - start
    {
      var encoded, end := EncodeNextPart(tk, classes, text, start, parseSpecial, out);
      if encoded.Err? {
        return encoded;
      }
      out, start, parts := encoded.value, end, Parts(tk, text, end, parseSpecial);
    }
    Neutral(out);
    r := Ok(out);
  }

  // ----------------------------------------------------- what the ids spell

  ghost predicate InRange(tk: Tokenizer, ids: seq<TokenId>) {
    forall i :: 0 <= i < |ids| ==> ids[i] < |tk.tokens|
  }

  /** The token texts put together. */
  ghost function Spelling(tk: Tokenizer, ids: seq<TokenId>): string
    requires InRange(tk, ids)
  {
    if ids == [] then "" else tk.tokens[ids[0]].text + Spelling(tk, ids[1..])
  }

  lemma {:induction false} SpellingConcat(tk: Tokenizer, a: seq<TokenId>, b: seq<TokenId>)
    requires InRange(tk, a) && InRange(tk, b)
    ensures InRange(tk, a + b) && Spelling(tk, a + b) == Spelling(tk, a) + Spelling(tk, b)
  {
    if a == [] {
      assert a + b == b;
    } else {
      assert (a + b)[1..] == a[1..] + b;
      SpellingConcat(tk, a[1..], b);
    }
  }

  lemma {:induction false} LookupSpells(tk: Tokenizer, symbols: seq<string>)
    requires Sound(tk) && Lookup(tk, symbols).Ok?
    ensures InRange(tk, Lookup(tk, symbols).value)
    ensures Spelling(tk, Lookup(tk, symbols).value) == Concat(symbols)
  {
    if symbols != [] {
      LookupSpells(tk, symbols[1..]);
      var ids := Lookup(tk, symbols).value;
      assert ids[1..] == Lookup(tk, symbols[1..]).value;
    }
  }

  lemma SegmentSymbolsSpell(tk: Tokenizer, segment: string)
    ensures Concat(SegmentSymbols(tk, segment)) == ByteChars(Encode(segment))
  {
    var chars := ByteChars(Encode(segment));
    RoundsKeepText(tk.ranks, Singles(chars));
    SinglesConcat(chars);
  }

  /** Encoded segments spell the bytes of their text in alphabet characters. */
  lemma {:induction false} SegmentsSpell(tk: Tokenizer, segments: seq<string>)
    requires Sound(tk) && EncodeSegments(tk, segments).Ok?
    ensures InRange(tk, EncodeSegments(tk, segments).value)
    ensures Spelling(tk, EncodeSegments(tk, segments).value) == ByteChars(Encode(Concat(segments)))
  {
    if segments == [] {
      assert ByteChars(Encode("")) == "";
    } else {
      var head := Lookup(tk, SegmentSymbols(tk, segments[0])).value;
      var tail := EncodeSegments(tk, segments[1..]).value;
      SegmentSymbolsSpell(tk, segments[0]);
      LookupSpells(tk, SegmentSymbols(tk, segments[0]));
      SegmentsSpell(tk, segments[1..]);
      SpellingConcat(tk, head, tail);
      EncodeConcat(segments[0], Concat(segments[1..]));
      ByteCharsConcat(Encode(segments[0]), Encode(Concat(segments[1..])));
    }
  }

  // ------------------------------------------------------------- round trip

  lemma SpellingSnoc(tk: Tokenizer, ids: seq<TokenId>, last: TokenId)
    requires InRange(tk, ids) && last < |tk.tokens|
    ensures InRange(tk, ids + [last])
    ensures Spelling(tk, ids + [last]) == Spelling(tk, ids) + tk.tokens[last].text
  {
    SpellingConcat(tk, ids, [last]);
    assert [last][1..] == [] && tk.tokens[last].text + "" == tk.tokens[last].text;
  }

  /** Decoding without removal reads the spelling character by character. */
  lemma {:induction false} BytesOfSpelling(tk: Tokenizer, ids: seq<TokenId>)
    requires InRange(tk, ids)
    ensures BpeBytes(tk, ids, false).Ok? <==> CharBytes(Spelling(tk, ids)).Some?
    ensures BpeBytes(tk, ids, false).Ok? ==> BpeBytes(tk, ids, false).value == CharBytes(Spelling(tk, ids)).value
    decreases |ids|
  {
    if ids != [] {
      var before, last := ids[..|ids| - 1], ids[|ids| - 1];
      BytesOfSpelling(tk, before);
      assert ids == before + [last];
      SpellingSnoc(tk, before, last);
      CharBytesConcat(Spelling(tk, before), tk.tokens[last].text);
    }
  }

  ghost predicate SpecialsVisible(parts: seq<Part>) {
    forall k :: 0 <= k < |parts| && parts[k].Special? ==> AllVisibleAscii(parts[k].text)
  }

  /** `spelling` stands for at most as many bytes as `text` has, and for exactly
      the bytes of `text` if and only if `exact`; as many bytes only if exact. */
  ghost predicate Stands(spelling: string, text: string, exact: bool) {
    && (exact ==> CharBytes(spelling) == Some(Encode(text)))
    && (CharBytes(spelling).Some? ==> |CharBytes(spelling).value| <= |Encode(text)|)
    && (CharBytes(spelling).Some? && |CharBytes(spelling).value| == |Encode(text)| ==> exact)
  }

  lemma SpecialStands(s: string)
    ensures Stands(s, s, AllVisibleAscii(s))
  {
    VisibleAsciiStandsForItself(s);
    if CharBytes(s).Some? && |s| == |Encode(s)| {
      OneBytePerCharIsVisible(s);
    }
  }

  lemma PlainStands(tk: Tokenizer, classes: Classes, text: string)
    requires Sound(tk) && tk.dialect.RulesFor(classes).Sound() && EncodePlain(tk, classes, text).Ok?
    ensures var ids := EncodePlain(tk, classes, text).value;
            InRange(tk, ids) && Stands(Spelling(tk, ids), text, true)
  {
    var cap := tk.dialect.DigitGroupMax();
    SegmentsPartitionText(tk.dialect.RulesFor(classes), cap, text, 0);
    assert text[0..] == text;
    SegmentsSpell(tk, Segments(tk.dialect.RulesFor(classes), cap, text, 0));
    CharBytesInverts(Encode(text));
  }

  lemma StandsConcat(a: string, s: string, x: bool, b: string, t: string, y: bool)
    requires Stands(a, s, x) && Stands(b, t, y)
    ensures Stands(a + b, s + t, x && y)
  {
    CharBytesConcat(a, b);
    EncodeConcat(s, t);
  }

  lemma PartStands(tk: Tokenizer, classes: Classes, part: Part)
    requires Sound(tk) && tk.dialect.RulesFor(classes).Sound() && EncodePart(tk, classes, part).Ok?
    ensures InRange(tk, EncodePart(tk, classes, part).value)
    ensures Stands(Spelling(tk, EncodePart(tk, classes, part).value), part.text,
                   part.Special? ==> AllVisibleAscii(part.text))
  {
    match part
    case Special(s) =>
      SpellingSnoc(tk, [], tk.tokenToId[s]);
      assert [] + [tk.tokenToId[s]] == [tk.tokenToId[s]] && "" + s == s;
      SpecialStands(s);
    case Plain(s) => PlainStands(tk, classes, s);
  }

  lemma VisibleCons(part: Part, rest: seq<Part>)
    ensures SpecialsVisible([part] + rest) <==>
            (part.Special? ==> AllVisibleAscii(part.text)) && SpecialsVisible(rest)
  {
    var all := [part] + rest;
    assert all[0] == part && forall k :: 0 <= k < |rest| ==> rest[k] == all[k + 1];
  }

  /** The bytes the ids' spelling stands for are those of the text exactly when
      every special token taken is visible ASCII, and otherwise fewer. */
  lemma {:induction false} PartsStand(tk: Tokenizer, classes: Classes, parts: seq<Part>)
    requires Sound(tk) && tk.dialect.RulesFor(classes).Sound() && EncodeParts(tk, classes, parts).Ok?
    ensures InRange(tk, EncodeParts(tk, classes, parts).value)
    ensures Stands(Spelling(tk, EncodeParts(tk, classes, parts).value), TextOf(parts), SpecialsVisible(parts))
  {
    if parts != [] {
      var part, rest := parts[0], parts[1..];
      var ids, later := EncodePart(tk, classes, part).value, EncodeParts(tk, classes, rest).value;
      PartStands(tk, classes, part);
      PartsStand(tk, classes, rest);
      SpellingConcat(tk, ids, later);
      StandsConcat(Spelling(tk, ids), part.text, part.Special? ==> AllVisibleAscii(part.text),
                   Spelling(tk, later), TextOf(rest), SpecialsVisible(rest));
      VisibleCons(part, rest);
      assert parts == [part] + rest;
    }
  }

  /** Whenever encoding succeeds, decoding gives the text back exactly when every
      special token the scan took has a text of visible ASCII characters. */
  lemma BpeRoundTrip(tk: Tokenizer, classes: Classes, text: string, parseSpecial: bool)
    requires tk.model == Gpt2Bpe && Sound(tk) && tk.dialect.RulesFor(classes).Sound()
    requires EncodeParts(tk, classes, Parts(tk, text, 0, parseSpecial)).Ok?
    ensures var parts := Parts(tk, text, 0, parseSpecial);
            DecodeText(tk, EncodeParts(tk, classes, parts).value, false) == Ok(text) <==> SpecialsVisible(parts)
  {
    var parts := Parts(tk, text, 0, parseSpecial);
    var ids := EncodeParts(tk, classes, parts).value;
    PartsStand(tk, classes, parts);
    PartsPartitionText(tk, text, 0, parseSpecial);
    assert text[0..] == text;
    BytesOfSpelling(tk, ids);
    ValidTextOfEncoded(text);
    if DecodeText(tk, ids, false) == Ok(text) {
      ValidTextIsPrefix(CharBytes(Spelling(tk, ids)).value);
    }
  }
}
