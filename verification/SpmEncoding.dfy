/** Encoding text with a SentencePiece vocabulary: normalization, merging by
    score or rank, the greedy longest-match fallback and the byte fallback; and
    what decoding gives back. */
module SpmEncoding {
  import opened Sequences
  import opened Wrappers
  import opened BpeMerge
  import opened Utf8
  import opened Vocabulary
  import opened Decoding
  import opened PreTokenizer

  const MARKER: string := [SPM_SPACE]
  const TWO_MARKERS: string := [SPM_SPACE, SPM_SPACE]

  predicate Contains(s: string, part: string) {
    exists i :: 0 <= i <= |s| && StartsAt(s, i, part)
  }

  /** No two markers stand side by side. */
  ghost predicate MarkersApart(s: string) {
    forall j :: 0 <= j < |s| - 1 && s[j] == SPM_SPACE ==> s[j + 1] != SPM_SPACE
  }

  lemma NoDoubleMarker(s: string)
    ensures Contains(s, TWO_MARKERS) <==> !MarkersApart(s)
  {
    if Contains(s, TWO_MARKERS) {
      var i :| 0 <= i <= |s| && StartsAt(s, i, TWO_MARKERS);
      assert s[i] == s[i..i + 2][0] && s[i + 1] == s[i..i + 2][1];
    }
    if j :| 0 <= j < |s| - 1 && s[j] == SPM_SPACE && s[j + 1] == SPM_SPACE {
      assert StartsAt(s, j, TWO_MARKERS);
    }
  }

  /** A vocabulary text a merge may make: one without a double marker. */
  predicate IsWord(tk: Tokenizer, s: string) {
    s in tk.tokenToId && !Contains(s, TWO_MARKERS)
  }

  // --------------------------------------------------------- merging by score

  function Score(tk: Tokenizer, s: string): real
    requires Sound(tk) && s in tk.tokenToId
  {
    tk.tokens[tk.tokenToId[s]].score
  }

  predicate MergesAt(tk: Tokenizer, symbols: seq<string>, i: nat) {
    i + 1 < |symbols| && IsWord(tk, symbols[i] + symbols[i + 1])
  }

  /** `i` starts the leftmost pair of highest score. */
  ghost predicate IsBestScore(tk: Tokenizer, symbols: seq<string>, i: nat)
    requires Sound(tk)
  {
    MergesAt(tk, symbols, i) && forall j: nat :: MergesAt(tk, symbols, j) ==> NoWorse(tk, symbols, i, j)
  }

  /** The pair at `i` scores higher than that at `j`, or as high and stands no later. */
  predicate NoWorse(tk: Tokenizer, symbols: seq<string>, i: nat, j: nat)
    requires Sound(tk) && MergesAt(tk, symbols, i) && MergesAt(tk, symbols, j)
  {
    var here, there := Score(tk, symbols[i] + symbols[i + 1]), Score(tk, symbols[j] + symbols[j + 1]);
    there <= here && (there == here ==> i <= j)
  }

  ghost function MergeByScoreSteps(tk: Tokenizer, symbols: seq<string>): seq<string>
    requires Sound(tk)
    decreases |symbols|
  {
    if i: nat :| IsBestScore(tk, symbols, i) then MergeByScoreSteps(tk, MergeAt(symbols, i)) else symbols
  }

  lemma BestScoreIsUnique(tk: Tokenizer, symbols: seq<string>, i: nat, j: nat)
    requires Sound(tk) && IsBestScore(tk, symbols, i) && IsBestScore(tk, symbols, j)
    ensures i == j
  {
  }

  method MergeSpmSymbolsByScore(tk: Tokenizer, segment: string) returns (symbols: seq<string>)
    requires Sound(tk)
    ensures symbols == MergeByScoreSteps(tk, Singles(segment))
    ensures forall i: nat :: !MergesAt(tk, symbols, i)
  {
    symbols := Singles(segment);
    while true
      invariant MergeByScoreSteps(tk, symbols) == MergeByScoreSteps(tk, Singles(segment))
      decreases |symbols|
    {
      var best := BestScorePair(tk, symbols);
      if best.None? {
        break;
      }
      OneScoreStep(tk, symbols, best.value);
      symbols := MergeAt(symbols, best.value);
    }
  }

  lemma OneScoreStep(tk: Tokenizer, symbols: seq<string>, i: nat)
    requires Sound(tk) && IsBestScore(tk, symbols, i)
    ensures MergeByScoreSteps(tk, symbols) == MergeByScoreSteps(tk, MergeAt(symbols, i))
  {
    forall j: nat | IsBestScore(tk, symbols, j) ensures j == i {
      BestScoreIsUnique(tk, symbols, i, j);
    }
  }

  method BestScorePair(tk: Tokenizer, symbols: seq<string>) returns (best: Option<nat>)
    requires Sound(tk)
    ensures best.None? ==> forall i: nat :: !MergesAt(tk, symbols, i)
    ensures best.Some? ==> IsBestScore(tk, symbols, best.value)
    ensures best.Some? ==> forall j: nat :: MergesAt(tk, symbols, j) ==>
              tk.tokens[tk.tokenToId[symbols[j] + symbols[j + 1]]].score <=
              tk.tokens[tk.tokenToId[symbols[best.value] + symbols[best.value + 1]]].score
  {
    best := None;
    for i := 0 to |symbols|
      invariant best.None? ==> forall j: nat :: j < i ==> !MergesAt(tk, symbols, j)
      invariant best.Some? ==> best.value < i && MergesAt(tk, symbols, best.value)
      invariant best.Some? ==>
                  forall j: nat :: j < i && MergesAt(tk, symbols, j) ==> NoWorse(tk, symbols, best.value, j)
    {
      if MergesAt(tk, symbols, i) {
        var score := Score(tk, symbols[i] + symbols[i + 1]);
        var keep := false;
        if best.Some? {
          var bestScore := Score(tk, symbols[best.value] + symbols[best.value + 1]);
          keep := score < bestScore || (score == bestScore && i >= best.value);
        }
        if !keep {
          best := Some(i);
        }
      }
    }
  }

  lemma {:induction false} MergeAtKeepsText(symbols: seq<string>, i: nat)
    requires i + 1 < |symbols|
    ensures Concat(MergeAt(symbols, i)) == Concat(symbols)
  {
    var merged := MergeAt(symbols, i);
    if i == 0 {
      assert merged[1..] == symbols[1..][1..];
      assert merged[0] + Concat(merged[1..]) == symbols[0] + (symbols[1] + Concat(symbols[1..][1..]));
    } else {
      MergeAtKeepsText(symbols[1..], i - 1);
      assert merged[1..] == MergeAt(symbols[1..], i - 1) && merged[0] == symbols[0];
    }
  }

  lemma {:induction false} ScoreMergingKeepsText(tk: Tokenizer, symbols: seq<string>)
    requires Sound(tk)
    ensures Concat(MergeByScoreSteps(tk, symbols)) == Concat(symbols)
    decreases |symbols|
  {
    if i: nat :| IsBestScore(tk, symbols, i) {
      OneScoreStep(tk, symbols, i);
      MergeAtKeepsText(symbols, i);
      ScoreMergingKeepsText(tk, MergeAt(symbols, i));
    }
  }

  /** Merging by score stops only when no pair merges. */
  lemma {:induction false} ScoreMergingEnds(tk: Tokenizer, symbols: seq<string>)
    requires Sound(tk)
    ensures forall i: nat :: !MergesAt(tk, MergeByScoreSteps(tk, symbols), i)
    decreases |symbols|
  {
    if i: nat :| IsBestScore(tk, symbols, i) {
      OneScoreStep(tk, symbols, i);
      ScoreMergingEnds(tk, MergeAt(symbols, i));
    } else {
      var best := SomeBestScore(tk, symbols, |symbols|);
      if best.Some? {
        forall j: nat | MergesAt(tk, symbols, j) ensures NoWorse(tk, symbols, best.value, j) {
        }
        assert IsBestScore(tk, symbols, best.value);
      }
    }
  }

  lemma {:induction false} SomeBestScore(tk: Tokenizer, symbols: seq<string>, n: nat) returns (best: Option<nat>)
    requires Sound(tk)
    ensures best.None? ==> forall j: nat :: j < n ==> !MergesAt(tk, symbols, j)
    ensures best.Some? ==> best.value < n && MergesAt(tk, symbols, best.value) && forall j: nat ::
              j < n && MergesAt(tk, symbols, j) ==> NoWorse(tk, symbols, best.value, j)
  {
    best := None;
    if n > 0 {
      best := SomeBestScore(tk, symbols, n - 1);
      if MergesAt(tk, symbols, n - 1) && (best.None? || !NoWorse(tk, symbols, best.value, n - 1)) {
        best := Some(n - 1);
      }
    }
  }

  // -------------------------------------------------------------------- atoms

  /** What encoding cuts text into: a vocabulary word, or a character written as
      its bytes. */
  datatype Atom = Word(text: string) | Fallback(ch: char)

  function AtomText(atom: Atom): string {
    match atom
    case Word(s) => s
    case Fallback(c) => [c]
  }

  function AtomsText(atoms: seq<Atom>): string {
    if atoms == [] then "" else AtomText(atoms[0]) + AtomsText(atoms[1..])
  }

  /** The token of one byte, or the unknown token. */
  function ByteId(tk: Tokenizer, b: Byte): Option<TokenId> {
    if b in tk.byteTokenToId then Some(tk.byteTokenToId[b]) else tk.special.unk
  }

  function ByteIds(tk: Tokenizer, bytes: seq<Byte>): Result<seq<TokenId>> {
    if bytes == [] then Ok([])
    else match ByteId(tk, bytes[0])
      case Some(id) => After([id], ByteIds(tk, bytes[1..]))
      case None => Err(MissingByteToken(bytes[0]))
  }

  function AtomIds(tk: Tokenizer, atom: Atom): Result<seq<TokenId>> {
    match atom
    case Word(s) => if s in tk.tokenToId then Ok([tk.tokenToId[s]]) else Err(MissingToken(s))
    case Fallback(c) => ByteIds(tk, EncodeChar(c))
  }

  function IdsOf(tk: Tokenizer, atoms: seq<Atom>): Result<seq<TokenId>> {
    if atoms == [] then Ok([])
    else match AtomIds(tk, atoms[0])
      case Ok(ids) => After(ids, IdsOf(tk, atoms[1..]))
      case Err(e) => Err(e)
  }

  lemma IdsOfCons(tk: Tokenizer, atom: Atom, rest: seq<Atom>, out: seq<TokenId>)
    ensures After(out, IdsOf(tk, [atom] + rest)) ==
            if AtomIds(tk, atom).Ok? then After(out + AtomIds(tk, atom).value, IdsOf(tk, rest)) else AtomIds(tk, atom)
  {
    assert ([atom] + rest)[1..] == rest;
    if AtomIds(tk, atom).Ok? {
      AfterTwice(out, AtomIds(tk, atom).value, IdsOf(tk, rest));
    }
  }

  lemma {:induction false} IdsOfConcat(tk: Tokenizer, a: seq<Atom>, b: seq<Atom>, out: seq<TokenId>)
    ensures After(out, IdsOf(tk, a + b)) ==
            if IdsOf(tk, a).Ok? then After(out + IdsOf(tk, a).value, IdsOf(tk, b)) else IdsOf(tk, a)
  {
    if a == [] {
      assert a + b == b && out + [] == out;
    } else {
      assert a + b == [a[0]] + (a[1..] + b);
      IdsOfCons(tk, a[0], a[1..] + b, out);
      if AtomIds(tk, a[0]).Ok? {
        var ids := AtomIds(tk, a[0]).value;
        IdsOfConcat(tk, a[1..], b, out + ids);
        if IdsOf(tk, a[1..]).Ok? {
          assert out + (ids + IdsOf(tk, a[1..]).value) == out + ids + IdsOf(tk, a[1..]).value;
        }
      }
    }
  }

  lemma {:induction false} AtomsTextConcat(a: seq<Atom>, b: seq<Atom>)
    ensures AtomsText(a + b) == AtomsText(a) + AtomsText(b)
  {
    if a == [] {
      assert a + b == b;
    } else {
      assert (a + b)[1..] == a[1..] + b && (a + b)[0] == a[0];
      AtomsTextConcat(a[1..], b);
    }
  }

  // --------------------------------------------------- greedy longest matching

  /** The end of the longest word that starts at `i` and ends by `high`. */
  function LongestWordEnd(tk: Tokenizer, piece: string, i: nat, high: nat): (end: Option<nat>)
    requires i <= high <= |piece|
    ensures end.Some? ==> i < end.value <= high && IsWord(tk, piece[i..end.value])
    decreases high
  {
    if high == i then None
    else if IsWord(tk, piece[i..high]) then Some(high)
    else LongestWordEnd(tk, piece, i, high - 1)
  }

  function GreedyAtoms(tk: Tokenizer, piece: string, i: nat): (atoms: seq<Atom>)
    requires i <= |piece|
    decreases |piece| - i
  {
    if i == |piece| then []
    else match LongestWordEnd(tk, piece, i, |piece|)
      case Some(end) => [Word(piece[i..end])] + GreedyAtoms(tk, piece, end)
      case None => [Fallback(piece[i])] + GreedyAtoms(tk, piece, i + 1)
  }

  /** A text of the vocabulary without a double marker. */
  ghost predicate MayStand(tk: Tokenizer, s: string) {
    s in tk.tokenToId && MarkersApart(s)
  }

  /** The end found is that of a word, and no word from here ends later. */
  lemma {:induction false} LongestWordIsLongest(tk: Tokenizer, piece: string, i: nat, high: nat)
    requires i <= high <= |piece|
    ensures var end := LongestWordEnd(tk, piece, i, high);
            && (end.Some? ==> MayStand(tk, piece[i..end.value]))
            && forall e :: (if end.Some? then end.value else i) < e <= high ==> !MayStand(tk, piece[i..e])
    decreases high
  {
    if high > i {
      NoDoubleMarker(piece[i..high]);
      LongestWordIsLongest(tk, piece, i, high - 1);
    }
  }

  /** An atom of the greedy split that starts at `i`: the longest word from there or,
      where no word starts, a character. */
  ghost predicate TakesLongest(tk: Tokenizer, piece: string, i: nat, atom: Atom) {
    match atom
    case Word(s) =>
      && s != "" && StartsAt(piece, i, s) && MayStand(tk, s)
      && forall e :: i + |s| < e <= |piece| ==> !MayStand(tk, piece[i..e])
    case Fallback(c) => i < |piece| && c == piece[i] && forall e :: i < e <= |piece| ==> !MayStand(tk, piece[i..e])
  }

  ghost predicate SplitsGreedily(tk: Tokenizer, piece: string, i: nat, atoms: seq<Atom>)
    decreases atoms
  {
    if atoms == [] then i == |piece|
    else
      TakesLongest(tk, piece, i, atoms[0]) && SplitsGreedily(tk, piece, i + |AtomText(atoms[0])|, atoms[1..])
  }

  lemma SplitsCons(tk: Tokenizer, piece: string, i: nat, next: nat, atom: Atom, rest: seq<Atom>)
    requires TakesLongest(tk, piece, i, atom) && next == i + |AtomText(atom)| && SplitsGreedily(tk, piece, next, rest)
    ensures SplitsGreedily(tk, piece, i, [atom] + rest)
  {
    assert ([atom] + rest)[1..] == rest;
  }

  lemma {:induction false} GreedyTakesLongest(tk: Tokenizer, piece: string, i: nat)
    requires i <= |piece|
    ensures SplitsGreedily(tk, piece, i, GreedyAtoms(tk, piece, i))
    decreases |piece| - i
  {
    if i < |piece| {
      var end := LongestWordEnd(tk, piece, i, |piece|);
      var next := if end.Some? then end.value else i + 1;
      var atom := if end.Some? then Word(piece[i..next]) else Fallback(piece[i]);
      var rest := GreedyAtoms(tk, piece, next);
      assert GreedyAtoms(tk, piece, i) == [atom] + rest;
      LongestWordIsLongest(tk, piece, i, |piece|);
      GreedyTakesLongest(tk, piece, next);
      SplitsCons(tk, piece, i, next, atom, rest);
    }
  }

  /** The bytes' ids: each byte's own token or, without one, the unknown token; the
      first byte with neither is reported. */
  lemma {:induction false} ByteIdsAreExact(tk: Tokenizer, bytes: seq<Byte>)
    ensures ByteIds(tk, bytes).Ok? <==>
            tk.special.unk.Some? || forall k :: 0 <= k < |bytes| ==> bytes[k] in tk.byteTokenToId
    ensures ByteIds(tk, bytes).Ok? ==>
              && |ByteIds(tk, bytes).value| == |bytes|
              && (forall k :: 0 <= k < |bytes| && bytes[k] in tk.byteTokenToId ==>
                    ByteIds(tk, bytes).value[k] == tk.byteTokenToId[bytes[k]])
              && (forall k :: 0 <= k < |bytes| && bytes[k] !in tk.byteTokenToId ==>
                    ByteIds(tk, bytes).value[k] == tk.special.unk.value)
    ensures forall k: nat :: FirstWithoutToken(tk, bytes, k) && tk.special.unk.None? ==>
              ByteIds(tk, bytes) == Err(MissingByteToken(bytes[k]))
  {
    if bytes != [] {
      var rest := bytes[1..];
      ByteIdsAreExact(tk, rest);
      assert bytes == [bytes[0]] + rest;
      forall k: nat | FirstWithoutToken(tk, bytes, k) && tk.special.unk.None?
        ensures ByteIds(tk, bytes) == Err(MissingByteToken(bytes[k]))
      {
        if k > 0 {
          assert rest[k - 1] == bytes[k] && FirstWithoutToken(tk, rest, k - 1);
        }
      }
    }
  }

  ghost predicate FirstWithoutToken(tk: Tokenizer, bytes: seq<Byte>, k: nat) {
    k < |bytes| && bytes[k] !in tk.byteTokenToId && forall i :: 0 <= i < k ==> bytes[i] in tk.byteTokenToId
  }

  method EncodeUnknownSymbolBytes(tk: Tokenizer, ch: char, out: seq<TokenId>) returns (r: Result<seq<TokenId>>)
    ensures r == After(out, AtomIds(tk, Fallback(ch)))
  {
    var bytes, ids := EncodeChar(ch), out;
    assert bytes[0..] == bytes;
    for i := 0 to |bytes|
      invariant After(out, ByteIds(tk, bytes)) == After(ids, ByteIds(tk, bytes[i..]))
    {
      assert bytes[i..][0] == bytes[i] && bytes[i..][1..] == bytes[i + 1..];
      var id := ByteId(tk, bytes[i]);
      if id.None? {
        return Err(MissingByteToken(bytes[i]));
      }
      AfterTwice(ids, [id.value], ByteIds(tk, bytes[i + 1..]));
      ids := ids + [id.value];
    }
    assert bytes[|bytes|..] == [] && ids + [] == ids;
    r := Ok(ids);
  }

  method BestWord(tk: Tokenizer, piece: string, start: nat) returns (best: Option<nat>)
    requires Sound(tk) && start < |piece|
    ensures best == LongestWordEnd(tk, piece, start, |piece|)
  {
    best := None;
    var bestScore := 0.0;
    for end := start + 1 to |piece| + 1
      invariant best == LongestWordEnd(tk, piece, start, end - 1)
    {
      var candidate := piece[start..end];
      if IsWord(tk, candidate) {
        var score := Score(tk, candidate);
        if best.None? || !(end < best.value || (end == best.value && score <= bestScore)) {
          best, bestScore := Some(end), score;
        }
      }
    }
  }

  method EncodePieceGreedy(tk: Tokenizer, piece: string) returns (r: Result<seq<TokenId>>)
    requires Sound(tk)
    ensures r == IdsOf(tk, GreedyAtoms(tk, piece, 0))
  {
    var out: seq<TokenId> := [];
    var start := 0;
    ghost var atoms := GreedyAtoms(tk, piece, 0);
    ghost var whole := IdsOf(tk, atoms);
    AfterTwice([], [], whole);
    while start < |piece|
      invariant start <= |piece| && atoms == GreedyAtoms(tk, piece, start)
      invariant whole == After(out, IdsOf(tk, atoms))
      decreases |piece| - start
    {
      IdsOfCons(tk, atoms[0], atoms[1..], out);
      assert atoms == [atoms[0]] + atoms[1..];
      var best := BestWord(tk, piece, start);
      if best.Some? {
        out := out + [tk.tokenToId[piece[start..best.value]]];
        start := best.value;
      } else {
        var bytes := EncodeUnknownSymbolBytes(tk, piece[start], out);
        if bytes.Err? {
          return bytes;
        }
        out := bytes.value;
        start := start + 1;
      }
      atoms := atoms[1..];
    }
    assert out + [] == out;
    r := Ok(out);
  }

  lemma {:induction false} GreedyKeepsText(tk: Tokenizer, piece: string, i: nat)
    requires i <= |piece|
    ensures AtomsText(GreedyAtoms(tk, piece, i)) == piece[i..]
    decreases |piece| - i
  {
    if i < |piece| {
      var end := LongestWordEnd(tk, piece, i, |piece|);
      var next := if end.Some? then end.value else i + 1;
      GreedyKeepsText(tk, piece, next);
      var atoms := GreedyAtoms(tk, piece, i);
      assert atoms[1..] == GreedyAtoms(tk, piece, next) && AtomText(atoms[0]) == piece[i..next];
      assert piece[i..] == piece[i..next] + piece[next..];
    }
  }

  // ----------------------------------------------------------------- segments

  ghost function SegmentSymbols(tk: Tokenizer, segment: string): seq<string>
    requires Sound(tk)
  {
    if tk.ranks == map[] then MergeByScoreSteps(tk, Singles(segment)) else MergeInRounds(tk.ranks, Singles(segment))
  }

  /** Symbols in the vocabulary are words; the others, and on the score path
      those with a double marker, are collected and matched greedily. */
  function SymbolAtoms(tk: Tokenizer, symbols: seq<string>, unresolved: string): seq<Atom>
    decreases symbols
  {
    if symbols == [] then GreedyAtoms(tk, unresolved, 0)
    else
      var s, rest := symbols[0], symbols[1..];
      if (tk.ranks == map[] && Contains(s, TWO_MARKERS)) || s !in tk.tokenToId
      then SymbolAtoms(tk, rest, unresolved + s)
      else GreedyAtoms(tk, unresolved, 0) + ([Word(s)] + SymbolAtoms(tk, rest, ""))
  }

  method EncodeSpmSegment(tk: Tokenizer, segment: string, out: seq<TokenId>) returns (r: Result<seq<TokenId>>)
    requires Sound(tk)
    ensures r == After(out, IdsOf(tk, SymbolAtoms(tk, SegmentSymbols(tk, segment), "")))
    ensures tk.ranks == map[] ==>
              r == After(out, IdsOf(tk, SymbolAtoms(tk, MergeByScoreSteps(tk, Singles(segment)), "")))
    ensures tk.ranks != map[] ==>
              r == After(out, IdsOf(tk, SymbolAtoms(tk, MergeInRounds(tk.ranks, Singles(segment)), "")))
  {
    if segment == "" {
      EmptySegmentAtoms(tk);
      assert out + [] == out;
      return Ok(out);
    }
    var symbols;
    if tk.ranks == map[] {
      symbols := MergeSpmSymbolsByScore(tk, segment);
    } else {
      symbols := MergeSymbols(tk.ranks, Singles(segment));
    }
    var ids, unresolved := out, "";
    assert symbols[0..] == symbols;
    for i := 0 to |symbols|
      invariant After(out, IdsOf(tk, SymbolAtoms(tk, symbols, ""))) ==
                After(ids, IdsOf(tk, SymbolAtoms(tk, symbols[i..], unresolved)))
    {
      var symbol := symbols[i];
      assert symbols[i..][0] == symbol && symbols[i..][1..] == symbols[i + 1..];
      if (tk.ranks == map[] && Contains(symbol, TWO_MARKERS)) || symbol !in tk.tokenToId {
        unresolved := unresolved + symbol;
        continue;
      }
      ResolvedStep(tk, unresolved, symbol, SymbolAtoms(tk, symbols[i + 1..], ""), ids);
      var flushed := FlushUnresolved(tk, unresolved, ids);
      if flushed.Err? {
        return flushed;
      }
      ids := flushed.value + [tk.tokenToId[symbol]];
      unresolved := "";
    }
    assert symbols[|symbols|..] == [];
    r := FlushUnresolved(tk, unresolved, ids);
  }

  method FlushUnresolved(tk: Tokenizer, unresolved: string, out: seq<TokenId>) returns (r: Result<seq<TokenId>>)
    requires Sound(tk)
    ensures r == After(out, IdsOf(tk, GreedyAtoms(tk, unresolved, 0)))
  {
    if unresolved == "" {
      assert out + [] == out;
      return Ok(out);
    }
    var ids := EncodePieceGreedy(tk, unresolved);
    r := After(out, ids);
  }

  lemma ResolvedStep(tk: Tokenizer, unresolved: string, symbol: string, rest: seq<Atom>, out: seq<TokenId>)
    requires symbol in tk.tokenToId
    ensures var greedy := IdsOf(tk, GreedyAtoms(tk, unresolved, 0));
            After(out, IdsOf(tk, GreedyAtoms(tk, unresolved, 0) + ([Word(symbol)] + rest))) ==
            if greedy.Ok? then After(out + greedy.value + [tk.tokenToId[symbol]], IdsOf(tk, rest)) else greedy
  {
    var greedy := IdsOf(tk, GreedyAtoms(tk, unresolved, 0));
    IdsOfConcat(tk, GreedyAtoms(tk, unresolved, 0), [Word(symbol)] + rest, out);
    if greedy.Ok? {
      IdsOfCons(tk, Word(symbol), rest, out + greedy.value);
    }
  }

  /** A symbol that stands as it is. */
  ghost predicate Resolved(tk: Tokenizer, s: string) {
    s in tk.tokenToId && (tk.ranks == map[] ==> MarkersApart(s))
  }

  /** A resolved symbol is a word of its own and parts what is around it. */
  lemma {:induction false} ResolvedStandsAlone(
    tk: Tokenizer, a: seq<string>, s: string, b: seq<string>, unresolved: string)
    requires Resolved(tk, s)
    ensures SymbolAtoms(tk, a + ([s] + b), unresolved) ==
            SymbolAtoms(tk, a, unresolved) + ([Word(s)] + SymbolAtoms(tk, b, ""))
    decreases a
  {
    NoDoubleMarker(s);
    var all := a + ([s] + b);
    var tail := [Word(s)] + SymbolAtoms(tk, b, "");
    if a == [] {
      assert all[1..] == b && all[0] == s;
    } else {
      assert all[1..] == a[1..] + ([s] + b) && all[0] == a[0];
      NoDoubleMarker(a[0]);
      ResolvedStandsAlone(tk, a[1..], s, b, if Resolved(tk, a[0]) then "" else unresolved + a[0]);
      if Resolved(tk, a[0]) {
        var greedy, rest := GreedyAtoms(tk, unresolved, 0), SymbolAtoms(tk, a[1..], "");
        Regroup([Word(a[0])], rest, tail);
        Regroup(greedy, [Word(a[0])] + rest, tail);
      }
    }
  }

  /** Neighbouring unresolved symbols are split greedily together. */
  lemma {:induction false} UnresolvedSplitTogether(tk: Tokenizer, symbols: seq<string>, unresolved: string)
    requires forall k :: 0 <= k < |symbols| ==> !Resolved(tk, symbols[k])
    ensures SymbolAtoms(tk, symbols, unresolved) == GreedyAtoms(tk, unresolved + Concat(symbols), 0)
    decreases symbols
  {
    if symbols == [] {
      Neutral(unresolved);
    } else {
      NoDoubleMarker(symbols[0]);
      UnresolvedSplitTogether(tk, symbols[1..], unresolved + symbols[0]);
      Regroup(unresolved, symbols[0], Concat(symbols[1..]));
    }
  }

  /** What a segment is merged to: without merges no two neighbours make a word any
      more; with them no two are listed, and under an ordered table the symbols are
      those of merging one pair at a time. */
  lemma SegmentIsMerged(tk: Tokenizer, segment: string)
    requires Sound(tk)
    ensures var symbols := SegmentSymbols(tk, segment);
            && Concat(symbols) == segment
            && (tk.ranks == map[] ==> forall i: nat :: i + 1 < |symbols| ==> !MayStand(tk, symbols[i] + symbols[i + 1]))
            && (tk.ranks != map[] ==> Irreducible(tk.ranks, symbols))
            && (tk.ranks != map[] && DistinctRanks(tk.ranks) && JunctionsOrdered(tk.ranks) ==>
                  symbols == MergeOneByOne(tk.ranks, Singles(segment)))
  {
    var symbols := SegmentSymbols(tk, segment);
    SinglesConcat(segment);
    SinglesAreNonEmpty(segment);
    if tk.ranks == map[] {
      ScoreMergingKeepsText(tk, Singles(segment));
      ScoreMergingEnds(tk, Singles(segment));
      forall i: nat | i + 1 < |symbols| ensures !MayStand(tk, symbols[i] + symbols[i + 1]) {
        NoDoubleMarker(symbols[i] + symbols[i + 1]);
        assert !MergesAt(tk, symbols, i);
      }
    } else {
      RoundsKeepText(tk.ranks, Singles(segment));
      RoundsEndIrreducible(tk.ranks, Singles(segment));
      if DistinctRanks(tk.ranks) && JunctionsOrdered(tk.ranks) {
        BatchedMergingIsOneByOne(tk.ranks, Singles(segment));
      }
    }
  }

  lemma EmptySegmentAtoms(tk: Tokenizer)
    requires Sound(tk)
    ensures SymbolAtoms(tk, SegmentSymbols(tk, ""), "") == []
  {
    assert Irreducible(tk.ranks, []);
    assert forall i: nat :: !MergesAt(tk, [], i);
  }

  lemma {:induction false} SymbolAtomsKeepText(tk: Tokenizer, symbols: seq<string>, unresolved: string)
    ensures AtomsText(SymbolAtoms(tk, symbols, unresolved)) == unresolved + Concat(symbols)
    decreases symbols
  {
    GreedyKeepsText(tk, unresolved, 0);
    assert unresolved[0..] == unresolved;
    if symbols == [] {
      assert unresolved + "" == unresolved;
    } else {
      var s, rest := symbols[0], symbols[1..];
      if (tk.ranks == map[] && Contains(s, TWO_MARKERS)) || s !in tk.tokenToId {
        SymbolAtomsKeepText(tk, rest, unresolved + s);
        assert unresolved + s + Concat(rest) == unresolved + (s + Concat(rest));
      } else {
        SymbolAtomsKeepText(tk, rest, "");
        assert "" + Concat(rest) == Concat(rest);
        AtomsTextConcat(GreedyAtoms(tk, unresolved, 0), [Word(s)] + SymbolAtoms(tk, rest, ""));
        assert ([Word(s)] + SymbolAtoms(tk, rest, ""))[1..] == SymbolAtoms(tk, rest, "");
      }
    }
  }

  lemma SegmentKeepsText(tk: Tokenizer, segment: string)
    requires Sound(tk)
    ensures AtomsText(SymbolAtoms(tk, SegmentSymbols(tk, segment), "")) == segment
  {
    SymbolAtomsKeepText(tk, SegmentSymbols(tk, segment), "");
    ScoreMergingKeepsText(tk, Singles(segment));
    RoundsKeepText(tk.ranks, Singles(segment));
    SinglesConcat(segment);
    assert "" + segment == segment;
  }

  // ------------------------------------------------------- pieces and specials

  predicate HasInstructTokens(tk: Tokenizer) {
    "[INST]" in tk.tokenToId && "[/INST]" in tk.tokenToId
  }

  predicate ShouldInsertDummy(tk: Tokenizer, special: string, rest: string, nextIsControl: bool) {
    if rest == "" || nextIsControl then false
    else if tk.special.bos.Some? && tk.special.bos.value < |tk.tokens| &&
            special == tk.tokens[tk.special.bos.value].text && "[INST]" <= rest && HasInstructTokens(tk) then false
    else if special == "[INST]" && HasInstructTokens(tk) then true
    else !(MARKER <= rest)
  }

  predicate DummyAfter(tk: Tokenizer, text: string, i: nat, special: string)
    requires i <= |text|
  {
    ShouldInsertDummy(tk, special, text[i..], LongestControlAt(tk, text, i, true).Some?)
  }

  /** When a marker follows a special token that ends at `i`: before text, not before
      another special token, and where that text has no marker of its own; but never
      between the begin token and "[INST]", and always after "[INST]". */
  ghost predicate MarkerWanted(tk: Tokenizer, text: string, i: nat, special: string)
    requires i <= |text|
  {
    var instruct := "[INST]" in tk.tokenToId && "[/INST]" in tk.tokenToId;
    var begins := exists id :: tk.special.bos == Some(id) && id < |tk.tokens| && tk.tokens[id].text == special;
    && i < |text| && !SpecialStartsAt(tk, text, i, true)
    && !(instruct && begins && i + 6 <= |text| && text[i..i + 6] == "[INST]")
    && (text[i] == SPM_SPACE ==> instruct && special == "[INST]")
  }

  lemma DummyIffWanted(tk: Tokenizer, text: string, i: nat, special: string)
    requires i <= |text|
    ensures DummyAfter(tk, text, i, special) <==> MarkerWanted(tk, text, i, special)
  {
    FoundIfThere(tk, text, i, true);
    assert "[INST]" <= text[i..] <==> i + 6 <= |text| && text[i..i + 6] == "[INST]" by {
      if i + 6 <= |text| {
        assert text[i..][..6] == text[i..i + 6];
      }
    }
    assert i < |text| ==> (MARKER <= text[i..] <==> text[i] == SPM_SPACE);
  }

  lemma FoundIsLongest(tk: Tokenizer, text: string, i: nat, s: string)
    requires LongestSpecial(tk, text, i, s, true)
    ensures LongestControlAt(tk, text, i, true) == Some(s)
  {
    LongestIsLongest(tk.tokens, text, i, true);
    var found := LongestControlAt(tk, text, i, true).value;
    assert |found| == |s| && found == text[i..i + |found|];
  }

  /** Where the text without special tokens that starts at `i` ends. */
  function SpmPlainEnd(tk: Tokenizer, piece: string, i: nat, parseSpecial: bool): (end: nat)
    requires i < |piece| && (parseSpecial ==> LongestControlAt(tk, piece, i, true).None?)
    ensures i < end <= |piece|
  {
    var next := NextControlStart(tk, piece, i, true);
    if parseSpecial && next.Some? then next.value else |piece|
  }

  ghost function PieceAtoms(tk: Tokenizer, piece: string, i: nat, parseSpecial: bool): seq<Atom>
    requires Sound(tk) && i <= |piece|
    decreases |piece| - i
  {
    if i == |piece| then []
    else if parseSpecial && LongestControlAt(tk, piece, i, true).Some? then
      var special := LongestControlAt(tk, piece, i, true).value;
      var next := i + |special|;
      [Word(special)] + DummyAtoms(tk, piece, next, special) + PieceAtoms(tk, piece, next, parseSpecial)
    else
      var end := SpmPlainEnd(tk, piece, i, parseSpecial);
      SymbolAtoms(tk, SegmentSymbols(tk, piece[i..end]), "") + PieceAtoms(tk, piece, end, parseSpecial)
  }

  function DummyAtoms(tk: Tokenizer, piece: string, i: nat, special: string): seq<Atom>
    requires i <= |piece|
  {
    if tk.config.addSpacePrefix && DummyAfter(tk, piece, i, special) && MARKER in tk.tokenToId
    then [Word(MARKER)] else []
  }

  /** A special token, when parsed, is a word, and a marker comes after it where one is
      wanted and the vocabulary has one. */
  lemma SpecialThenDummy(tk: Tokenizer, piece: string, i: nat, next: nat, s: string)
    requires Sound(tk) && i < |piece| && LongestSpecial(tk, piece, i, s, true) && next == i + |s|
    ensures PieceAtoms(tk, piece, i, true) ==
            [Word(s)] +
            (if tk.config.addSpacePrefix && MARKER in tk.tokenToId && DummyAfter(tk, piece, next, s)
             then [Word(MARKER)] else []) +
            PieceAtoms(tk, piece, next, true)
  {
    FoundIsLongest(tk, piece, i, s);
    SpecialStep(tk, piece, i, next, s);
  }

  lemma SpecialStep(tk: Tokenizer, piece: string, i: nat, next: nat, s: string)
    requires Sound(tk) && i < |piece| && LongestControlAt(tk, piece, i, true) == Some(s) && next == i + |s|
    ensures PieceAtoms(tk, piece, i, true) ==
            [Word(s)] + DummyAtoms(tk, piece, next, s) + PieceAtoms(tk, piece, next, true)
  {
  }

  /** Other text up to the next special token parsed, or to the end, is a segment. */
  lemma PlainIsASegment(tk: Tokenizer, piece: string, i: nat, end: nat, parseSpecial: bool)
    requires Sound(tk) && i < end <= |piece|
    requires if parseSpecial then PlainUntil(tk, piece, i, end, true) else end == |piece|
    ensures PieceAtoms(tk, piece, i, parseSpecial) ==
            SymbolAtoms(tk, SegmentSymbols(tk, piece[i..end]), "") + PieceAtoms(tk, piece, end, parseSpecial)
  {
    FoundIfThere(tk, piece, i, true);
    if parseSpecial {
      PlainEndsThere(tk, piece, i, end);
    }
    assert SpmPlainEnd(tk, piece, i, parseSpecial) == end;
    SegmentStep(tk, piece, i, end, parseSpecial);
  }

  lemma SegmentStep(tk: Tokenizer, piece: string, i: nat, end: nat, parseSpecial: bool)
    requires Sound(tk) && i < |piece| && (parseSpecial ==> LongestControlAt(tk, piece, i, true).None?)
    requires end == SpmPlainEnd(tk, piece, i, parseSpecial)
    ensures PieceAtoms(tk, piece, i, parseSpecial) ==
            SymbolAtoms(tk, SegmentSymbols(tk, piece[i..end]), "") + PieceAtoms(tk, piece, end, parseSpecial)
  {
  }

  lemma PlainEndsThere(tk: Tokenizer, piece: string, i: nat, end: nat)
    requires i < end <= |piece| && PlainUntil(tk, piece, i, end, true) && LongestControlAt(tk, piece, i, true).None?
    ensures SpmPlainEnd(tk, piece, i, true) == end
  {
    var found := SpmPlainEnd(tk, piece, i, true);
    FoundIfThere(tk, piece, found, true);
    if end < |piece| {
      FoundIfThere(tk, piece, end, true);
    }
  }

  /** Without merges and without special parsing the whole piece is matched
      greedily. */
  ghost function EncodedPiece(tk: Tokenizer, piece: string, parseSpecial: bool): seq<Atom>
    requires Sound(tk)
  {
    if tk.ranks == map[] && !parseSpecial then GreedyAtoms(tk, piece, 0)
    else PieceAtoms(tk, piece, 0, parseSpecial)
  }

  lemma PathByMergesAndParsing(tk: Tokenizer, piece: string, parseSpecial: bool)
    requires Sound(tk)
    ensures tk.ranks == map[] && !parseSpecial ==> SplitsGreedily(tk, piece, 0, EncodedPiece(tk, piece, parseSpecial))
    ensures tk.ranks != map[] || parseSpecial ==>
              EncodedPiece(tk, piece, parseSpecial) == PieceAtoms(tk, piece, 0, parseSpecial)
  {
    GreedyTakesLongest(tk, piece, 0);
  }

  method EncodePiece(tk: Tokenizer, piece: string, parseSpecial: bool) returns (r: Result<seq<TokenId>>)
    requires Sound(tk)
    ensures r == IdsOf(tk, EncodedPiece(tk, piece, parseSpecial))
  {
    if tk.ranks == map[] && !parseSpecial {
      r := EncodePieceGreedy(tk, piece);
      return;
    }
    var out: seq<TokenId> := [];
    var start := 0;
    ghost var atoms := PieceAtoms(tk, piece, 0, parseSpecial);
    ghost var whole := IdsOf(tk, atoms);
    AfterTwice([], [], whole);
    while start < |piece|
      invariant start <= |piece| && atoms == PieceAtoms(tk, piece, start, parseSpecial)
      invariant whole == After(out, IdsOf(tk, atoms))
      decreases |piece| - start
    {
      var encoded, end := EncodeNextPiece(tk, piece, start, parseSpecial, out);
      if encoded.Err? {
        return encoded;
      }
      out, start, atoms := encoded.value, end, PieceAtoms(tk, piece, end, parseSpecial);
    }
    assert out + [] == out;
    r := Ok(out);
  }

  /** The body of the piece loop: a special token and its dummy prefix, or the
      segment up to the next special token. */
  method EncodeNextPiece(tk: Tokenizer, piece: string, start: nat, parseSpecial: bool, out: seq<TokenId>)
    returns (r: Result<seq<TokenId>>, end: nat)
    requires Sound(tk) && start < |piece| && !(tk.ranks == map[] && !parseSpecial)
    ensures start < end <= |piece|
    ensures After(out, IdsOf(tk, PieceAtoms(tk, piece, start, parseSpecial))) ==
            if r.Ok? then After(r.value, IdsOf(tk, PieceAtoms(tk, piece, end, parseSpecial))) else r
  {
    if parseSpecial {
      var special := LongestControlAt(tk, piece, start, true);
      if special.Some? {
        ControlTextHasId(tk, piece, start, true);
        end := start + |special.value|;
        ghost var dummy := DummyAtoms(tk, piece, end, special.value);
        ghost var rest := PieceAtoms(tk, piece, end, parseSpecial);
        assert PieceAtoms(tk, piece, start, parseSpecial) == [Word(special.value)] + dummy + rest;
        SpecialAtomsStep(tk, special.value, dummy, rest, out);
        var ids := out + [tk.tokenToId[special.value]];
        Neutral(ids);
        if tk.config.addSpacePrefix && DummyAfter(tk, piece, end, special.value) {
          if MARKER in tk.tokenToId {
            ids := ids + [tk.tokenToId[MARKER]];
          }
        }
        r := Ok(ids);
        return;
      }
    }
    end := SpmPlainEnd(tk, piece, start, parseSpecial);
    IdsOfConcat(tk, SymbolAtoms(tk, SegmentSymbols(tk, piece[start..end]), ""),
                PieceAtoms(tk, piece, end, parseSpecial), out);
    r := EncodeSpmSegment(tk, piece[start..end], out);
  }

  lemma SpecialAtomsStep(tk: Tokenizer, special: string, dummy: seq<Atom>, rest: seq<Atom>, out: seq<TokenId>)
    requires special in tk.tokenToId
    requires dummy == [] || (dummy == [Word(MARKER)] && MARKER in tk.tokenToId)
    ensures After(out, IdsOf(tk, [Word(special)] + dummy + rest)) ==
            After(out + [tk.tokenToId[special]] + (if dummy == [] then [] else [tk.tokenToId[MARKER]]), IdsOf(tk, rest))
  {
    assert [Word(special)] + dummy + rest == [Word(special)] + (dummy + rest);
    IdsOfCons(tk, Word(special), dummy + rest, out);
    var ids := out + [tk.tokenToId[special]];
    if dummy == [] {
      assert dummy + rest == rest && ids + [] == ids;
    } else {
      IdsOfCons(tk, Word(MARKER), rest, ids);
    }
  }

  // ------------------------------------------------------------ normalization

  function MarkerForSpace(c: char): char {
    if c == ' ' then SPM_SPACE else c
  }

  function SpacesToMarkers(s: string): (r: string)
    ensures |r| == |s|
  {
    seq(|s|, i requires 0 <= i < |s| => MarkerForSpace(s[i]))
  }

  /** After each special token, a marker where the model expects a word start. */
  function DummiesAfterSpecials(tk: Tokenizer, text: string, i: nat): string
    requires i <= |text|
    decreases |text| - i
  {
    if i == |text| then ""
    else match LongestControlAt(tk, text, i, true)
      case Some(special) =>
        var next := i + |special|;
        special + (if DummyAfter(tk, text, next, special) then MARKER else "") + DummiesAfterSpecials(tk, text, next)
      case None => [text[i]] + DummiesAfterSpecials(tk, text, i + 1)
  }

  predicate TakesPrefix(tk: Tokenizer, text: string, parseSpecial: bool) {
    tk.config.addSpacePrefix && !(parseSpecial && LongestControlAt(tk, text, 0, true).Some?)
  }

  function Normalized(tk: Tokenizer, text: string, parseSpecial: bool): string {
    if text == "" then ""
    else
      var marked := (if TakesPrefix(tk, text, parseSpecial) then MARKER else "") + SpacesToMarkers(text);
      if parseSpecial || !tk.config.addSpacePrefix then marked else DummiesAfterSpecials(tk, marked, 0)
  }

  method NormalizeSpmText(tk: Tokenizer, text: string, parseSpecial: bool) returns (normalized: string)
    ensures normalized == Normalized(tk, text, parseSpecial)
  {
    normalized := "";
    if text == "" {
      return;
    }
    if TakesPrefix(tk, text, parseSpecial) {
      normalized := normalized + MARKER;
    }
    ghost var prefix := normalized;
    assert prefix == if TakesPrefix(tk, text, parseSpecial) then MARKER else "";
    for i := 0 to |text|
      invariant normalized == prefix + SpacesToMarkers(text)[..i]
    {
      if text[i] == ' ' {
        normalized := normalized + [SPM_SPACE];
      } else {
        normalized := normalized + [text[i]];
      }
    }
    assert SpacesToMarkers(text)[..|text|] == SpacesToMarkers(text);
    if !parseSpecial {
      normalized := AddDummyPrefixAfterControlTokens(tk, normalized);
    }
  }

  method AddDummyPrefixAfterControlTokens(tk: Tokenizer, text: string) returns (normalized: string)
    ensures normalized == if tk.config.addSpacePrefix then DummiesAfterSpecials(tk, text, 0) else text
  {
    if !tk.config.addSpacePrefix || text == "" {
      return text;
    }
    normalized := "";
    var start := 0;
    ghost var rest := DummiesAfterSpecials(tk, text, 0);
    ghost var whole := rest;
    assert normalized + rest == whole;
    while start < |text|
      invariant start <= |text| && rest == DummiesAfterSpecials(tk, text, start)
      invariant normalized + rest == whole
      decreases |text| - start
    {
      var added, end := NextNormalizedPart(tk, text, start);
      assert normalized + (added + DummiesAfterSpecials(tk, text, end)) ==
             normalized + added + DummiesAfterSpecials(tk, text, end);
      normalized, start, rest := normalized + added, end, DummiesAfterSpecials(tk, text, end);
    }
    assert normalized + "" == normalized;
  }

  /** The body of the scan: a special token and what follows it, or one character. */
  method NextNormalizedPart(tk: Tokenizer, text: string, start: nat) returns (added: string, end: nat)
    requires start < |text|
    ensures start < end <= |text|
    ensures DummiesAfterSpecials(tk, text, start) == added + DummiesAfterSpecials(tk, text, end)
  {
    var special := LongestControlAt(tk, text, start, true);
    if special.Some? {
      added, end := special.value, start + |special.value|;
      assert added + "" == added;
      if DummyAfter(tk, text, end, special.value) {
        added := added + MARKER;
      }
    } else {
      added, end := [text[start]], start + 1;
    }
  }

  /** How text is normalized: spaces become markers, a marker comes in front unless the
      vocabulary wants none or special parsing finds a special token there... */
  lemma NormalizedText(tk: Tokenizer, text: string, parseSpecial: bool)
    ensures text == "" ==> Normalized(tk, text, parseSpecial) == ""
    ensures text != "" ==> exists marked ::
              && |marked| == |text|
              && (forall k :: 0 <= k < |text| ==> marked[k] == if text[k] == ' ' then SPM_SPACE else text[k])
              && var whole := (if tk.config.addSpacePrefix && !(parseSpecial && SpecialStartsAt(tk, text, 0, true))
                               then [SPM_SPACE] else "") + marked;
                 Normalized(tk, text, parseSpecial) ==
                 if parseSpecial || !tk.config.addSpacePrefix then whole else DummiesAfterSpecials(tk, whole, 0)
  {
    FoundIfThere(tk, text, 0, true);
    var marked := SpacesToMarkers(text);
    assert |marked| == |text|;
  }

  /** ... and, where specials are not parsed, characters outside special tokens stay,
      and after each special token a marker comes where one is wanted. */
  lemma PlainStays(tk: Tokenizer, text: string, i: nat)
    requires i <= |text|
    ensures i == |text| ==> DummiesAfterSpecials(tk, text, i) == ""
    ensures i < |text| && !SpecialStartsAt(tk, text, i, true) ==>
              DummiesAfterSpecials(tk, text, i) == [text[i]] + DummiesAfterSpecials(tk, text, i + 1)
  {
    FoundIfThere(tk, text, i, true);
  }

  lemma SpecialThenMarker(tk: Tokenizer, text: string, i: nat, next: nat, s: string)
    requires i < |text| && LongestSpecial(tk, text, i, s, true) && next == i + |s|
    ensures DummiesAfterSpecials(tk, text, i) ==
            s + (if DummyAfter(tk, text, next, s) then MARKER else "") + DummiesAfterSpecials(tk, text, next)
  {
    FoundIsLongest(tk, text, i, s);
    DummyStep(tk, text, i, next, s);
  }

  lemma DummyStep(tk: Tokenizer, text: string, i: nat, next: nat, s: string)
    requires i < |text| && LongestControlAt(tk, text, i, true) == Some(s) && next == i + |s|
    ensures DummiesAfterSpecials(tk, text, i) ==
            s + (if DummyAfter(tk, text, next, s) then MARKER else "") + DummiesAfterSpecials(tk, text, next)
  {
  }

  lemma {:induction false} NoSpecialsNoDummies(tk: Tokenizer, text: string, i: nat)
    requires i <= |text| && NoSpecials(tk, text)
    ensures DummiesAfterSpecials(tk, text, i) == text[i..]
    decreases |text| - i
  {
    if i < |text| {
      NoSpecialsNoDummies(tk, text, i + 1);
      assert text[i..] == [text[i]] + text[i + 1..];
    }
  }

  ghost predicate NoSpecials(tk: Tokenizer, text: string) {
    forall i :: 0 <= i < |text| ==> LongestControlAt(tk, text, i, true).None?
  }

  /** The atoms of a piece without special tokens spell it. */
  lemma PieceKeepsText(tk: Tokenizer, piece: string, parseSpecial: bool)
    requires Sound(tk) && NoSpecials(tk, piece)
    ensures AtomsText(EncodedPiece(tk, piece, parseSpecial)) == piece
  {
    if tk.ranks == map[] && !parseSpecial {
      GreedyKeepsText(tk, piece, 0);
      assert piece[0..] == piece;
    } else if piece != "" {
      assert SpmPlainEnd(tk, piece, 0, parseSpecial) == |piece|;
      assert piece[0..|piece|] == piece;
      SegmentKeepsText(tk, piece);
      var atoms := SymbolAtoms(tk, SegmentSymbols(tk, piece), "");
      assert PieceAtoms(tk, piece, |piece|, parseSpecial) == [] && atoms + [] == atoms;
    }
  }
}
