/** Byte-pair merging. `MergeSymbols` merges every occurrence of the best ranked
    pair per round; the reference form merges one pair, the leftmost of lowest
    rank, at a time. Ranks say which pair goes first: lower is earlier. */
module BpeMerge {
  import opened Sequences
  import opened Wrappers

  type Pair = (string, string)
  type Ranks = map<Pair, nat>

  // ---------------------------------------------------------------- merge table

  function FindChar(s: string, c: char): (i: nat)
    ensures i <= |s| && c !in s[..i] && (i < |s| ==> s[i] == c)
  {
    if s == "" || s[0] == c then 0 else 1 + FindChar(s[1..], c)
  }

  /** One line of the merge list, cut at its first space. */
  function SplitOnce(line: string): (r: Option<Pair>) {
    var i := FindChar(line, ' ');
    if i < |line| then Some((line[..i], line[i + 1..])) else None
  }

  lemma SplitOnceCuts(line: string)
    ensures SplitOnce(line).Some? <==> ' ' in line
    ensures SplitOnce(line).Some? ==>
              var (left, right) := SplitOnce(line).value;
              line == left + " " + right && ' ' !in left
  {
    var i := FindChar(line, ' ');
    if i < |line| {
      assert line == line[..i] + [line[i]] + line[i + 1..];
    }
  }

  /** The lines' pairs, in order. */
  function PairsOf(merges: seq<string>): (pairs: seq<Option<Pair>>)
    ensures |pairs| == |merges|
  {
    seq(|merges|, i requires 0 <= i < |merges| => SplitOnce(merges[i]))
  }

  /** A pair's rank is its line's index; a pair listed twice keeps its last. */
  function RanksOf(pairs: seq<Option<Pair>>): (ranks: Ranks)
    ensures forall p :: p in ranks ==> ranks[p] < |pairs| && pairs[ranks[p]] == Some(p)
  {
    if pairs == [] then map[]
    else
      var last := |pairs| - 1;
      match pairs[last]
      case None => RanksOf(pairs[..last])
      case Some(p) => RanksOf(pairs[..last])[p := last]
  }

  /** The table holds exactly the pairs listed, each under its last line. */
  lemma {:induction false} RanksAreLastLines(pairs: seq<Option<Pair>>, p: Pair)
    ensures p in RanksOf(pairs) <==> Some(p) in pairs
    ensures p in RanksOf(pairs) ==>
              RanksOf(pairs)[p] < |pairs| && forall j :: RanksOf(pairs)[p] < j < |pairs| ==> pairs[j] != Some(p)
    decreases pairs
  {
    if pairs != [] {
      var last := |pairs| - 1;
      RanksAreLastLines(pairs[..last], p);
      assert pairs == pairs[..last] + [pairs[last]];
    }
  }

  ghost predicate DistinctRanks(ranks: Ranks) {
    forall p, q :: p in ranks && q in ranks && ranks[p] == ranks[q] ==> p == q
  }

  lemma RanksOfAreDistinct(merges: seq<string>)
    ensures DistinctRanks(RanksOf(PairsOf(merges)))
  {
  }

  /** `q` merges something with the product of `p`. */
  predicate Uses(q: Pair, p: Pair) {
    q.0 == p.0 + p.1 || q.1 == p.0 + p.1
  }

  /** Every pair that has the product of another pair as a component ranks after it. */
  ghost predicate ComponentsFirst(ranks: Ranks) {
    forall p, q | p in ranks && q in ranks && p.0 != "" && p.1 != "" && Uses(q, p) ::
      ranks[p] < ranks[q]
  }

  predicate Below(ranks: Ranks, d: Pair, p: Pair)
    requires p in ranks
  {
    d in ranks && ranks[d] < ranks[p]
  }

  predicate NonEmptyPair(p: Pair) {
    p.0 != "" && p.1 != ""
  }

  /** Where a pair that ranks below `p` uses the product of `p`, the two symbols that
      stood side by side before `p` was merged were mergeable first, or were `p`. */
  predicate JunctionOrdered(ranks: Ranks, p: Pair, q: Pair)
    requires p in ranks
  {
    && (q.0 == p.0 + p.1 ==> Below(ranks, (p.1, q.1), p))
    && (q.1 == p.0 + p.1 ==> Below(ranks, (q.0, p.0), p) || (q.0, p.0) == p)
  }

  /** Weaker than the above: only pairs that rank below what they use matter. */
  ghost predicate JunctionsOrdered(ranks: Ranks) {
    forall p, q | p in ranks && q in ranks && NonEmptyPair(p) && NonEmptyPair(q) && ranks[q] < ranks[p] ::
      JunctionOrdered(ranks, p, q)
  }

  lemma ComponentsFirstOrdersJunctions(ranks: Ranks)
    requires ComponentsFirst(ranks)
    ensures JunctionsOrdered(ranks)
  {
    forall p, q | p in ranks && q in ranks && NonEmptyPair(p) && NonEmptyPair(q) && ranks[q] < ranks[p]
      ensures JunctionOrdered(ranks, p, q)
    {
      assert !Uses(q, p);
    }
  }

  // ------------------------------------------------------------------ symbols

  function Concat(symbols: seq<string>): string {
    if symbols == [] then "" else symbols[0] + Concat(symbols[1..])
  }

  predicate NonEmptySymbols(symbols: seq<string>) {
    forall i :: 0 <= i < |symbols| ==> symbols[i] != ""
  }

  /** The rank of the adjacent pair that starts at `i`, if there is one. */
  function RankAt(ranks: Ranks, symbols: seq<string>, i: nat): (r: Option<nat>)
    ensures r.Some? ==> i + 1 < |symbols| && (symbols[i], symbols[i + 1]) in ranks
  {
    if i + 1 < |symbols| && (symbols[i], symbols[i + 1]) in ranks
    then Some(ranks[(symbols[i], symbols[i + 1])]) else None
  }

  /** `i` starts the leftmost pair of lowest rank. */
  ghost predicate IsBest(ranks: Ranks, symbols: seq<string>, i: nat) {
    && RankAt(ranks, symbols, i).Some?
    && forall j: nat :: RankAt(ranks, symbols, j).Some? ==>
         var here, there := RankAt(ranks, symbols, i).value, RankAt(ranks, symbols, j).value;
         here <= there && (here == there ==> i <= j)
  }

  ghost predicate Irreducible(ranks: Ranks, symbols: seq<string>) {
    forall j: nat :: RankAt(ranks, symbols, j).None?
  }

  /** The best of the pairs that start before `n`. */
  ghost function BestBelow(ranks: Ranks, symbols: seq<string>, n: nat): (best: Option<nat>)
    ensures best.None? ==> forall j: nat :: j < n ==> RankAt(ranks, symbols, j).None?
    ensures best.Some? ==> best.value < n && RankAt(ranks, symbols, best.value).Some?
    ensures best.Some? ==> forall j: nat :: j < n && RankAt(ranks, symbols, j).Some? ==>
      var here, there := RankAt(ranks, symbols, best.value).value, RankAt(ranks, symbols, j).value;
      here <= there && (here == there ==> best.value <= j)
  {
    if n == 0 then None
    else
      var best := BestBelow(ranks, symbols, n - 1);
      match RankAt(ranks, symbols, n - 1)
      case None => best
      case Some(rank) =>
        if best.None? || rank < RankAt(ranks, symbols, best.value).value then Some(n - 1) else best
  }

  ghost function Best(ranks: Ranks, symbols: seq<string>): (best: Option<nat>)
    ensures best.Some? ==> IsBest(ranks, symbols, best.value)
    ensures best.None? ==> Irreducible(ranks, symbols)
  {
    BestBelow(ranks, symbols, |symbols|)
  }

  lemma BestIsUnique(ranks: Ranks, symbols: seq<string>, i: nat)
    requires IsBest(ranks, symbols, i)
    ensures Best(ranks, symbols) == Some(i)
  {
  }

  // -------------------------------------------------------- the reference form

  function MergeAt(symbols: seq<string>, i: nat): (merged: seq<string>)
    requires i + 1 < |symbols|
    ensures |merged| == |symbols| - 1
  {
    symbols[..i] + [symbols[i] + symbols[i + 1]] + symbols[i + 2..]
  }

  /** Merges one pair at a time, the leftmost of lowest rank, until none is left. */
  ghost function MergeOneByOne(ranks: Ranks, symbols: seq<string>): seq<string>
    decreases |symbols|
  {
    match Best(ranks, symbols)
    case None => symbols
    case Some(i) => MergeOneByOne(ranks, MergeAt(symbols, i))
  }

  /** The first `n` of those steps. */
  ghost function Steps(ranks: Ranks, symbols: seq<string>, n: nat): seq<string>
    decreases n
  {
    if n == 0 then symbols
    else
      match Best(ranks, symbols)
      case None => symbols
      case Some(i) => Steps(ranks, MergeAt(symbols, i), n - 1)
  }

  // ---------------------------------------------------------- the batched form

  predicate StartsWithPair(symbols: seq<string>, p: Pair) {
    |symbols| >= 2 && symbols[0] == p.0 && symbols[1] == p.1
  }

  /** One left-to-right scan that merges every non-overlapping occurrence of `p`. */
  function MergeEvery(symbols: seq<string>, p: Pair): (merged: seq<string>)
    ensures |merged| <= |symbols|
  {
    if symbols == [] then []
    else if StartsWithPair(symbols, p) then [p.0 + p.1] + MergeEvery(symbols[2..], p)
    else [symbols[0]] + MergeEvery(symbols[1..], p)
  }

  lemma {:induction false} MergeEveryShrinks(symbols: seq<string>, p: Pair, i: nat)
    requires i + 1 < |symbols| && (symbols[i], symbols[i + 1]) == p
    ensures |MergeEvery(symbols, p)| < |symbols|
  {
    if i > 0 && !StartsWithPair(symbols, p) {
      MergeEveryShrinks(symbols[1..], p, i - 1);
    }
  }

  ghost function MergeInRounds(ranks: Ranks, symbols: seq<string>): seq<string>
    decreases |symbols|
  {
    match Best(ranks, symbols)
    case None => symbols
    case Some(i) =>
      var p := (symbols[i], symbols[i + 1]);
      MergeEveryShrinks(symbols, p, i);
      MergeInRounds(ranks, MergeEvery(symbols, p))
  }

  // ------------------------------------------------------------ the merge loop

  datatype Candidate = Candidate(rank: nat, index: nat) {
    /** The heap's order: the lowest rank pops first, ties by the leftmost index. */
    predicate PopsBefore(other: Candidate) {
      rank < other.rank || (rank == other.rank && index <= other.index)
    }
  }

  /** What popping a max-heap under the reversed order yields. */
  method PopBest(heap: seq<Candidate>) returns (best: Option<Candidate>)
    ensures best.None? <==> heap == []
    ensures best.Some? ==> best.value in heap && forall c :: c in heap ==> best.value.PopsBefore(c)
  {
    if heap == [] {
      return None;
    }
    var top := heap[0];
    for i := 1 to |heap|
      invariant top in heap && forall j :: 0 <= j < i ==> top.PopsBefore(heap[j])
    {
      if !top.PopsBefore(heap[i]) {
        top := heap[i];
      }
    }
    best := Some(top);
  }

  method MergeSymbols(ranks: Ranks, input: seq<string>) returns (symbols: seq<string>)
    ensures symbols == MergeInRounds(ranks, input)
  {
    symbols := input;
    while |symbols| > 1
      invariant MergeInRounds(ranks, symbols) == MergeInRounds(ranks, input)
      decreases |symbols|
    {
      var heap := RankedPairs(ranks, symbols);
      var popped := PopBest(heap);
      if popped.None? {
        break;
      }
      var best := popped.value.index;
      BestIsUnique(ranks, symbols, best);
      var p := (symbols[best], symbols[best + 1]);
      MergeEveryShrinks(symbols, p, best);
      symbols := MergeEveryLoop(symbols, p);
    }
  }

  method RankedPairs(ranks: Ranks, symbols: seq<string>) returns (heap: seq<Candidate>)
    ensures forall c :: c in heap ==> RankAt(ranks, symbols, c.index) == Some(c.rank)
    ensures forall j: nat :: RankAt(ranks, symbols, j).Some? ==>
      Candidate(RankAt(ranks, symbols, j).value, j) in heap
  {
    heap := [];
    for i := 0 to |symbols|
      invariant forall c :: c in heap ==> RankAt(ranks, symbols, c.index) == Some(c.rank)
      invariant forall j: nat :: j < i && RankAt(ranks, symbols, j).Some? ==>
        Candidate(RankAt(ranks, symbols, j).value, j) in heap
    {
      match RankAt(ranks, symbols, i)
      case Some(rank) => heap := heap + [Candidate(rank, i)];
      case None =>
    }
  }

  method MergeEveryLoop(symbols: seq<string>, p: Pair) returns (merged: seq<string>)
    ensures merged == MergeEvery(symbols, p)
  {
    merged := [];
    var i := 0;
    assert symbols[0..] == symbols;
    Neutral(MergeEvery(symbols, p));
    while i < |symbols|
      invariant 0 <= i <= |symbols|
      invariant MergeEvery(symbols, p) == merged + MergeEvery(symbols[i..], p)
    {
      ScanStep(symbols, p, i);
      if i + 1 < |symbols| && symbols[i] == p.0 && symbols[i + 1] == p.1 {
        Regroup(merged, [symbols[i] + symbols[i + 1]], MergeEvery(symbols[i + 2..], p));
        merged := merged + [symbols[i] + symbols[i + 1]];
        i := i + 2;
      } else {
        Regroup(merged, [symbols[i]], MergeEvery(symbols[i + 1..], p));
        merged := merged + [symbols[i]];
        i := i + 1;
      }
    }
    Neutral(merged);
  }

  lemma ScanStep(symbols: seq<string>, p: Pair, i: nat)
    requires i < |symbols|
    ensures MergeEvery(symbols[i..], p) ==
            if i + 1 < |symbols| && symbols[i] == p.0 && symbols[i + 1] == p.1
            then [symbols[i] + symbols[i + 1]] + MergeEvery(symbols[i + 2..], p)
            else [symbols[i]] + MergeEvery(symbols[i + 1..], p)
  {
    if i + 1 < |symbols| {
      assert symbols[i..][2..] == symbols[i + 2..];
    }
    assert symbols[i..][1..] == symbols[i + 1..];
  }

  // ------------------------------------------------- what the rounds guarantee

  /** Merging stops only when no adjacent pair has a rank. */
  lemma {:induction false} RoundsEndIrreducible(ranks: Ranks, symbols: seq<string>)
    ensures Irreducible(ranks, MergeInRounds(ranks, symbols))
    decreases |symbols|
  {
    match Best(ranks, symbols)
    case None =>
    case Some(i) =>
      var p := (symbols[i], symbols[i + 1]);
      MergeEveryShrinks(symbols, p, i);
      RoundsEndIrreducible(ranks, MergeEvery(symbols, p));
  }

  lemma {:induction false} MergeEveryKeepsText(symbols: seq<string>, p: Pair)
    ensures Concat(MergeEvery(symbols, p)) == Concat(symbols)
    ensures NonEmptySymbols(symbols) ==> NonEmptySymbols(MergeEvery(symbols, p))
  {
    if symbols == [] {
    } else if StartsWithPair(symbols, p) {
      MergeEveryKeepsText(symbols[2..], p);
      assert symbols[1..][1..] == symbols[2..];
      Regroup(symbols[0], symbols[1], Concat(symbols[2..]));
    } else {
      MergeEveryKeepsText(symbols[1..], p);
    }
  }

  /** No character is lost, added or moved. */
  lemma {:induction false} RoundsKeepText(ranks: Ranks, symbols: seq<string>)
    ensures Concat(MergeInRounds(ranks, symbols)) == Concat(symbols)
    ensures NonEmptySymbols(symbols) ==> NonEmptySymbols(MergeInRounds(ranks, symbols))
    decreases |symbols|
  {
    match Best(ranks, symbols)
    case None =>
    case Some(i) =>
      var p := (symbols[i], symbols[i + 1]);
      MergeEveryShrinks(symbols, p, i);
      MergeEveryKeepsText(symbols, p);
      RoundsKeepText(ranks, MergeEvery(symbols, p));
  }

  // ------------------------------------------------- rounds refine single steps

  predicate OccursAt(symbols: seq<string>, p: Pair, i: nat) {
    i + 1 < |symbols| && (symbols[i], symbols[i + 1]) == p
  }

  ghost predicate FirstOccurrence(symbols: seq<string>, p: Pair, i: nat) {
    OccursAt(symbols, p, i) && forall j: nat :: j < i ==> !OccursAt(symbols, p, j)
  }

  /** No adjacent pair ranks below `k`. */
  ghost predicate NoneBelow(ranks: Ranks, symbols: seq<string>, k: nat) {
    forall j: nat :: RankAt(ranks, symbols, j).Some? ==> k <= RankAt(ranks, symbols, j).value
  }

  /** A stretch in which `p` does not start is copied by the scan. */
  lemma {:induction false} ScanSkips(symbols: seq<string>, p: Pair, n: nat)
    requires n <= |symbols|
    requires forall j: nat :: j < n ==> !OccursAt(symbols, p, j)
    ensures MergeEvery(symbols, p) == symbols[..n] + MergeEvery(symbols[n..], p)
  {
    if n == 0 {
      assert symbols[0..] == symbols;
    } else {
      assert !OccursAt(symbols, p, 0);
      forall j: nat | j < n - 1 ensures !OccursAt(symbols[1..], p, j) {
        assert !OccursAt(symbols, p, j + 1);
      }
      ScanSkips(symbols[1..], p, n - 1);
      var after := MergeEvery(symbols[n..], p);
      assert symbols[1..][n - 1..] == symbols[n..];
      assert [symbols[0]] + (symbols[1..][..n - 1] + after) == symbols[..n] + after;
    }
  }

  /** Merging the leftmost occurrence first does not change what the scan yields:
      the product cannot be part of another occurrence. */
  lemma MergeAtFirstThenScan(symbols: seq<string>, p: Pair, i: nat)
    requires p.0 != "" && p.1 != "" && FirstOccurrence(symbols, p, i)
    ensures MergeEvery(MergeAt(symbols, i), p) == MergeEvery(symbols, p)
  {
    var merged := MergeAt(symbols, i);
    ScanSkips(symbols, p, i);
    assert symbols[i..][2..] == symbols[i + 2..];
    forall j: nat | j < i + 1 ensures !OccursAt(merged, p, j) {
      if j + 1 < i {
        assert !OccursAt(symbols, p, j);
      }
    }
    ScanSkips(merged, p, i + 1);
    assert merged[i + 1..] == symbols[i + 2..];
    assert merged[..i + 1] == symbols[..i] + [p.0 + p.1];
  }

  lemma MergeAtKeepsNoneBelow(ranks: Ranks, symbols: seq<string>, p: Pair, i: nat)
    requires JunctionsOrdered(ranks) && p in ranks && NonEmptySymbols(symbols)
    requires FirstOccurrence(symbols, p, i) && NoneBelow(ranks, symbols, ranks[p])
    ensures NoneBelow(ranks, MergeAt(symbols, i), ranks[p]) && NonEmptySymbols(MergeAt(symbols, i))
  {
    var merged := MergeAt(symbols, i);
    assert p == (symbols[i], symbols[i + 1]);
    forall j: nat | RankAt(ranks, merged, j).Some?
      ensures ranks[p] <= RankAt(ranks, merged, j).value
    {
      var q := (merged[j], merged[j + 1]);
      if j + 1 < i {
        assert RankAt(ranks, symbols, j).Some?;
      } else if j > i {
        assert RankAt(ranks, symbols, j + 1).Some?;
      } else if ranks[q] < ranks[p] {
        JunctionStood(ranks, symbols, p, q, i, j);
      }
    }
  }

  /** The pair displaced by merging at `i` was in the list. */
  lemma JunctionStood(ranks: Ranks, symbols: seq<string>, p: Pair, q: Pair, i: nat, j: nat)
    requires JunctionsOrdered(ranks) && p in ranks && q in ranks && NonEmptySymbols(symbols)
    requires FirstOccurrence(symbols, p, i) && NoneBelow(ranks, symbols, ranks[p])
    requires i <= j + 1 && j <= i && j + 1 < |MergeAt(symbols, i)|
    requires q == (MergeAt(symbols, i)[j], MergeAt(symbols, i)[j + 1])
    ensures ranks[p] <= ranks[q]
  {
    assert NonEmptyPair(p) && NonEmptyPair(q);
    assert ranks[q] < ranks[p] ==> JunctionOrdered(ranks, p, q);
    if j == i {
      assert (symbols[i + 1], symbols[i + 2]) == (p.1, q.1);
      NotBelow(ranks, symbols, p, i + 1);
    } else {
      assert (symbols[i - 1], symbols[i]) == (q.0, p.0) && !OccursAt(symbols, p, i - 1);
      NotBelow(ranks, symbols, p, i - 1);
    }
  }

  lemma NotBelow(ranks: Ranks, symbols: seq<string>, p: Pair, i: nat)
    requires p in ranks && NoneBelow(ranks, symbols, ranks[p]) && i + 1 < |symbols|
    ensures !Below(ranks, (symbols[i], symbols[i + 1]), p)
  {
    assert RankAt(ranks, symbols, i).Some? ==> ranks[p] <= RankAt(ranks, symbols, i).value;
  }

  /** While `p` is the best pair, single steps work off exactly its occurrences. */
  lemma {:induction false} OneRoundIsSingleSteps(ranks: Ranks, symbols: seq<string>, p: Pair) returns (n: nat)
    requires DistinctRanks(ranks) && JunctionsOrdered(ranks) && NonEmptySymbols(symbols)
    requires p in ranks && NonEmptyPair(p) && NoneBelow(ranks, symbols, ranks[p])
    ensures Steps(ranks, symbols, n) == MergeEvery(symbols, p)
    decreases |symbols|
  {
    if i: nat :| FirstOccurrence(symbols, p, i) {
      assert IsBest(ranks, symbols, i) by {
        assert RankAt(ranks, symbols, i) == Some(ranks[p]);
        forall j: nat | RankAt(ranks, symbols, j).Some? && RankAt(ranks, symbols, j).value == ranks[p]
          ensures i <= j
        {
          assert OccursAt(symbols, p, j);
        }
      }
      BestIsUnique(ranks, symbols, i);
      MergeAtFirstThenScan(symbols, p, i);
      MergeAtKeepsNoneBelow(ranks, symbols, p, i);
      var more := OneRoundIsSingleSteps(ranks, MergeAt(symbols, i), p);
      n := more + 1;
    } else {
      NoFirstNoOccurrence(symbols, p, |symbols|);
      ScanSkips(symbols, p, |symbols|);
      Neutral(symbols[..|symbols|]);
      n := 0;
    }
  }

  lemma {:induction false} StepsThenTheRest(ranks: Ranks, symbols: seq<string>, n: nat)
    ensures MergeOneByOne(ranks, Steps(ranks, symbols, n)) == MergeOneByOne(ranks, symbols)
    decreases n
  {
    if n > 0 {
      match Best(ranks, symbols)
      case None =>
      case Some(i) => StepsThenTheRest(ranks, MergeAt(symbols, i), n - 1);
    }
  }

  lemma {:induction false} NoFirstNoOccurrence(symbols: seq<string>, p: Pair, n: nat)
    requires forall i: nat :: !FirstOccurrence(symbols, p, i)
    ensures forall j: nat :: j < n ==> !OccursAt(symbols, p, j)
  {
    if n > 0 {
      NoFirstNoOccurrence(symbols, p, n - 1);
      assert !FirstOccurrence(symbols, p, n - 1);
    }
  }

  /** Merging a whole round at once gives exactly what merging one best pair at
      a time gives, for every list of symbols and every table whose junctions are
      ordered, such as one in which a pair built from a product ranks after the
      product. The condition is exact for the rounds, as shown below; results can
      agree without it, when the two ways meet again. */
  lemma {:induction false} BatchedMergingIsOneByOne(ranks: Ranks, symbols: seq<string>)
    requires DistinctRanks(ranks) && JunctionsOrdered(ranks) && NonEmptySymbols(symbols)
    ensures MergeInRounds(ranks, symbols) == MergeOneByOne(ranks, symbols)
    decreases |symbols|
  {
    match Best(ranks, symbols)
    case None =>
    case Some(i) =>
      var p := (symbols[i], symbols[i + 1]);
      MergeEveryShrinks(symbols, p, i);
      MergeEveryKeepsText(symbols, p);
      var n := OneRoundIsSingleSteps(ranks, symbols, p);
      StepsThenTheRest(ranks, symbols, n);
      BatchedMergingIsOneByOne(ranks, MergeEvery(symbols, p));
  }

  // ------------------------------------------------------- the exact condition

  /** The first round leaves what some number of single steps leave. */
  ghost predicate RoundIsRun(ranks: Ranks, symbols: seq<string>) {
    match Best(ranks, symbols)
    case None => true
    case Some(i) => exists n :: Steps(ranks, symbols, n) == MergeEvery(symbols, (symbols[i], symbols[i + 1]))
  }

  /** Every round of every list is a run of single steps exactly when the junctions
      are ordered. */
  lemma RoundsAreRunsIff(ranks: Ranks)
    requires DistinctRanks(ranks)
    ensures JunctionsOrdered(ranks) <==> forall symbols :: NonEmptySymbols(symbols) ==> RoundIsRun(ranks, symbols)
  {
    if JunctionsOrdered(ranks) {
      forall symbols | NonEmptySymbols(symbols) ensures RoundIsRun(ranks, symbols) {
        match Best(ranks, symbols)
        case None =>
        case Some(i) =>
          var n := OneRoundIsSingleSteps(ranks, symbols, (symbols[i], symbols[i + 1]));
      }
    } else {
      var p, q :| p in ranks && q in ranks && NonEmptyPair(p) && NonEmptyPair(q) && ranks[q] < ranks[p] &&
        !JunctionOrdered(ranks, p, q);
      var z := FreshSymbol(ranks);
      if q.0 == p.0 + p.1 && !Below(ranks, (p.1, q.1), p) {
        ProductOnTheLeft(ranks, p, q, z);
      } else {
        ProductOnTheRight(ranks, p, q, z);
      }
    }
  }

  lemma {:induction false} LengthBound(strings: set<string>) returns (n: nat)
    ensures forall s :: s in strings ==> |s| < n
  {
    n := 1;
    if s :| s in strings {
      var m := LengthBound(strings - {s});
      n := if m > |s| then m else |s| + 1;
    }
  }

  /** A symbol no pair of the table has. */
  lemma FreshSymbol(ranks: Ranks) returns (z: string)
    ensures z != "" && forall p :: p in ranks ==> p.0 != z && p.1 != z
  {
    var n := LengthBound((set p | p in ranks :: p.0) + (set p | p in ranks :: p.1));
    z := seq(n + 1, _ => 'z');
    forall p | p in ranks ensures |p.0| < n && |p.1| < n {
      assert p.0 in (set p | p in ranks :: p.0) && p.1 in (set p | p in ranks :: p.1);
    }
  }

  /** Further steps do not get back to a list as long. */
  lemma {:induction false} StepsShrink(ranks: Ranks, symbols: seq<string>, n: nat)
    ensures |Steps(ranks, symbols, n)| <= |symbols|
    ensures |Steps(ranks, symbols, n)| == |symbols| ==> Steps(ranks, symbols, n) == symbols
    decreases n
  {
    if n > 0 {
      match Best(ranks, symbols)
      case None =>
      case Some(i) => StepsShrink(ranks, MergeAt(symbols, i), n - 1);
    }
  }

  /** Two steps from a list lead to `third`, so none leads to another list as long. */
  lemma NotOnTheWay(ranks: Ranks, first: seq<string>, i: nat, second: seq<string>, j: nat, third: seq<string>, n: nat)
    requires IsBest(ranks, first, i) && second == MergeAt(first, i)
    requires IsBest(ranks, second, j) && third == MergeAt(second, j)
    ensures |Steps(ranks, first, n)| == |third| ==> Steps(ranks, first, n) == third
  {
    BestIsUnique(ranks, first, i);
    BestIsUnique(ranks, second, j);
    if n >= 2 {
      StepsShrink(ranks, third, n - 2);
    }
  }

  lemma ProductOnTheLeft(ranks: Ranks, p: Pair, q: Pair, z: string)
    requires p in ranks && q in ranks && NonEmptyPair(p) && NonEmptyPair(q) && ranks[q] < ranks[p]
    requires q.0 == p.0 + p.1 && !Below(ranks, (p.1, q.1), p)
    requires z != "" && forall d :: d in ranks ==> d.0 != z && d.1 != z
    ensures exists symbols :: NonEmptySymbols(symbols) && !RoundIsRun(ranks, symbols)
  {
    var first := [p.0, p.1, q.1, z, p.0, p.1];
    var second, third, round := [q.0, q.1, z, p.0, p.1], [q.0 + q.1, z, p.0, p.1], [q.0, q.1, z, q.0];
    assert RankAt(ranks, first, 0) == Some(ranks[p]) && IsBest(ranks, first, 0);
    assert RankAt(ranks, second, 0) == Some(ranks[q]) && IsBest(ranks, second, 0);
    assert MergeAt(first, 0) == second && MergeAt(second, 0) == third;
    BestIsUnique(ranks, first, 0);
    ScanOfLeft(p, q.1, z);
    forall n ensures Steps(ranks, first, n) != round {
      NotOnTheWay(ranks, first, 0, second, 0, third, n);
      assert third[0] != round[0];
    }
    assert NonEmptySymbols(first) && !RoundIsRun(ranks, first);
  }

  lemma ScanOfLeft(p: Pair, x: string, z: string)
    requires p.0 != z && p.1 != z
    ensures MergeEvery([p.0, p.1, x, z, p.0, p.1], p) == [p.0 + p.1, x, z, p.0 + p.1]
  {
    var s := [p.0, p.1, x, z, p.0, p.1];
    assert s[2..] == [x, z, p.0, p.1] && s[2..][1..] == [z, p.0, p.1] && s[2..][1..][1..] == [p.0, p.1];
    assert [p.0, p.1][2..] == [];
    assert MergeEvery([p.0, p.1], p) == [p.0 + p.1];
    assert MergeEvery([z, p.0, p.1], p) == [z, p.0 + p.1];
    assert MergeEvery([x, z, p.0, p.1], p) == [x, z, p.0 + p.1];
  }

  lemma ProductOnTheRight(ranks: Ranks, p: Pair, q: Pair, z: string)
    requires DistinctRanks(ranks) && p in ranks && q in ranks && NonEmptyPair(p) && NonEmptyPair(q)
    requires ranks[q] < ranks[p] && q.1 == p.0 + p.1 && !Below(ranks, (q.0, p.0), p) && (q.0, p.0) != p
    requires z != "" && forall d :: d in ranks ==> d.0 != z && d.1 != z
    ensures exists symbols :: NonEmptySymbols(symbols) && !RoundIsRun(ranks, symbols)
  {
    var first := [q.0, p.0, p.1, z, p.0, p.1];
    var second, third, round := [q.0, q.1, z, p.0, p.1], [q.0 + q.1, z, p.0, p.1], [q.0, q.1, z, q.1];
    assert RankAt(ranks, first, 1) == Some(ranks[p]) && IsBest(ranks, first, 1);
    assert RankAt(ranks, second, 0) == Some(ranks[q]) && IsBest(ranks, second, 0);
    assert MergeAt(first, 1) == second && MergeAt(second, 0) == third;
    BestIsUnique(ranks, first, 1);
    ScanOfRight(p, q.0, z);
    forall n ensures Steps(ranks, first, n) != round {
      NotOnTheWay(ranks, first, 1, second, 0, third, n);
      assert third[0] != round[0];
    }
    assert NonEmptySymbols(first) && !RoundIsRun(ranks, first);
  }

  lemma ScanOfRight(p: Pair, x: string, z: string)
    requires p.0 != z && p.1 != z && (x, p.0) != p
    ensures MergeEvery([x, p.0, p.1, z, p.0, p.1], p) == [x, p.0 + p.1, z, p.0 + p.1]
  {
    var s := [x, p.0, p.1, z, p.0, p.1];
    assert s[1..] == [p.0, p.1, z, p.0, p.1] && s[1..][2..] == [z, p.0, p.1] && s[1..][2..][1..] == [p.0, p.1];
    assert [p.0, p.1][2..] == [];
    assert MergeEvery([p.0, p.1], p) == [p.0 + p.1];
    assert MergeEvery([z, p.0, p.1], p) == [z, p.0 + p.1];
    assert MergeEvery(s[1..], p) == [p.0 + p.1, z, p.0 + p.1];
  }

  const OUT_OF_ORDER: Ranks := map[("ab", "a") := 0, ("a", "b") := 1]

  /** The order of the table matters: with ("ab", "a") ranked before ("a", "b"),
      one round takes both occurrences of ("a", "b") where single steps merge
      "ab" with the second "a" first. */
  lemma OutOfOrderTableDiffers()
    ensures DistinctRanks(OUT_OF_ORDER) && !JunctionsOrdered(OUT_OF_ORDER)
    ensures MergeInRounds(OUT_OF_ORDER, ["a", "b", "a", "b"]) == ["ab", "ab"]
    ensures MergeOneByOne(OUT_OF_ORDER, ["a", "b", "a", "b"]) == ["aba", "b"]
  {
    assert "a" + "b" == "ab" && "ab" + "a" == "aba";
    assert !JunctionOrdered(OUT_OF_ORDER, ("a", "b"), ("ab", "a"));
    OutOfOrderRound("a", "b", "ab");
    OutOfOrderSteps("a", "b", "ab", "aba");
  }

  lemma OutOfOrderRound(a: string, b: string, ab: string)
    requires a == "a" && b == "b" && ab == "ab" && a + b == ab
    ensures MergeInRounds(OUT_OF_ORDER, [a, b, a, b]) == [ab, ab]
  {
    var start := [a, b, a, b];
    assert RankAt(OUT_OF_ORDER, start, 0) == Some(1);
    BestIsUnique(OUT_OF_ORDER, start, 0);
    assert start[2..] == [a, b] && start[2..][2..] == [];
    assert MergeEvery(start, (a, b)) == [ab, ab];
    assert Irreducible(OUT_OF_ORDER, [ab, ab]);
  }

  lemma OutOfOrderSteps(a: string, b: string, ab: string, aba: string)
    requires a == "a" && b == "b" && ab == "ab" && aba == "aba" && a + b == ab && ab + a == aba
    ensures MergeOneByOne(OUT_OF_ORDER, [a, b, a, b]) == [aba, b]
  {
    var start, next := [a, b, a, b], [ab, a, b];
    assert RankAt(OUT_OF_ORDER, start, 0) == Some(1);
    BestIsUnique(OUT_OF_ORDER, start, 0);
    assert MergeAt(start, 0) == next;
    assert RankAt(OUT_OF_ORDER, next, 0) == Some(0);
    BestIsUnique(OUT_OF_ORDER, next, 0);
    assert MergeAt(next, 0) == [aba, b];
    assert Irreducible(OUT_OF_ORDER, [aba, b]);
    assert MergeOneByOne(OUT_OF_ORDER, next) == [aba, b];
  }
}
