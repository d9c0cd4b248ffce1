/** A backtracking matcher for the regular expressions the pre-tokenizer is
    described with: character classes, greedy repetition, sequence, ordered
    choice and negative lookahead. `Ends` lists every way to match at a position
    in the order a backtracking engine tries them; the match is the first. */
module Regex {
  import opened Wrappers

  type Class = char -> bool

  datatype Regex =
    | Repeat(cls: Class, min: nat, max: Option<nat>)
    | Then(first: Regex, second: Regex)
    | Or(first: Regex, second: Regex)
    | NotBefore(cls: Class)

  function Plus(cls: Class): Regex { Repeat(cls, 1, None) }

  function Star(cls: Class): Regex { Repeat(cls, 0, None) }

  function Maybe(cls: Class): Regex { Repeat(cls, 0, Some(1)) }

  function One(cls: Class): Regex { Repeat(cls, 1, Some(1)) }

  /** Where a run of at most `max` characters of the class ends. */
  function CappedRun(cls: Class, text: string, i: nat, max: nat): (end: nat)
    requires i <= |text|
    ensures i <= end <= |text| && end - i <= max
    ensures forall j :: i <= j < end ==> cls(text[j])
    ensures end < |text| && end - i < max ==> !cls(text[end])
    decreases max
  {
    if max > 0 && i < |text| && cls(text[i]) then CappedRun(cls, text, i + 1, max - 1) else i
  }

  /** Where the run of characters of the class ends. */
  function Run(cls: Class, text: string, i: nat): (end: nat)
    requires i <= |text|
    ensures i <= end <= |text|
    ensures forall j :: i <= j < end ==> cls(text[j])
    ensures end < |text| ==> !cls(text[end])
  {
    CappedRun(cls, text, i, |text| - i)
  }

  /** high, high - 1, ..., low; empty when low exceeds high. */
  function Downward(high: nat, low: nat): (s: seq<nat>)
    ensures |s| == if low <= high then high - low + 1 else 0
    ensures forall k :: 0 <= k < |s| ==> s[k] == high - k
  {
    if low <= high then seq(high - low + 1, k requires 0 <= k <= high - low => high - k) else []
  }

  predicate Within(ends: seq<nat>, low: nat, high: nat) {
    forall k :: 0 <= k < |ends| ==> low <= ends[k] <= high
  }

  function Ends(r: Regex, text: string, i: nat): (ends: seq<nat>)
    requires i <= |text|
    ensures Within(ends, i, |text|)
    decreases r, 0
  {
    match r
    case Repeat(cls, min, max) =>
      Downward(if max.None? then Run(cls, text, i) else CappedRun(cls, text, i, max.value), i + min)
    case Then(first, second) => EndsAfter(second, text, i, Ends(first, text, i))
    case Or(first, second) => Ends(first, text, i) + Ends(second, text, i)
    case NotBefore(cls) => if i < |text| && cls(text[i]) then [] else [i]
  }

  function EndsAfter(r: Regex, text: string, i: nat, starts: seq<nat>): (ends: seq<nat>)
    requires i <= |text| && Within(starts, i, |text|)
    ensures Within(ends, i, |text|)
    decreases r, 1 + |starts|
  {
    if starts == [] then []
    else Ends(r, text, starts[0]) + EndsAfter(r, text, i, starts[1..])
  }

  /** Where the match of `r` at `i` ends, if there is one. */
  function Match(r: Regex, text: string, i: nat): (end: Option<nat>)
    requires i <= |text|
    ensures end.Some? ==> i <= end.value <= |text|
  {
    var ends := Ends(r, text, i);
    if ends == [] then None else Some(ends[0])
  }

  /** A sequence matches through the first way its head matches from which its
      tail matches too. */
  lemma {:induction false} MatchAfter(r: Regex, text: string, i: nat, starts: seq<nat>, k: nat)
    requires i <= |text| && Within(starts, i, |text|)
    requires k < |starts| && Match(r, text, starts[k]).Some?
    requires forall j :: 0 <= j < k ==> Match(r, text, starts[j]).None?
    ensures var ends := EndsAfter(r, text, i, starts);
            ends != [] && ends[0] == Match(r, text, starts[k]).value
    decreases starts
  {
    if k > 0 {
      assert Match(r, text, starts[0]).None?;
      MatchAfter(r, text, i, starts[1..], k - 1);
    }
  }

  lemma {:induction false} NoMatchAfter(r: Regex, text: string, i: nat, starts: seq<nat>)
    requires i <= |text| && Within(starts, i, |text|)
    requires forall j :: 0 <= j < |starts| ==> Match(r, text, starts[j]).None?
    ensures EndsAfter(r, text, i, starts) == []
    decreases starts
  {
    if starts != [] {
      assert Match(r, text, starts[0]).None?;
      NoMatchAfter(r, text, i, starts[1..]);
    }
  }

  lemma MatchOr(a: Regex, b: Regex, text: string, i: nat)
    requires i <= |text|
    ensures Match(Or(a, b), text, i) == if Match(a, text, i).Some? then Match(a, text, i) else Match(b, text, i)
  {
  }

  /** The match of a greedy repetition. */
  lemma MatchRepeat(cls: Class, min: nat, max: Option<nat>, text: string, i: nat)
    requires i <= |text|
    ensures var end := if max.None? then Run(cls, text, i) else CappedRun(cls, text, i, max.value);
            Match(Repeat(cls, min, max), text, i) == if i + min <= end then Some(end) else None
  {
  }

  /** A greedy repetition followed by `tail`: the longest run from which `tail` matches. */
  lemma MatchRepeatThen(cls: Class, min: nat, tail: Regex, text: string, i: nat, at: nat)
    requires i <= |text| && i + min <= at <= Run(cls, text, i)
    requires Match(tail, text, at).Some?
    requires forall e: nat :: at < e <= Run(cls, text, i) ==> Match(tail, text, e).None?
    ensures Match(Then(Repeat(cls, min, None), tail), text, i) == Match(tail, text, at)
  {
    var high := Run(cls, text, i);
    var starts := Ends(Repeat(cls, min, None), text, i);
    assert starts == Downward(high, i + min);
    MatchAfter(tail, text, i, starts, high - at);
  }

  lemma NoMatchRepeatThen(cls: Class, min: nat, tail: Regex, text: string, i: nat)
    requires i <= |text|
    requires forall e: nat :: i + min <= e <= Run(cls, text, i) ==> Match(tail, text, e).None?
    ensures Match(Then(Repeat(cls, min, None), tail), text, i).None?
  {
    var starts := Ends(Repeat(cls, min, None), text, i);
    assert starts == Downward(Run(cls, text, i), i + min);
    NoMatchAfter(tail, text, i, starts);
  }

  /** An optional character followed by `tail`: with it if possible, else without. */
  lemma MatchMaybeThen(cls: Class, tail: Regex, text: string, i: nat)
    requires i <= |text|
    ensures Match(Then(Maybe(cls), tail), text, i) ==
            if i < |text| && cls(text[i]) && Match(tail, text, i + 1).Some?
            then Match(tail, text, i + 1) else Match(tail, text, i)
  {
    var starts := Ends(Maybe(cls), text, i);
    var taken := i < |text| && cls(text[i]);
    assert CappedRun(cls, text, i, 1) == if taken then i + 1 else i;
    assert starts == if taken then [i + 1, i] else [i];
    assert starts[0] == i || starts[1..] == [i];
    if taken && Match(tail, text, i + 1).Some? {
      MatchAfter(tail, text, i, starts, 0);
    } else if Match(tail, text, i).Some? {
      MatchAfter(tail, text, i, starts, |starts| - 1);
    } else {
      NoMatchAfter(tail, text, i, starts);
    }
  }

  /** One character of a class, then `tail`. */
  lemma MatchOneThen(cls: Class, tail: Regex, text: string, i: nat)
    requires i <= |text|
    ensures Match(Then(One(cls), tail), text, i) ==
            if i < |text| && cls(text[i]) then Match(tail, text, i + 1) else None
  {
    var starts := Ends(One(cls), text, i);
    var taken := i < |text| && cls(text[i]);
    assert CappedRun(cls, text, i, 1) == if taken then i + 1 else i;
    assert starts == if taken then [i + 1] else [];
    if taken && Match(tail, text, i + 1).Some? {
      MatchAfter(tail, text, i, starts, 0);
    } else {
      NoMatchAfter(tail, text, i, starts);
    }
  }
}
