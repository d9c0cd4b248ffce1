/** The integer dot product of two 32-byte blocks as three vector kernels compute
    it. Vectors are sequences of lanes; every instruction that can wrap does. */
module Q8Dot {
  import opened Q8Format

  /** The quants of a block: any signed bytes, -128 included. */
  type Quants = q: seq<int> | |q| == BLOCK_VALUES && AllWithin(q, -128, 127) witness seq(32, _ => 0)

  predicate AllWithin(s: seq<int>, low: int, high: int) {
    forall k :: 0 <= k < |s| ==> low <= s[k] <= high
  }

  predicate Bounded(s: seq<int>, m: int) {
    AllWithin(s, -m, m)
  }

  // ---------------------------------------------------------- the plain product

  function Sum(s: seq<int>): int {
    if s == [] then 0 else s[0] + Sum(s[1..])
  }

  function Products(a: seq<int>, b: seq<int>): (p: seq<int>)
    requires |a| == |b|
    ensures |p| == |a|
  {
    if a == [] then [] else [a[0] * b[0]] + Products(a[1..], b[1..])
  }

  function Dot(w: Quants, i: Quants): int {
    Sum(Products(w, i))
  }

  // ------------------------------------------------------------- instructions

  /** Two's complement of 32 and of 16 bits. */
  function Wrap32(x: int): int {
    (x + 0x8000_0000) % 0x1_0000_0000 - 0x8000_0000
  }

  function Wrap16(x: int): int {
    (x + 0x8000) % 0x1_0000 - 0x8000
  }

  function Lanes32(s: seq<int>): (r: seq<int>)
    ensures |r| == |s|
  {
    seq(|s|, k requires 0 <= k < |s| => Wrap32(s[k]))
  }

  function Lanes16(s: seq<int>): (r: seq<int>)
    ensures |r| == |s|
  {
    seq(|s|, k requires 0 <= k < |s| => Wrap16(s[k]))
  }

  function Added(a: seq<int>, b: seq<int>): (r: seq<int>)
    requires |a| == |b|
    ensures |r| == |a|
  {
    if a == [] then [] else [a[0] + b[0]] + Added(a[1..], b[1..])
  }

  /** Sums of adjacent groups of `n`. */
  function Groups(p: seq<int>, n: nat): seq<int>
    requires n > 0
  {
    if |p| < n then [] else [Sum(p[..n])] + Groups(p[n..], n)
  }

  /** VPMADDWD: sixteen products, added in pairs. */
  function Madd(a: seq<int>, b: seq<int>): seq<int>
    requires |a| == |b| == 16
  {
    Lanes32(Groups(Products(a, b), 2))
  }

  function Add32(a: seq<int>, b: seq<int>): (r: seq<int>)
    requires |a| == |b|
    ensures |r| == |a|
  {
    Lanes32(Added(a, b))
  }

  /** SDOT: four products added to each of four lanes. */
  function Sdot(acc: seq<int>, w: seq<int>, i: seq<int>): seq<int>
    requires |acc| == 4 && |w| == |i| == 16
  {
    GroupCount(Products(w, i), 4, 4);
    Add32(acc, Groups(Products(w, i), 4))
  }

  /** VMULL then VPADDL: eight 16-bit products, added in pairs to 32 bits. */
  function MulPairs(w: seq<int>, i: seq<int>): seq<int>
    requires |w| == |i| == 8
  {
    Lanes32(Groups(Lanes16(Products(w, i)), 2))
  }

  lemma {:induction false} GroupCount(p: seq<int>, n: nat, count: nat)
    requires n > 0 && |p| == n * count
    ensures |Groups(p, n)| == count
    decreases count
  {
    if count > 0 {
      assert |p| == n * (count - 1) + n;
      GroupCount(p[n..], n, count - 1);
    }
  }

  /** Upper half onto lower, then halves of that swapped, then neighbours. */
  function HorizontalSum8(acc: seq<int>): int
    requires |acc| == 8
  {
    var four := Add32(acc[..4], acc[4..]);
    var two := Add32(four, [four[2], four[3], four[0], four[1]]);
    var one := Add32(two, [two[1], two[0], two[3], two[2]]);
    one[0]
  }

  function HorizontalSum4(acc: seq<int>): int {
    Wrap32(Sum(acc))
  }

  // ----------------------------------------------------------------- kernels

  function BlockAvx2(w: Quants, i: Quants): int {
    GroupCount(Products(w[..16], i[..16]), 2, 8);
    GroupCount(Products(w[16..], i[16..]), 2, 8);
    HorizontalSum8(Add32(Madd(w[..16], i[..16]), Madd(w[16..], i[16..])))
  }

  function BlockDotprod(w: Quants, i: Quants): int {
    var low := Sdot([0, 0, 0, 0], w[..16], i[..16]);
    HorizontalSum4(Sdot(low, w[16..], i[16..]))
  }

  function AddPairs(acc: seq<int>, w: seq<int>, i: seq<int>): (r: seq<int>)
    requires |acc| == 4 && |w| == |i| == 8
    ensures |r| == 4
  {
    GroupCount(Lanes16(Products(w, i)), 2, 4);
    Add32(acc, MulPairs(w, i))
  }

  function BlockNeonMul(w: Quants, i: Quants): int {
    var a := AddPairs([0, 0, 0, 0], w[..8], i[..8]);
    var b := AddPairs(a, w[8..16], i[8..16]);
    var c := AddPairs(b, w[16..24], i[16..24]);
    HorizontalSum4(AddPairs(c, w[24..], i[24..]))
  }

  // ---------------------------------------------------------------- exactness

  lemma {:induction false} SumConcat(a: seq<int>, b: seq<int>)
    ensures Sum(a + b) == Sum(a) + Sum(b)
  {
    if a == [] {
      assert [] + b == b;
    } else {
      assert (a + b)[1..] == a[1..] + b;
      SumConcat(a[1..], b);
    }
  }

  lemma {:induction false} ProductsConcat(a: seq<int>, b: seq<int>, c: seq<int>, d: seq<int>)
    requires |a| == |b| && |c| == |d|
    ensures Products(a + c, b + d) == Products(a, b) + Products(c, d)
  {
    if a == [] {
      assert [] + c == c && [] + d == d;
    } else {
      assert (a + c)[1..] == a[1..] + c && (b + d)[1..] == b[1..] + d;
      ProductsConcat(a[1..], b[1..], c, d);
    }
  }

  lemma Scaled(x: int, y: int, factor: nat)
    requires x <= y
    ensures x * factor <= y * factor
  {
  }

  lemma ProductWithin(x: int, y: int)
    requires -128 <= x <= 127 && -128 <= y <= 127
    ensures -16384 <= x * y <= 16384
  {
    if y >= 0 {
      Scaled(-128, x, y);
      Scaled(x, 127, y);
    } else {
      Scaled(-128, x, -y);
      Scaled(x, 127, -y);
      assert x * -y == -(x * y);
    }
  }

  lemma {:induction false} ProductsWithin(a: seq<int>, b: seq<int>)
    requires |a| == |b| && AllWithin(a, -128, 127) && AllWithin(b, -128, 127)
    ensures Bounded(Products(a, b), 16384)
  {
    if a != [] {
      ProductWithin(a[0], b[0]);
      ProductsWithin(a[1..], b[1..]);
    }
  }

  lemma {:induction false} SumWithin(s: seq<int>, m: int)
    requires m >= 0 && Bounded(s, m)
    ensures -(|s| * m) <= Sum(s) <= |s| * m
  {
    if s != [] {
      SumWithin(s[1..], m);
      assert |s| * m == |s[1..]| * m + m;
    }
  }

  lemma {:induction false} GroupsExact(p: seq<int>, n: nat, count: nat, m: int)
    requires n > 0 && |p| == n * count && m >= 0 && Bounded(p, m)
    ensures |Groups(p, n)| == count && Sum(Groups(p, n)) == Sum(p) && Bounded(Groups(p, n), n * m)
    decreases count
  {
    if count > 0 {
      assert |p| == n * (count - 1) + n;
      SumWithin(p[..n], m);
      GroupsExact(p[n..], n, count - 1, m);
      SumConcat(p[..n], p[n..]);
      assert p[..n] + p[n..] == p;
    }
  }

  /** No lane wraps when all fit. */
  lemma FitsInLanes(s: seq<int>)
    ensures AllWithin(s, -0x8000_0000, 0x7FFF_FFFF) ==> Lanes32(s) == s
    ensures AllWithin(s, -0x8000, 0x7FFF) ==> Lanes16(s) == s
  {
  }

  lemma {:induction false} AddedExact(a: seq<int>, b: seq<int>, m: int, n: int)
    requires |a| == |b| && Bounded(a, m) && Bounded(b, n) && m >= 0 && n >= 0
    ensures Sum(Added(a, b)) == Sum(a) + Sum(b) && Bounded(Added(a, b), m + n)
  {
    if a != [] {
      AddedExact(a[1..], b[1..], m, n);
    }
  }

  lemma AddExact(a: seq<int>, b: seq<int>, m: int, n: int)
    requires |a| == |b| && Bounded(a, m) && Bounded(b, n) && m >= 0 && n >= 0 && m + n < 0x8000_0000
    ensures Add32(a, b) == Added(a, b)
    ensures Sum(Add32(a, b)) == Sum(a) + Sum(b) && Bounded(Add32(a, b), m + n)
  {
    AddedExact(a, b, m, n);
    FitsInLanes(Added(a, b));
  }

  /** Pairs of products fit a 32-bit lane, -128 times -128 twice included. */
  lemma MaddExact(a: seq<int>, b: seq<int>)
    requires |a| == |b| == 16 && AllWithin(a, -128, 127) && AllWithin(b, -128, 127)
    ensures Madd(a, b) == Groups(Products(a, b), 2)
    ensures |Madd(a, b)| == 8 && Sum(Madd(a, b)) == Sum(Products(a, b)) && Bounded(Madd(a, b), 32768)
  {
    ProductsWithin(a, b);
    GroupsExact(Products(a, b), 2, 8, 16384);
    FitsInLanes(Groups(Products(a, b), 2));
  }

  lemma SdotExact(acc: seq<int>, w: seq<int>, i: seq<int>, m: int)
    requires |acc| == 4 && |w| == |i| == 16 && AllWithin(w, -128, 127) && AllWithin(i, -128, 127)
    requires Bounded(acc, m) && 0 <= m <= 65536
    ensures |Groups(Products(w, i), 4)| == 4 && Sdot(acc, w, i) == Added(acc, Groups(Products(w, i), 4))
    ensures |Sdot(acc, w, i)| == 4
    ensures Sum(Sdot(acc, w, i)) == Sum(acc) + Sum(Products(w, i)) && Bounded(Sdot(acc, w, i), m + 65536)
  {
    ProductsWithin(w, i);
    GroupsExact(Products(w, i), 4, 4, 16384);
    AddExact(acc, Groups(Products(w, i), 4), m, 65536);
  }

  lemma MulPairsExact(w: seq<int>, i: seq<int>)
    requires |w| == |i| == 8 && AllWithin(w, -128, 127) && AllWithin(i, -128, 127)
    ensures MulPairs(w, i) == Groups(Products(w, i), 2)
    ensures |MulPairs(w, i)| == 4 && Sum(MulPairs(w, i)) == Sum(Products(w, i)) && Bounded(MulPairs(w, i), 32768)
  {
    ProductsWithin(w, i);
    FitsInLanes(Products(w, i));
    GroupsExact(Products(w, i), 2, 4, 16384);
    FitsInLanes(Groups(Products(w, i), 2));
  }

  lemma SumOfFour(s: seq<int>)
    requires |s| == 4
    ensures Sum(s) == s[0] + s[1] + s[2] + s[3]
  {
    assert s[1..][1..] == s[2..] && s[2..][1..] == s[3..] && s[3..][1..] == [];
    assert Sum(s[3..]) == s[3] + Sum([]);
    assert Sum(s[2..]) == s[2] + Sum(s[3..]);
    assert Sum(s[1..]) == s[1] + Sum(s[2..]);
  }

  lemma AddedAt(a: seq<int>, b: seq<int>, k: nat)
    requires |a| == |b| && k < |a|
    ensures Added(a, b)[k] == a[k] + b[k]
    decreases a
  {
    if k > 0 {
      AddedAt(a[1..], b[1..], k - 1);
    }
  }

  /** The shuffles end with the sum of all eight lanes in the first. */
  lemma HorizontalSumExact(acc: seq<int>)
    requires |acc| == 8 && Bounded(acc, 65536)
    ensures HorizontalSum8(acc) == Sum(acc)
  {
    var four := Add32(acc[..4], acc[4..]);
    AddExact(acc[..4], acc[4..], 65536, 65536);
    SumConcat(acc[..4], acc[4..]);
    assert acc[..4] + acc[4..] == acc;
    SumOfFour(four);
    var swapped := [four[2], four[3], four[0], four[1]];
    AddExact(four, swapped, 131072, 131072);
    AddedAt(four, swapped, 0);
    AddedAt(four, swapped, 1);
    var two := Add32(four, swapped);
    var neighbours := [two[1], two[0], two[3], two[2]];
    AddExact(two, neighbours, 262144, 262144);
    AddedAt(two, neighbours, 0);
  }

  lemma SplitDot(w: Quants, i: Quants)
    ensures Dot(w, i) == Sum(Products(w[..16], i[..16])) + Sum(Products(w[16..], i[16..]))
  {
    ProductsConcat(w[..16], i[..16], w[16..], i[16..]);
    assert w[..16] + w[16..] == w && i[..16] + i[16..] == i;
    SumConcat(Products(w[..16], i[..16]), Products(w[16..], i[16..]));
  }

  lemma SplitHalf(w: seq<int>, i: seq<int>)
    requires |w| == |i| == 16
    ensures Sum(Products(w, i)) == Sum(Products(w[..8], i[..8])) + Sum(Products(w[8..], i[8..]))
  {
    ProductsConcat(w[..8], i[..8], w[8..], i[8..]);
    assert w[..8] + w[8..] == w && i[..8] + i[8..] == i;
    SumConcat(Products(w[..8], i[..8]), Products(w[8..], i[8..]));
  }

  lemma Avx2IsExact(w: Quants, i: Quants)
    ensures BlockAvx2(w, i) == Dot(w, i)
  {
    SplitDot(w, i);
    MaddExact(w[..16], i[..16]);
    MaddExact(w[16..], i[16..]);
    var low, high := Madd(w[..16], i[..16]), Madd(w[16..], i[16..]);
    AddExact(low, high, 32768, 32768);
    HorizontalSumExact(Add32(low, high));
  }

  lemma DotprodIsExact(w: Quants, i: Quants)
    ensures BlockDotprod(w, i) == Dot(w, i)
  {
    SplitDot(w, i);
    SumOfFour([0, 0, 0, 0]);
    SdotExact([0, 0, 0, 0], w[..16], i[..16], 0);
    var low := Sdot([0, 0, 0, 0], w[..16], i[..16]);
    SdotExact(low, w[16..], i[16..], 65536);
    FourLanesExact(Sdot(low, w[16..], i[16..]));
  }

  lemma QuarterDot(w: Quants, i: Quants)
    ensures Dot(w, i) == Sum(Products(w[..8], i[..8])) + Sum(Products(w[8..16], i[8..16]))
                       + Sum(Products(w[16..24], i[16..24])) + Sum(Products(w[24..], i[24..]))
  {
    SplitDot(w, i);
    SplitHalf(w[..16], i[..16]);
    SplitHalf(w[16..], i[16..]);
    assert w[..16][..8] == w[..8] && i[..16][..8] == i[..8] && w[..16][8..] == w[8..16] && i[..16][8..] == i[8..16];
    assert w[16..][..8] == w[16..24] && i[16..][..8] == i[16..24] && w[16..][8..] == w[24..] && i[16..][8..] == i[24..];
  }

  lemma AddPairsExact(acc: seq<int>, w: seq<int>, i: seq<int>, m: int)
    requires |acc| == 4 && Bounded(acc, m) && 0 <= m <= 98304
    requires |w| == |i| == 8 && AllWithin(w, -128, 127) && AllWithin(i, -128, 127)
    ensures Sum(AddPairs(acc, w, i)) == Sum(acc) + Sum(Products(w, i))
    ensures Bounded(AddPairs(acc, w, i), m + 32768)
  {
    MulPairsExact(w, i);
    AddExact(acc, MulPairs(w, i), m, 32768);
  }

  lemma TwoPairsExact(acc: seq<int>, w0: seq<int>, i0: seq<int>, w1: seq<int>, i1: seq<int>, m: int)
    requires |acc| == 4 && Bounded(acc, m) && 0 <= m <= 65536
    requires |w0| == |i0| == 8 && AllWithin(w0, -128, 127) && AllWithin(i0, -128, 127)
    requires |w1| == |i1| == 8 && AllWithin(w1, -128, 127) && AllWithin(i1, -128, 127)
    ensures var r := AddPairs(AddPairs(acc, w0, i0), w1, i1);
            Sum(r) == Sum(acc) + Sum(Products(w0, i0)) + Sum(Products(w1, i1)) && Bounded(r, m + 65536)
  {
    AddPairsExact(acc, w0, i0, m);
    AddPairsExact(AddPairs(acc, w0, i0), w1, i1, m + 32768);
  }

  lemma FourLanesExact(acc: seq<int>)
    requires |acc| == 4 && Bounded(acc, 131072)
    ensures HorizontalSum4(acc) == Sum(acc)
  {
    SumWithin(acc, 131072);
  }

  lemma NeonMulIsExact(w: Quants, i: Quants)
    ensures BlockNeonMul(w, i) == Dot(w, i)
  {
    QuarterDot(w, i);
    SumOfFour([0, 0, 0, 0]);
    TwoPairsExact([0, 0, 0, 0], w[..8], i[..8], w[8..16], i[8..16], 0);
    var b := AddPairs(AddPairs([0, 0, 0, 0], w[..8], i[..8]), w[8..16], i[8..16]);
    TwoPairsExact(b, w[16..24], i[16..24], w[24..], i[24..], 65536);
    FourLanesExact(AddPairs(AddPairs(b, w[16..24], i[16..24]), w[24..], i[24..]));
  }

  // ------------------------------------------------- the idiom that is not used

  /** VPSIGNB: the input with the weight's sign moved onto it; -128 negates to itself. */
  function SignedBy(w: int, i: int): int {
    if w == 0 then 0 else if w > 0 then i else if i == -128 then -128 else -i
  }

  function Abs(x: int): nat {
    if x < 0 then -x else x
  }

  /** VPMADDUBSW on that: a pair of products, added with 16-bit saturation. */
  function IdiomPair(w0: int, i0: int, w1: int, i1: int): int {
    var sum := Abs(w0) * SignedBy(w0, i0) + Abs(w1) * SignedBy(w1, i1);
    if sum < -0x8000 then -0x8000 else if sum > 0x7FFF then 0x7FFF else sum
  }

  /** A negative weight against an input that has no negation. */
  predicate Misread(w: int, i: int) {
    w < 0 && i == -128
  }

  lemma IdiomTerm(w: int, i: int)
    requires -128 <= w <= 127 && -128 <= i <= 127
    ensures !Misread(w, i) ==> Abs(w) * SignedBy(w, i) == w * i && -16256 <= w * i <= 16256
    ensures Misread(w, i) ==> Abs(w) * SignedBy(w, i) == w * i - 256 * Abs(w) && -16384 <= w * i - 256 * Abs(w) < 0
  {
    if w < 0 && i != -128 {
      Scaled(-127, i, -w);
      Scaled(i, 127, -w);
      assert -w * -i == w * i && i * -w == -(w * i);
    } else if w >= 0 {
      Scaled(-128, i, w);
      Scaled(i, 127, w);
    }
  }

  /** The cheaper idiom is right on exactly the pairs with no negative weight
      against an input of -128; what it gets wrong, saturation never reaches. */
  lemma IdiomIsExactIff(w0: int, i0: int, w1: int, i1: int)
    requires -128 <= w0 <= 127 && -128 <= i0 <= 127 && -128 <= w1 <= 127 && -128 <= i1 <= 127
    ensures IdiomPair(w0, i0, w1, i1) == w0 * i0 + w1 * i1 <==> !Misread(w0, i0) && !Misread(w1, i1)
  {
    IdiomTerm(w0, i0);
    IdiomTerm(w1, i1);
  }

  // --------------------------------------------------------------------- rows

  /** The floating-point operations of the row reduction, whatever they are: where
      the sum starts, a block's term, and one addition. */
  datatype Floats<!F> = Floats(seed: F, term: (int, F, F) -> F, add: (F, F) -> F)

  datatype Block<F> = Block(scale: F, quants: Quants)

  function Min(a: nat, b: nat): nat {
    if a < b then a else b
  }

  /** The blocks' terms added from the left, in order. */
  function RowSum<F>(fl: Floats<F>, weight: seq<Block<F>>, input: seq<Block<F>>, n: nat): F
    requires n <= |weight| && n <= |input|
  {
    if n == 0 then fl.seed
    else
      var w, i := weight[n - 1], input[n - 1];
      fl.add(RowSum(fl, weight, input, n - 1), fl.term(Dot(w.quants, i.quants), w.scale, i.scale))
  }

  /** Empty rows give the seed; each block adds one term to the sum of those before it,
      made of its product, the weight's scale and the input's, in this order. */
  lemma RowSumAddsTerms<F>(fl: Floats<F>, weight: seq<Block<F>>, input: seq<Block<F>>, n: nat)
    requires n < |weight| && n < |input|
    ensures RowSum(fl, weight, input, 0) == fl.seed
    ensures RowSum(fl, weight, input, n + 1) ==
            fl.add(RowSum(fl, weight, input, n),
                   fl.term(Sum(Products(weight[n].quants, input[n].quants)), weight[n].scale, input[n].scale))
  {
  }

  /** Rows of any lengths: the reduction over their common prefix. */
  method DotRowsAvx2<F>(fl: Floats<F>, weight: seq<Block<F>>, input: seq<Block<F>>) returns (total: F)
    ensures total == RowSum(fl, weight, input, Min(|weight|, |input|))
  {
    total := fl.seed;
    for n := 0 to Min(|weight|, |input|)
      invariant total == RowSum(fl, weight, input, n)
    {
      var w, i := weight[n], input[n];
      var product := BlockAvx2(w.quants, i.quants);
      assert product == Dot(w.quants, i.quants) by { Avx2IsExact(w.quants, i.quants); }
      total := fl.add(total, fl.term(product, w.scale, i.scale));
    }
  }

  method DotRowsDotprod<F>(fl: Floats<F>, weight: seq<Block<F>>, input: seq<Block<F>>) returns (total: F)
    ensures total == RowSum(fl, weight, input, Min(|weight|, |input|))
  {
    total := fl.seed;
    for n := 0 to Min(|weight|, |input|)
      invariant total == RowSum(fl, weight, input, n)
    {
      var w, i := weight[n], input[n];
      var product := BlockDotprod(w.quants, i.quants);
      assert product == Dot(w.quants, i.quants) by { DotprodIsExact(w.quants, i.quants); }
      total := fl.add(total, fl.term(product, w.scale, i.scale));
    }
  }

  method DotRowsNeonMul<F>(fl: Floats<F>, weight: seq<Block<F>>, input: seq<Block<F>>) returns (total: F)
    ensures total == RowSum(fl, weight, input, Min(|weight|, |input|))
  {
    total := fl.seed;
    for n := 0 to Min(|weight|, |input|)
      invariant total == RowSum(fl, weight, input, n)
    {
      var w, i := weight[n], input[n];
      var product := BlockNeonMul(w.quants, i.quants);
      assert product == Dot(w.quants, i.quants) by { NeonMulIsExact(w.quants, i.quants); }
      total := fl.add(total, fl.term(product, w.scale, i.scale));
    }
  }
}
