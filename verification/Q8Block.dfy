/** Quantizing one block of thirty-two values: the portable reference, the AVX2 and
    the NEON kernel. What the floating-point operations round to is a parameter, so
    agreement does not depend on it; comparisons and NaN are modelled. */
module Q8Block {
  import opened Q8Format
  import opened Q8Quantize

  /** The rounded operations: division by 127, the trip through f16, reciprocal and
      product. */
  datatype Arithmetic = Arithmetic(
    over127: Float -> Float, throughHalf: Float -> Float, reciprocal: Float -> Float,
    times: (Float, Float) -> Float)

  datatype Block = Block(scale: Float, quants: seq<int>)

  const ZERO := Finite(0.0)

  function Abs(x: Float): Float {
    match x
    case NaN => NaN
    case Infinite(_) => Infinite(true)
    case Finite(v) => Finite(if v < 0.0 then -v else v)
  }

  /** The ordered comparison, false if either side is NaN. */
  predicate Greater(a: Float, b: Float) {
    match (a, b)
    case (Infinite(p), Infinite(q)) => p && !q
    case (Infinite(p), Finite(_)) => p
    case (Finite(_), Infinite(q)) => !q
    case (Finite(x), Finite(y)) => x > y
    case _ => false
  }

  // ------------------------------------------------------ three kinds of maximum

  /** `f32::max`: of a number and NaN, the number. */
  function MaxNum(a: Float, b: Float): Float {
    if a.NaN? then b else if b.NaN? || Greater(a, b) then a else b
  }

  /** `VMAXPS`: the second operand unless the first is greater. */
  function MaxPs(a: Float, b: Float): Float {
    if Greater(a, b) then a else b
  }

  /** `FMAX`: NaN if either operand is. */
  function FMax(a: Float, b: Float): Float {
    if a.NaN? || b.NaN? then NaN else MaxPs(a, b)
  }

  // -------------------------------------------------------------- the reference

  /** The number of largest magnitude, or zero; NaN values are passed over. */
  function MaxAbs(values: seq<Float>): Float {
    if values == [] then ZERO else MaxNum(MaxAbs(values[..|values| - 1]), Abs(values[|values| - 1]))
  }

  function Inverse(a: Arithmetic, scale: Float): Float {
    if scale == ZERO then ZERO else a.reciprocal(scale)
  }

  /** The block that a largest magnitude gives: the scale goes through f16, the
      values are multiplied by the reciprocal of the scale before that. */
  function BlockOf(a: Arithmetic, maxAbs: Float, values: seq<Float>): Block {
    var scale := a.over127(maxAbs);
    Block(a.throughHalf(scale), Bytes(a, Inverse(a, scale), values))
  }

  function Bytes(a: Arithmetic, inverse: Float, values: seq<Float>): (bytes: seq<int>)
    ensures |bytes| == |values|
  {
    seq(|values|, i requires 0 <= i < |values| => Quant(a.times(values[i], inverse)))
  }

  function ReferenceBlock(a: Arithmetic, values: seq<Float>): Block {
    BlockOf(a, MaxAbs(values), values)
  }

  /** The scale stored is that of the largest magnitude through f16; the bytes are made
      with the reciprocal of the scale before it. */
  lemma ReferenceWrittenOut(a: Arithmetic, values: seq<Float>, j: nat)
    requires j < |values|
    ensures var scale, block := a.over127(MaxAbs(values)), ReferenceBlock(a, values);
            && block.scale == a.throughHalf(scale) && |block.quants| == |values|
            && (scale != Finite(0.0) ==> block.quants[j] == Quant(a.times(values[j], a.reciprocal(scale))))
            && (scale == Finite(0.0) ==> block.quants[j] == Quant(a.times(values[j], Finite(0.0))))
  {
  }

  /** A block of zeros gives zero bytes, whatever the reciprocal of zero is. */
  lemma ZerosStayZero(a: Arithmetic, values: seq<Float>)
    requires a.over127(Finite(0.0)) == Finite(0.0) && a.times(Finite(0.0), Finite(0.0)) == Finite(0.0)
    requires forall i :: 0 <= i < |values| ==> values[i] == Finite(0.0)
    ensures ReferenceBlock(a, values).quants == seq(|values|, _ => 0)
  {
    MaxOfZeros(values);
  }

  lemma {:induction false} MaxOfZeros(values: seq<Float>)
    requires forall i :: 0 <= i < |values| ==> values[i] == Finite(0.0)
    ensures MaxAbs(values) == Finite(0.0)
    decreases values
  {
    if values != [] {
      MaxOfZeros(values[..|values| - 1]);
    }
  }

  method QuantizeBlock(a: Arithmetic, values: seq<Float>) returns (block: Block)
    requires |values| == BLOCK_VALUES
    ensures block == ReferenceBlock(a, values)
  {
    var maxAbs := ZERO;
    for i := 0 to BLOCK_VALUES
      invariant maxAbs == MaxAbs(values[..i])
    {
      assert values[..i + 1][..i] == values[..i];
      maxAbs := MaxNum(maxAbs, Abs(values[i]));
    }
    assert values[..BLOCK_VALUES] == values;
    var scale := a.over127(maxAbs);
    var inverse := Inverse(a, scale);
    var quants := seq(BLOCK_VALUES, _ => 0);
    for i := 0 to BLOCK_VALUES
      invariant |quants| == BLOCK_VALUES && quants[..i] == Bytes(a, inverse, values)[..i]
    {
      quants := quants[i := Quant(a.times(values[i], inverse))];
    }
    assert quants[..BLOCK_VALUES] == quants;
    assert Bytes(a, inverse, values)[..BLOCK_VALUES] == Bytes(a, inverse, values);
    block := Block(a.throughHalf(scale), quants);
  }

  // ------------------------------------------------- what makes a maximum unique

  /** `m` is the greatest magnitude of the numbers among the values, or zero. */
  ghost predicate IsMax(m: Float, values: set<Float>) {
    && !m.NaN? && !Greater(ZERO, m)
    && (forall x :: x in values ==> !Greater(Abs(x), m))
    && (m == ZERO || exists x :: x in values && Abs(x) == m)
  }

  lemma MaxIsUnique(m: Float, n: Float, values: set<Float>)
    requires IsMax(m, values) && IsMax(n, values)
    ensures m == n
  {
  }

  lemma MaxOfBoth(m: Float, n: Float, a: set<Float>, b: set<Float>)
    requires IsMax(m, a) && IsMax(n, b)
    ensures IsMax(MaxPs(m, n), a + b) && MaxNum(m, n) == MaxPs(m, n)
  {
  }

  /** `VMAXPS` keeps its first operand if the second is not greater; a magnitude with
      NaN made zero is the maximum of its value alone. */
  function AbsOrZero(x: Float): Float {
    if x.NaN? then ZERO else Abs(x)
  }

  lemma MaxOfOne(x: Float)
    ensures IsMax(AbsOrZero(x), {x})
  {
  }

  /** The values whose position is `lane` modulo `width`. */
  ghost function Strided(values: seq<Float>, width: nat, lane: nat): set<Float>
    requires width > 0
  {
    set i | 0 <= i < |values| && i % width == lane :: values[i]
  }

  lemma StridedByOne(values: seq<Float>)
    ensures forall x :: x in Strided(values, 1, 0) <==> x in values
  {
    forall x | x in values ensures x in Strided(values, 1, 0) {
      var i :| 0 <= i < |values| && values[i] == x;
      assert i % 1 == 0;
    }
  }

  lemma StridedHalves(values: seq<Float>, width: nat, lane: nat)
    requires lane < width
    ensures Strided(values, 2 * width, lane) + Strided(values, 2 * width, lane + width) == Strided(values, width, lane)
  {
    forall i | 0 <= i < |values|
      ensures i % width == lane <==> i % (2 * width) == lane || i % (2 * width) == lane + width
    {
      HalfOfStride(i, width);
    }
  }

  lemma HalfOfStride(i: nat, width: nat)
    requires width > 0
    ensures i % (2 * width) == i % width || i % (2 * width) == i % width + width
  {
    var q, r := i / (2 * width), i % (2 * width);
    var k := if r < width then 2 * q else 2 * q + 1;
    RemainderIs(i, width, k, if r < width then r else r - width);
  }

  lemma RemainderIs(i: nat, width: nat, k: nat, r: nat)
    requires i == width * k + r && r < width
    ensures i % width == r
  {
    var q := i / width;
    assert width * (q - k) == r - i % width;
    if q != k {
      NoMultipleBetween(width, q - k);
    }
  }

  lemma NoMultipleBetween(width: nat, n: int)
    requires n != 0
    ensures width * n >= width || width * n + width <= 0
  {
  }

  lemma {:induction false} MaxAbsIsMax(values: seq<Float>)
    ensures IsMax(MaxAbs(values), Strided(values, 1, 0))
  {
    StridedByOne(values);
    if values != [] {
      var last := |values| - 1;
      var before, x := values[..last], values[last];
      MaxAbsIsMax(before);
      StridedByOne(before);
      MaxOfOne(x);
      MaxOfBoth(MaxAbs(before), AbsOrZero(x), Strided(before, 1, 0), {x});
      assert Strided(values, 1, 0) == Strided(before, 1, 0) + {x};
    }
  }

  // ------------------------------------------------------------------ the AVX2 kernel

  /** Each lane holds the maximum of the values at its stride. */
  ghost predicate LanesAreMax(lanes: seq<Float>, values: seq<Float>) {
    |lanes| > 0 && forall l :: 0 <= l < |lanes| ==> IsMax(lanes[l], Strided(values, |lanes|, l))
  }

  function MaxLanes(a: seq<Float>, b: seq<Float>): (r: seq<Float>)
    requires |a| == |b|
    ensures |r| == |a|
  {
    seq(|a|, l requires 0 <= l < |a| => MaxPs(a[l], b[l]))
  }

  function AbsLanes(v: seq<Float>): (r: seq<Float>)
    ensures |r| == |v|
  {
    seq(|v|, l requires 0 <= l < |v| => AbsOrZero(v[l]))
  }

  /** The largest of eight lanes: halves, quarters, neighbours. */
  function HorizontalMax(v: seq<Float>): Float
    requires |v| == 8
  {
    var m4 := MaxLanes(v[..4], v[4..]);
    var m2 := MaxLanes(m4, [m4[2], m4[3], m4[0], m4[1]]);
    var m1 := MaxLanes(m2, [m2[1], m2[0], m2[3], m2[2]]);
    m1[0]
  }

  method QuantizeBlockAvx2(a: Arithmetic, values: seq<Float>) returns (block: Block)
    requires |values| == BLOCK_VALUES
    ensures block == ReferenceBlock(a, values)
  {
    var maxVec := seq(8, _ => ZERO);
    assert LanesAreMax(maxVec, values[..0]);
    for k := 0 to 4
      invariant |maxVec| == 8 && LanesAreMax(maxVec, values[..8 * k])
    {
      OneVectorMore(maxVec, values[..8 * k], values[8 * k..8 * k + 8]);
      maxVec := MaxLanes(maxVec, AbsLanes(values[8 * k..8 * k + 8]));
      assert values[..8 * k] + values[8 * k..8 * k + 8] == values[..8 * (k + 1)];
    }
    assert values[..8 * 4] == values;
    HorizontalMaxIsMax(maxVec, values);
    var scale := a.over127(HorizontalMax(maxVec));
    var inverse := Inverse(a, scale);
    var scaled := seq(BLOCK_VALUES, i requires 0 <= i < BLOCK_VALUES => a.times(values[i], inverse));
    QuantsAreBytes(a, inverse, values, scaled);
    block := Block(a.throughHalf(scale), Quants(scaled));
  }

  lemma QuantsAreBytes(a: Arithmetic, inverse: Float, values: seq<Float>, scaled: seq<Float>)
    requires |values| == |scaled| == BLOCK_VALUES
    requires forall i :: 0 <= i < BLOCK_VALUES ==> scaled[i] == a.times(values[i], inverse)
    ensures Quants(scaled) == Bytes(a, inverse, values)
  {
    EveryByteIsItsQuant(scaled, 0);
    forall j: nat | j < BLOCK_VALUES ensures Quants(scaled)[j] == Bytes(a, inverse, values)[j] {
      EveryByteIsItsQuant(scaled, j);
    }
  }

  lemma OneVectorMore(lanes: seq<Float>, before: seq<Float>, v: seq<Float>)
    requires |lanes| == |v| > 0 && |before| % |v| == 0 && LanesAreMax(lanes, before)
    ensures LanesAreMax(MaxLanes(lanes, AbsLanes(v)), before + v)
  {
    var width := |v|;
    forall l | 0 <= l < width
      ensures IsMax(MaxLanes(lanes, AbsLanes(v))[l], Strided(before + v, width, l))
    {
      StridedVector(before, v, l);
      MaxOfOne(v[l]);
      MaxOfBoth(lanes[l], AbsOrZero(v[l]), Strided(before, width, l), {v[l]});
    }
  }

  lemma StridedVector(before: seq<Float>, v: seq<Float>, lane: nat)
    requires |v| > 0 && |before| % |v| == 0 && lane < |v|
    ensures Strided(before + v, |v|, lane) == Strided(before, |v|, lane) + {v[lane]}
  {
    var width, k := |v|, |before| / |v|;
    forall i | |before| <= i < |before| + width ensures i % width == lane <==> i - |before| == lane {
      RemainderIs(i, width, k, i - |before|);
    }
    var whole := before + v;
    assert whole[|before| + lane] == v[lane] && (|before| + lane) % width == lane;
    forall x | x in Strided(whole, width, lane) ensures x in Strided(before, width, lane) + {v[lane]} {
      var i :| 0 <= i < |whole| && i % width == lane && whole[i] == x;
      assert i < |before| ==> before[i] == x;
    }
    forall x | x in Strided(before, width, lane) ensures x in Strided(whole, width, lane) {
      var i :| 0 <= i < |before| && i % width == lane && before[i] == x;
      assert whole[i] == x;
    }
  }

  lemma HorizontalMaxIsMax(v: seq<Float>, values: seq<Float>)
    requires |v| == 8 && LanesAreMax(v, values)
    ensures HorizontalMax(v) == MaxAbs(values)
  {
    var m4 := MaxLanes(v[..4], v[4..]);
    HalvedLanes(v, values, m4);
    var m2 := MaxLanes(m4, [m4[2], m4[3], m4[0], m4[1]]);
    HalvedLanes(m4, values, m2[..2]);
    var m1 := MaxLanes(m2, [m2[1], m2[0], m2[3], m2[2]]);
    HalvedLanes(m2[..2], values, m1[..1]);
    MaxAbsIsMax(values);
    MaxIsUnique(m1[0], MaxAbs(values), Strided(values, 1, 0));
  }

  lemma HalvedLanes(lanes: seq<Float>, values: seq<Float>, halved: seq<Float>)
    requires |halved| > 0 && |lanes| == 2 * |halved| && LanesAreMax(lanes, values)
    requires forall l :: 0 <= l < |halved| ==> halved[l] == MaxPs(lanes[l], lanes[l + |halved|])
    ensures LanesAreMax(halved, values)
  {
    var width := |halved|;
    forall l | 0 <= l < width ensures IsMax(halved[l], Strided(values, width, l)) {
      StridedHalves(values, width, l);
      MaxOfBoth(lanes[l], lanes[l + width], Strided(values, 2 * width, l), Strided(values, 2 * width, l + width));
    }
  }

  // ------------------------------------------------------------------ the NEON kernel

  /** The maximum, or NaN if there is one among the values. */
  ghost predicate IsMaxOrNaN(m: Float, values: set<Float>) {
    if NaN in values then m.NaN? else IsMax(m, values)
  }

  function AbsAll(v: seq<Float>): (r: seq<Float>)
    ensures |r| == |v|
  {
    seq(|v|, l requires 0 <= l < |v| => Abs(v[l]))
  }

  function FMaxLanes(a: seq<Float>, b: seq<Float>): (r: seq<Float>)
    requires |a| == |b|
    ensures |r| == |a|
  {
    seq(|a|, l requires 0 <= l < |a| => FMax(a[l], b[l]))
  }

  function Vector(values: seq<Float>, k: nat): (v: seq<Float>)
    requires 4 * k + 4 <= |values|
    ensures |v| == 4
  {
    values[4 * k..4 * k + 4]
  }

  /** The tree of lane-wise maxima over two, four and eight vectors. */
  function FMax2(values: seq<Float>, k: nat): (v: seq<Float>)
    requires 4 * k + 8 <= |values|
    ensures |v| == 4
  {
    FMaxLanes(AbsAll(Vector(values, k)), AbsAll(Vector(values, k + 1)))
  }

  function FMax4(values: seq<Float>, k: nat): (v: seq<Float>)
    requires 4 * k + 16 <= |values|
    ensures |v| == 4
  {
    FMaxLanes(FMax2(values, k), FMax2(values, k + 2))
  }

  function FMax8(values: seq<Float>): (v: seq<Float>)
    requires |values| == BLOCK_VALUES
    ensures |v| == 4
  {
    FMaxLanes(FMax4(values, 0), FMax4(values, 4))
  }

  function LastTwoLanes(v: seq<Float>): (half: seq<Float>)
    requires |v| == 4
    ensures |half| == 2
  {
    FMaxLanes(v[..2], v[2..])
  }

  function NeonMaxAbs(values: seq<Float>): Float
    requires |values| == BLOCK_VALUES
  {
    var half := LastTwoLanes(FMax8(values));
    MaxNum(half[0], half[1])
  }

  /** Clamp, round half away, cast: both comparisons keep NaN, and the cast makes it
      zero. Then two narrowings, the first of which truncates. */
  function NeonByte(x: Float): int {
    var lowered := FMax(x, Finite(-128.0));
    var clamped := if lowered.NaN? || Greater(Finite(127.0), lowered) then lowered else Finite(127.0);
    var wide := match clamped
      case Finite(v) => Saturated(RoundHalfAway(v), -0x8000_0000, 0x7FFF_FFFF)
      case Infinite(positive) => if positive then 0x7FFF_FFFF else -0x8000_0000
      case NaN => 0;
    Saturated((wide + 0x8000) % 0x1_0000 - 0x8000, -128, 127)
  }

  function NeonBlock(a: Arithmetic, values: seq<Float>): Block
    requires |values| == BLOCK_VALUES
  {
    var scale := a.over127(NeonMaxAbs(values));
    var inverse := Inverse(a, scale);
    Block(a.throughHalf(scale), seq(|values|, i requires 0 <= i < |values| => NeonByte(a.times(values[i], inverse))))
  }

  lemma NeonByteIsQuant(x: Float)
    ensures NeonByte(x) == Quant(x)
  {
  }

  lemma MaxOrNaNOfBoth(m: Float, n: Float, a: set<Float>, b: set<Float>)
    requires IsMaxOrNaN(m, a) && IsMaxOrNaN(n, b)
    ensures IsMaxOrNaN(FMax(m, n), a + b)
  {
    if NaN !in a && NaN !in b {
      MaxOfBoth(m, n, a, b);
    }
  }

  /** Each lane holds the maximum of the values at its stride, or NaN. */
  ghost predicate LanesAreMaxOrNaN(lanes: seq<Float>, values: seq<Float>) {
    |lanes| > 0 && forall l :: 0 <= l < |lanes| ==> IsMaxOrNaN(lanes[l], Strided(values, |lanes|, l))
  }

  lemma FMax2IsMax(values: seq<Float>, k: nat)
    requires 4 * k + 8 <= |values|
    ensures LanesAreMaxOrNaN(FMax2(values, k), values[4 * k..4 * k + 8])
  {
    var a, b := Vector(values, k), Vector(values, k + 1);
    OneVector(a);
    OneVector(b);
    JoinedLanes(AbsAll(a), AbsAll(b), a, b);
    assert a + b == values[4 * k..4 * k + 8];
  }

  lemma FMax4IsMax(values: seq<Float>, k: nat)
    requires 4 * k + 16 <= |values|
    ensures LanesAreMaxOrNaN(FMax4(values, k), values[4 * k..4 * k + 16])
  {
    FMax2IsMax(values, k);
    FMax2IsMax(values, k + 2);
    var a, b := values[4 * k..4 * k + 8], values[4 * k + 8..4 * k + 16];
    JoinedLanes(FMax2(values, k), FMax2(values, k + 2), a, b);
    assert a + b == values[4 * k..4 * k + 16];
  }

  lemma TwoHalves(values: seq<Float>)
    requires |values| == BLOCK_VALUES
    ensures values[4 * 0..4 * 0 + 16] + values[4 * 4..4 * 4 + 16] == values
  {
  }

  lemma FMax8IsMax(values: seq<Float>)
    requires |values| == BLOCK_VALUES
    ensures LanesAreMaxOrNaN(FMax8(values), values)
  {
    FMax4IsMax(values, 0);
    FMax4IsMax(values, 4);
    JoinedLanes(FMax4(values, 0), FMax4(values, 4), values[4 * 0..4 * 0 + 16], values[4 * 4..4 * 4 + 16]);
    TwoHalves(values);
  }

  lemma OneVector(v: seq<Float>)
    requires |v| == 4
    ensures LanesAreMaxOrNaN(AbsAll(v), v)
  {
    forall l | 0 <= l < 4 ensures IsMaxOrNaN(AbsAll(v)[l], Strided(v, 4, l)) {
      StridedVector([], v, l);
      assert [] + v == v && Strided([], 4, l) == {};
      MaxOfOne(v[l]);
    }
  }

  lemma JoinedLanes(m: seq<Float>, n: seq<Float>, a: seq<Float>, b: seq<Float>)
    requires |m| == |n| == 4 && |a| % 4 == 0 && LanesAreMaxOrNaN(m, a) && LanesAreMaxOrNaN(n, b)
    ensures LanesAreMaxOrNaN(FMaxLanes(m, n), a + b)
  {
    forall l | 0 <= l < 4 ensures IsMaxOrNaN(FMaxLanes(m, n)[l], Strided(a + b, 4, l)) {
      StridedConcat(a, b, l);
      MaxOrNaNOfBoth(m[l], n[l], Strided(a, 4, l), Strided(b, 4, l));
    }
  }

  lemma HalvedLanesOrNaN(lanes: seq<Float>, values: seq<Float>)
    requires |lanes| == 4 && LanesAreMaxOrNaN(lanes, values)
    ensures LanesAreMaxOrNaN(LastTwoLanes(lanes), values)
  {
    var halved := LastTwoLanes(lanes);
    forall l | 0 <= l < 2 ensures IsMaxOrNaN(halved[l], Strided(values, 2, l)) {
      StridedHalves(values, 2, l);
      MaxOrNaNOfBoth(lanes[l], lanes[l + 2], Strided(values, 4, l), Strided(values, 4, l + 2));
    }
  }

  lemma StridedConcat(a: seq<Float>, b: seq<Float>, lane: nat)
    requires |a| % 4 == 0 && lane < 4
    ensures Strided(a + b, 4, lane) == Strided(a, 4, lane) + Strided(b, 4, lane)
  {
    var whole := a + b;
    forall x | x in Strided(whole, 4, lane) ensures x in Strided(a, 4, lane) + Strided(b, 4, lane) {
      var i :| 0 <= i < |whole| && i % 4 == lane && whole[i] == x;
      if i < |a| {
        assert a[i] == x;
      } else {
        assert b[i - |a|] == x && (i - |a|) % 4 == lane;
      }
    }
    forall x | x in Strided(a, 4, lane) + Strided(b, 4, lane) ensures x in Strided(whole, 4, lane) {
      if i :| 0 <= i < |a| && i % 4 == lane && a[i] == x {
        assert whole[i] == x;
      } else {
        var j :| 0 <= j < |b| && j % 4 == lane && b[j] == x;
        assert whole[|a| + j] == x && (|a| + j) % 4 == lane;
      }
    }
  }

  ghost function Evens(values: seq<Float>): set<Float> {
    Strided(values, 2, 0)
  }

  ghost function Odds(values: seq<Float>): set<Float> {
    Strided(values, 2, 1)
  }

  /** Where the values on one side hold a NaN, the other side's hold none and one of
      them is at least as large as any number among the former. */
  ghost predicate Yields(side: set<Float>, other: set<Float>) {
    NaN in side ==>
      NaN !in other && forall x | x in side && !x.NaN? :: exists y :: y in other && !Greater(Abs(x), Abs(y))
  }

  /** NaN values leave the last two lanes, even and odd positions, with the maximum. */
  ghost predicate NaNIsHarmless(values: seq<Float>) {
    Yields(Evens(values), Odds(values)) && Yields(Odds(values), Evens(values))
  }

  lemma EvenAndOdd(values: seq<Float>) returns (even: Float, odd: Float)
    requires |values| == BLOCK_VALUES
    ensures IsMaxOrNaN(even, Evens(values)) && IsMaxOrNaN(odd, Odds(values))
    ensures NeonMaxAbs(values) == MaxNum(even, odd)
  {
    FMax8IsMax(values);
    HalvedLanesOrNaN(FMax8(values), values);
    var half := LastTwoLanes(FMax8(values));
    even, odd := half[0], half[1];
  }

  lemma OneLaneIsTheMax(m: Float, side: set<Float>, other: set<Float>)
    requires NaN in side && IsMaxOrNaN(m, other) && other != {}
    ensures IsMax(m, side + other) <==> Yields(side, other)
  {
    if Yields(side, other) {
      forall x | x in side ensures !Greater(Abs(x), m) {
        if !x.NaN? {
          var y :| y in other && !Greater(Abs(x), Abs(y));
        }
      }
    }
    if IsMax(m, side + other) {
      var y :| y in other;
      forall x | x in side && !x.NaN? ensures exists y :: y in other && !Greater(Abs(x), Abs(y)) {
        assert !Greater(Abs(x), m);
        if m == ZERO {
          assert !Greater(Abs(x), Abs(y));
        }
      }
    }
  }

  lemma TwoLanesGiveTheMax(even: Float, odd: Float, evens: set<Float>, odds: set<Float>, max: Float)
    requires IsMaxOrNaN(even, evens) && IsMaxOrNaN(odd, odds) && IsMax(max, evens + odds)
    requires evens != {} && odds != {}
    ensures MaxNum(even, odd) == max <==> Yields(evens, odds) && Yields(odds, evens)
  {
    assert evens + odds == odds + evens;
    if NaN in evens {
      OneLaneIsTheMax(odd, evens, odds);
    } else if NaN in odds {
      OneLaneIsTheMax(even, odds, evens);
    } else {
      MaxOfBoth(even, odd, evens, odds);
    }
  }

  /** The NEON kernel's maximum is the reference's exactly when NaN is harmless. */
  lemma NeonMaxAgreesIff(values: seq<Float>)
    requires |values| == BLOCK_VALUES
    ensures NeonMaxAbs(values) == MaxAbs(values) <==> NaNIsHarmless(values)
  {
    var even, odd := EvenAndOdd(values);
    assert values[0] in Evens(values) && values[1] in Odds(values);
    StridedHalves(values, 1, 0);
    MaxAbsIsMax(values);
    TwoLanesGiveTheMax(even, odd, Evens(values), Odds(values), MaxAbs(values));
  }

  /** The two blocks are the same whatever the arithmetic exactly when NaN is harmless,
      and so for every block of numbers. */
  lemma NeonIsReferenceIff(values: seq<Float>)
    requires |values| == BLOCK_VALUES
    ensures NaNIsHarmless(values) <==> forall a :: NeonBlock(a, values) == ReferenceBlock(a, values)
    ensures NaN !in values ==> NaNIsHarmless(values)
  {
    NeonMaxAgreesIff(values);
    if NaNIsHarmless(values) {
      forall a ensures NeonBlock(a, values) == ReferenceBlock(a, values) {
        NeonBlockIs(a, values);
      }
    } else {
      var a := ScaleShowsTheMax(values);
    }
    if NaN !in values {
      NumbersHoldNoNaN(values);
    }
  }

  lemma ScaleShowsTheMax(values: seq<Float>) returns (a: Arithmetic)
    requires |values| == BLOCK_VALUES && NeonMaxAbs(values) != MaxAbs(values)
    ensures NeonBlock(a, values) != ReferenceBlock(a, values)
  {
    a := Arithmetic(x => x, x => x, x => x, (x, y) => x);
    NeonBlockIs(a, values);
  }

  lemma NumbersHoldNoNaN(values: seq<Float>)
    requires NaN !in values
    ensures NaN !in Evens(values) && NaN !in Odds(values)
  {
  }

  /** The NEON kernel differs from the reference in the maximum only. */
  lemma NeonBlockIs(a: Arithmetic, values: seq<Float>)
    requires |values| == BLOCK_VALUES
    ensures NeonBlock(a, values) == BlockOf(a, NeonMaxAbs(values), values)
  {
    SameBytes(a, values, Inverse(a, a.over127(NeonMaxAbs(values))));
  }

  lemma SameBytes(a: Arithmetic, values: seq<Float>, inverse: Float)
    ensures seq(|values|, i requires 0 <= i < |values| => NeonByte(a.times(values[i], inverse))) ==
            Bytes(a, inverse, values)
  {
    forall i | 0 <= i < |values| ensures NeonByte(a.times(values[i], inverse)) == Quant(a.times(values[i], inverse)) {
      NeonByteIsQuant(a.times(values[i], inverse));
    }
  }

  /** The operations give NaN for NaN and numbers for the scale of numbers. */
  ghost predicate KeepsNaN(a: Arithmetic) {
    && (forall x :: a.over127(x).NaN? <==> x.NaN?)
    && (forall x :: a.throughHalf(x).NaN? <==> x.NaN?)
    && a.reciprocal(NaN).NaN? && (forall x :: a.times(x, NaN).NaN?)
  }

  /** With NaN at an even and at an odd position, the NEON kernel's scale is NaN and
      every byte zero, where the reference passes the NaN values over. */
  lemma NeonLosesTheBlock(a: Arithmetic, values: seq<Float>)
    requires |values| == BLOCK_VALUES && KeepsNaN(a) && NaN in Evens(values) && NaN in Odds(values)
    ensures NeonBlock(a, values) == Block(NaN, seq(BLOCK_VALUES, _ => 0))
    ensures !ReferenceBlock(a, values).scale.NaN?
  {
    var even, odd := EvenAndOdd(values);
    MaxAbsIsMax(values);
    NeonBlockIs(a, values);
    NaNBytes(a, values, a.reciprocal(NaN));
  }

  lemma NaNBytes(a: Arithmetic, values: seq<Float>, inverse: Float)
    requires inverse.NaN? && forall x :: a.times(x, NaN).NaN?
    ensures Bytes(a, inverse, values) == seq(|values|, _ => 0)
  {
  }
}
