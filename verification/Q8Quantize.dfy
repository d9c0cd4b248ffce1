/** The last part of the vector quantizer: eight lanes at a time clamped and
    rounded, then narrowed to bytes and put in order. Values are exact reals, with
    NaN and the infinities beside them. */
module Q8Quantize {
  import opened Q8Format

  datatype Float = NaN | Infinite(positive: bool) | Finite(value: real)

  // ------------------------------------------------------------ the definition

  function RoundHalfAway(x: real): int {
    if x >= 0.0 then (x + 0.5).Floor else -((-x + 0.5).Floor)
  }

  function ClampInt(n: int): int {
    if n < -128 then -128 else if n > 127 then 127 else n
  }

  /** Round, clamp, and cast: not-a-number casts to zero. */
  function Quant(x: Float): int {
    match x
    case NaN => 0
    case Infinite(positive) => if positive then 127 else -128
    case Finite(v) => ClampInt(RoundHalfAway(v))
  }

  // -------------------------------------------------------------- the rounding

  /** The lane with NaN made zero, clamped before it is rounded. */
  function Clamped(x: Float): real {
    match x
    case NaN => 0.0
    case Infinite(positive) => if positive then 127.0 else -128.0
    case Finite(v) => if v < -128.0 then -128.0 else if v > 127.0 then 127.0 else v
  }

  /** Round to nearest, ties to even. */
  function NearestEven(x: real): int {
    var below := x.Floor;
    var rest := x - below as real;
    if rest < 0.5 || (rest == 0.5 && below % 2 == 0) then below else below + 1
  }

  /** Ties that went towards zero are moved one away from it. */
  function RoundClamped(x: Float): int {
    var v := Clamped(x);
    var nearest := NearestEven(v);
    var delta := v - nearest as real;
    var signedHalf := if v < 0.0 then -0.5 else 0.5;
    var signedOne := if v < 0.0 then -1 else 1;
    if delta == signedHalf then nearest + signedOne else nearest
  }

  /** The fix-up turns ties-to-even into half-away-from-zero; clamping first
      changes nothing. */
  lemma RoundingIsHalfAway(x: Float)
    ensures RoundClamped(x) == Quant(x) && -128 <= Quant(x) <= 127
  {
  }

  // --------------------------------------------------------------- the packing

  function Saturated(n: int, low: int, high: int): int {
    if n < low then low else if n > high then high else n
  }

  function Narrowed(s: seq<int>, low: int, high: int): (r: seq<int>)
    ensures |r| == |s|
  {
    seq(|s|, k requires 0 <= k < |s| => Saturated(s[k], low, high))
  }

  /** Both packs work on each 128-bit half of their operands separately. */
  function Pack32(a: seq<int>, b: seq<int>): (r: seq<int>)
    requires |a| == |b| == 8
    ensures |r| == 16
  {
    Narrowed(a[..4] + b[..4] + a[4..] + b[4..], -0x8000, 0x7FFF)
  }

  function Pack16(a: seq<int>, b: seq<int>): (r: seq<int>)
    requires |a| == |b| == 16
    ensures |r| == 32
  {
    Narrowed(a[..8] + b[..8] + a[8..] + b[8..], -128, 127)
  }

  function Dword(s: seq<int>, k: nat): (r: seq<int>)
    requires |s| == 32 && k < 8
    ensures |r| == 4
  {
    s[4 * k..4 * k + 4]
  }

  function Permuted(s: seq<int>): (r: seq<int>)
    requires |s| == 32
    ensures |r| == 32
  {
    Dword(s, 0) + Dword(s, 4) + Dword(s, 1) + Dword(s, 5) + Dword(s, 2) + Dword(s, 6) + Dword(s, 3) + Dword(s, 7)
  }

  function Stored(i0: seq<int>, i1: seq<int>, i2: seq<int>, i3: seq<int>): seq<int>
    requires |i0| == |i1| == |i2| == |i3| == 8
  {
    Permuted(Pack16(Pack32(i0, i1), Pack32(i2, i3)))
  }

  predicate Bytes(s: seq<int>) {
    forall k :: 0 <= k < |s| ==> -128 <= s[k] <= 127
  }

  /** Bytes pass both packs unchanged. */
  lemma NeverSaturates(s: seq<int>)
    requires Bytes(s)
    ensures Narrowed(s, -128, 127) == s && Narrowed(s, -0x8000, 0x7FFF) == s
  {
  }

  lemma Rejoined(s: seq<int>)
    requires |s| == 8
    ensures s[..4] + s[4..] == s
  {
  }

  /** The permutation undoes what the packs did to the order. */
  lemma StoredInOrder(i0: seq<int>, i1: seq<int>, i2: seq<int>, i3: seq<int>)
    requires |i0| == |i1| == |i2| == |i3| == 8
    requires Bytes(i0) && Bytes(i1) && Bytes(i2) && Bytes(i3)
    ensures Stored(i0, i1, i2, i3) == i0 + i1 + i2 + i3
  {
    var a0, a1, b0, b1 := i0[..4], i1[..4], i0[4..], i1[4..];
    var c0, c1, d0, d1 := i2[..4], i3[..4], i2[4..], i3[4..];
    PackedInPairs(i0, i1, i2, i3);
    Rejoined(i0);
    Rejoined(i1);
    Rejoined(i2);
    Rejoined(i3);
  }

  lemma PackedInPairs(i0: seq<int>, i1: seq<int>, i2: seq<int>, i3: seq<int>)
    requires |i0| == |i1| == |i2| == |i3| == 8
    requires Bytes(i0) && Bytes(i1) && Bytes(i2) && Bytes(i3)
    ensures Pack16(Pack32(i0, i1), Pack32(i2, i3)) ==
            i0[..4] + i1[..4] + (i2[..4] + i3[..4]) + (i0[4..] + i1[4..]) + (i2[4..] + i3[4..])
  {
    var a := i0[..4] + i1[..4] + i0[4..] + i1[4..];
    var b := i2[..4] + i3[..4] + i2[4..] + i3[4..];
    NeverSaturates(a);
    NeverSaturates(b);
    NeverSaturates(a[..8] + b[..8] + a[8..] + b[8..]);
  }

  // ------------------------------------------------------------------ the tail

  function Rounded(x: seq<Float>): (r: seq<int>)
    ensures |r| == |x|
  {
    seq(|x|, k requires 0 <= k < |x| => RoundClamped(x[k]))
  }

  /** Thirty-two scaled values to the bytes of a block. */
  function Quants(x: seq<Float>): seq<int>
    requires |x| == BLOCK_VALUES
  {
    Stored(Rounded(x[..8]), Rounded(x[8..16]), Rounded(x[16..24]), Rounded(x[24..]))
  }

  lemma RoundedAreBytes(x: seq<Float>)
    ensures Bytes(Rounded(x)) && forall k :: 0 <= k < |x| ==> Rounded(x)[k] == Quant(x[k])
  {
    forall k | 0 <= k < |x| ensures Rounded(x)[k] == Quant(x[k]) && -128 <= Quant(x[k]) <= 127 {
      RoundingIsHalfAway(x[k]);
    }
  }

  /** Byte `j` of the stored block is the rounded and clamped value `j`. */
  lemma EveryByteIsItsQuant(x: seq<Float>, j: nat)
    requires |x| == BLOCK_VALUES && j < BLOCK_VALUES
    ensures |Quants(x)| == BLOCK_VALUES && Quants(x)[j] == Quant(x[j])
  {
    RoundedAreBytes(x[..8]);
    RoundedAreBytes(x[8..16]);
    RoundedAreBytes(x[16..24]);
    RoundedAreBytes(x[24..]);
    StoredInOrder(Rounded(x[..8]), Rounded(x[8..16]), Rounded(x[16..24]), Rounded(x[24..]));
  }
}
