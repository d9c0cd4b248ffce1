/** The conversions between 32-bit and 16-bit floating point, on their bits: sign,
    exponent and fraction fields of IEEE 754 binary32 and binary16. */
module HalfFloat {
  import opened PowersOfTwo

  type Bits32 = n: nat | n < 0x1_0000_0000
  type Bits16 = n: nat | n < 0x1_0000

  const INFINITY: nat := 0x7c00
  /** Between the smallest positive numbers of the two formats. */
  const HALF_SHIFT: nat := 125
  const TINY_SHIFT: nat := 100

  lemma Pow2Values()
    ensures Pow2(11) == 0x800 && Pow2(13) == 0x2000 && Pow2(14) == 0x4000 && Pow2(25) == 0x200_0000
  {
    PowerAdds(12, 13);
  }

  // --------------------------------------------------------------- the functions

  /** Divides and rounds to nearest, ties to even. */
  function RoundEven(n: nat, unit: nat): nat
    requires unit > 0
  {
    var q, rest := n / unit, n % unit;
    if rest > unit / 2 || (rest == unit / 2 && q % 2 == 1) then q + 1 else q
  }

  function ToHalf(bits: Bits32): nat {
    bits / 0x8000_0000 * 0x8000 + ToHalfMagnitude(bits / 0x80_0000 % 0x100, bits % 0x80_0000)
  }

  function ToHalfMagnitude(exp: nat, frac: nat): nat
    requires exp < 0x100 && frac < 0x80_0000
  {
    if exp == 0xff then INFINITY + if frac == 0 then 0 else Quieted(frac / 0x2000)
    else if exp >= 112 + 0x1f then INFINITY
    else if exp < 112 - 10 then 0
    else if exp <= 112 then RoundEven(frac + 0x80_0000, Pow2(126 - exp))
    else RoundEven((exp - 112) * 0x80_0000 + frac, 0x2000)
  }

  /** The payload with its highest bit set. */
  function Quieted(payload: nat): nat
    requires payload < 0x400
  {
    if payload < 0x200 then payload + 0x200 else payload
  }

  function ToFloat(bits: Bits16): nat {
    bits / 0x8000 * 0x8000_0000 + ToFloatMagnitude(bits / 0x400 % 0x20, bits % 0x400)
  }

  function ToFloatMagnitude(exp: nat, frac: nat): nat
    requires exp < 0x20 && frac < 0x400
  {
    if exp == 0x1f then 0x7f80_0000 + frac * 0x2000
    else if exp > 0 then (exp + 112) * 0x80_0000 + frac * 0x2000
    else if frac == 0 then 0
    else
      var shift := LeadingShift(frac);
      (113 - shift) * 0x80_0000 + (frac * Pow2(shift) - 0x400) * 0x2000
  }

  /** How often to double until the eleventh bit is set. */
  function LeadingShift(mant: nat): (shift: nat)
    requires 0 < mant < 0x800
    ensures shift <= 10 && 0x400 <= mant * Pow2(shift) < 0x800
    decreases 0x800 - mant
  {
    if mant >= 0x400 then 0
    else
      var shift := LeadingShift(2 * mant);
      Doubled(mant, mant * Pow2(shift), shift);
      ShiftIsSmall(mant, shift + 1);
      shift + 1
  }

  lemma ShiftIsSmall(mant: nat, shift: nat)
    requires mant > 0 && mant * Pow2(shift) < 0x800
    ensures shift <= 10
  {
    Pow2Values();
    if shift > 10 {
      PowerAdds(11, shift - 11);
    }
  }

  method ToFloatBits(bits: Bits16) returns (out: nat)
    ensures out == ToFloat(bits)
  {
    var exp, frac := bits / 0x400 % 0x20, bits % 0x400;
    if exp == 0x1f {
      out := 0x7f80_0000 + frac * 0x2000;
    } else if exp > 0 {
      out := (exp + 127 - 15) * 0x80_0000 + frac * 0x2000;
    } else if frac == 0 {
      out := 0;
    } else {
      out := SubnormalBits(frac);
    }
    out := bits / 0x8000 * 0x8000_0000 + out;
  }

  /** The fraction is shifted until its implicit bit is set. */
  method SubnormalBits(frac: nat) returns (out: nat)
    requires 0 < frac < 0x400
    ensures out == ToFloatMagnitude(0, frac)
  {
    var mant, e := frac, -14;
    while mant < 0x400
      invariant 0 < mant < 0x800 && e <= -14
      invariant LeadingShift(frac) == -14 - e + LeadingShift(mant)
      invariant mant == frac * Pow2(-14 - e)
      decreases 0x800 - mant
    {
      Doubled(frac, mant, -14 - e);
      mant, e := 2 * mant, e - 1;
    }
    out := (e + 127) * 0x80_0000 + (mant - 0x400) * 0x2000;
  }

  lemma Doubled(frac: nat, mant: nat, k: nat)
    requires mant == frac * Pow2(k)
    ensures 2 * mant == frac * Pow2(k + 1) == 2 * frac * Pow2(k)
  {
    assert frac * Pow2(k + 1) == 2 * (frac * Pow2(k));
  }

  // --------------------------------------------------------------- magnitudes

  /** The magnitude of a finite number, in the unit of the smallest positive one of
      32 bits. */
  function FloatMagnitude(bits: nat): nat {
    MagnitudeOf(bits / 0x80_0000 % 0x100, bits % 0x80_0000)
  }

  function MagnitudeOf(exp: nat, frac: nat): nat {
    if exp == 0 then frac else (frac + 0x80_0000) * Pow2(exp - 1)
  }

  /** In units of 2 to the -24. Infinity stands for the next power of two. */
  function HalfUnits(half: nat): nat {
    var exp, frac := half / 0x400, half % 0x400;
    if exp == 0 then frac else (frac + 0x400) * Pow2(exp - 1)
  }

  /** The magnitude of a half in the same unit. */
  function HalfMagnitude(half: nat): nat {
    HalfUnits(half) * Pow2(HALF_SHIFT)
  }

  lemma HalfUnitsGrow(half: nat)
    ensures HalfUnits(half) < HalfUnits(half + 1)
  {
    var exp := half / 0x400;
    if half % 0x400 == 0x3ff {
      assert (half + 1) / 0x400 == exp + 1 && (half + 1) % 0x400 == 0;
      assert exp > 0 ==> Pow2(exp) == 2 * Pow2(exp - 1);
    } else {
      assert (half + 1) / 0x400 == exp && (half + 1) % 0x400 == half % 0x400 + 1;
      if exp > 0 {
        MulGrows(half % 0x400 + 0x400, half % 0x400 + 0x401, Pow2(exp - 1));
      }
    }
  }

  lemma MulGrows(a: nat, b: nat, unit: nat)
    requires a < b && unit > 0
    ensures a * unit < b * unit
  {
  }

  lemma {:induction false} HalvesAreOrdered(a: nat, b: nat)
    requires a < b
    ensures HalfMagnitude(a) < HalfMagnitude(b)
    decreases b
  {
    HalfUnitsGrow(b - 1);
    MulGrows(HalfUnits(b - 1), HalfUnits(b), Pow2(HALF_SHIFT));
    if a < b - 1 {
      HalvesAreOrdered(a, b - 1);
    }
  }

  function Distance(a: nat, b: nat): nat {
    if a < b then b - a else a - b
  }

  /** No half is nearer to the magnitude, and of two as near this is the even one;
      the list of halves ends with infinity in the place of the next power of two. */
  ghost predicate NearestEven(magnitude: nat, half: nat) {
    && half <= INFINITY
    && forall other :: 0 <= other <= INFINITY && other != half ==>
         var here, there := Distance(magnitude, HalfMagnitude(half)), Distance(magnitude, HalfMagnitude(other));
         here < there || (here == there && half % 2 == 0)
  }

  /** It is enough to compare with the midpoints to the neighbours. */
  ghost predicate BetweenMidpoints(magnitude: nat, half: nat) {
    && half <= INFINITY
    && (half < INFINITY ==>
          var sum := HalfMagnitude(half) + HalfMagnitude(half + 1);
          2 * magnitude < sum || (2 * magnitude == sum && half % 2 == 0))
    && (half > 0 ==>
          var sum := HalfMagnitude(half - 1) + HalfMagnitude(half);
          sum < 2 * magnitude || (sum == 2 * magnitude && half % 2 == 0))
  }

  lemma MidpointsDecide(magnitude: nat, half: nat)
    requires BetweenMidpoints(magnitude, half)
    ensures NearestEven(magnitude, half)
  {
    forall other | 0 <= other <= INFINITY && other != half
      ensures var here, there := Distance(magnitude, HalfMagnitude(half)), Distance(magnitude, HalfMagnitude(other));
              here < there || (here == there && half % 2 == 0)
    {
      if other > half {
        HalvesAreOrdered(half, other);
        if other > half + 1 {
          HalvesAreOrdered(half + 1, other);
        }
      } else {
        HalvesAreOrdered(other, half);
        if other < half - 1 {
          HalvesAreOrdered(other, half - 1);
        }
      }
    }
  }

  // ------------------------------------------------------- rounding is nearest-even

  /** Below, or equal and even. */
  predicate Under(a: int, b: int, even: bool) {
    a < b || (a == b && even)
  }

  lemma UnderScaled(a: int, b: int, even: bool, unit: nat)
    requires Under(a, b, even) && unit > 0
    ensures Under(a * unit, b * unit, even)
  {
    if a < b {
      assert (b - a) * unit > 0;
    }
  }

  lemma RoundEvenIsNearest(n: nat, unit: nat)
    requires unit > 0 && unit % 2 == 0
    ensures var q := RoundEven(n, unit);
            Under(2 * n, (2 * q + 1) * unit, q % 2 == 0) && Under((2 * q - 1) * unit, 2 * n, q % 2 == 0)
  {
    var q, rest := n / unit, n % unit;
    assert n == q * unit + rest;
    assert (2 * q + 1) * unit == 2 * (q * unit) + unit && (2 * q - 1) * unit == 2 * (q * unit) - unit;
    assert (2 * q + 3) * unit == 2 * (q * unit) + 3 * unit;
  }

  /** A rounded quotient lies between the midpoints when halves around it are spaced
      evenly, at `unit * p` from a base; below it the spacing may be finer if the
      magnitude lies above it. */
  lemma QuotientIsBetween(n: nat, unit: nat, p: nat, base: int, magnitude: nat, q: nat)
    requires unit > 0 && unit % 2 == 0 && p > 0 && q == RoundEven(n, unit) <= INFINITY
    requires magnitude == n * p - base * (unit * p) && HalfMagnitude(q) == (q - base) * (unit * p)
    requires HalfMagnitude(q + 1) >= (q + 1 - base) * (unit * p)
    requires q > 0 ==> HalfMagnitude(q - 1) <= (q - 1 - base) * (unit * p) || HalfMagnitude(q) <= magnitude
    ensures BetweenMidpoints(magnitude, q)
  {
    RoundedScaled(n, unit, p);
    Spread(q, base, unit * p);
    LinearBetween(magnitude, q, n * p, q * (unit * p), base * (unit * p), unit * p);
  }

  lemma RoundedScaled(n: nat, unit: nat, p: nat)
    requires unit > 0 && unit % 2 == 0 && p > 0
    ensures var q, w := RoundEven(n, unit), unit * p;
            && Under(2 * (n * p), 2 * (q * w) + w, q % 2 == 0)
            && Under(2 * (q * w) - w, 2 * (n * p), q % 2 == 0)
  {
    var q := RoundEven(n, unit);
    RoundEvenIsNearest(n, unit);
    UnderScaled(2 * n, (2 * q + 1) * unit, q % 2 == 0, p);
    UnderScaled((2 * q - 1) * unit, 2 * n, q % 2 == 0, p);
    InUnits(2 * q + 1, unit, p);
    InUnits(2 * q - 1, unit, p);
    Spread(2 * q, -1, unit * p);
    Spread(2 * q, 1, unit * p);
    InUnits(2, q, unit * p);
    InUnits(2, n, p);
  }

  lemma Spread(q: int, base: int, w: nat)
    ensures (q - base) * w == q * w - base * w
    ensures (q + 1 - base) * w == q * w + w - base * w && (q - 1 - base) * w == q * w - w - base * w
  {
  }

  lemma LinearBetween(magnitude: nat, q: nat, np: nat, qw: nat, bw: int, w: nat)
    requires Under(2 * np, 2 * qw + w, q % 2 == 0) && Under(2 * qw - w, 2 * np, q % 2 == 0)
    requires q <= INFINITY && magnitude == np - bw && HalfMagnitude(q) == qw - bw
    requires HalfMagnitude(q + 1) >= qw + w - bw
    requires q > 0 ==> HalfMagnitude(q - 1) <= qw - w - bw || HalfMagnitude(q) <= magnitude
    ensures BetweenMidpoints(magnitude, q)
  {
    if q > 0 {
      HalvesAreOrdered(q - 1, q);
    }
  }

  lemma InUnits(k: int, unit: nat, p: nat)
    ensures k * unit * p == k * (unit * p)
  {
  }

  lemma SmallQuotient(n: nat, unit: nat)
    requires n < 0x100_0000 && unit >= 0x4000
    ensures RoundEven(n, unit) <= 0x400
  {
    var q := n / unit;
    assert q * 0x4000 <= q * unit <= n;
  }

  lemma SubnormalIsNearest(exp: nat, frac: nat)
    requires 102 <= exp <= 112 && frac < 0x80_0000
    ensures BetweenMidpoints(MagnitudeOf(exp, frac), RoundEven(frac + 0x80_0000, Pow2(126 - exp)))
  {
    var n, p, unit := frac + 0x80_0000, Pow2(exp - 1), Pow2(126 - exp);
    var q, magnitude := RoundEven(n, unit), MagnitudeOf(exp, frac);
    EvenUnit(126 - exp);
    PowerAdds(126 - exp, exp - 1);
    SmallQuotient(n, unit);
    SmallHalves(q);
    assert magnitude == n * p;
    QuotientIsBetween(n, unit, p, 0, magnitude, q);
  }

  lemma EvenUnit(shift: nat)
    requires shift >= 14
    ensures Pow2(shift) >= 0x4000 && Pow2(shift) % 2 == 0
  {
    Pow2Values();
    PowersGrow(14, shift);
    assert Pow2(shift) == 2 * Pow2(shift - 1);
  }

  lemma SmallHalves(half: nat)
    requires half <= 0x400
    ensures HalfMagnitude(half) == half * Pow2(HALF_SHIFT)
    ensures HalfMagnitude(half + 1) == (half + 1) * Pow2(HALF_SHIFT)
    ensures half > 0 ==> HalfMagnitude(half - 1) == (half - 1) * Pow2(HALF_SHIFT)
  {
    SmallHalf(half);
    SmallHalf(half + 1);
    if half > 0 {
      SmallHalf(half - 1);
    }
  }

  lemma SmallHalf(half: nat)
    requires half < 0x800
    ensures HalfUnits(half) == half
  {
  }

  lemma BinadeUnits(e: nat, half: nat)
    requires 1 <= e && e * 0x400 <= half <= e * 0x400 + 0x400
    ensures HalfUnits(half) == (half - (e - 1) * 0x400) * Pow2(e - 1)
  {
    if half == e * 0x400 + 0x400 {
      assert half / 0x400 == e + 1 && half % 0x400 == 0;
      assert Pow2(e) == 2 * Pow2(e - 1);
    } else {
      assert half / 0x400 == e && half % 0x400 == half - e * 0x400;
    }
  }

  /** The halves of one binade are spaced evenly, up to the first of the next. */
  lemma Binade(e: nat, half: nat)
    requires 1 <= e && e * 0x400 <= half <= e * 0x400 + 0x400
    ensures HalfMagnitude(half) == (half - (e - 1) * 0x400) * (0x2000 * Pow2(e + 111))
  {
    BinadeUnits(e, half);
    BinadeSpacing(e, HALF_SHIFT);
    InUnits(half - (e - 1) * 0x400, Pow2(e - 1), Pow2(HALF_SHIFT));
  }

  lemma BinadeSpacing(e: nat, shift: nat)
    requires 1 <= e && shift == 125
    ensures Pow2(e - 1) * Pow2(shift) == 0x2000 * Pow2(e + 111)
  {
    PowerAdds(e - 1, shift);
    PowerAdds(e + 111, 13);
    Pow2Values();
  }

  lemma NormalIsNearest(exp: nat, frac: nat)
    requires 113 <= exp <= 142 && frac < 0x80_0000
    ensures BetweenMidpoints(MagnitudeOf(exp, frac), RoundEven((exp - 112) * 0x80_0000 + frac, 0x2000))
  {
    var e, p, magnitude := exp - 112, Pow2(exp - 1), MagnitudeOf(exp, frac);
    var n := e * 0x80_0000 + frac;
    var q, w, base := RoundEven(n, 0x2000), 0x2000 * p, (e - 1) * 0x400;
    assert e * 0x400 <= q <= e * 0x400 + 0x400;
    FromBase(n, base, frac + 0x80_0000, p);
    Binade(e, q);
    if q < e * 0x400 + 0x400 {
      Binade(e, q + 1);
    } else {
      NextBinade(e, p);
    }
    if q == e * 0x400 {
      FromBinade(e, n, p, magnitude);
    } else {
      Binade(e, q - 1);
    }
    QuotientIsBetween(n, 0x2000, p, base, magnitude, q);
  }

  lemma FromBase(n: nat, base: nat, mant: nat, p: nat)
    requires mant == n - base * 0x2000
    ensures mant * p == n * p - base * (0x2000 * p)
  {
    assert (n - base * 0x2000) * p == n * p - base * 0x2000 * p;
    InUnits(base, 0x2000, p);
  }

  lemma NextBinade(e: nat, p: nat)
    requires 1 <= e && p == Pow2(e + 111)
    ensures HalfMagnitude(e * 0x400 + 0x401) >= 0x801 * (0x2000 * p)
  {
    Binade(e + 1, e * 0x400 + 0x401);
    assert Pow2(e + 112) == 2 * p;
    assert 0x401 * (0x2000 * (2 * p)) == 0x802 * (0x2000 * p);
  }

  lemma FromBinade(e: nat, n: nat, p: nat, magnitude: nat)
    requires 1 <= e && p == Pow2(e + 111) && e * 0x80_0000 <= n
    requires magnitude == n * p - (e - 1) * 0x400 * (0x2000 * p)
    ensures HalfMagnitude(e * 0x400) <= magnitude
  {
    Binade(e, e * 0x400);
    assert (n - e * 0x80_0000) * p >= 0;
    assert n * p - e * 0x80_0000 * p == (n - e * 0x80_0000) * p;
    assert (e - 1) * 0x400 * (0x2000 * p) == e * 0x80_0000 * p - 0x80_0000 * p;
  }

  lemma TinyIsNearest(exp: nat, frac: nat)
    requires exp < 102 && frac < 0x80_0000
    ensures BetweenMidpoints(MagnitudeOf(exp, frac), 0)
  {
    SmallHalves(0);
    TinyBound(TINY_SHIFT, HALF_SHIFT);
    var p := if exp > 0 then Pow2(exp - 1) else 1;
    if exp > 0 {
      PowersGrow(exp - 1, TINY_SHIFT);
    }
    assert MagnitudeOf(exp, frac) <= (frac + 0x80_0000) * p;
    Tiny(frac + 0x80_0000, p, Pow2(TINY_SHIFT));
  }

  lemma TinyBound(tiny: nat, shift: nat)
    requires shift == tiny + 25
    ensures Pow2(shift) == Pow2(tiny) * 0x200_0000
  {
    PowerAdds(tiny, 25);
    Pow2Values();
  }

  lemma Tiny(mant: nat, p: nat, bound: nat)
    requires mant < 0x100_0000 && 0 < p <= bound
    ensures 2 * (mant * p) < bound * 0x200_0000
  {
    assert mant * p <= mant * bound < 0x100_0000 * bound;
  }

  lemma HugeIsNearest(exp: nat, frac: nat)
    requires 143 <= exp && frac < 0x80_0000
    ensures BetweenMidpoints(MagnitudeOf(exp, frac), INFINITY)
  {
    InfinityMagnitude();
    HalvesAreOrdered(INFINITY - 1, INFINITY);
    PowersGrow(142, exp - 1);
    Huge(frac + 0x80_0000, Pow2(142), Pow2(exp - 1));
  }

  lemma Huge(mant: nat, low: nat, p: nat)
    requires 0x80_0000 <= mant && low <= p
    ensures 0x80_0000 * low <= mant * p
  {
    assert 0x80_0000 * low <= mant * low <= mant * p;
  }

  lemma InfinityMagnitude()
    ensures HalfMagnitude(INFINITY) == 0x80_0000 * Pow2(142)
  {
    Binade(31, INFINITY);
  }

  // ------------------------------------------------------------- the two promises

  lemma FieldsAreNearest(exp: nat, frac: nat)
    requires exp < 0xff && frac < 0x80_0000
    ensures NearestEven(MagnitudeOf(exp, frac), ToHalfMagnitude(exp, frac))
  {
    if exp >= 112 + 0x1f {
      HugeIsNearest(exp, frac);
    } else if exp < 112 - 10 {
      TinyIsNearest(exp, frac);
    } else if exp <= 112 {
      SubnormalIsNearest(exp, frac);
    } else {
      NormalIsNearest(exp, frac);
    }
    MidpointsDecide(MagnitudeOf(exp, frac), ToHalfMagnitude(exp, frac));
  }

  predicate IsFinite32(bits: nat) {
    bits / 0x80_0000 % 0x100 != 0xff
  }

  predicate IsFinite16(bits: nat) {
    bits / 0x400 % 0x20 != 0x1f
  }

  /** Conversion to sixteen bits keeps the sign and rounds every finite magnitude to
      the nearest, ties to even, overflow included. */
  lemma ToHalfIsNearestEven(bits: Bits32)
    requires IsFinite32(bits)
    ensures ToHalf(bits) / 0x8000 == bits / 0x8000_0000
    ensures NearestEven(FloatMagnitude(bits), ToHalf(bits) % 0x8000)
  {
    FieldsAreNearest(bits / 0x80_0000 % 0x100, bits % 0x80_0000);
  }

  /** Infinity stays infinity and NaN stays NaN, of the same sign. */
  lemma ToHalfKeepsSpecials(bits: Bits32)
    requires !IsFinite32(bits)
    ensures ToHalf(bits) / 0x8000 == bits / 0x8000_0000
    ensures INFINITY <= ToHalf(bits) % 0x8000 && (ToHalf(bits) % 0x8000 == INFINITY <==> bits % 0x80_0000 == 0)
  {
  }

  lemma ExactIsNearest(half: nat, nearest: nat)
    requires half <= INFINITY && NearestEven(HalfMagnitude(half), nearest)
    ensures nearest == half
  {
    if nearest < half {
      HalvesAreOrdered(nearest, half);
    } else if half < nearest {
      HalvesAreOrdered(half, nearest);
    }
  }

  lemma SubnormalIsExact(frac: nat)
    requires 0 < frac < 0x400
    ensures var magnitude := ToFloatMagnitude(0, frac);
            && magnitude < 0x7f80_0000
            && MagnitudeOf(magnitude / 0x80_0000, magnitude % 0x80_0000) == frac * Pow2(HALF_SHIFT)
  {
    var shift := LeadingShift(frac);
    var mant, magnitude := frac * Pow2(shift), ToFloatMagnitude(0, frac);
    assert magnitude / 0x80_0000 == 113 - shift && magnitude % 0x80_0000 == (mant - 0x400) * 0x2000;
    PowerAdds(112 - shift, 13);
    PowerAdds(125 - shift, shift);
    Pow2Values();
    SubnormalParts(frac, Pow2(shift), Pow2(112 - shift));
  }

  lemma SubnormalParts(frac: nat, lead: nat, p: nat)
    requires frac * lead >= 0x400
    ensures ((frac * lead - 0x400) * 0x2000 + 0x80_0000) * p == frac * (p * 0x2000 * lead)
  {
    assert (frac * lead - 0x400) * 0x2000 + 0x80_0000 == frac * lead * 0x2000;
    assert frac * lead * 0x2000 * p == frac * (p * 0x2000 * lead);
  }

  lemma NormalIsExact(exp: nat, frac: nat)
    requires 0 < exp < 0x1f && frac < 0x400
    ensures var magnitude := ToFloatMagnitude(exp, frac);
            && magnitude < 0x7f80_0000
            && MagnitudeOf(magnitude / 0x80_0000, magnitude % 0x80_0000) == HalfMagnitude(exp * 0x400 + frac)
  {
    var magnitude := ToFloatMagnitude(exp, frac);
    assert magnitude / 0x80_0000 == exp + 112 && magnitude % 0x80_0000 == frac * 0x2000;
    Binade(exp, exp * 0x400 + frac);
    InUnits(frac + 0x400, 0x2000, Pow2(exp + 111));
  }

  lemma FieldsAreExact(exp: nat, frac: nat)
    requires exp < 0x1f && frac < 0x400
    ensures var magnitude := ToFloatMagnitude(exp, frac);
            && magnitude < 0x7f80_0000
            && MagnitudeOf(magnitude / 0x80_0000, magnitude % 0x80_0000) == HalfMagnitude(exp * 0x400 + frac)
  {
    if exp > 0 {
      NormalIsExact(exp, frac);
    } else {
      SmallHalf(frac);
      if frac > 0 {
        SubnormalIsExact(frac);
      }
    }
  }

  /** Conversion to thirty-two bits keeps the sign and every finite magnitude. */
  lemma ToFloatIsExact(bits: Bits16)
    requires IsFinite16(bits)
    ensures ToFloat(bits) < 0x1_0000_0000 && IsFinite32(ToFloat(bits))
    ensures ToFloat(bits) / 0x8000_0000 == bits / 0x8000
    ensures FloatMagnitude(ToFloat(bits)) == HalfMagnitude(bits % 0x8000)
  {
    var exp, frac := bits / 0x400 % 0x20, bits % 0x400;
    HalfFields(bits);
    FieldsAreExact(exp, frac);
    Fields(bits / 0x8000, ToFloatMagnitude(exp, frac));
  }

  lemma HalfFields(bits: Bits16)
    ensures bits % 0x8000 == bits / 0x400 % 0x20 * 0x400 + bits % 0x400
    ensures bits == bits / 0x8000 * 0x8000 + bits % 0x8000
  {
  }

  lemma Fields(sign: nat, magnitude: nat)
    requires sign <= 1 && magnitude < 0x8000_0000
    ensures var bits := sign * 0x8000_0000 + magnitude;
            && bits / 0x8000_0000 == sign
            && bits / 0x80_0000 % 0x100 == magnitude / 0x80_0000 && bits % 0x80_0000 == magnitude % 0x80_0000
  {
  }

  /** A NaN whose payload lacks the highest bit. */
  predicate IsSignaling(bits: Bits16) {
    !IsFinite16(bits) && 0 < bits % 0x400 < 0x200
  }

  /** There and back gives every half again, except that a signaling NaN comes back
      quiet. */
  lemma HalfRoundTripIff(bits: Bits16)
    ensures ToFloat(bits) < 0x1_0000_0000
    ensures ToHalf(ToFloat(bits)) == if IsSignaling(bits) then bits + 0x200 else bits
  {
    HalfFields(bits);
    if IsFinite16(bits) {
      ToFloatIsExact(bits);
      var back := ToHalf(ToFloat(bits));
      ToHalfIsNearestEven(ToFloat(bits));
      ExactIsNearest(bits % 0x8000, back % 0x8000);
      assert back == back / 0x8000 * 0x8000 + back % 0x8000;
    } else {
      SpecialRoundTrip(bits / 0x8000, bits % 0x400);
    }
  }

  lemma SpecialRoundTrip(sign: nat, frac: nat)
    requires sign <= 1 && frac < 0x400
    ensures ToHalf(sign * 0x8000_0000 + (0x7f80_0000 + frac * 0x2000)) ==
            sign * 0x8000 + INFINITY + if 0 < frac < 0x200 then frac + 0x200 else frac
  {
    Fields(sign, 0x7f80_0000 + frac * 0x2000);
    assert (0x7f80_0000 + frac * 0x2000) / 0x80_0000 == 0xff;
    assert (0x7f80_0000 + frac * 0x2000) % 0x80_0000 == frac * 0x2000;
  }
}
