/** Sizes and places of tensors: block sizes, the masked alignment, and the checks
    that make the descriptors tile the data region. */
module GgufLayout {
  import opened Wrappers
  import opened GgufBytes
  import opened PowersOfTwo

  // ---------------------------------------------------------------- alignment

  predicate IsPowerOfTwo(a: nat) {
    a == 1 || (a > 0 && a % 2 == 0 && IsPowerOfTwo(a / 2))
  }

  /** Bitwise and. */
  function And(x: nat, y: nat): nat {
    if x == 0 || y == 0 then 0 else (if x % 2 == 1 && y % 2 == 1 then 1 else 0) + 2 * And(x / 2, y / 2)
  }

  function Not64(x: nat): nat
    requires x <= U64_MAX
  {
    U64_MAX - x
  }

  datatype Fallible<+T> = Ok(value: T) | Err(error: Error)

  function AlignTo(value: nat, alignment: nat): Fallible<nat>
    requires 0 < alignment <= U64_MAX
  {
    var add := alignment - 1;
    if value + add > U64_MAX then Err(AlignmentOverflow) else Ok(And(value + add, Not64(add)))
  }

  lemma U64IsPower()
    ensures Pow2(64) == U64_MAX + 1
  {
    FourTimes(16);
    assert Pow2(16) == 0x1_0000 by {
      FourTimes(4);
    }
  }

  lemma FourTimes(n: nat)
    ensures Pow2(4 * n) == Pow2(n) * Pow2(n) * Pow2(n) * Pow2(n)
  {
    PowerAdds(n, n);
    PowerAdds(2 * n, 2 * n);
    var square := Pow2(n) * Pow2(n);
    assert square * square == Pow2(n) * Pow2(n) * Pow2(n) * Pow2(n);
  }

  /** Masking with the complement of a power of two less one clears what is below
      it, in words of any width. */
  lemma {:induction false} MaskClears(x: nat, a: nat, width: nat) returns (q: nat)
    requires IsPowerOfTwo(a) && x < Pow2(width) && a <= Pow2(width)
    ensures And(x, Pow2(width) - a) == q * a
    ensures q * a <= x < q * a + a
    decreases a
  {
    if a == 1 {
      q := x;
      AllOnes(x, width);
    } else {
      assert width > 0;
      q := MaskClears(x / 2, a / 2, width - 1);
      Doubled(q, a / 2);
    }
  }

  lemma Doubled(q: nat, half: nat)
    ensures q * (2 * half) == 2 * (q * half)
  {
  }

  lemma {:induction false} AllOnes(x: nat, width: nat)
    requires x < Pow2(width)
    ensures And(x, Pow2(width) - 1) == x
    decreases width
  {
    if x != 0 {
      AllOnes(x / 2, width - 1);
      assert (Pow2(width) - 1) % 2 == 1 && (Pow2(width) - 1) / 2 == Pow2(width - 1) - 1;
    }
  }

  lemma Monotone(p: nat, q: nat, a: nat)
    requires p < q
    ensures p * a + a <= q * a
  {
    assert q * a == p * a + (q - p) * a;
    assert (q - p) * a == a + (q - p - 1) * a;
  }

  lemma QuotientIsUnique(p: nat, s: nat, q: nat, r: nat, a: nat)
    requires s < a && r < a && p * a + s == q * a + r
    ensures p == q && s == r
  {
    if p < q {
      Monotone(p, q, a);
    } else if q < p {
      Monotone(q, p, a);
    }
  }

  lemma MultipleMod(q: nat, a: nat, x: nat)
    requires a > 0 && x == q * a
    ensures x % a == 0 && x / a == q
  {
    QuotientIsUnique(x / a, x % a, q, 0, a);
  }

  /** Alignment to a power of two: the least multiple not below the value, unless
      adding overflows. */
  lemma AlignsToLeastMultiple(value: nat, alignment: nat)
    requires IsPowerOfTwo(alignment) && alignment <= U64_MAX
    ensures AlignTo(value, alignment).Ok? <==> value + alignment - 1 <= U64_MAX
    ensures AlignTo(value, alignment).Ok? ==>
              var r := AlignTo(value, alignment).value;
              r % alignment == 0 && value <= r < value + alignment
    ensures forall m: nat :: AlignTo(value, alignment).Ok? && m % alignment == 0 && m >= value ==>
              m >= AlignTo(value, alignment).value
  {
    if AlignTo(value, alignment).Ok? {
      U64IsPower();
      var q := MaskClears(value + (alignment - 1), alignment, 64);
      var r := AlignTo(value, alignment).value;
      MultipleMod(q, alignment, r);
      forall m: nat | m % alignment == 0 && m >= value ensures m >= r {
        NoMultipleBetween(m, r, alignment);
      }
    }
  }

  lemma NoMultipleBetween(m: nat, r: nat, a: nat)
    requires a > 0 && m % a == 0 && r % a == 0 && r - m < a
    ensures m >= r
  {
    var p, q := m / a, r / a;
    assert m == p * a && r == q * a;
    if p < q {
      Monotone(p, q, a);
    } else if q < p {
      Monotone(q, p, a);
    }
  }

  // -------------------------------------------------------------------- sizes

  /** Elements and bytes per block of a wire type; other ids are unknown. */
  function Layout(typeId: int): (layout: Option<(nat, nat)>)
    ensures layout.Some? ==> layout.value.0 > 0 && layout.value.1 > 0
  {
    match typeId
    case 0 => Some((1, 4))
    case 1 => Some((1, 2))
    case 2 => Some((32, 18))
    case 3 => Some((32, 20))
    case 6 => Some((32, 22))
    case 7 => Some((32, 22))
    case 8 => Some((32, 34))
    case 9 => Some((32, 36))
    case 10 => Some((256, 84))
    case 11 => Some((256, 110))
    case 12 => Some((256, 144))
    case 13 => Some((256, 176))
    case 14 => Some((256, 210))
    case 15 => Some((256, 292))
    case 20 => Some((32, 18))
    case 23 => Some((256, 136))
    case 24 => Some((1, 1))
    case 25 => Some((1, 2))
    case 26 => Some((1, 4))
    case 27 => Some((1, 8))
    case 28 => Some((1, 8))
    case 30 => Some((1, 2))
    case 34 => Some((256, 54))
    case 35 => Some((256, 66))
    case 40 => Some((64, 36))
    case _ => None
  }

  /** What a block of each type holds: values, and bytes field by field as its decoder
      takes them apart. */
  function BlockFields(typeId: int): Option<(nat, nat)> {
    match typeId
    case 0 => Some((1, 4))                        // F32
    case 1 => Some((1, 2))                        // F16
    case 2 => Some((32, 2 + 16))                  // Q4_0: scale, nibbles
    case 3 => Some((32, 2 + 2 + 16))              // Q4_1: scale, minimum, nibbles
    case 6 => Some((32, 2 + 4 + 16))              // Q5_0: scale, high bits, nibbles
    case 7 => Some((32, 2 + 2 + 4 + 16))          // Q5_1: scale, minimum, high bits, nibbles
    case 8 => Some((32, 2 + 32))                  // Q8_0: scale, bytes
    case 9 => Some((32, 2 + 2 + 32))              // Q8_1: scale, sum, bytes
    case 10 => Some((256, 16 + 64 + 2 + 2))       // Q2_K: scales, pairs of bits, scale, minimum
    case 11 => Some((256, 32 + 64 + 12 + 2))      // Q3_K: high bits, pairs of bits, scales, scale
    case 12 => Some((256, 2 + 2 + 12 + 128))      // Q4_K: scale, minimum, scales, nibbles
    case 13 => Some((256, 2 + 2 + 12 + 32 + 128)) // Q5_K: scale, minimum, scales, high bits, nibbles
    case 14 => Some((256, 128 + 64 + 16 + 2))     // Q6_K: low bits, high bits, scales, scale
    case 15 => Some((256, 4 + 256 + 32))          // Q8_K: scale, bytes, 16-bit sums
    case 20 => Some((32, 2 + 16))                 // IQ4_NL: scale, nibbles
    case 23 => Some((256, 2 + 2 + 4 + 128))       // IQ4_XS: scale, high and low scales, nibbles
    case 24 => Some((1, 1))                       // I8
    case 25 => Some((1, 2))                       // I16
    case 26 => Some((1, 4))                       // I32
    case 27 => Some((1, 8))                       // I64
    case 28 => Some((1, 8))                       // F64
    case 30 => Some((1, 2))                       // BF16
    case 34 => Some((256, 48 + 4 + 2))            // TQ1_0: ternary digits, the last of them, scale
    case 35 => Some((256, 64 + 2))                // TQ2_0: ternary digits, scale
    case 40 => Some((64, 4 + 32))                 // NVFP4: scales, nibbles
    case _ => None
  }

  /** The layout is the size of the fields for every type but Q5_1, whose minimum it
      leaves out. */
  lemma LayoutIsItsFieldsIff(typeId: int)
    ensures Layout(typeId) == BlockFields(typeId) <==> typeId != 7
    ensures Layout(7).value == (32, 22) && BlockFields(7).value == (32, 24)
  {
  }

  /** So a Q5_1 tensor that is not empty gets fewer bytes than its blocks take. */
  lemma Q5_1IsSizedShort(dims: seq<nat>)
    requires dims != [] && Sizable(dims, 7) && Product(dims) > 0
    ensures Bytes(dims, Layout(7).value) < Bytes(dims, BlockFields(7).value)
  {
    var q := FirstDivides(dims, 32);
    MultipleMod(q, 32, Product(dims));
  }

  function Product(dims: seq<nat>): nat
    decreases dims
  {
    if dims == [] then 1 else Product(dims[..|dims| - 1]) * dims[|dims| - 1]
  }

  /** Every product on the way fits: a zero dimension does not excuse those before it. */
  predicate ProductsFit(dims: seq<nat>) {
    forall i :: 0 <= i <= |dims| ==> Product(dims[..i]) <= U64_MAX
  }

  function FirstDim(dims: seq<nat>): nat {
    if dims == [] then 1 else dims[0]
  }

  function Bytes(dims: seq<nat>, layout: (nat, nat)): nat
    requires layout.0 > 0
  {
    Product(dims) / layout.0 * layout.1
  }

  predicate Sizable(dims: seq<nat>, typeId: int) {
    var layout := Layout(typeId);
    layout.Some? && FirstDim(dims) % layout.value.0 == 0 && ProductsFit(dims) && Bytes(dims, layout.value) <= U64_MAX
  }

  /** Exactly when a tensor has a size, and that the division in it is exact. */
  method TensorNBytes(dims: seq<nat>, typeId: int) returns (r: Fallible<nat>)
    ensures r.Ok? <==> Sizable(dims, typeId)
    ensures r.Ok? ==>
              var layout := Layout(typeId).value;
              r.value == Bytes(dims, layout) <= U64_MAX &&
              (dims != [] ==> r.value * layout.0 == Product(dims) * layout.1)
    ensures r.Err? ==> r.error == WhyNotSizable(dims, typeId)
  {
    var layout := Layout(typeId);
    if layout.None? {
      return Err(UnknownTensorType);
    }
    var (blockSize, typeSize) := layout.value;
    if FirstDim(dims) % blockSize != 0 {
      return Err(NotWholeBlocks);
    }
    var elements := 1;
    assert dims[..0] == [];
    for i := 0 to |dims|
      invariant elements == Product(dims[..i])
      invariant forall j :: 0 <= j <= i ==> Product(dims[..j]) <= U64_MAX
    {
      assert dims[..i + 1][..i] == dims[..i];
      if elements * dims[i] > U64_MAX {
        assert Product(dims[..i + 1]) > U64_MAX;
        return Err(ElementOverflow);
      }
      elements := elements * dims[i];
    }
    assert dims[..|dims|] == dims;
    var blocks := elements / blockSize;
    if blocks * typeSize > U64_MAX {
      return Err(SizeOverflow);
    }
    if dims != [] {
      WholeBlocks(dims, blockSize, typeSize);
    }
    r := Ok(blocks * typeSize);
  }

  function WhyNotSizable(dims: seq<nat>, typeId: int): Error {
    var layout := Layout(typeId);
    if layout.None? then UnknownTensorType
    else if FirstDim(dims) % layout.value.0 != 0 then NotWholeBlocks
    else if !ProductsFit(dims) then ElementOverflow
    else SizeOverflow
  }

  lemma WholeBlocks(dims: seq<nat>, block: nat, size: nat)
    requires dims != [] && block > 0 && dims[0] % block == 0
    ensures Product(dims) / block * size * block == Product(dims) * size
  {
    var q := FirstDivides(dims, block);
    MultipleMod(q, block, Product(dims));
    assert q * size * block == q * block * size;
  }

  lemma {:induction false} FirstDivides(dims: seq<nat>, block: nat) returns (q: nat)
    requires dims != [] && block > 0 && dims[0] % block == 0
    ensures Product(dims) == q * block
    decreases dims
  {
    var before, last := dims[..|dims| - 1], dims[|dims| - 1];
    if before == [] {
      q := dims[0] / block;
      assert Product(before) == 1;
    } else {
      var p := FirstDivides(before, block);
      q := p * last;
      assert p * block * last == q * block;
    }
  }

  /** Which check fails first: the type, whole blocks, the products on the way, the size. */
  lemma SizeErrors(dims: seq<nat>, typeId: int)
    requires !Sizable(dims, typeId)
    ensures var e, layout := WhyNotSizable(dims, typeId), Layout(typeId);
            && (e == UnknownTensorType <==> layout == None)
            && (e == NotWholeBlocks <==> layout.Some? && FirstDim(dims) % layout.value.0 != 0)
            && (e == ElementOverflow <==>
                  && layout.Some? && FirstDim(dims) % layout.value.0 == 0
                  && exists i :: 0 <= i <= |dims| && Product(dims[..i]) > U64_MAX)
            && e in {UnknownTensorType, NotWholeBlocks, ElementOverflow, SizeOverflow}
  {
  }

  // ---------------------------------------------------------------- placement

  datatype RawTensor = RawTensor(name: string, dims: seq<nat>, typeId: int, offset: nat)

  datatype Descriptor = Descriptor(
    name: string, dims: seq<nat>, typeId: int, relative: nat, absolute: nat, bytes: nat)

  /** The tensor data region. */
  datatype Region = Region(start: nat, alignment: nat, end: nat)

  function SizeOf(t: RawTensor): nat
    requires Sizable(t.dims, t.typeId)
  {
    Bytes(t.dims, Layout(t.typeId).value)
  }

  function Placed(t: RawTensor, region: Region): Descriptor
    requires Sizable(t.dims, t.typeId)
  {
    Descriptor(t.name, t.dims, t.typeId, t.offset, region.start + t.offset, SizeOf(t))
  }

  predicate RegionFits(region: Region) {
    IsPowerOfTwo(region.alignment) && region.alignment <= U64_MAX && region.end <= U64_MAX && region.start <= region.end
  }

  /** One tensor in order: named for the first time, starting where the one before
      it ended once aligned, of known size and inside the file. */
  predicate Fits(t: RawTensor, expected: nat, seen: set<string>, region: Region)
    requires RegionFits(region)
  {
    && t.name !in seen && t.offset == expected && Sizable(t.dims, t.typeId)
    && region.start + t.offset + SizeOf(t) <= region.end
    && AlignTo(t.offset + SizeOf(t), region.alignment).Ok?
  }

  function NextOffset(t: RawTensor, region: Region): nat
    requires RegionFits(region) && Sizable(t.dims, t.typeId)
  {
    var next := AlignTo(t.offset + SizeOf(t), region.alignment);
    if next.Ok? then next.value else 0
  }

  predicate AllFit(raw: seq<RawTensor>, expected: nat, seen: set<string>, region: Region)
    requires RegionFits(region)
    decreases raw
  {
    raw == [] ||
    (Fits(raw[0], expected, seen, region) &&
     AllFit(raw[1..], NextOffset(raw[0], region), seen + {raw[0].name}, region))
  }

  function AllPlaced(raw: seq<RawTensor>, region: Region): seq<Descriptor>
    requires forall t :: t in raw ==> Sizable(t.dims, t.typeId)
    decreases raw
  {
    if raw == [] then [] else [Placed(raw[0], region)] + AllPlaced(raw[1..], region)
  }

  /** Checks one descriptor as the file does; the offset it leaves is the next
      tensor's. */
  method PlaceTensor(t: RawTensor, expected: nat, seen: set<string>, region: Region)
    returns (r: Fallible<(Descriptor, nat)>)
    requires RegionFits(region)
    ensures r.Ok? <==> Fits(t, expected, seen, region)
    ensures r.Ok? ==> r.value == (Placed(t, region), NextOffset(t, region))
    ensures r.Err? ==> r.error == WhyNotFits(t, expected, seen, region)
  {
    if t.name in seen {
      return Err(DuplicateName);
    }
    if t.offset != expected {
      return Err(NotContiguous);
    }
    var size := TensorNBytes(t.dims, t.typeId);
    if size.Err? {
      return Err(size.error);
    }
    var absolute := region.start + t.offset;
    var end := absolute + size.value;
    if absolute > U64_MAX || end > U64_MAX {
      return Err(RangeOverflow);
    }
    if end > region.end {
      return Err(DataBeyondEnd);
    }
    var next := AlignTo(t.offset + size.value, region.alignment);
    if next.Err? {
      return Err(next.error);
    }
    r := Ok((Descriptor(t.name, t.dims, t.typeId, t.offset, absolute, size.value), next.value));
  }

  function WhyNotFits(t: RawTensor, expected: nat, seen: set<string>, region: Region): Error
    requires RegionFits(region)
  {
    if t.name in seen then DuplicateName
    else if t.offset != expected then NotContiguous
    else if !Sizable(t.dims, t.typeId) then WhyNotSizable(t.dims, t.typeId)
    else if region.start + t.offset + SizeOf(t) > U64_MAX then RangeOverflow
    else if region.start + t.offset + SizeOf(t) > region.end then DataBeyondEnd
    else AlignmentOverflow
  }

  /** Which check fails first: the name, the offset, the size, the end, the next offset. */
  lemma PlacementErrors(t: RawTensor, expected: nat, seen: set<string>, region: Region)
    requires RegionFits(region) && !Fits(t, expected, seen, region)
    ensures var e, sized := WhyNotFits(t, expected, seen, region), Sizable(t.dims, t.typeId);
            && (e == DuplicateName <==> t.name in seen)
            && (e == NotContiguous <==> t.name !in seen && t.offset != expected)
            && (t.name !in seen && t.offset == expected && !sized ==> e == WhyNotSizable(t.dims, t.typeId))
            && (t.name !in seen && t.offset == expected && sized ==>
                  var end := region.start + t.offset + SizeOf(t);
                  e == if end > U64_MAX then RangeOverflow
                       else if end > region.end then DataBeyondEnd else AlignmentOverflow)
  {
  }

  function WhyNotAllFit(raw: seq<RawTensor>, expected: nat, seen: set<string>, region: Region): Error
    requires RegionFits(region) && !AllFit(raw, expected, seen, region)
    decreases raw
  {
    if !Fits(raw[0], expected, seen, region) then WhyNotFits(raw[0], expected, seen, region)
    else WhyNotAllFit(raw[1..], NextOffset(raw[0], region), seen + {raw[0].name}, region)
  }

  lemma {:induction false} AllFitAreSizable(raw: seq<RawTensor>, expected: nat, seen: set<string>, region: Region)
    requires RegionFits(region) && AllFit(raw, expected, seen, region)
    ensures forall t :: t in raw ==> Sizable(t.dims, t.typeId)
    decreases raw
  {
    if raw != [] {
      AllFitAreSizable(raw[1..], NextOffset(raw[0], region), seen + {raw[0].name}, region);
    }
  }

  // ------------------------------------------------------------------- tiling

  function End(d: Descriptor): nat {
    d.absolute + d.bytes
  }

  /** The gap left by rounding an end up. */
  ghost predicate Follows(d: Descriptor, e: Descriptor, alignment: nat) {
    End(d) <= e.absolute < End(d) + alignment
  }

  /** Tensors stand in declaration order, aligned, at distances less than the
      alignment, from the region's start to no further than its end. */
  ghost predicate Tiles(tensors: seq<Descriptor>, region: Region)
    requires region.alignment > 0
  {
    && (tensors != [] ==> tensors[0].absolute == region.start)
    && (forall i :: 0 <= i < |tensors| ==> InRegion(tensors[i], region))
    && (forall i :: 0 <= i < |tensors| - 1 ==> Follows(tensors[i], tensors[i + 1], region.alignment))
  }

  ghost predicate InRegion(d: Descriptor, region: Region)
    requires region.alignment > 0
  {
    && d.absolute % region.alignment == 0 && d.absolute == region.start + d.relative
    && region.start <= d.absolute && End(d) <= region.end
  }

  lemma SumOfMultiples(x: nat, y: nat, a: nat)
    requires a > 0 && x % a == 0 && y % a == 0
    ensures (x + y) % a == 0
  {
    assert x == x / a * a && y == y / a * a;
    assert x + y == (x / a + y / a) * a;
    MultipleMod(x / a + y / a, a, x + y);
  }

  lemma {:induction false} AllFitTile(raw: seq<RawTensor>, expected: nat, seen: set<string>, region: Region)
    requires RegionFits(region) && AllFit(raw, expected, seen, region)
    requires forall t :: t in raw ==> Sizable(t.dims, t.typeId)
    requires expected % region.alignment == 0 && region.start % region.alignment == 0
    ensures |AllPlaced(raw, region)| == |raw|
    ensures forall i :: 0 <= i < |raw| ==> AllPlaced(raw, region)[i] == Placed(raw[i], region)
    ensures raw != [] ==> AllPlaced(raw, region)[0].absolute == region.start + expected
    ensures forall i :: 0 <= i < |raw| ==> InRegion(AllPlaced(raw, region)[i], region)
    ensures forall i :: 0 <= i < |raw| - 1 ==>
              Follows(AllPlaced(raw, region)[i], AllPlaced(raw, region)[i + 1], region.alignment)
    decreases raw
  {
    if raw != [] {
      var next := NextOffset(raw[0], region);
      AlignsToLeastMultiple(raw[0].offset + SizeOf(raw[0]), region.alignment);
      SumOfMultiples(region.start, expected, region.alignment);
      AllFitTile(raw[1..], next, seen + {raw[0].name}, region);
    }
  }

  /** The tensor ends inside the region, and aligning its end does not overflow. */
  ghost predicate EndsInside(t: RawTensor, region: Region)
    requires Sizable(t.dims, t.typeId)
  {
    && region.start + t.offset + SizeOf(t) <= region.end
    && t.offset + SizeOf(t) + region.alignment - 1 <= U64_MAX
  }

  /** `offset` is the first multiple of the alignment at or after the tensor's end. */
  ghost predicate FollowsOn(t: RawTensor, offset: nat, region: Region)
    requires region.alignment > 0 && Sizable(t.dims, t.typeId)
  {
    offset % region.alignment == 0 && t.offset + SizeOf(t) <= offset < t.offset + SizeOf(t) + region.alignment
  }

  lemma NextIsFirstMultiple(t: RawTensor, offset: nat, region: Region)
    requires RegionFits(region) && Sizable(t.dims, t.typeId) && EndsInside(t, region) && FollowsOn(t, offset, region)
    ensures AlignTo(t.offset + SizeOf(t), region.alignment) == Ok(offset)
  {
    AlignsToLeastMultiple(t.offset + SizeOf(t), region.alignment);
    var next := AlignTo(t.offset + SizeOf(t), region.alignment).value;
    NoMultipleBetween(offset, next, region.alignment);
    NoMultipleBetween(next, offset, region.alignment);
  }

  /** Whatever tiles the region under names of its own is accepted. */
  lemma {:induction false} TilingIsAccepted(raw: seq<RawTensor>, expected: nat, seen: set<string>, region: Region)
    requires RegionFits(region) && DistinctNames(raw)
    requires forall i :: 0 <= i < |raw| ==>
               raw[i].name !in seen && Sizable(raw[i].dims, raw[i].typeId) && EndsInside(raw[i], region)
    requires raw != [] ==> raw[0].offset == expected
    requires forall i :: 0 <= i < |raw| - 1 ==> FollowsOn(raw[i], raw[i + 1].offset, region)
    ensures AllFit(raw, expected, seen, region)
    decreases raw
  {
    if raw != [] {
      var rest := raw[1..];
      assert EndsInside(raw[0], region);
      AlignsToLeastMultiple(raw[0].offset + SizeOf(raw[0]), region.alignment);
      if rest != [] {
        assert FollowsOn(raw[0], raw[1].offset, region);
        NextIsFirstMultiple(raw[0], raw[1].offset, region);
      }
      forall i | 0 <= i < |rest| ensures
          && rest[i].name !in seen + {raw[0].name} && Sizable(rest[i].dims, rest[i].typeId)
          && EndsInside(rest[i], region)
      {
        assert rest[i] == raw[i + 1];
      }
      forall i | 0 <= i < |rest| - 1 ensures FollowsOn(rest[i], rest[i + 1].offset, region) {
        assert FollowsOn(raw[i + 1], raw[i + 2].offset, region);
      }
      TilingIsAccepted(rest, NextOffset(raw[0], region), seen + {raw[0].name}, region);
    }
  }

  /** In a tiling any two tensors are disjoint, whatever their distance. */
  lemma {:induction false} TilesAreDisjoint(tensors: seq<Descriptor>, region: Region, i: nat, j: nat)
    requires region.alignment > 0 && Tiles(tensors, region) && i < j < |tensors|
    ensures End(tensors[i]) <= tensors[j].absolute
    decreases j
  {
    assert Follows(tensors[j - 1], tensors[j], region.alignment);
    if i < j - 1 {
      TilesAreDisjoint(tensors, region, i, j - 1);
    }
  }

  predicate DistinctNames(raw: seq<RawTensor>) {
    forall i, j :: 0 <= i < j < |raw| ==> raw[i].name != raw[j].name
  }

  lemma {:induction false} AllFitAreDistinct(raw: seq<RawTensor>, expected: nat, seen: set<string>, region: Region)
    requires RegionFits(region) && AllFit(raw, expected, seen, region)
    ensures DistinctNames(raw) && forall i :: 0 <= i < |raw| ==> raw[i].name !in seen
    decreases raw
  {
    if raw != [] {
      var rest := raw[1..];
      AllFitAreDistinct(rest, NextOffset(raw[0], region), seen + {raw[0].name}, region);
      forall i, j | 0 <= i < j < |raw| ensures raw[i].name != raw[j].name {
        assert raw[j] == rest[j - 1];
        if i > 0 {
          assert raw[i] == rest[i - 1];
        }
      }
      forall i | 0 <= i < |raw| ensures raw[i].name !in seen {
        if i > 0 {
          assert raw[i] == rest[i - 1];
        }
      }
    }
  }
}
