/** Parsing a GGUF file: the header, where the data starts, and the tensors' places. */
module Gguf {
  import opened Utf8
  import opened GgufBytes
  import opened GgufLayout
  import opened GgufHeader
  import opened GgufRoundTrip
  import opened PowersOfTwo

  datatype GgufFile = GgufFile(
    counts: Counts, alignment: nat, dataStart: nat, metadata: Metadata, tensors: seq<Descriptor>)

  // ------------------------------------------------- the alignment is a 64-bit number

  predicate IntegersFit(m: Metadata) {
    forall key :: key in m ==> IntegerFits(m[key])
  }

  predicate IntegerFits(v: Value) {
    v.Number? && (v.kind == U32 || v.kind == U64) ==> v.value <= U64_MAX
  }

  lemma ReadIntegersFit(b: seq<Byte>, pos: nat, read: Metadata)
    requires IntegersFit(read) && AddEntry(b, pos, read).Read?
    ensures IntegersFit(AddEntry(b, pos, read).value)
  {
    ValueIntegerFits(b, ReadString(b, pos).next);
  }

  lemma ValueIntegerFits(b: seq<Byte>, pos: nat)
    ensures ReadValue(b, pos).Read? ==> IntegerFits(ReadValue(b, pos).value)
  {
    var v := ReadValue(b, pos);
    if v.Read? && v.value.Number? {
      UnsignedFits(b, pos + 4, v.value.kind.Width());
    }
  }

  lemma UnsignedFits(b: seq<Byte>, pos: nat, n: nat)
    ensures ReadUnsigned(b, pos, n).Read? && n <= 8 ==> ReadUnsigned(b, pos, n).value <= U64_MAX
  {
    if ReadUnsigned(b, pos, n).Read? && n <= 8 {
      FromLeInRange(b[pos..pos + n]);
      PowerGrows(n);
    }
  }

  lemma PowerGrows(n: nat)
    requires n <= 8
    ensures Pow256(n) <= U64_MAX + 1
    decreases 8 - n
  {
    Powers();
    if n < 8 {
      PowerGrows(n + 1);
    }
  }

  ghost predicate KeepsTrue<S(!new)>(step: Step<S>, keep: S -> bool) {
    forall b, pos, s :: keep(s) && step(b, pos, s).Read? ==> keep(step(b, pos, s).value)
  }

  lemma {:induction false} RepeatKeeps<S(!new)>(
    step: Step<S>, keep: S -> bool, b: seq<Byte>, pos: nat, count: nat, s: S)
    requires KeepsTrue(step, keep) && keep(s) && Repeat(step, b, pos, count, s).Read?
    ensures keep(Repeat(step, b, pos, count, s).value)
    decreases count
  {
    if count != 0 {
      var r := step(b, pos, s);
      RepeatKeeps(step, keep, b, r.next, count - 1, r.value);
    }
  }

  lemma AlignmentFits(b: seq<Byte>)
    requires ReadHeader(b).Read?
    ensures ReadHeader(b).value.alignment <= U64_MAX
  {
    var counts, m, metadata, n := HeaderParts(b);
    forall b, pos, read | IntegersFit(read) && AddEntry(b, pos, read).Read?
      ensures IntegersFit(AddEntry(b, pos, read).value)
    {
      ReadIntegersFit(b, pos, read);
    }
    RepeatKeeps(AddEntry, IntegersFit, b, m, counts.entries, map[]);
  }

  // ------------------------------------------------- what is read is within limits

  lemma {:induction false} RepeatAdds<S(!new)>(
    step: Step<S>, size: S -> nat, b: seq<Byte>, pos: nat, count: nat, s: S)
    requires forall b, pos, s :: step(b, pos, s).Read? ==> size(step(b, pos, s).value) == size(s) + 1
    requires Repeat(step, b, pos, count, s).Read?
    ensures size(Repeat(step, b, pos, count, s).value) == size(s) + count
    decreases count
  {
    if count != 0 {
      var r := step(b, pos, s);
      RepeatAdds(step, size, b, r.next, count - 1, r.value);
    }
  }

  lemma SignedInRange(b: seq<Byte>, pos: nat, n: nat)
    ensures ReadSigned(b, pos, n).Read? ==> SignedFits(ReadSigned(b, pos, n).value, n)
    ensures ReadUnsigned(b, pos, n).Read? ==> ReadUnsigned(b, pos, n).value < Pow256(n)
  {
    if ReadUnsigned(b, pos, n).Read? {
      FromLeInRange(b[pos..pos + n]);
    }
  }

  lemma StringInLimits(b: seq<Byte>, pos: nat)
    ensures ReadString(b, pos).Read? ==> StringFits(ReadString(b, pos).value)
  {
    if ReadString(b, pos).Read? {
      var bytes := ReadBytes(b, pos + 8, ReadUnsigned(b, pos, 8).value).value;
      DecodedIsValid(bytes);
      assert Encode(ReadString(b, pos).value) == bytes;
    }
  }

  /** A scalar read has the type asked for and is one a writer can write... */
  lemma ScalarInLimits(b: seq<Byte>, pos: nat, id: int)
    ensures ReadScalar(b, pos, id).Read? ==>
              ScalarFits(ReadScalar(b, pos, id).value) && TypeId(ReadScalar(b, pos, id).value) == id
  {
    var kind := KindOf(id);
    if kind.Some? {
      SignedInRange(b, pos, kind.value.Width());
    }
    StringInLimits(b, pos);
  }

  /** ... but any byte other than zero is true. */
  lemma AnyOtherByteIsTrue(b: seq<Byte>, pos: nat)
    requires pos < |b| <= U64_MAX
    ensures ReadScalar(b, pos, 7) == Read(Bool(b[pos] != 0), pos + 1)
  {
    assert b[pos..pos + 1] == [b[pos]] && [b[pos]][1..] == [];
    assert FromLe([b[pos]]) == b[pos];
  }

  lemma ElementsInLimits(b: seq<Byte>, pos: nat, count: nat, id: int)
    requires Repeat(ReadElement, b, pos, count, (id, [])).Read?
    ensures var read := Repeat(ReadElement, b, pos, count, (id, [])).value;
            read.0 == id && ElementsFit(read.1, id) && |read.1| == count
  {
    var keep := (read: (int, seq<Value>)) => read.0 == id && ElementsFit(read.1, id);
    forall b, pos, s | keep(s) && ReadElement(b, pos, s).Read? ensures keep(ReadElement(b, pos, s).value) {
      ScalarInLimits(b, pos, id);
    }
    RepeatKeeps(ReadElement, keep, b, pos, count, (id, []));
    RepeatAdds(ReadElement, (read: (int, seq<Value>)) => |read.1|, b, pos, count, (id, []));
  }

  lemma ArrayInLimits(b: seq<Byte>, pos: nat)
    ensures ReadArray(b, pos).Read? ==> ValueFits(ReadArray(b, pos).value)
  {
    if ReadArray(b, pos).Read? {
      var id, len := ReadSigned(b, pos, 4), ReadUnsigned(b, pos + 4, 8);
      ElementsInLimits(b, len.next, len.value, id.value);
      var values := ReadArray(b, pos).value.values;
      assert values != [] ==> TypeId(values[0]) == id.value;
    }
  }

  lemma ValueInLimits(b: seq<Byte>, pos: nat)
    ensures ReadValue(b, pos).Read? ==> ValueFits(ReadValue(b, pos).value)
  {
    if ReadSigned(b, pos, 4).Read? {
      ScalarInLimits(b, pos + 4, ReadSigned(b, pos, 4).value);
      ArrayInLimits(b, pos + 4);
    }
  }

  ghost predicate MetadataFits(m: Metadata) {
    forall key :: key in m ==> StringFits(key) && ValueFits(m[key])
  }

  lemma MetadataInLimits(b: seq<Byte>, pos: nat, count: nat)
    requires Repeat(AddEntry, b, pos, count, map[]).Read?
    ensures var metadata := Repeat(AddEntry, b, pos, count, map[]).value;
            MetadataFits(metadata) && |metadata| == count
  {
    forall b, pos, read | MetadataFits(read) && AddEntry(b, pos, read).Read?
      ensures MetadataFits(AddEntry(b, pos, read).value)
    {
      StringInLimits(b, pos);
      ValueInLimits(b, ReadString(b, pos).next);
    }
    RepeatKeeps(AddEntry, MetadataFits, b, pos, count, map[]);
    RepeatAdds(AddEntry, (read: Metadata) => |read|, b, pos, count, map[]);
  }

  lemma DimsInLimits(b: seq<Byte>, pos: nat, count: nat)
    requires Repeat(AddDim, b, pos, count, []).Read?
    ensures var dims := Repeat(AddDim, b, pos, count, []).value;
            |dims| == count && forall i :: 0 <= i < |dims| ==> SignedFits(dims[i], 8)
  {
    var keep := (dims: seq<nat>) => forall i :: 0 <= i < |dims| ==> SignedFits(dims[i], 8);
    forall b, pos, read | keep(read) && AddDim(b, pos, read).Read? ensures keep(AddDim(b, pos, read).value) {
      SignedInRange(b, pos, 8);
    }
    RepeatKeeps(AddDim, keep, b, pos, count, []);
    RepeatAdds(AddDim, (dims: seq<nat>) => |dims|, b, pos, count, []);
  }

  lemma TensorInLimits(b: seq<Byte>, pos: nat)
    ensures ReadTensor(b, pos).Read? ==> TensorFits(ReadTensor(b, pos).value)
  {
    if ReadTensor(b, pos).Read? {
      var named := ReadString(b, pos).next;
      var n := ReadUnsigned(b, named, 4);
      var dims := Repeat(AddDim, b, n.next, n.value, []);
      DimsInLimits(b, n.next, n.value);
      SignedInRange(b, dims.next, 4);
      UnsignedFits(b, dims.next + 4, 8);
    }
  }

  lemma TensorsInLimits(b: seq<Byte>, pos: nat, count: nat)
    requires Repeat(AddTensor, b, pos, count, []).Read?
    ensures var raw := Repeat(AddTensor, b, pos, count, []).value; TensorsFit(raw) && |raw| == count
  {
    forall b, pos, read | TensorsFit(read) && AddTensor(b, pos, read).Read?
      ensures TensorsFit(AddTensor(b, pos, read).value)
    {
      TensorInLimits(b, pos);
    }
    RepeatKeeps(AddTensor, TensorsFit, b, pos, count, []);
    RepeatAdds(AddTensor, (read: seq<RawTensor>) => |read|, b, pos, count, []);
  }

  /** A header that is read begins with the four letters and a known version, and holds
      as many entries and descriptors as it says, none beyond what a writer may write. */
  lemma HeaderInLimits(b: seq<Byte>)
    requires ReadHeader(b).Read?
    ensures |b| >= 4 && b[..4] == ['G' as int, 'G' as int, 'U' as int, 'F' as int]
    ensures var h := ReadHeader(b).value;
            && (h.counts.version == 2 || h.counts.version == 3)
            && |h.metadata| == h.counts.entries && MetadataFits(h.metadata)
            && |h.raw| == h.counts.tensors && TensorsFit(h.raw)
            && AlignmentOf(h.metadata) == Ok(h.alignment)
  {
    var counts, m, metadata, n := HeaderParts(b);
    MetadataInLimits(b, m, counts.entries);
    TensorsInLimits(b, n, counts.tensors);
  }

  /** Anything else at the front is refused as such, whatever follows. */
  lemma OtherFilesAreRefused(b: seq<Byte>)
    ensures |b| < 4 ==> ReadHeader(b) == Bad(UnexpectedEnd)
    ensures 4 <= |b| <= U64_MAX && b[..4] != ['G' as int, 'G' as int, 'U' as int, 'F' as int] ==>
              ReadHeader(b) == Bad(BadMagic)
    ensures 8 <= |b| <= U64_MAX && b[..4] == ['G' as int, 'G' as int, 'U' as int, 'F' as int] ==>
              (FromLe(b[4..8]) == 2 || FromLe(b[4..8]) == 3 || ReadHeader(b) == Bad(UnsupportedVersion))
  {
  }

  /** The alignment is that of the metadata if it is an unsigned integer of 32 or 64 bits
      and a power of two, and 32 if the metadata has none. */
  lemma AlignmentIs(metadata: Metadata)
    ensures "general.alignment" !in metadata ==> AlignmentOf(metadata) == Ok(32)
    ensures "general.alignment" in metadata ==>
              var v := metadata["general.alignment"];
              var wide := v.Number? && (v.kind == U32 || v.kind == U64);
              && (AlignmentOf(metadata) == Err(AlignmentNotInteger) <==> !wide)
              && (wide ==> AlignmentOf(metadata) ==
                             if exists k: nat :: v.value == Pow2(k) then Ok(v.value) else Err(BadAlignment))
  {
    if "general.alignment" in metadata {
      var v := metadata["general.alignment"];
      if v.Number? && v.value > 0 {
        PowerIff(v.value);
      }
    }
  }

  lemma PowerIff(a: nat)
    ensures IsPowerOfTwo(a) <==> exists k: nat :: a == Pow2(k)
  {
    if IsPowerOfTwo(a) {
      var k := Exponent(a);
    }
    if k: nat :| a == Pow2(k) {
      PowersArePowers(k);
    }
  }

  lemma {:induction false} Exponent(a: nat) returns (k: nat)
    requires IsPowerOfTwo(a)
    ensures a == Pow2(k)
  {
    k := 0;
    if a != 1 {
      var half := Exponent(a / 2);
      k := half + 1;
    }
  }

  lemma {:induction false} PowersArePowers(k: nat)
    ensures IsPowerOfTwo(Pow2(k))
  {
    if k > 0 {
      PowersArePowers(k - 1);
    }
  }

  // ------------------------------------------------------------------ the parse

  /** What follows a header that ends at `next`, in a file declared this long. */
  function Laid(h: Header, next: nat, declared: nat): Fallible<GgufFile>
    requires IsPowerOfTwo(h.alignment) && h.alignment <= U64_MAX && declared <= U64_MAX
  {
    var start := AlignTo(next, h.alignment);
    if start.Err? then Err(start.error)
    else if start.value > declared then Err(DataStartBeyondEnd)
    else
      var region := Region(start.value, h.alignment, declared);
      if !AllFit(h.raw, 0, {}, region) then Err(WhyNotAllFit(h.raw, 0, {}, region))
      else
        AllFitAreSizable(h.raw, 0, {}, region);
        Ok(GgufFile(h.counts, h.alignment, start.value, h.metadata, AllPlaced(h.raw, region)))
  }

  ghost function ParseFile(b: seq<Byte>, declared: nat): Fallible<GgufFile>
    requires declared <= U64_MAX
  {
    var header := ReadHeader(b);
    if header.Bad? then Err(header.error)
    else
      AlignmentFits(b);
      Laid(header.value, header.next, declared)
  }

  // ----------------------------------------------------------------- the cursor

  /** A loop that began as `all` has `left` turns to go. */
  ghost predicate Unfinished<S>(step: Step<S>, b: seq<Byte>, pos: nat, left: nat, state: S, all: Parsed<S>) {
    all == Repeat(step, b, pos, left, state)
  }

  lemma TurnTaken<S>(
    step: Step<S>, b: seq<Byte>, pos: nat, left: nat, state: S, all: Parsed<S>, after: S, next: nat, fewer: nat)
    requires left == fewer + 1 && Unfinished(step, b, pos, left, state, all) && step(b, pos, state) == Read(after, next)
    ensures Unfinished(step, b, next, fewer, after, all)
  {
  }

  lemma LoopStops<S>(step: Step<S>, b: seq<Byte>, pos: nat, left: nat, state: S, all: Parsed<S>, e: Error)
    requires left > 0 && Unfinished(step, b, pos, left, state, all) && step(b, pos, state) == Bad(e)
    ensures all == Bad(e)
  {
  }

  function Result<T>(p: Parsed<T>): Fallible<T> {
    if p.Bad? then Err(p.error) else Ok(p.value)
  }

  /** A reader that tracks its position; after an error it is not used again. */
  class Cursor {
    const bytes: seq<Byte>
    var pos: nat

    constructor (bytes: seq<Byte>)
      ensures this.bytes == bytes && pos == 0
    {
      this.bytes, pos := bytes, 0;
    }

    ghost predicate After<T>(p: Parsed<T>, r: Fallible<T>)
      reads this
    {
      r == Result(p) && (p.Read? ==> pos == p.next)
    }

    method TakeBytes(n: nat) returns (r: Fallible<seq<Byte>>)
      modifies this
      ensures After(ReadBytes(bytes, old(pos), n), r)
    {
      if pos + n > |bytes| {
        return Err(UnexpectedEnd);
      }
      if pos + n > U64_MAX {
        return Err(CursorOverflow);
      }
      r := Ok(bytes[pos..pos + n]);
      pos := pos + n;
    }

    method TakeUnsigned(n: nat) returns (r: Fallible<nat>)
      modifies this
      ensures After(ReadUnsigned(bytes, old(pos), n), r)
    {
      var taken := TakeBytes(n);
      r := if taken.Err? then Err(taken.error) else Ok(FromLe(taken.value));
    }

    method TakeSigned(n: nat) returns (r: Fallible<int>)
      modifies this
      ensures After(ReadSigned(bytes, old(pos), n), r)
    {
      var u := TakeUnsigned(n);
      r := if u.Err? then Err(u.error) else Ok(AsSigned(u.value, n));
    }

    method TakeString() returns (r: Fallible<string>)
      modifies this
      ensures After(ReadString(bytes, old(pos)), r)
    {
      var len := TakeUnsigned(8);
      if len.Err? {
        return Err(len.error);
      }
      if len.value > MAX_STRING_BYTES {
        return Err(StringTooLarge);
      }
      var text := TakeBytes(len.value);
      if text.Err? {
        return Err(text.error);
      }
      DecodedIsValid(text.value);
      if !IsValid(text.value) {
        return Err(NotUtf8);
      }
      r := Ok(ValidText(text.value));
    }

    method TakeScalar(id: int) returns (r: Fallible<Value>)
      modifies this
      ensures After(ReadScalar(bytes, old(pos), id), r)
    {
      var kind := KindOf(id);
      if kind.Some? {
        if kind.value.Signed() {
          var n := TakeSigned(kind.value.Width());
          return if n.Err? then Err(n.error) else Ok(Number(kind.value, n.value));
        }
        var n := TakeUnsigned(kind.value.Width());
        return if n.Err? then Err(n.error) else Ok(Number(kind.value, n.value));
      }
      if id == 7 {
        var flag := TakeUnsigned(1);
        return if flag.Err? then Err(flag.error) else Ok(Bool(flag.value != 0));
      }
      if id == 8 {
        var text := TakeString();
        return if text.Err? then Err(text.error) else Ok(Text(text.value));
      }
      r := Err(UnknownValueType);
    }

    method TakeElements(id: int, count: nat) returns (r: Fallible<(int, seq<Value>)>)
      modifies this
      ensures After(Repeat(ReadElement, bytes, old(pos), count, (id, [])), r)
    {
      var values: seq<Value> := [];
      ghost var left := count;
      ghost var all := Repeat(ReadElement, bytes, pos, left, (id, values));
      for i := 0 to count
        invariant left == count - i && Unfinished(ReadElement, bytes, pos, left, (id, values), all)
      {
        ghost var start := pos;
        var v := TakeScalar(id);
        if v.Err? {
          LoopStops(ReadElement, bytes, start, left, (id, values), all, v.error);
          return Err(v.error);
        }
        ghost var fewer := left - 1;
        TurnTaken(ReadElement, bytes, start, left, (id, values), all, (id, values + [v.value]), pos, fewer);
        values, left := values + [v.value], fewer;
      }
      r := Ok((id, values));
    }

    method TakeArray() returns (r: Fallible<Value>)
      modifies this
      ensures After(ReadArray(bytes, old(pos)), r)
    {
      var id := TakeSigned(4);
      if id.Err? {
        return Err(id.error);
      }
      if id.value == 9 {
        return Err(NestedArray);
      }
      var len := TakeUnsigned(8);
      if len.Err? {
        return Err(len.error);
      }
      if len.value > MAX_ARRAY_LEN {
        return Err(ArrayTooLarge);
      }
      var values := TakeElements(id.value, len.value);
      r := if values.Err? then Err(values.error) else Ok(Array(values.value.1));
    }

    method TakeValue() returns (r: Fallible<Value>)
      modifies this
      ensures After(ReadValue(bytes, old(pos)), r)
    {
      var id := TakeSigned(4);
      if id.Err? {
        return Err(id.error);
      }
      if id.value == 9 {
        r := TakeArray();
      } else {
        r := TakeScalar(id.value);
      }
    }

    method TakeEntry() returns (r: Fallible<Entry>)
      modifies this
      ensures After(ReadEntry(bytes, old(pos)), r)
    {
      var key := TakeString();
      if key.Err? {
        return Err(key.error);
      }
      var value := TakeValue();
      r := if value.Err? then Err(value.error) else Ok(Entry(key.value, value.value));
    }

    method TakeNextEntry(metadata: Metadata) returns (r: Fallible<Metadata>)
      modifies this
      ensures After(AddEntry(bytes, old(pos), metadata), r)
    {
      var e := TakeEntry();
      if e.Err? {
        return Err(e.error);
      }
      if e.value.key in metadata {
        return Err(DuplicateKey);
      }
      r := Ok(metadata[e.value.key := e.value.value]);
    }

    method TakeMetadata(count: nat) returns (r: Fallible<Metadata>)
      modifies this
      ensures After(Repeat(AddEntry, bytes, old(pos), count, map[]), r)
    {
      var metadata: Metadata := map[];
      ghost var left := count;
      ghost var all := Repeat(AddEntry, bytes, pos, left, metadata);
      for i := 0 to count
        invariant left == count - i && Unfinished(AddEntry, bytes, pos, left, metadata, all)
      {
        ghost var start := pos;
        var more := TakeNextEntry(metadata);
        if more.Err? {
          LoopStops(AddEntry, bytes, start, left, metadata, all, more.error);
          return Err(more.error);
        }
        ghost var fewer := left - 1;
        TurnTaken(AddEntry, bytes, start, left, metadata, all, more.value, pos, fewer);
        metadata, left := more.value, fewer;
      }
      r := Ok(metadata);
    }

    method TakeDims(count: nat) returns (r: Fallible<seq<nat>>)
      modifies this
      ensures After(Repeat(AddDim, bytes, old(pos), count, []), r)
    {
      var dims: seq<nat> := [];
      ghost var left := count;
      ghost var all := Repeat(AddDim, bytes, pos, left, dims);
      for i := 0 to count
        invariant left == count - i && Unfinished(AddDim, bytes, pos, left, dims, all)
      {
        ghost var start := pos;
        var d := TakeSigned(8);
        if d.Err? {
          return Err(d.error);
        }
        if d.value < 0 {
          return Err(NegativeDimension);
        }
        var more: seq<nat> := dims + [d.value];
        ghost var fewer := left - 1;
        TurnTaken(AddDim, bytes, start, left, dims, all, more, pos, fewer);
        dims, left := more, fewer;
      }
      r := Ok(dims);
    }

    method TakePlace(name: string, dims: seq<nat>) returns (r: Fallible<RawTensor>)
      modifies this
      ensures After(ReadPlace(bytes, old(pos), name, dims), r)
    {
      var id := TakeSigned(4);
      if id.Err? {
        return Err(id.error);
      }
      var offset := TakeUnsigned(8);
      r := if offset.Err? then Err(offset.error) else Ok(RawTensor(name, dims, id.value, offset.value));
    }

    method TakeTensor() returns (r: Fallible<RawTensor>)
      modifies this
      ensures After(ReadTensor(bytes, old(pos)), r)
    {
      var name := TakeString();
      if name.Err? {
        return Err(name.error);
      }
      if |Encode(name.value)| >= MAX_TENSOR_NAME {
        return Err(NameTooLong);
      }
      var n := TakeUnsigned(4);
      if n.Err? {
        return Err(n.error);
      }
      if n.value == 0 || n.value > MAX_TENSOR_DIMS {
        return Err(BadDimensionCount);
      }
      var dims := TakeDims(n.value);
      if dims.Err? {
        return Err(dims.error);
      }
      r := TakePlace(name.value, dims.value);
    }

    method TakeNextTensor(raw: seq<RawTensor>) returns (r: Fallible<seq<RawTensor>>)
      modifies this
      ensures After(AddTensor(bytes, old(pos), raw), r)
    {
      var t := TakeTensor();
      r := if t.Err? then Err(t.error) else Ok(raw + [t.value]);
    }

    method TakeTensors(count: nat) returns (r: Fallible<seq<RawTensor>>)
      modifies this
      ensures After(Repeat(AddTensor, bytes, old(pos), count, []), r)
    {
      var raw: seq<RawTensor> := [];
      ghost var left := count;
      ghost var all := Repeat(AddTensor, bytes, pos, left, raw);
      for i := 0 to count
        invariant left == count - i && Unfinished(AddTensor, bytes, pos, left, raw, all)
      {
        ghost var start := pos;
        var more := TakeNextTensor(raw);
        if more.Err? {
          LoopStops(AddTensor, bytes, start, left, raw, all, more.error);
          return Err(more.error);
        }
        ghost var fewer := left - 1;
        TurnTaken(AddTensor, bytes, start, left, raw, all, more.value, pos, fewer);
        raw, left := more.value, fewer;
      }
      r := Ok(raw);
    }

    method TakeCounts() returns (r: Fallible<Counts>)
      requires pos == 0
      modifies this
      ensures After(ReadCounts(bytes), r)
    {
      var magic := TakeBytes(4);
      if magic.Err? {
        return Err(magic.error);
      }
      if magic.value != GGUF_MAGIC {
        return Err(BadMagic);
      }
      var version := TakeUnsigned(4);
      if version.Err? {
        return Err(version.error);
      }
      if !(2 <= version.value <= 3) {
        return Err(UnsupportedVersion);
      }
      var tensors := TakeSigned(8);
      if tensors.Err? {
        return Err(tensors.error);
      }
      var entries := TakeSigned(8);
      if entries.Err? {
        return Err(entries.error);
      }
      if tensors.value < 0 || entries.value < 0 {
        return Err(NegativeCount);
      }
      r := Ok(Counts(version.value, tensors.value, entries.value));
    }
  }

  method PlaceTensors(raw: seq<RawTensor>, region: Region) returns (r: Fallible<seq<Descriptor>>)
    requires RegionFits(region)
    ensures r.Ok? <==> AllFit(raw, 0, {}, region)
    ensures r.Ok? ==> (forall t :: t in raw ==> Sizable(t.dims, t.typeId)) && r.value == AllPlaced(raw, region)
    ensures r.Err? ==> r.error == WhyNotAllFit(raw, 0, {}, region)
  {
    var tensors: seq<Descriptor> := [];
    var seen: set<string> := {};
    var expected := 0;
    for i := 0 to |raw|
      invariant AllFit(raw, 0, {}, region) <==> AllFit(raw[i..], expected, seen, region)
      invariant !AllFit(raw, 0, {}, region) ==>
                  WhyNotAllFit(raw, 0, {}, region) == WhyNotAllFit(raw[i..], expected, seen, region)
      invariant |tensors| == i
      invariant forall j :: 0 <= j < i ==> Sizable(raw[j].dims, raw[j].typeId) && tensors[j] == Placed(raw[j], region)
    {
      assert raw[i..][0] == raw[i] && raw[i..][1..] == raw[i + 1..];
      var placed := PlaceTensor(raw[i], expected, seen, region);
      if placed.Err? {
        return Err(placed.error);
      }
      tensors := tensors + [placed.value.0];
      seen := seen + {raw[i].name};
      expected := placed.value.1;
    }
    AllPlacedAt(raw, region);
    r := Ok(tensors);
  }

  lemma {:induction false} AllPlacedAt(raw: seq<RawTensor>, region: Region)
    requires forall i :: 0 <= i < |raw| ==> Sizable(raw[i].dims, raw[i].typeId)
    ensures |AllPlaced(raw, region)| == |raw|
    ensures forall i :: 0 <= i < |raw| ==> AllPlaced(raw, region)[i] == Placed(raw[i], region)
    decreases raw
  {
    if raw != [] {
      AllPlacedAt(raw[1..], region);
    }
  }

  method ReadHeaderBlock(bytes: seq<Byte>) returns (r: Fallible<(Header, nat)>)
    ensures ReadHeader(bytes).Bad? ==> r == Err(ReadHeader(bytes).error)
    ensures ReadHeader(bytes).Read? ==> r == Ok((ReadHeader(bytes).value, ReadHeader(bytes).next))
  {
    var cursor := new Cursor(bytes);
    var counts := cursor.TakeCounts();
    if counts.Err? {
      return Err(counts.error);
    }
    var metadata := cursor.TakeMetadata(counts.value.entries);
    if metadata.Err? {
      return Err(metadata.error);
    }
    var alignment := AlignmentOf(metadata.value);
    if alignment.Err? {
      return Err(alignment.error);
    }
    var raw := cursor.TakeTensors(counts.value.tensors);
    if raw.Err? {
      return Err(raw.error);
    }
    r := Ok((Header(counts.value, metadata.value, alignment.value, raw.value), cursor.pos));
  }

  method ReadMetadataWithLen(bytes: seq<Byte>, declared: nat) returns (r: Fallible<GgufFile>)
    requires declared <= U64_MAX
    ensures r == ParseFile(bytes, declared)
  {
    var header := ReadHeaderBlock(bytes);
    if header.Err? {
      return Err(header.error);
    }
    AlignmentFits(bytes);
    var (h, next) := header.value;
    var start := AlignTo(next, h.alignment);
    if start.Err? {
      return Err(start.error);
    }
    if start.value > declared {
      return Err(DataStartBeyondEnd);
    }
    var tensors := PlaceTensors(h.raw, Region(start.value, h.alignment, declared));
    if tensors.Err? {
      return Err(tensors.error);
    }
    r := Ok(GgufFile(h.counts, h.alignment, start.value, h.metadata, tensors.value));
  }

  // ------------------------------------------------------------------ properties

  /** A header prefix parses as the whole file does: nothing past the descriptors
      but the declared length matters. */
  lemma PrefixParsesAlike(b: seq<Byte>, c: seq<Byte>, declared: nat)
    requires declared <= U64_MAX && ReadHeader(b).Read? && Agree(b, c, ReadHeader(b).next)
    ensures ParseFile(c, declared) == ParseFile(b, declared)
  {
    HeaderIsLocal(b, c);
  }

  /** Parsing what was written gives the metadata and, when the descriptors tile
      the declared file, the descriptors back; otherwise the error is about them. */
  lemma ParseRoundTrip(h: Source, rest: seq<Byte>, declared: nat)
    requires InLimits(h) && |Write(h) + rest| <= U64_MAX && declared <= U64_MAX
    ensures AlignmentOf(MetadataOf(h.entries)).value <= U64_MAX
    ensures ParseFile(Write(h) + rest, declared) ==
            Laid(Header(h.Sizes(), MetadataOf(h.entries), AlignmentOf(MetadataOf(h.entries)).value, h.raw),
                 |Write(h)|, declared)
  {
    HeaderRoundTrip(h, rest);
    AlignmentFits(Write(h) + rest);
  }

  function RegionOf(f: GgufFile, declared: nat): Region {
    Region(f.dataStart, f.alignment, declared)
  }

  lemma AcceptedParts(b: seq<Byte>, declared: nat) returns (raw: seq<RawTensor>, f: GgufFile, region: Region)
    requires declared <= U64_MAX && ParseFile(b, declared).Ok?
    ensures f == ParseFile(b, declared).value && region == RegionOf(f, declared) && RegionFits(region)
    ensures ReadHeader(b).Read? && AlignTo(ReadHeader(b).next, f.alignment) == Ok(f.dataStart)
    ensures AllFit(raw, 0, {}, region) && forall t :: t in raw ==> Sizable(t.dims, t.typeId)
    ensures f.tensors == AllPlaced(raw, region)
  {
    AlignmentFits(b);
    f := ParseFile(b, declared).value;
    raw, region := ReadHeader(b).value.raw, RegionOf(f, declared);
    AllFitAreSizable(raw, 0, {}, region);
  }

  /** In every accepted file the data starts at the first aligned place after the
      descriptors, and the tensors tile it. */
  lemma AcceptedFileTiles(b: seq<Byte>, declared: nat)
    requires declared <= U64_MAX && ParseFile(b, declared).Ok?
    ensures var f := ParseFile(b, declared).value;
            && f.alignment > 0 && f.dataStart % f.alignment == 0 && ReadHeader(b).Read?
            && ReadHeader(b).next <= f.dataStart < ReadHeader(b).next + f.alignment
            && Tiles(f.tensors, RegionOf(f, declared))
  {
    var raw, f, region := AcceptedParts(b, declared);
    AlignsToLeastMultiple(ReadHeader(b).next, f.alignment);
    AllFitTile(raw, 0, {}, region);
  }

  /** Two tensors of an accepted file never share a byte or a name. */
  lemma AcceptedTensorsAreDisjoint(b: seq<Byte>, declared: nat, i: nat, j: nat)
    requires declared <= U64_MAX && ParseFile(b, declared).Ok?
    requires i < j < |ParseFile(b, declared).value.tensors|
    ensures var tensors := ParseFile(b, declared).value.tensors;
            End(tensors[i]) <= tensors[j].absolute && tensors[i].name != tensors[j].name
  {
    AcceptedFileTiles(b, declared);
    var raw, f, region := AcceptedParts(b, declared);
    TilesAreDisjoint(f.tensors, region, i, j);
    AllPlacedAt(raw, region);
    AllFitAreDistinct(raw, 0, {}, region);
  }
}
