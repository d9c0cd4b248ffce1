/** Writing a GGUF header and reading it back. */
module GgufRoundTrip {
  import opened Sequences
  import opened Wrappers
  import opened Utf8
  import opened GgufBytes
  import opened GgufLayout
  import opened GgufHeader

  // ------------------------------------------------------------------- writing

  function TypeId(v: Value): int {
    match v
    case Number(kind, _) => kind.Id()
    case Bool(_) => 7
    case Text(_) => 8
    case Array(_) => 9
  }

  predicate NumberFits(kind: Kind, v: int) {
    if kind.Signed() then SignedFits(v, kind.Width()) else 0 <= v < Pow256(kind.Width())
  }

  predicate ScalarFits(v: Value) {
    match v
    case Number(kind, n) => NumberFits(kind, n)
    case Bool(_) => true
    case Text(text) => StringFits(text)
    case Array(_) => false
  }

  function WriteScalar(v: Value): seq<Byte> {
    match v
    case Number(kind, n) =>
      ToLe(if kind.Signed() then FromSigned(n, kind.Width()) else if n < 0 then 0 else n, kind.Width())
    case Bool(flag) => [if flag then 1 else 0]
    case Text(text) => WriteString(text)
    case Array(_) => []
  }

  function WriteAll<T>(write: T -> seq<Byte>, items: seq<T>): seq<Byte> {
    if items == [] then [] else write(items[0]) + WriteAll(write, items[1..])
  }

  function WriteId(id: int): seq<Byte> {
    ToLe(FromSigned(id, 4), 4)
  }

  /** An empty array is written as one of strings. */
  function ElementId(values: seq<Value>): int {
    if values == [] then 8 else TypeId(values[0])
  }

  /** Arrays hold scalars of one type. */
  predicate ElementsFit(values: seq<Value>, id: int) {
    forall i :: 0 <= i < |values| ==> ScalarFits(values[i]) && TypeId(values[i]) == id
  }

  predicate ValueFits(v: Value) {
    if v.Array? then |v.values| <= MAX_ARRAY_LEN && ElementsFit(v.values, ElementId(v.values)) else ScalarFits(v)
  }

  function WriteArray(values: seq<Value>): seq<Byte> {
    WriteId(ElementId(values)) + (ToLe(|values|, 8) + WriteAll(WriteScalar, values))
  }

  function WriteValue(v: Value): seq<Byte> {
    WriteId(TypeId(v)) + if v.Array? then WriteArray(v.values) else WriteScalar(v)
  }

  predicate EntryFits(e: Entry) {
    StringFits(e.key) && ValueFits(e.value)
  }

  function WriteEntry(e: Entry): seq<Byte> {
    WriteString(e.key) + WriteValue(e.value)
  }

  predicate EntriesFit(entries: seq<Entry>) {
    forall i :: 0 <= i < |entries| ==> EntryFits(entries[i])
  }

  function WriteDim(d: nat): seq<Byte> {
    ToLe(d, 8)
  }

  predicate TensorFits(t: RawTensor) {
    && |Encode(t.name)| < MAX_TENSOR_NAME && 1 <= |t.dims| <= MAX_TENSOR_DIMS
    && (forall i :: 0 <= i < |t.dims| ==> SignedFits(t.dims[i], 8))
    && SignedFits(t.typeId, 4) && t.offset <= U64_MAX
  }

  function WriteTensor(t: RawTensor): seq<Byte> {
    WriteString(t.name) + (ToLe(|t.dims|, 4) + (WriteAll(WriteDim, t.dims) + (WriteId(t.typeId) + ToLe(t.offset, 8))))
  }

  predicate TensorsFit(raw: seq<RawTensor>) {
    forall i :: 0 <= i < |raw| ==> TensorFits(raw[i])
  }

  function WriteCounts(c: Counts): seq<Byte> {
    GGUF_MAGIC + (ToLe(c.version, 4) + (ToLe(c.tensors, 8) + ToLe(c.entries, 8)))
  }

  predicate CountsFit(c: Counts) {
    2 <= c.version <= 3 && SignedFits(c.tensors, 8) && SignedFits(c.entries, 8)
  }

  /** A header as a writer is given it. */
  datatype Source = Source(version: nat, entries: seq<Entry>, raw: seq<RawTensor>) {
    function Sizes(): Counts {
      Counts(version, |raw|, |entries|)
    }
  }

  predicate DistinctKeys(entries: seq<Entry>) {
    forall i, j :: 0 <= i < j < |entries| ==> entries[i].key != entries[j].key
  }

  function MetadataOf(entries: seq<Entry>): Metadata
    decreases entries
  {
    if entries == [] then map[]
    else
      var last := entries[|entries| - 1];
      MetadataOf(entries[..|entries| - 1])[last.key := last.value]
  }

  /** Within the reader's limits. */
  predicate InLimits(h: Source) {
    && CountsFit(h.Sizes()) && EntriesFit(h.entries) && TensorsFit(h.raw) && DistinctKeys(h.entries)
    && AlignmentOf(MetadataOf(h.entries)).Ok?
  }

  function Write(h: Source): seq<Byte> {
    WriteCounts(h.Sizes()) + (WriteAll(WriteEntry, h.entries) + WriteAll(WriteTensor, h.raw))
  }

  // ------------------------------------------------------------- reading it back

  lemma KindInverts(kind: Kind)
    ensures KindOf(kind.Id()) == Some(kind)
  {
  }

  lemma ScalarInverts(b: seq<Byte>, pos: nat, v: Value)
    requires ScalarFits(v) && At(b, pos, WriteScalar(v)) && |b| <= U64_MAX
    ensures ReadScalar(b, pos, TypeId(v)) == Read(v, pos + |WriteScalar(v)|)
  {
    if v.Number? {
      KindInverts(v.kind);
      if v.kind.Signed() {
        SignedInverts(b, pos, v.value, v.kind.Width());
      } else {
        UnsignedInverts(b, pos, v.value, v.kind.Width());
      }
    } else if v.Bool? {
      BoolInverts(b, pos, v.flag);
    } else {
      StringInverts(b, pos, v.text);
    }
  }

  lemma BoolInverts(b: seq<Byte>, pos: nat, flag: bool)
    requires At(b, pos, [if flag then 1 else 0]) && |b| <= U64_MAX
    ensures ReadUnsigned(b, pos, 1) == Read(if flag then 1 else 0, pos + 1)
  {
    assert ToLe(if flag then 1 else 0, 1) == [if flag then 1 else 0] + [];
    Powers();
    UnsignedInverts(b, pos, if flag then 1 else 0, 1);
  }

  lemma RepeatTurn<S>(step: Step<S>, b: seq<Byte>, pos: nat, count: nat, state: S, after: S, next: nat, left: nat)
    requires count == left + 1 && step(b, pos, state) == Read(after, next)
    ensures Repeat(step, b, pos, count, state) == Repeat(step, b, next, left, after)
  {
  }

  /** Wherever item `k` stands, a turn takes the state of the items before it to
      that of the items up to it. */
  ghost predicate ItemInverts<S, T>(
    step: Step<S>, put: seq<T> -> S, write: T -> seq<Byte>, b: seq<Byte>, items: seq<T>, k: nat)
    requires k < |items|
  {
    forall p: nat :: At(b, p, write(items[k])) ==>
      step(b, p, put(items[..k])) == Read(put(items[..k + 1]), p + |write(items[k])|)
  }

  /** A loop reads back the items written one after the other. */
  lemma {:induction false} RepeatInverts<S, T>(
    step: Step<S>, put: seq<T> -> S, write: T -> seq<Byte>, b: seq<Byte>, pos: nat, items: seq<T>, k: nat)
    requires k <= |items| && At(b, pos, WriteAll(write, items[k..]))
    requires forall i :: 0 <= i < |items| ==> ItemInverts(step, put, write, b, items, i)
    ensures Repeat(step, b, pos, |items| - k, put(items[..k])) ==
            Read(put(items), pos + |WriteAll(write, items[k..])|)
    decreases |items| - k
  {
    if k == |items| {
      assert items[..k] == items;
    } else {
      var first := write(items[k]);
      assert items[k..][1..] == items[k + 1..];
      AtBoth(b, pos, first, WriteAll(write, items[k + 1..]));
      assert ItemInverts(step, put, write, b, items, k);
      RepeatTurn(step, b, pos, |items| - k, put(items[..k]), put(items[..k + 1]), pos + |first|, |items| - k - 1);
      RepeatInverts(step, put, write, b, pos + |first|, items, k + 1);
    }
  }

  /** The whole loop, from a state that holds nothing. */
  lemma LoopInverts<S, T>(
    step: Step<S>, put: seq<T> -> S, write: T -> seq<Byte>, b: seq<Byte>, pos: nat, items: seq<T>, none: S, count: nat)
    requires none == put([]) && count == |items| && At(b, pos, WriteAll(write, items))
    requires forall i :: 0 <= i < |items| ==> ItemInverts(step, put, write, b, items, i)
    ensures Repeat(step, b, pos, count, none) == Read(put(items), pos + |WriteAll(write, items)|)
  {
    assert items[0..] == items && items[..0] == [];
    RepeatInverts(step, put, write, b, pos, items, 0);
  }

  lemma ElementInverts(b: seq<Byte>, pos: nat, v: Value, read: seq<Value>)
    requires ScalarFits(v) && At(b, pos, WriteScalar(v)) && |b| <= U64_MAX
    ensures ReadElement(b, pos, (TypeId(v), read)) == Read((TypeId(v), read + [v]), pos + |WriteScalar(v)|)
  {
    ScalarInverts(b, pos, v);
  }

  lemma ElementsInvert(b: seq<Byte>, pos: nat, values: seq<Value>, id: int, count: nat)
    requires ElementsFit(values, id) && At(b, pos, WriteAll(WriteScalar, values)) && |b| <= U64_MAX && count == |values|
    ensures Repeat(ReadElement, b, pos, count, (id, [])) == Read((id, values), pos + |WriteAll(WriteScalar, values)|)
  {
    var put := (read: seq<Value>) => (id, read);
    forall k | 0 <= k < |values| ensures ItemInverts(ReadElement, put, WriteScalar, b, values, k) {
      TakeOneMore(values, k);
      forall p: nat | At(b, p, WriteScalar(values[k]))
        ensures ReadElement(b, p, put(values[..k])) == Read(put(values[..k + 1]), p + |WriteScalar(values[k])|)
      {
        ElementInverts(b, p, values[k], values[..k]);
      }
    }
    LoopInverts(ReadElement, put, WriteScalar, b, pos, values, (id, []), count);
  }

  lemma IdInverts(b: seq<Byte>, pos: nat, id: int)
    requires SignedFits(id, 4) && At(b, pos, WriteId(id)) && |b| <= U64_MAX
    ensures ReadSigned(b, pos, 4) == Read(id, pos + 4)
  {
    SignedInverts(b, pos, id, 4);
  }

  lemma IdsFit(v: Value)
    ensures SignedFits(TypeId(v), 4) && SignedFits(9, 4)
  {
    Powers();
  }

  lemma ElementIdFits(values: seq<Value>)
    requires ValueFits(Array(values))
    ensures SignedFits(ElementId(values), 4) && ElementId(values) != 9
  {
    if values == [] {
      IdsFit(Text(""));
    } else {
      IdsFit(values[0]);
      assert ScalarFits(values[0]);
    }
  }

  lemma ArrayStep(b: seq<Byte>, pos: nat, id: int, len: nat, values: seq<Value>, end: nat)
    requires ReadSigned(b, pos, 4) == Read(id, pos + 4) && id != 9
    requires ReadUnsigned(b, pos + 4, 8) == Read(len, pos + 12) && len <= MAX_ARRAY_LEN
    requires Repeat(ReadElement, b, pos + 12, len, (id, [])) == Read((id, values), end)
    ensures ReadArray(b, pos) == Read(Array(values), end)
  {
  }

  lemma ArrayInverts(b: seq<Byte>, pos: nat, values: seq<Value>)
    requires ValueFits(Array(values)) && At(b, pos, WriteArray(values)) && |b| <= U64_MAX
    ensures ReadArray(b, pos) == Read(Array(values), pos + |WriteArray(values)|)
  {
    var id, len := ElementId(values), |values|;
    ElementIdFits(values);
    var elements := WriteAll(WriteScalar, values);
    AtBoth(b, pos, WriteId(id), ToLe(len, 8) + elements);
    AtBoth(b, pos + 4, ToLe(len, 8), elements);
    IdInverts(b, pos, id);
    LengthInverts(b, pos + 4, len);
    ElementsInvert(b, pos + 12, values, id, len);
    ArrayStep(b, pos, id, len, values, pos + 12 + |elements|);
  }

  lemma ValueStep(b: seq<Byte>, pos: nat, id: int, v: Value, end: nat)
    requires ReadSigned(b, pos, 4) == Read(id, pos + 4)
    requires id == 9 ==> ReadArray(b, pos + 4) == Read(v, end)
    requires id != 9 ==> ReadScalar(b, pos + 4, id) == Read(v, end)
    ensures ReadValue(b, pos) == Read(v, end)
  {
  }

  lemma ScalarValueInverts(b: seq<Byte>, pos: nat, v: Value)
    requires ScalarFits(v) && SignedFits(TypeId(v), 4)
    requires At(b, pos, WriteId(TypeId(v)) + WriteScalar(v)) && |b| <= U64_MAX
    ensures ReadValue(b, pos) == Read(v, pos + 4 + |WriteScalar(v)|)
  {
    AtBoth(b, pos, WriteId(TypeId(v)), WriteScalar(v));
    IdInverts(b, pos, TypeId(v));
    ScalarInverts(b, pos + 4, v);
    ValueStep(b, pos, TypeId(v), v, pos + 4 + |WriteScalar(v)|);
  }

  lemma ArrayValueInverts(b: seq<Byte>, pos: nat, values: seq<Value>)
    requires ValueFits(Array(values)) && SignedFits(9, 4)
    requires At(b, pos, WriteId(9) + WriteArray(values)) && |b| <= U64_MAX
    ensures ReadValue(b, pos) == Read(Array(values), pos + 4 + |WriteArray(values)|)
  {
    AtBoth(b, pos, WriteId(9), WriteArray(values));
    IdInverts(b, pos, 9);
    ArrayInverts(b, pos + 4, values);
    ValueStep(b, pos, 9, Array(values), pos + 4 + |WriteArray(values)|);
  }

  lemma ValueInverts(b: seq<Byte>, pos: nat, v: Value)
    requires ValueFits(v) && At(b, pos, WriteValue(v)) && |b| <= U64_MAX
    ensures ReadValue(b, pos) == Read(v, pos + |WriteValue(v)|)
  {
    IdsFit(v);
    if v.Array? {
      ArrayValueInverts(b, pos, v.values);
    } else {
      ScalarValueInverts(b, pos, v);
    }
  }

  lemma EntryInverts(b: seq<Byte>, pos: nat, e: Entry)
    requires EntryFits(e) && At(b, pos, WriteEntry(e)) && |b| <= U64_MAX
    ensures ReadEntry(b, pos) == Read(e, pos + |WriteEntry(e)|)
  {
    AtBoth(b, pos, WriteString(e.key), WriteValue(e.value));
    EntryPartsInvert(b, pos, e, pos + |WriteString(e.key)|, pos + |WriteEntry(e)|);
  }

  lemma EntryPartsInvert(b: seq<Byte>, pos: nat, e: Entry, mid: nat, end: nat)
    requires EntryFits(e) && |b| <= U64_MAX
    requires At(b, pos, WriteString(e.key)) && mid == pos + |WriteString(e.key)|
    requires At(b, mid, WriteValue(e.value)) && end == mid + |WriteValue(e.value)|
    ensures ReadEntry(b, pos) == Read(e, end)
  {
    StringInverts(b, pos, e.key);
    ValueInverts(b, mid, e.value);
    EntryStep(b, pos, e, mid, end);
  }

  lemma EntryStep(b: seq<Byte>, pos: nat, e: Entry, mid: nat, end: nat)
    requires ReadString(b, pos) == Read(e.key, mid) && ReadValue(b, mid) == Read(e.value, end)
    ensures ReadEntry(b, pos) == Read(e, end)
  {
  }

  lemma MetadataSnoc(entries: seq<Entry>, e: Entry)
    ensures MetadataOf(entries + [e]) == MetadataOf(entries)[e.key := e.value]
  {
    assert (entries + [e])[..|entries|] == entries;
  }

  lemma {:induction false} KeyOfEntry(entries: seq<Entry>, key: string) returns (i: nat)
    requires key in MetadataOf(entries)
    ensures i < |entries| && entries[i].key == key
    decreases entries
  {
    i := |entries| - 1;
    if entries[i].key != key {
      i := KeyOfEntry(entries[..i], key);
    }
  }

  lemma NewKey(entries: seq<Entry>, k: nat)
    requires k < |entries| && DistinctKeys(entries)
    ensures entries[k].key !in MetadataOf(entries[..k])
  {
    if entries[k].key in MetadataOf(entries[..k]) {
      var i := KeyOfEntry(entries[..k], entries[k].key);
      assert false;
    }
  }

  lemma NextEntryInverts(b: seq<Byte>, pos: nat, read: seq<Entry>, e: Entry)
    requires EntryFits(e) && e.key !in MetadataOf(read) && At(b, pos, WriteEntry(e)) && |b| <= U64_MAX
    ensures AddEntry(b, pos, MetadataOf(read)) == Read(MetadataOf(read + [e]), pos + |WriteEntry(e)|)
  {
    EntryInverts(b, pos, e);
    MetadataSnoc(read, e);
  }

  lemma EntryItem(b: seq<Byte>, entries: seq<Entry>, k: nat)
    requires EntriesFit(entries) && DistinctKeys(entries) && k < |entries| && |b| <= U64_MAX
    ensures ItemInverts(AddEntry, MetadataOf, WriteEntry, b, entries, k)
  {
    TakeOneMore(entries, k);
    NewKey(entries, k);
    forall p: nat | At(b, p, WriteEntry(entries[k]))
      ensures AddEntry(b, p, MetadataOf(entries[..k])) ==
              Read(MetadataOf(entries[..k + 1]), p + |WriteEntry(entries[k])|)
    {
      NextEntryInverts(b, p, entries[..k], entries[k]);
    }
  }

  lemma EntriesInvert(b: seq<Byte>, pos: nat, entries: seq<Entry>, count: nat)
    requires EntriesFit(entries) && DistinctKeys(entries) && count == |entries|
    requires At(b, pos, WriteAll(WriteEntry, entries)) && |b| <= U64_MAX
    ensures Repeat(AddEntry, b, pos, count, map[]) == Read(MetadataOf(entries), pos + |WriteAll(WriteEntry, entries)|)
  {
    forall k | 0 <= k < |entries| ensures ItemInverts(AddEntry, MetadataOf, WriteEntry, b, entries, k) {
      EntryItem(b, entries, k);
    }
    LoopInverts(AddEntry, MetadataOf, WriteEntry, b, pos, entries, map[], count);
  }

  function Same<T>(s: seq<T>): seq<T> {
    s
  }

  lemma DimsInvert(b: seq<Byte>, pos: nat, dims: seq<nat>, count: nat)
    requires (forall i :: 0 <= i < |dims| ==> SignedFits(dims[i], 8)) && count == |dims|
    requires At(b, pos, WriteAll(WriteDim, dims)) && |b| <= U64_MAX
    ensures Repeat(AddDim, b, pos, count, []) == Read(dims, pos + |WriteAll(WriteDim, dims)|)
  {
    forall k | 0 <= k < |dims| ensures ItemInverts(AddDim, Same, WriteDim, b, dims, k) {
      TakeOneMore(dims, k);
      forall p: nat | At(b, p, WriteDim(dims[k]))
        ensures AddDim(b, p, Same(dims[..k])) == Read(Same(dims[..k + 1]), p + |WriteDim(dims[k])|)
      {
        SignedInverts(b, p, dims[k], 8);
      }
    }
    LoopInverts(AddDim, Same, WriteDim, b, pos, dims, [], count);
  }

  lemma PlaceInverts(b: seq<Byte>, pos: nat, t: RawTensor)
    requires TensorFits(t) && At(b, pos, WriteId(t.typeId) + ToLe(t.offset, 8)) && |b| <= U64_MAX
    ensures ReadPlace(b, pos, t.name, t.dims) == Read(t, pos + 12)
  {
    AtBoth(b, pos, WriteId(t.typeId), ToLe(t.offset, 8));
    IdInverts(b, pos, t.typeId);
    LengthInverts(b, pos + 4, t.offset);
  }

  lemma CountInverts(b: seq<Byte>, pos: nat, n: nat)
    requires At(b, pos, ToLe(n, 4)) && n <= 4 && |b| <= U64_MAX
    ensures ReadUnsigned(b, pos, 4) == Read(n, pos + 4)
  {
    Powers();
    UnsignedInverts(b, pos, n, 4);
  }

  lemma TensorInverts(b: seq<Byte>, pos: nat, t: RawTensor)
    requires TensorFits(t) && At(b, pos, WriteTensor(t)) && |b| <= U64_MAX
    ensures ReadTensor(b, pos) == Read(t, pos + |WriteTensor(t)|)
  {
    var dims, place := WriteAll(WriteDim, t.dims), WriteId(t.typeId) + ToLe(t.offset, 8);
    var named := pos + |WriteString(t.name)|;
    AtBoth(b, pos, WriteString(t.name), ToLe(|t.dims|, 4) + (dims + place));
    AtBoth(b, named, ToLe(|t.dims|, 4), dims + place);
    AtBoth(b, named + 4, dims, place);
    TensorPartsInvert(b, pos, t, |t.dims|, named, named + 4 + |dims|);
  }

  lemma TensorPartsInvert(b: seq<Byte>, pos: nat, t: RawTensor, n: nat, named: nat, placed: nat)
    requires TensorFits(t) && |b| <= U64_MAX && n == |t.dims|
    requires At(b, pos, WriteString(t.name)) && named == pos + |WriteString(t.name)|
    requires At(b, named, ToLe(n, 4)) && At(b, named + 4, WriteAll(WriteDim, t.dims))
    requires placed == named + 4 + |WriteAll(WriteDim, t.dims)|
    requires At(b, placed, WriteId(t.typeId) + ToLe(t.offset, 8))
    ensures ReadTensor(b, pos) == Read(t, placed + 12)
  {
    StringInverts(b, pos, t.name);
    CountInverts(b, named, n);
    DimsInvert(b, named + 4, t.dims, n);
    PlaceInverts(b, placed, t);
    TensorStep(b, pos, t, n, named, placed, placed + 12);
  }

  lemma TensorStep(b: seq<Byte>, pos: nat, t: RawTensor, n: nat, named: nat, placed: nat, end: nat)
    requires ReadString(b, pos) == Read(t.name, named) && |Encode(t.name)| < MAX_TENSOR_NAME
    requires ReadUnsigned(b, named, 4) == Read(n, named + 4) && 1 <= n <= MAX_TENSOR_DIMS
    requires Repeat(AddDim, b, named + 4, n, []) == Read(t.dims, placed)
    requires ReadPlace(b, placed, t.name, t.dims) == Read(t, end)
    ensures ReadTensor(b, pos) == Read(t, end)
  {
  }

  lemma NextTensorInverts(b: seq<Byte>, pos: nat, t: RawTensor, read: seq<RawTensor>)
    requires TensorFits(t) && At(b, pos, WriteTensor(t)) && |b| <= U64_MAX
    ensures AddTensor(b, pos, read) == Read(read + [t], pos + |WriteTensor(t)|)
  {
    TensorInverts(b, pos, t);
  }

  lemma TensorItem(b: seq<Byte>, raw: seq<RawTensor>, k: nat)
    requires TensorsFit(raw) && k < |raw| && |b| <= U64_MAX
    ensures ItemInverts(AddTensor, Same, WriteTensor, b, raw, k)
  {
    TakeOneMore(raw, k);
    forall p: nat | At(b, p, WriteTensor(raw[k]))
      ensures AddTensor(b, p, Same(raw[..k])) == Read(Same(raw[..k + 1]), p + |WriteTensor(raw[k])|)
    {
      NextTensorInverts(b, p, raw[k], raw[..k]);
    }
  }

  lemma TensorsInvert(b: seq<Byte>, pos: nat, raw: seq<RawTensor>, count: nat)
    requires TensorsFit(raw) && At(b, pos, WriteAll(WriteTensor, raw)) && |b| <= U64_MAX && count == |raw|
    ensures Repeat(AddTensor, b, pos, count, []) == Read(raw, pos + |WriteAll(WriteTensor, raw)|)
  {
    forall k | 0 <= k < |raw| ensures ItemInverts(AddTensor, Same, WriteTensor, b, raw, k) {
      TensorItem(b, raw, k);
    }
    LoopInverts(AddTensor, Same, WriteTensor, b, pos, raw, [], count);
  }

  lemma TwoCountsInvert(b: seq<Byte>, pos: nat, c: Counts)
    requires CountsFit(c) && |b| <= U64_MAX
    requires At(b, pos, ToLe(c.tensors, 8) + ToLe(c.entries, 8))
    ensures ReadTwoCounts(b, pos, c.version) == Read(c, pos + 16)
  {
    AtBoth(b, pos, ToLe(c.tensors, 8), ToLe(c.entries, 8));
    SignedInverts(b, pos, c.tensors, 8);
    SignedInverts(b, pos + 8, c.entries, 8);
  }

  lemma CountsInvert(b: seq<Byte>, c: Counts)
    requires CountsFit(c) && At(b, 0, WriteCounts(c)) && |b| <= U64_MAX
    ensures ReadCounts(b) == Read(c, |WriteCounts(c)|)
  {
    var two := ToLe(c.tensors, 8) + ToLe(c.entries, 8);
    AtBoth(b, 0, GGUF_MAGIC, ToLe(c.version, 4) + two);
    AtBoth(b, 4, ToLe(c.version, 4), two);
    CountInverts(b, 4, c.version);
    TwoCountsInvert(b, 8, c);
  }

  lemma HeaderStep(b: seq<Byte>, c: Counts, metadata: Metadata, raw: seq<RawTensor>, m: nat, n: nat, end: nat)
    requires ReadCounts(b) == Read(c, m)
    requires Repeat(AddEntry, b, m, c.entries, map[]) == Read(metadata, n) && AlignmentOf(metadata).Ok?
    requires Repeat(AddTensor, b, n, c.tensors, []) == Read(raw, end)
    ensures ReadHeader(b) == Read(Header(c, metadata, AlignmentOf(metadata).value, raw), end)
  {
  }

  lemma AtStart(s: seq<Byte>, rest: seq<Byte>)
    ensures At(s + rest, 0, s)
  {
  }

  lemma ThreeParts(a: seq<Byte>, b: seq<Byte>, c: seq<Byte>, rest: seq<Byte>)
    ensures var all := a + (b + c) + rest;
            At(all, 0, a) && At(all, |a|, b) && At(all, |a| + |b|, c)
  {
    AtStart(a + (b + c), rest);
    AtBoth(a + (b + c) + rest, 0, a, b + c);
    AtBoth(a + (b + c) + rest, |a|, b, c);
  }

  lemma HeaderInverts(
    b: seq<Byte>, c: Counts, entries: seq<Entry>, metadata: Metadata, raw: seq<RawTensor>, m: nat, n: nat, end: nat)
    requires CountsFit(c) && c.entries == |entries| && c.tensors == |raw| && |b| <= U64_MAX
    requires EntriesFit(entries) && DistinctKeys(entries) && TensorsFit(raw)
    requires metadata == MetadataOf(entries) && AlignmentOf(metadata).Ok?
    requires At(b, 0, WriteCounts(c)) && m == |WriteCounts(c)|
    requires At(b, m, WriteAll(WriteEntry, entries)) && n == m + |WriteAll(WriteEntry, entries)|
    requires At(b, n, WriteAll(WriteTensor, raw)) && end == n + |WriteAll(WriteTensor, raw)|
    ensures ReadHeader(b) == Read(Header(c, metadata, AlignmentOf(metadata).value, raw), end)
  {
    CountsInvert(b, c);
    EntriesInvert(b, m, entries, c.entries);
    TensorsInvert(b, n, raw, c.tensors);
    HeaderStep(b, c, metadata, raw, m, n, end);
  }

  /** Whatever follows a written header, reading gives back its counts, metadata
      and descriptors, and stops at its end. */
  lemma HeaderRoundTrip(h: Source, rest: seq<Byte>)
    requires InLimits(h) && |Write(h) + rest| <= U64_MAX
    ensures ReadHeader(Write(h) + rest) ==
            Read(Header(h.Sizes(), MetadataOf(h.entries), AlignmentOf(MetadataOf(h.entries)).value, h.raw), |Write(h)|)
  {
    var counts, entries, raw := WriteCounts(h.Sizes()), WriteAll(WriteEntry, h.entries), WriteAll(WriteTensor, h.raw);
    ThreeParts(counts, entries, raw, rest);
    HeaderInverts(Write(h) + rest, h.Sizes(), h.entries, MetadataOf(h.entries), h.raw,
                  |counts|, |counts| + |entries|, |Write(h)|);
  }

  // ------------------------------------------------------------------ locality

  /** What a reader consumed lies in the file and decides what it read. */
  ghost predicate Kept<T>(b: seq<Byte>, c: seq<Byte>, pos: nat, r: Parsed<T>, other: Parsed<T>) {
    r.Read? ==> pos <= r.next <= |b| && (Agree(b, c, r.next) ==> other == r)
  }

  ghost predicate KeptBy<S>(step: Step<S>, b: seq<Byte>, c: seq<Byte>, pos: nat, state: S) {
    Kept(b, c, pos, step(b, pos, state), step(c, pos, state))
  }

  ghost predicate Local<S(!new)>(step: Step<S>) {
    forall b, c, pos, state :: KeptBy(step, b, c, pos, state)
  }

  /** A loop of local turns is local. */
  lemma {:induction false} RepeatIsLocal<S(!new)>(
    step: Step<S>, b: seq<Byte>, c: seq<Byte>, pos: nat, count: nat, state: S)
    requires Local(step) && pos <= |b|
    ensures Kept(b, c, pos, Repeat(step, b, pos, count, state), Repeat(step, c, pos, count, state))
    decreases count
  {
    if count != 0 {
      assert KeptBy(step, b, c, pos, state);
      var r := step(b, pos, state);
      if r.Read? {
        RepeatIsLocal(step, b, c, r.next, count - 1, r.value);
        var all := Repeat(step, b, r.next, count - 1, r.value);
        if all.Read? && Agree(b, c, all.next) {
          AgreeLess(b, c, all.next, r.next);
        }
      }
    }
  }

  lemma NumberIsLocal(b: seq<Byte>, c: seq<Byte>, pos: nat, n: nat)
    ensures Kept(b, c, pos, ReadUnsigned(b, pos, n), ReadUnsigned(c, pos, n))
    ensures Kept(b, c, pos, ReadSigned(b, pos, n), ReadSigned(c, pos, n))
  {
    if Agree(b, c, pos + n) && ReadUnsigned(b, pos, n).Read? {
      UnsignedIsLocal(b, c, pos, n);
    }
  }

  lemma TextIsLocal(b: seq<Byte>, c: seq<Byte>, pos: nat)
    ensures Kept(b, c, pos, ReadString(b, pos), ReadString(c, pos))
  {
    var r := ReadString(b, pos);
    if r.Read? && Agree(b, c, r.next) {
      StringIsLocal(b, c, pos);
    }
  }

  lemma ScalarIsLocal(b: seq<Byte>, c: seq<Byte>, pos: nat, id: int)
    ensures Kept(b, c, pos, ReadScalar(b, pos, id), ReadScalar(c, pos, id))
  {
    var kind := KindOf(id);
    if kind.Some? {
      NumberIsLocal(b, c, pos, kind.value.Width());
    } else if id == 7 {
      NumberIsLocal(b, c, pos, 1);
    } else if id == 8 {
      TextIsLocal(b, c, pos);
    }
  }

  lemma ElementsAreLocal()
    ensures Local(ReadElement)
  {
    forall b, c, pos, state ensures KeptBy(ReadElement, b, c, pos, state) {
      ScalarIsLocal(b, c, pos, state.0);
    }
  }

  /** Two readers in sequence. */
  lemma Narrow(b: seq<Byte>, c: seq<Byte>, end: nat, mid: nat)
    requires mid <= end
    ensures Agree(b, c, end) ==> Agree(b, c, mid)
  {
    if Agree(b, c, end) {
      AgreeLess(b, c, end, mid);
    }
  }

  lemma ArrayIsLocal(b: seq<Byte>, c: seq<Byte>, pos: nat)
    ensures Kept(b, c, pos, ReadArray(b, pos), ReadArray(c, pos))
  {
    var r := ReadArray(b, pos);
    if r.Read? {
      var id, len := ReadSigned(b, pos, 4).value, ReadUnsigned(b, pos + 4, 8).value;
      NumberIsLocal(b, c, pos, 4);
      NumberIsLocal(b, c, pos + 4, 8);
      ElementsAreLocal();
      RepeatIsLocal(ReadElement, b, c, pos + 12, len, (id, []));
      Narrow(b, c, r.next, pos + 4);
      Narrow(b, c, r.next, pos + 12);
    }
  }

  lemma ValueIsLocal(b: seq<Byte>, c: seq<Byte>, pos: nat)
    ensures Kept(b, c, pos, ReadValue(b, pos), ReadValue(c, pos))
  {
    var r := ReadValue(b, pos);
    if r.Read? {
      NumberIsLocal(b, c, pos, 4);
      ArrayIsLocal(b, c, pos + 4);
      ScalarIsLocal(b, c, pos + 4, ReadSigned(b, pos, 4).value);
      Narrow(b, c, r.next, pos + 4);
    }
  }

  lemma EntryIsLocal(b: seq<Byte>, c: seq<Byte>, pos: nat)
    ensures Kept(b, c, pos, ReadEntry(b, pos), ReadEntry(c, pos))
  {
    var r := ReadEntry(b, pos);
    if r.Read? {
      var key := ReadString(b, pos);
      TextIsLocal(b, c, pos);
      ValueIsLocal(b, c, key.next);
      Narrow(b, c, r.next, key.next);
    }
  }

  lemma EntriesAreLocal()
    ensures Local(AddEntry)
  {
    forall b, c, pos, state ensures KeptBy(AddEntry, b, c, pos, state) {
      EntryIsLocal(b, c, pos);
    }
  }

  lemma DimsAreLocal()
    ensures Local(AddDim)
  {
    forall b, c, pos, state ensures KeptBy(AddDim, b, c, pos, state) {
      NumberIsLocal(b, c, pos, 8);
    }
  }

  lemma PlaceIsLocal(b: seq<Byte>, c: seq<Byte>, pos: nat, name: string, dims: seq<nat>)
    ensures Kept(b, c, pos, ReadPlace(b, pos, name, dims), ReadPlace(c, pos, name, dims))
  {
    if ReadPlace(b, pos, name, dims).Read? {
      NumberIsLocal(b, c, pos, 4);
      NumberIsLocal(b, c, pos + 4, 8);
      Narrow(b, c, pos + 12, pos + 4);
    }
  }

  lemma TensorIsLocal(b: seq<Byte>, c: seq<Byte>, pos: nat)
    ensures Kept(b, c, pos, ReadTensor(b, pos), ReadTensor(c, pos))
  {
    var r := ReadTensor(b, pos);
    if r.Read? {
      var name := ReadString(b, pos);
      var n := ReadUnsigned(b, name.next, 4);
      var dims := Repeat(AddDim, b, n.next, n.value, []);
      TextIsLocal(b, c, pos);
      NumberIsLocal(b, c, name.next, 4);
      DimsAreLocal();
      RepeatIsLocal(AddDim, b, c, n.next, n.value, []);
      PlaceIsLocal(b, c, dims.next, name.value, dims.value);
      Narrow(b, c, r.next, dims.next);
      Narrow(b, c, r.next, n.next);
      Narrow(b, c, r.next, name.next);
    }
  }

  lemma TensorsAreLocal()
    ensures Local(AddTensor)
  {
    forall b, c, pos, state ensures KeptBy(AddTensor, b, c, pos, state) {
      TensorIsLocal(b, c, pos);
    }
  }

  lemma CountsAreLocal(b: seq<Byte>, c: seq<Byte>)
    ensures Kept(b, c, 0, ReadCounts(b), ReadCounts(c))
  {
    if ReadCounts(b).Read? && Agree(b, c, 24) {
      AgreeLess(b, c, 24, 4);
      BytesAreLocal(b, c, 0, 4);
      AgreeLess(b, c, 24, 8);
      NumberIsLocal(b, c, 4, 4);
      AgreeLess(b, c, 24, 16);
      NumberIsLocal(b, c, 8, 8);
      NumberIsLocal(b, c, 16, 8);
    }
  }

  lemma HeaderParts(b: seq<Byte>) returns (counts: Counts, m: nat, metadata: Metadata, n: nat)
    requires ReadHeader(b).Read?
    ensures ReadCounts(b) == Read(counts, m)
    ensures Repeat(AddEntry, b, m, counts.entries, map[]) == Read(metadata, n) && AlignmentOf(metadata).Ok?
    ensures Repeat(AddTensor, b, n, counts.tensors, []) == Read(ReadHeader(b).value.raw, ReadHeader(b).next)
    ensures ReadHeader(b).value == Header(counts, metadata, AlignmentOf(metadata).value, ReadHeader(b).value.raw)
  {
    counts, m := ReadCounts(b).value, ReadCounts(b).next;
    var r := Repeat(AddEntry, b, m, counts.entries, map[]);
    metadata, n := r.value, r.next;
  }

  /** Reading depends on no byte past the descriptors. */
  lemma HeaderIsLocal(b: seq<Byte>, c: seq<Byte>)
    requires ReadHeader(b).Read? && Agree(b, c, ReadHeader(b).next)
    ensures ReadHeader(c) == ReadHeader(b)
  {
    var end, raw := ReadHeader(b).next, ReadHeader(b).value.raw;
    var counts, m, metadata, n := HeaderParts(b);
    CountsAreLocal(b, c);
    EntriesAreLocal();
    RepeatIsLocal(AddEntry, b, c, m, counts.entries, map[]);
    TensorsAreLocal();
    RepeatIsLocal(AddTensor, b, c, n, counts.tensors, []);
    Narrow(b, c, end, n);
    Narrow(b, c, end, m);
    HeaderStep(c, counts, metadata, raw, m, n, end);
  }
}
