/** The header of a GGUF file: metadata and tensor descriptors, read and written.
    Floating-point values are their bits. */
module GgufHeader {
  import opened Wrappers
  import opened Utf8
  import opened GgufBytes
  import opened GgufLayout

  const MAX_ARRAY_LEN: nat := 1_000_000
  const MAX_TENSOR_DIMS: nat := 4
  const MAX_TENSOR_NAME: nat := 64
  const DEFAULT_ALIGNMENT: nat := 32
  const GGUF_MAGIC: seq<Byte> := [0x47, 0x47, 0x55, 0x46]
  const ALIGNMENT_KEY := "general.alignment"

  // -------------------------------------------------------------------- loops

  /** What one turn of a reading loop makes of its state. */
  type Step<!S> = (seq<Byte>, nat, S) -> Parsed<S>

  /** A loop that reads `count` times and stops at the first error. */
  function Repeat<S>(step: Step<S>, b: seq<Byte>, pos: nat, count: nat, state: S): Parsed<S>
    decreases count
  {
    if count == 0 then Read(state, pos)
    else
      var r := step(b, pos, state);
      if r.Bad? then r else Repeat(step, b, r.next, count - 1, r.value)
  }

  // ------------------------------------------------------------------- values

  datatype Kind = U8 | I8 | U16 | I16 | U32 | I32 | F32 | U64 | I64 | F64 {
    function Width(): (n: nat)
      ensures n > 0
    {
      match this
      case U8 | I8 => 1
      case U16 | I16 => 2
      case U32 | I32 | F32 => 4
      case U64 | I64 | F64 => 8
    }

    predicate Signed() {
      I8? || I16? || I32? || I64?
    }

    function Id(): int {
      match this
      case U8 => 0
      case I8 => 1
      case U16 => 2
      case I16 => 3
      case U32 => 4
      case I32 => 5
      case F32 => 6
      case U64 => 10
      case I64 => 11
      case F64 => 12
    }
  }

  function KindOf(id: int): Option<Kind> {
    match id
    case 0 => Some(U8)
    case 1 => Some(I8)
    case 2 => Some(U16)
    case 3 => Some(I16)
    case 4 => Some(U32)
    case 5 => Some(I32)
    case 6 => Some(F32)
    case 10 => Some(U64)
    case 11 => Some(I64)
    case 12 => Some(F64)
    case _ => None
  }

  datatype Value = Number(kind: Kind, value: int) | Bool(flag: bool) | Text(text: string) | Array(values: seq<Value>)

  /** Everything but arrays; a type id that is none of these is refused. */
  ghost function ReadScalar(b: seq<Byte>, pos: nat, id: int): (r: Parsed<Value>)
    ensures r.Read? ==> pos < r.next <= |b|
  {
    var kind := KindOf(id);
    if kind.Some? then
      var n := if kind.value.Signed() then ReadSigned(b, pos, kind.value.Width())
               else ReadUnsigned(b, pos, kind.value.Width());
      if n.Bad? then Bad(n.error) else Read(Number(kind.value, n.value), n.next)
    else if id == 7 then
      var flag := ReadUnsigned(b, pos, 1);
      if flag.Bad? then Bad(flag.error) else Read(Bool(flag.value != 0), flag.next)
    else if id == 8 then
      var text := ReadString(b, pos);
      if text.Bad? then Bad(text.error) else Read(Text(text.value), text.next)
    else Bad(UnknownValueType)
  }

  /** One more element of the array's type. */
  ghost function ReadElement(b: seq<Byte>, pos: nat, read: (int, seq<Value>)): Parsed<(int, seq<Value>)> {
    var v := ReadScalar(b, pos, read.0);
    if v.Bad? then Bad(v.error) else Read((read.0, read.1 + [v.value]), v.next)
  }

  ghost function ReadArray(b: seq<Byte>, pos: nat): (r: Parsed<Value>)
  {
    var id := ReadSigned(b, pos, 4);
    if id.Bad? then Bad(id.error)
    else if id.value == 9 then Bad(NestedArray)
    else
      var len := ReadUnsigned(b, id.next, 8);
      if len.Bad? then Bad(len.error)
      else if len.value > MAX_ARRAY_LEN then Bad(ArrayTooLarge)
      else
        var values := Repeat(ReadElement, b, len.next, len.value, (id.value, []));
        if values.Bad? then Bad(values.error) else Read(Array(values.value.1), values.next)
  }

  ghost function ReadValue(b: seq<Byte>, pos: nat): (r: Parsed<Value>)
  {
    var id := ReadSigned(b, pos, 4);
    if id.Bad? then Bad(id.error)
    else if id.value == 9 then ReadArray(b, id.next) else ReadScalar(b, id.next, id.value)
  }

  // ------------------------------------------------------------------ metadata

  datatype Entry = Entry(key: string, value: Value)

  ghost function ReadEntry(b: seq<Byte>, pos: nat): (r: Parsed<Entry>)
  {
    var key := ReadString(b, pos);
    if key.Bad? then Bad(key.error)
    else
      var value := ReadValue(b, key.next);
      if value.Bad? then Bad(value.error) else Read(Entry(key.value, value.value), value.next)
  }

  type Metadata = map<string, Value>

  ghost function AddEntry(b: seq<Byte>, pos: nat, read: Metadata): Parsed<Metadata> {
    var e := ReadEntry(b, pos);
    if e.Bad? then Bad(e.error)
    else if e.value.key in read then Bad(DuplicateKey)
    else Read(read[e.value.key := e.value.value], e.next)
  }

  function AlignmentOf(metadata: Metadata): (r: Fallible<nat>)
    ensures r.Ok? ==> IsPowerOfTwo(r.value)
  {
    if ALIGNMENT_KEY !in metadata then Ok(DEFAULT_ALIGNMENT)
    else
      var v := metadata[ALIGNMENT_KEY];
      if !(v.Number? && (v.kind == U32 || v.kind == U64)) then Err(AlignmentNotInteger)
      else if v.value <= 0 || !IsPowerOfTwo(v.value) then Err(BadAlignment)
      else Ok(v.value)
  }

  // --------------------------------------------------------------- descriptors

  function AddDim(b: seq<Byte>, pos: nat, read: seq<nat>): Parsed<seq<nat>> {
    var d := ReadSigned(b, pos, 8);
    if d.Bad? then Bad(d.error)
    else if d.value < 0 then Bad(NegativeDimension)
    else Read(read + [d.value], d.next)
  }

  ghost function ReadTensor(b: seq<Byte>, pos: nat): (r: Parsed<RawTensor>)
  {
    var name := ReadString(b, pos);
    if name.Bad? then Bad(name.error)
    else if |Encode(name.value)| >= MAX_TENSOR_NAME then Bad(NameTooLong)
    else
      var n := ReadUnsigned(b, name.next, 4);
      if n.Bad? then Bad(n.error)
      else if n.value == 0 || n.value > MAX_TENSOR_DIMS then Bad(BadDimensionCount)
      else
        var dims := Repeat(AddDim, b, n.next, n.value, []);
        if dims.Bad? then Bad(dims.error)
        else ReadPlace(b, dims.next, name.value, dims.value)
  }

  function ReadPlace(b: seq<Byte>, pos: nat, name: string, dims: seq<nat>): (r: Parsed<RawTensor>)
  {
    var id := ReadSigned(b, pos, 4);
    if id.Bad? then Bad(id.error)
    else
      var offset := ReadUnsigned(b, id.next, 8);
      if offset.Bad? then Bad(offset.error) else Read(RawTensor(name, dims, id.value, offset.value), offset.next)
  }

  ghost function AddTensor(b: seq<Byte>, pos: nat, read: seq<RawTensor>): Parsed<seq<RawTensor>> {
    var t := ReadTensor(b, pos);
    if t.Bad? then Bad(t.error) else Read(read + [t.value], t.next)
  }

  // -------------------------------------------------------------------- header

  datatype Counts = Counts(version: nat, tensors: nat, entries: nat)

  datatype Header = Header(counts: Counts, metadata: Metadata, alignment: nat, raw: seq<RawTensor>)

  function ReadCounts(b: seq<Byte>): (r: Parsed<Counts>)
    ensures r.Read? ==> r.next <= |b|
  {
    var magic := ReadBytes(b, 0, 4);
    if magic.Bad? then Bad(magic.error)
    else if magic.value != GGUF_MAGIC then Bad(BadMagic)
    else
      var version := ReadUnsigned(b, magic.next, 4);
      if version.Bad? then Bad(version.error)
      else if !(2 <= version.value <= 3) then Bad(UnsupportedVersion)
      else ReadTwoCounts(b, version.next, version.value)
  }

  function ReadTwoCounts(b: seq<Byte>, pos: nat, version: nat): (r: Parsed<Counts>)
    ensures r.Read? ==> r.next <= |b|
  {
    var tensors := ReadSigned(b, pos, 8);
    if tensors.Bad? then Bad(tensors.error)
    else
      var entries := ReadSigned(b, tensors.next, 8);
      if entries.Bad? then Bad(entries.error)
      else if tensors.value < 0 || entries.value < 0 then Bad(NegativeCount)
      else Read(Counts(version, tensors.value, entries.value), entries.next)
  }

  /** Everything before the data, in file order; the alignment is checked between
      the two blocks. */
  ghost function ReadHeader(b: seq<Byte>): (r: Parsed<Header>)
    ensures r.Read? ==> IsPowerOfTwo(r.value.alignment)
  {
    var counts := ReadCounts(b);
    if counts.Bad? then Bad(counts.error)
    else
      var metadata := Repeat(AddEntry, b, counts.next, counts.value.entries, map[]);
      if metadata.Bad? then Bad(metadata.error)
      else
        var alignment := AlignmentOf(metadata.value);
        if alignment.Err? then Bad(alignment.error)
        else
          var raw := Repeat(AddTensor, b, metadata.next, counts.value.tensors, []);
          if raw.Bad? then Bad(raw.error)
          else Read(Header(counts.value, metadata.value, alignment.value, raw.value), raw.next)
  }
}
