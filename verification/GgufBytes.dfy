/** The little-endian primitives of a GGUF file, read at a position: each reader
    has the writer it inverts and depends only on the bytes it consumes. */
module GgufBytes {
  import opened Wrappers
  import opened Utf8

  const U64_MAX: nat := 0xFFFF_FFFF_FFFF_FFFF
  const MAX_STRING_BYTES: nat := 16 * 1024 * 1024

  datatype Error =
    | UnexpectedEnd | CursorOverflow | StringTooLarge | NotUtf8
    | BadMagic | UnsupportedVersion | NegativeCount
    | UnknownValueType | NestedArray | ArrayTooLarge | DuplicateKey
    | AlignmentNotInteger | BadAlignment
    | NameTooLong | BadDimensionCount | NegativeDimension
    | AlignmentOverflow | DataStartBeyondEnd
    | DuplicateName | NotContiguous | UnknownTensorType | NotWholeBlocks
    | ElementOverflow | SizeOverflow | RangeOverflow | DataBeyondEnd

  datatype Parsed<+T> = Read(value: T, next: nat) | Bad(error: Error)

  /** `s` stands at `pos`. */
  predicate At(b: seq<Byte>, pos: nat, s: seq<Byte>) {
    pos + |s| <= |b| && b[pos..pos + |s|] == s
  }

  lemma AtBoth(b: seq<Byte>, pos: nat, s: seq<Byte>, t: seq<Byte>)
    requires At(b, pos, s + t)
    ensures At(b, pos, s) && At(b, pos + |s|, t)
  {
    assert b[pos..pos + |s + t|][..|s|] == s;
    assert b[pos..pos + |s + t|][|s|..] == t;
  }

  /** Two files that agree on their first `n` bytes. */
  predicate Agree(b: seq<Byte>, c: seq<Byte>, n: nat) {
    n <= |b| && n <= |c| && b[..n] == c[..n]
  }

  lemma AgreeLess(b: seq<Byte>, c: seq<Byte>, n: nat, m: nat)
    requires Agree(b, c, n) && m <= n
    ensures Agree(b, c, m)
  {
    assert b[..m] == b[..n][..m] && c[..m] == c[..n][..m];
  }

  // -------------------------------------------------------------------- bytes

  function ReadBytes(b: seq<Byte>, pos: nat, n: nat): (r: Parsed<seq<Byte>>)
    ensures r.Read? ==> r.next == pos + n <= |b|
  {
    if pos + n > |b| then Bad(UnexpectedEnd)
    else if pos + n > U64_MAX then Bad(CursorOverflow)
    else Read(b[pos..pos + n], pos + n)
  }

  lemma BytesAreLocal(b: seq<Byte>, c: seq<Byte>, pos: nat, n: nat)
    requires Agree(b, c, pos + n) && ReadBytes(b, pos, n).Read?
    ensures ReadBytes(c, pos, n) == ReadBytes(b, pos, n)
  {
    assert b[pos..pos + n] == b[..pos + n][pos..] && c[pos..pos + n] == c[..pos + n][pos..];
  }

  // ------------------------------------------------------------------ numbers

  function Pow256(n: nat): (p: nat)
    ensures p > 0
  {
    if n == 0 then 1 else 256 * Pow256(n - 1)
  }

  lemma Powers()
    ensures Pow256(1) == 0x100 && Pow256(2) == 0x1_0000 && Pow256(4) == 0x1_0000_0000
    ensures Pow256(8) == 0x1_0000_0000_0000_0000
  {
    assert Pow256(3) == 0x100_0000;
    assert Pow256(5) == 0x100_0000_0000;
    assert Pow256(6) == 0x1_0000_0000_0000;
    assert Pow256(7) == 0x100_0000_0000_0000;
  }

  function FromLe(s: seq<Byte>): (v: nat) {
    if s == [] then 0 else s[0] + 256 * FromLe(s[1..])
  }

  function ToLe(v: nat, n: nat): (s: seq<Byte>)
    ensures |s| == n
  {
    if n == 0 then [] else [v % 256] + ToLe(v / 256, n - 1)
  }

  lemma {:induction false} FromLeInRange(s: seq<Byte>)
    ensures FromLe(s) < Pow256(|s|)
  {
    if s != [] {
      FromLeInRange(s[1..]);
    }
  }

  lemma {:induction false} LeRoundTrip(v: nat, n: nat)
    requires v < Pow256(n)
    ensures FromLe(ToLe(v, n)) == v
  {
    if n != 0 {
      LeRoundTrip(v / 256, n - 1);
      assert ToLe(v, n)[1..] == ToLe(v / 256, n - 1);
    }
  }

  function ReadUnsigned(b: seq<Byte>, pos: nat, n: nat): (r: Parsed<nat>)
    ensures r.Read? ==> r.next == pos + n <= |b|
  {
    var bytes := ReadBytes(b, pos, n);
    if bytes.Bad? then Bad(bytes.error) else Read(FromLe(bytes.value), bytes.next)
  }

  /** Two's complement of `n` bytes. */
  function AsSigned(u: nat, n: nat): int {
    if 2 * u >= Pow256(n) then u - Pow256(n) else u
  }

  predicate SignedFits(v: int, n: nat) {
    2 * v + Pow256(n) >= 0 && 2 * v < Pow256(n)
  }

  function FromSigned(v: int, n: nat): nat {
    if v >= 0 then v else if v + Pow256(n) >= 0 then v + Pow256(n) else 0
  }

  function ReadSigned(b: seq<Byte>, pos: nat, n: nat): (r: Parsed<int>)
    ensures r.Read? ==> r.next == pos + n <= |b|
  {
    var u := ReadUnsigned(b, pos, n);
    if u.Bad? then Bad(u.error) else Read(AsSigned(u.value, n), u.next)
  }

  lemma UnsignedInverts(b: seq<Byte>, pos: nat, v: nat, n: nat)
    requires At(b, pos, ToLe(v, n)) && v < Pow256(n) && |b| <= U64_MAX
    ensures ReadUnsigned(b, pos, n) == Read(v, pos + n)
  {
    LeRoundTrip(v, n);
  }

  lemma SignedInverts(b: seq<Byte>, pos: nat, v: int, n: nat)
    requires SignedFits(v, n) && At(b, pos, ToLe(FromSigned(v, n), n)) && |b| <= U64_MAX
    ensures ReadSigned(b, pos, n) == Read(v, pos + n)
  {
    UnsignedInverts(b, pos, FromSigned(v, n), n);
  }

  lemma UnsignedIsLocal(b: seq<Byte>, c: seq<Byte>, pos: nat, n: nat)
    requires Agree(b, c, pos + n) && ReadUnsigned(b, pos, n).Read?
    ensures ReadUnsigned(c, pos, n) == ReadUnsigned(b, pos, n)
    ensures ReadSigned(c, pos, n) == ReadSigned(b, pos, n)
  {
    BytesAreLocal(b, c, pos, n);
  }

  // ------------------------------------------------------------------ strings

  /** The text these bytes encode. */
  ghost function Decoded(bytes: seq<Byte>): Option<string> {
    if exists text :: Encode(text) == bytes then
      var text :| Encode(text) == bytes;
      Some(text)
    else None
  }

  lemma DecodedIsValid(bytes: seq<Byte>)
    ensures Decoded(bytes) == if IsValid(bytes) then Some(ValidText(bytes)) else None
  {
    if Decoded(bytes).Some? {
      ValidTextOfEncoded(Decoded(bytes).value);
    } else {
      assert Encode(ValidText(bytes)) != bytes;
    }
  }

  ghost function ReadString(b: seq<Byte>, pos: nat): (r: Parsed<string>)
    ensures r.Read? ==> pos <= r.next <= |b|
  {
    var len := ReadUnsigned(b, pos, 8);
    if len.Bad? then Bad(len.error)
    else if len.value > MAX_STRING_BYTES then Bad(StringTooLarge)
    else
      var bytes := ReadBytes(b, len.next, len.value);
      if bytes.Bad? then Bad(bytes.error)
      else
        var text := Decoded(bytes.value);
        if text.None? then Bad(NotUtf8) else Read(text.value, bytes.next)
  }

  function WriteString(text: string): seq<Byte> {
    ToLe(|Encode(text)|, 8) + Encode(text)
  }

  predicate StringFits(text: string) {
    |Encode(text)| <= MAX_STRING_BYTES
  }

  lemma StringInverts(b: seq<Byte>, pos: nat, text: string)
    requires At(b, pos, WriteString(text)) && StringFits(text) && |b| <= U64_MAX
    ensures ReadString(b, pos) == Read(text, pos + |WriteString(text)|)
  {
    var bytes := Encode(text);
    AtBoth(b, pos, ToLe(|bytes|, 8), bytes);
    LengthInverts(b, pos, |bytes|);
    assert ReadBytes(b, pos + 8, |bytes|) == Read(bytes, pos + 8 + |bytes|);
    DecodedIsValid(bytes);
    ValidTextOfEncoded(text);
  }

  lemma LengthInverts(b: seq<Byte>, pos: nat, n: nat)
    requires At(b, pos, ToLe(n, 8)) && n <= U64_MAX && |b| <= U64_MAX
    ensures ReadUnsigned(b, pos, 8) == Read(n, pos + 8)
  {
    Powers();
    UnsignedInverts(b, pos, n, 8);
  }

  lemma StringIsLocal(b: seq<Byte>, c: seq<Byte>, pos: nat)
    requires ReadString(b, pos).Read? && Agree(b, c, ReadString(b, pos).next)
    ensures ReadString(c, pos) == ReadString(b, pos)
  {
    AgreeLess(b, c, ReadString(b, pos).next, pos + 8);
    UnsignedIsLocal(b, c, pos, 8);
    BytesAreLocal(b, c, pos + 8, ReadUnsigned(b, pos, 8).value);
  }
}
