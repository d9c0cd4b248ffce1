/** The GPT-2 alphabet: every byte is written as one visible character. */
module ByteAlphabet {
  import opened Wrappers
  import opened Utf8

  predicate IsPrintable(b: int) {
    33 <= b <= 126 || 161 <= b <= 172 || 174 <= b <= 255
  }

  /** How many bytes below `b` have no printable character of their own. */
  function UnprintableBelow(b: nat): (n: nat)
    ensures n <= b
  {
    if b == 0 then 0
    else UnprintableBelow(b - 1) + if IsPrintable(b - 1) then 0 else 1
  }

  function ByteToChar(b: Byte): char {
    if IsPrintable(b) then b as char else (256 + UnprintableBelow(b)) as char
  }

  /** The least byte from `b` on that is written as `c`. */
  function FindByte(c: char, b: nat): (found: Option<Byte>)
    ensures found.Some? ==> b <= found.value && ByteToChar(found.value) == c
    ensures found.None? ==> forall other: Byte :: b <= other ==> ByteToChar(other) != c
    decreases 256 - b
  {
    if b >= 256 then None
    else if ByteToChar(b) == c then Some(b)
    else FindByte(c, b + 1)
  }

  function CharToByte(c: char): (found: Option<Byte>) {
    FindByte(c, 0)
  }

  lemma {:induction false} UnprintableBelowGrows(a: nat, b: nat)
    requires a < b && !IsPrintable(a)
    ensures UnprintableBelow(a) < UnprintableBelow(b)
  {
    if a < b - 1 {
      UnprintableBelowGrows(a, b - 1);
    }
  }

  lemma {:induction false} UnprintableCount(b: nat)
    requires b <= 256
    ensures UnprintableBelow(b) ==
            if b <= 33 then b else if b <= 127 then 33 else if b <= 161 then b - 94 else if b <= 173 then 67 else 68
  {
    if b > 0 {
      UnprintableCount(b - 1);
    }
  }

  /** The alphabet written out: visible Latin-1 characters stand for themselves, and
      the other bytes, in order, for the 68 characters from U+0100 on. */
  lemma AlphabetWrittenOut(b: Byte)
    ensures ByteToChar(b) as int ==
            if b <= 32 then 0x100 + b
            else if b <= 126 then b
            else if b <= 160 then 0x121 + (b - 127)
            else if b == 173 then 0x143
            else b
  {
    UnprintableCount(b);
  }

  lemma ByteToCharInjective(a: Byte, b: Byte)
    requires ByteToChar(a) == ByteToChar(b)
    ensures a == b
  {
    if !IsPrintable(a) && !IsPrintable(b) {
      if a < b {
        UnprintableBelowGrows(a, b);
      } else if b < a {
        UnprintableBelowGrows(b, a);
      }
    }
  }

  /** Reading a character back inverts writing the byte. */
  lemma CharToByteInverts(b: Byte)
    ensures CharToByte(ByteToChar(b)) == Some(b)
  {
    var found := CharToByte(ByteToChar(b));
    if found.Some? {
      ByteToCharInjective(found.value, b);
    }
  }

  /** The characters a special token may use if it is to decode to itself. */
  predicate IsVisibleAscii(c: char) {
    33 <= c as int <= 126
  }

  function ByteChars(bytes: seq<Byte>): (chars: string)
    ensures |chars| == |bytes|
  {
    seq(|bytes|, i requires 0 <= i < |bytes| => ByteToChar(bytes[i]))
  }

  /** The bytes a token's characters stand for; a character outside the alphabet
      is reported. */
  function CharBytes(text: string): (bytes: Option<seq<Byte>>)
    ensures bytes.Some? ==> |bytes.value| == |text|
  {
    if text == "" then Some([])
    else match (CharToByte(text[0]), CharBytes(text[1..]))
      case (Some(b), Some(rest)) => Some([b] + rest)
      case _ => None
  }

  lemma {:induction false} CharBytesInverts(bytes: seq<Byte>)
    ensures CharBytes(ByteChars(bytes)) == Some(bytes)
  {
    var chars := ByteChars(bytes);
    if bytes != [] {
      CharToByteInverts(bytes[0]);
      CharBytesInverts(bytes[1..]);
      assert chars[1..] == ByteChars(bytes[1..]) && chars[0] == ByteToChar(bytes[0]);
      assert [bytes[0]] + bytes[1..] == bytes;
    }
  }

  lemma {:induction false} CharBytesConcat(a: string, b: string)
    ensures CharBytes(a + b) ==
            match (CharBytes(a), CharBytes(b))
            case (Some(x), Some(y)) => Some(x + y)
            case _ => None
  {
    if a == "" {
      assert a + b == b;
      assert CharBytes(b).Some? ==> [] + CharBytes(b).value == CharBytes(b).value;
    } else {
      assert (a + b)[1..] == a[1..] + b && (a + b)[0] == a[0];
      CharBytesConcat(a[1..], b);
      match (CharToByte(a[0]), CharBytes(a[1..]), CharBytes(b))
      case (Some(h), Some(x), Some(y)) => assert [h] + x + y == [h] + (x + y);
      case _ =>
    }
  }

  predicate AllVisibleAscii(text: string) {
    forall i :: 0 <= i < |text| ==> IsVisibleAscii(text[i])
  }

  /** Visible ASCII is exactly the text that stands for its own encoding. */
  lemma {:induction false} VisibleAsciiStandsForItself(text: string)
    ensures AllVisibleAscii(text) <==> CharBytes(text) == Some(Encode(text))
  {
    if text != "" {
      var c, rest := text[0], text[1..];
      VisibleAsciiStandsForItself(rest);
      OneCharStandsForItself(c);
      assert AllVisibleAscii(text) <==> IsVisibleAscii(c) && AllVisibleAscii(rest) by {
        assert text == [c] + rest;
      }
      if IsVisibleAscii(c) {
        assert EncodeChar(c) == [c as int];
        if CharBytes(text) == Some(Encode(text)) {
          assert CharBytes(text).value[1..] == Encode(text)[1..];
          assert Encode(text)[1..] == Encode(rest);
        }
      }
    }
  }

  /** Any other character stands for no byte, or takes more than one to encode. */
  lemma OneCharStandsForItself(c: char)
    ensures IsVisibleAscii(c) ==> CharToByte(c) == Some(c as int)
    ensures !IsVisibleAscii(c) ==> CharToByte(c).None? || |EncodeChar(c)| >= 2
  {
    if IsVisibleAscii(c) {
      CharToByteInverts(c as int);
    } else if c as int < 128 {
      assert forall b: Byte :: ByteToChar(b) != c;
    }
  }

  /** A text of alphabet characters that encodes to one byte per character is
      visible ASCII. */
  lemma {:induction false} OneBytePerCharIsVisible(text: string)
    requires CharBytes(text).Some? && |Encode(text)| == |text|
    ensures AllVisibleAscii(text)
  {
    if text != "" {
      OneCharStandsForItself(text[0]);
      OneBytePerCharIsVisible(text[1..]);
      assert text == [text[0]] + text[1..];
    }
  }

  lemma ByteCharsConcat(a: seq<Byte>, b: seq<Byte>)
    ensures ByteChars(a + b) == ByteChars(a) + ByteChars(b)
  {
  }
}
