/** UTF-8 as section 4 of RFC 3629 defines it: which byte sequences are one
    character, what `from_utf8(..).valid_up_to()` keeps of a byte sequence, and
    how that relates to encoding text. Text is a `string` of Unicode scalar
    values. */
module Utf8 {
  import opened Sequences

  type Byte = b: int | 0 <= b < 256

  predicate IsTail(b: Byte) {
    0x80 <= b <= 0xBF
  }

  /** The second byte of a three-byte character, whose range depends on the first. */
  predicate IsSecondOfThree(first: Byte, second: Byte) {
    || (first == 0xE0 && 0xA0 <= second <= 0xBF)
    || (0xE1 <= first <= 0xEC && IsTail(second))
    || (first == 0xED && 0x80 <= second <= 0x9F)
    || (0xEE <= first <= 0xEF && IsTail(second))
  }

  predicate IsSecondOfFour(first: Byte, second: Byte) {
    || (first == 0xF0 && 0x90 <= second <= 0xBF)
    || (0xF1 <= first <= 0xF3 && IsTail(second))
    || (first == 0xF4 && 0x80 <= second <= 0x8F)
  }

  /** Length of the well-formed character at the front of `s`; 0 when there is none. */
  function CharLen(s: seq<Byte>): (n: nat)
    ensures n <= |s| && n <= 4
  {
    if |s| >= 1 && s[0] <= 0x7F then 1
    else if |s| >= 2 && 0xC2 <= s[0] <= 0xDF && IsTail(s[1]) then 2
    else if |s| >= 3 && IsSecondOfThree(s[0], s[1]) && IsTail(s[2]) then 3
    else if |s| >= 4 && IsSecondOfFour(s[0], s[1]) && IsTail(s[2]) && IsTail(s[3]) then 4
    else 0
  }

  /** The scalar value of the well-formed character at the front of `s`. */
  function FirstChar(s: seq<Byte>): char
    requires CharLen(s) > 0
  {
    match CharLen(s)
    case 1 => s[0] as char
    case 2 => Joined(Joined(0, s[0], 0xC0), s[1], 0x80) as char
    case 3 => Joined(Joined(Joined(0, s[0], 0xE0), s[1], 0x80), s[2], 0x80) as char
    case _ => Joined(Joined(Joined(Joined(0, s[0], 0xF0), s[1], 0x80), s[2], 0x80), s[3], 0x80) as char
  }

  /** Appends the payload bits of `b`, whose marker bits are `marker`, to `high`. */
  function Joined(high: int, b: int, marker: int): int {
    high * 0x40 + (b - marker)
  }

  function EncodeChar(c: char): (bytes: seq<Byte>)
    ensures 1 <= |bytes| <= 4
  {
    var v := c as int;
    if v < 0x80 then [v]
    else if v < 0x800 then [0xC0 + v / 0x40, 0x80 + v % 0x40]
    else if v < 0x10000 then [0xE0 + v / 0x1000, 0x80 + v / 0x40 % 0x40, 0x80 + v % 0x40]
    else [0xF0 + v / 0x40000, 0x80 + v / 0x1000 % 0x40, 0x80 + v / 0x40 % 0x40, 0x80 + v % 0x40]
  }

  function Encode(text: string): (bytes: seq<Byte>)
    ensures |bytes| >= |text|
  {
    if text == "" then [] else EncodeChar(text[0]) + Encode(text[1..])
  }

  /** The text of the longest prefix of `s` made of whole well-formed characters:
      what `from_utf8(&s[..valid_up_to])` yields. */
  function ValidText(s: seq<Byte>): string {
    var n := CharLen(s);
    if n == 0 then "" else [FirstChar(s)] + ValidText(s[n..])
  }

  /** A byte sequence is valid when nothing is left over. */
  predicate IsValid(s: seq<Byte>) {
    Encode(ValidText(s)) == s
  }

  lemma EncodeCharIsOneChar(c: char, rest: seq<Byte>)
    ensures CharLen(EncodeChar(c) + rest) == |EncodeChar(c)|
    ensures FirstChar(EncodeChar(c) + rest) == c
  {
    var v := c as int;
    var s := EncodeChar(c) + rest;
    if v < 0x80 {
    } else if v < 0x800 {
      assert s[..2] == EncodeChar(c);
    } else if v < 0x10000 {
      assert s[..3] == EncodeChar(c);
      SplitSix(v);
    } else {
      assert s[..4] == EncodeChar(c);
      SplitSix(v);
      SplitSix(v / 0x40);
    }
  }

  lemma SplitSix(v: nat)
    ensures v / 0x40 / 0x40 == v / 0x1000
    ensures v / 0x1000 / 0x40 == v / 0x40000
    ensures v == v / 0x1000 * 0x1000 + v / 0x40 % 0x40 * 0x40 + v % 0x40
  {
  }

  lemma SplitJoined(high: nat, b: int)
    requires 0x80 <= b < 0xC0
    ensures Joined(high, b, 0x80) / 0x40 == high
    ensures Joined(high, b, 0x80) % 0x40 == b - 0x80
  {
  }

  lemma FirstCharEncodesBack(s: seq<Byte>)
    requires CharLen(s) > 0
    ensures EncodeChar(FirstChar(s)) == s[..CharLen(s)]
  {
    var n := CharLen(s);
    if n == 2 {
      SplitJoined(s[0] - 0xC0, s[1]);
    } else if n == 3 {
      ThreeBytesEncodeBack(s);
    } else if n == 4 {
      FourBytesEncodeBack(s);
    }
  }

  lemma ThreeBytesEncodeBack(s: seq<Byte>)
    requires CharLen(s) == 3
    ensures EncodeChar(FirstChar(s)) == s[..3]
  {
    var high := Joined(s[0] - 0xE0, s[1], 0x80);
    var v := Joined(high, s[2], 0x80);
    SplitJoined(s[0] - 0xE0, s[1]);
    SplitJoined(high, s[2]);
    SplitSix(v);
    assert 0x800 <= v < 0x10000 && FirstChar(s) as int == v;
  }

  lemma FourBytesEncodeBack(s: seq<Byte>)
    requires CharLen(s) == 4
    ensures EncodeChar(FirstChar(s)) == s[..4]
  {
    var top := Joined(s[0] - 0xF0, s[1], 0x80);
    var high := Joined(top, s[2], 0x80);
    var v := Joined(high, s[3], 0x80);
    SplitJoined(s[0] - 0xF0, s[1]);
    SplitJoined(top, s[2]);
    SplitJoined(high, s[3]);
    SplitSix(v);
    SplitSix(high);
    assert 0x10000 <= v && FirstChar(s) as int == v;
  }

  lemma {:induction false} EncodeConcat(a: string, b: string)
    ensures Encode(a + b) == Encode(a) + Encode(b)
  {
    if a == "" {
      assert a + b == b;
    } else {
      assert (a + b)[1..] == a[1..] + b;
      EncodeConcat(a[1..], b);
    }
  }

  lemma ValidTextTakesOneChar(c: char, rest: seq<Byte>)
    ensures ValidText(EncodeChar(c) + rest) == [c] + ValidText(rest)
  {
    EncodeCharIsOneChar(c, rest);
    assert (EncodeChar(c) + rest)[|EncodeChar(c)|..] == rest;
  }

  /** Whole characters are read off the front whatever follows them. */
  lemma {:induction false} ValidTextOfEncodedPrefix(text: string, rest: seq<Byte>)
    ensures ValidText(Encode(text) + rest) == text + ValidText(rest)
  {
    if text == "" {
      assert Encode(text) + rest == rest && text + ValidText(rest) == ValidText(rest);
    } else {
      ValidTextOfEncodedPrefix(text[1..], rest);
      PrependChar(text[0], text[1..], Encode(text[1..]), rest);
      assert [text[0]] + text[1..] == text;
    }
  }

  lemma PrependChar(c: char, text: string, bytes: seq<Byte>, rest: seq<Byte>)
    requires ValidText(bytes + rest) == text + ValidText(rest)
    ensures ValidText(EncodeChar(c) + bytes + rest) == [c] + text + ValidText(rest)
  {
    ValidTextTakesOneChar(c, bytes + rest);
    Regroup(EncodeChar(c), bytes, rest);
    Regroup([c], text, ValidText(rest));
  }

  lemma ValidTextOfEncoded(text: string)
    ensures ValidText(Encode(text)) == text && IsValid(Encode(text))
  {
    ValidTextOfEncodedPrefix(text, []);
    assert Encode(text) + [] == Encode(text);
  }

  /** What is kept is a prefix of the bytes... */
  lemma {:induction false} ValidTextIsPrefix(s: seq<Byte>)
    ensures Encode(ValidText(s)) <= s
  {
    var n := CharLen(s);
    if n > 0 {
      var c, rest := FirstChar(s), ValidText(s[n..]);
      FirstCharEncodesBack(s);
      ValidTextIsPrefix(s[n..]);
      assert ValidText(s) == [c] + rest && ([c] + rest)[1..] == rest;
      PrefixGrows(s, n, Encode(rest));
    }
  }

  lemma PrefixGrows(s: seq<Byte>, n: nat, rest: seq<Byte>)
    requires n <= |s| && rest <= s[n..]
    ensures s[..n] + rest <= s
  {
    assert s == s[..n] + s[n..];
  }

  /** ... and the longest one: every text whose encoding starts `s` is a prefix of it. */
  lemma ValidTextIsLongest(s: seq<Byte>, text: string)
    requires Encode(text) <= s
    ensures text <= ValidText(s)
  {
    var rest := s[|Encode(text)|..];
    assert s == Encode(text) + rest;
    ValidTextOfEncodedPrefix(text, rest);
  }

  /** More bytes never take back a character already kept. */
  lemma ValidTextMonotone(s: seq<Byte>, more: seq<Byte>)
    ensures ValidText(s) <= ValidText(s + more)
  {
    ValidTextIsPrefix(s);
    ValidTextIsLongest(s + more, ValidText(s));
  }
}
