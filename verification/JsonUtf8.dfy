/** Reading UTF-8 (RFC 3629, section 3), and what that says of the bytes that escapes leave. */
module JsonUtf8 {
  import opened JsonBytes
  import opened JsonUnicode
  import opened JsonLiteral

  datatype Decoded = Point(cp: bv32, length: nat) | Malformed

  // 0xxxxxxx, 110xxxxx, 1110xxxx, 11110xxx in front, 10xxxxxx behind
  predicate First1(b: Byte) { b & 0x80 == 0 }

  predicate First2(b: Byte) { b & 0xE0 == 0xC0 }

  predicate First3(b: Byte) { b & 0xF0 == 0xE0 }

  predicate First4(b: Byte) { b & 0xF8 == 0xF0 }

  predicate Trailer(b: Byte) { b & 0xC0 == 0x80 }

  function Payload(b: Byte): bv32 { (b & 0x3F) as bv32 }

  function Join2(a: Byte, z: Byte): bv32 { ((a & 0x1F) as bv32 << 6) | Payload(z) }

  function Join3(a: Byte, y: Byte, z: Byte): bv32 { ((a & 0x0F) as bv32 << 12) | (Payload(y) << 6) | Payload(z) }

  function Join4(a: Byte, x: Byte, y: Byte, z: Byte): bv32 {
    ((a & 0x07) as bv32 << 18) | (Payload(x) << 12) | (Payload(y) << 6) | Payload(z)
  }

  /** The leading bits of the first byte give the length, and the other bits of all bytes make the number. */
  function Assembled(s: seq<Byte>): Decoded {
    if s == [] then Malformed
    else if First1(s[0]) then Point(s[0] as bv32, 1)
    else if First2(s[0]) && |s| >= 2 && Trailer(s[1]) then Point(Join2(s[0], s[1]), 2)
    else if First3(s[0]) && |s| >= 3 && Trailer(s[1]) && Trailer(s[2]) then Point(Join3(s[0], s[1], s[2]), 3)
    else if First4(s[0]) && |s| >= 4 && Trailer(s[1]) && Trailer(s[2]) && Trailer(s[3]) then
      Point(Join4(s[0], s[1], s[2], s[3]), 4)
    else Malformed
  }

  predicate Scalar(cp: bv32) { cp <= 0x10FFFF && !HighSurrogate(cp) && !LowSurrogate(cp) }

  /** The least number that needs so many bytes. */
  function Least(length: nat): bv32 { if length == 2 then 0x80 else if length == 3 then 0x800 else if length == 4 then 0x10000 else 0 }

  /** The code point in front of s; longer forms than needed, surrogates and numbers out of range are no code points. */
  function DecodePoint(s: seq<Byte>): Decoded {
    var d := Assembled(s);
    if d.Point? && Scalar(d.cp) && Least(d.length) <= d.cp then d else Malformed
  }

  // ---------- from the code point to the bytes and back ----------

  lemma Bits1(cp: bv32)
    requires cp < 0x80
    ensures First1(Low(cp)) && Low(cp) as bv32 == cp
  {
  }

  lemma Bits2(cp: bv32)
    requires cp < 0x800
    ensures var a, z := 0xC0 | Low(cp >> 6), 0x80 | Low(cp & 0x3F);
      !First1(a) && First2(a) && Trailer(z) && Join2(a, z) == cp
  {
  }

  lemma Bits3(cp: bv32)
    requires cp < 0x10000
    ensures var a, y, z := 0xE0 | Low(cp >> 12), 0x80 | Low((cp >> 6) & 0x3F), 0x80 | Low(cp & 0x3F);
      !First1(a) && !First2(a) && First3(a) && Trailer(y) && Trailer(z) && Join3(a, y, z) == cp
  {
  }

  lemma Bits4(cp: bv32)
    requires cp <= 0x10FFFF
    ensures var a, x, y, z := 0xF0 | Low(cp >> 18), 0x80 | Low((cp >> 12) & 0x3F), 0x80 | Low((cp >> 6) & 0x3F), 0x80 | Low(cp & 0x3F);
      && !First1(a) && !First2(a) && !First3(a) && First4(a)
      && Trailer(x) && Trailer(y) && Trailer(z) && Join4(a, x, y, z) == cp
  {
  }

  lemma AssembledIs(cp: bv32, rest: seq<Byte>)
    requires cp <= 0x10FFFF
    ensures Assembled(Utf8(cp) + rest) == Point(cp, |Utf8(cp)|)
  {
    hide First1, First2, First3, First4, Trailer, Low, Join2, Join3, Join4;
    if cp < 0x80 { Bits1(cp); } else if cp < 0x800 { Bits2(cp); } else if cp < 0x10000 { Bits3(cp); } else { Bits4(cp); }
  }

  lemma EnoughBytes(cp: bv32)
    requires cp <= 0x10FFFF
    ensures Least(|Utf8(cp)|) <= cp
    ensures forall n | 1 <= n <= 4 && Least(n) <= cp :: n <= |Utf8(cp)|
  {
    hide Low;
  }

  /** Whatever follows, the encoding of a code point is read as that code point. */
  lemma DecodeEncoded(cp: bv32, rest: seq<Byte>)
    requires Scalar(cp)
    ensures DecodePoint(Utf8(cp) + rest) == Point(cp, |Utf8(cp)|)
  {
    hide Assembled, Least, Utf8;
    AssembledIs(cp, rest);
    EnoughBytes(cp);
  }

  // ---------- from the bytes to the code point and back ----------

  lemma Back1(a: Byte)
    requires First1(a)
    ensures Utf8(a as bv32) == [a]
  {
  }

  lemma Back2(a: Byte, z: Byte)
    requires First2(a) && Trailer(z) && 0x80 <= Join2(a, z)
    ensures Join2(a, z) < 0x800 && Utf8(Join2(a, z)) == [a, z]
  {
  }

  lemma Bytes3(a: Byte, y: Byte, z: Byte)
    requires First3(a) && Trailer(y) && Trailer(z)
    ensures var c := Join3(a, y, z);
      && c < 0x10000 && a == 0xE0 | Low(c >> 12) && y == 0x80 | Low((c >> 6) & 0x3F) && z == 0x80 | Low(c & 0x3F)
  {
  }

  lemma Back3(a: Byte, y: Byte, z: Byte)
    requires First3(a) && Trailer(y) && Trailer(z) && 0x800 <= Join3(a, y, z)
    ensures Join3(a, y, z) < 0x10000 && Utf8(Join3(a, y, z)) == [a, y, z]
  {
    hide Join3, Low, First3, Trailer;
    Bytes3(a, y, z);
  }

  lemma Bytes4(a: Byte, x: Byte, y: Byte, z: Byte)
    requires First4(a) && Trailer(x) && Trailer(y) && Trailer(z)
    ensures var c := Join4(a, x, y, z);
      && a == 0xF0 | Low(c >> 18) && x == 0x80 | Low((c >> 12) & 0x3F) && y == 0x80 | Low((c >> 6) & 0x3F) && z == 0x80 | Low(c & 0x3F)
  {
  }

  lemma Back4(a: Byte, x: Byte, y: Byte, z: Byte)
    requires First4(a) && Trailer(x) && Trailer(y) && Trailer(z) && 0x10000 <= Join4(a, x, y, z) <= 0x10FFFF
    ensures Utf8(Join4(a, x, y, z)) == [a, x, y, z]
  {
    hide Join4, Low, First4, Trailer;
    Bytes4(a, x, y, z);
  }

  /** What is read as a code point is its encoding and nothing else. */
  lemma EncodeDecoded(s: seq<Byte>)
    requires DecodePoint(s).Point?
    ensures var d := DecodePoint(s); Scalar(d.cp) && d.length <= |s| && s[..d.length] == Utf8(d.cp)
  {
    hide First1, First2, First3, First4, Trailer, Join2, Join3, Join4, Utf8;
    if First1(s[0]) {
      Back1(s[0]);
    } else if First2(s[0]) && |s| >= 2 && Trailer(s[1]) {
      Back2(s[0], s[1]);
    } else if First3(s[0]) && |s| >= 3 && Trailer(s[1]) && Trailer(s[2]) {
      Back3(s[0], s[1], s[2]);
    } else {
      Back4(s[0], s[1], s[2], s[3]);
    }
  }

  // ---------- escapes (RFC 8259, section 7) ----------

  /** Ten digits and six letters of either case, each with its value; nothing else is a digit. */
  lemma HexTable(b: Byte)
    ensures HexValue(48) == 0 && HexValue(49) == 1 && HexValue(50) == 2 && HexValue(51) == 3 && HexValue(52) == 4
    ensures HexValue(53) == 5 && HexValue(54) == 6 && HexValue(55) == 7 && HexValue(56) == 8 && HexValue(57) == 9
    ensures HexValue(65) == HexValue(97) == 10 && HexValue(66) == HexValue(98) == 11 && HexValue(67) == HexValue(99) == 12
    ensures HexValue(68) == HexValue(100) == 13 && HexValue(69) == HexValue(101) == 14 && HexValue(70) == HexValue(102) == 15
    ensures b < 48 || 57 < b < 65 || 70 < b < 97 || 102 < b ==> !IsHex(b)
  {
  }

  /** The number of a code unit, by place. */
  function UnitValue(d: seq<Byte>): bv32
    requires |d| == 4 && FourHex(d, 0)
  {
    HexValue(d[0]) * 0x1000 + HexValue(d[1]) * 0x100 + HexValue(d[2]) * 0x10 + HexValue(d[3])
  }

  lemma Places(a: bv32, b: bv32, c: bv32, d: bv32)
    requires a < 16 && b < 16 && c < 16 && d < 16
    ensures (a << 12) | (b << 8) | (c << 4) | d == a * 0x1000 + b * 0x100 + c * 0x10 + d
  {
  }

  lemma HexNumberIs(d: seq<Byte>)
    requires |d| == 4 && FourHex(d, 0)
    ensures HexNumber(d, 0) == UnitValue(d) <= 0xFFFF
  {
    hide HexValue;
    Places(HexValue(d[0]), HexValue(d[1]), HexValue(d[2]), HexValue(d[3]));
    Nibbles(HexValue(d[0]), HexValue(d[1]), HexValue(d[2]), HexValue(d[3]));
  }

  lemma PairIs(hi: bv32, lo: bv32)
    requires HighSurrogate(hi) && LowSurrogate(lo)
    ensures PairPoint(hi, lo) == 0x10000 + (hi - 0xD800) * 0x400 + (lo - 0xDC00) && Scalar(PairPoint(hi, lo))
  {
  }

  /** A code unit leaves bytes that are read as its number, and a pair leaves bytes that are read as the code point
      section 2.1 of RFC 2781 gives it. */
  lemma EscapeDenotes(x: Piece, rest: seq<Byte>)
    requires PieceOk(x)
    ensures x.Unit? ==>
      && |x.digits| == 4 && FourHex(x.digits, 0)
      && DecodePoint(PieceMeaning(x) + rest) == Point(UnitValue(x.digits), |PieceMeaning(x)|)
    ensures x.Pair? ==>
      && |x.high| == |x.low| == 4 && FourHex(x.high, 0) && FourHex(x.low, 0)
      && var cp := 0x10000 + (UnitValue(x.high) - 0xD800) * 0x400 + (UnitValue(x.low) - 0xDC00);
      DecodePoint(PieceMeaning(x) + rest) == Point(cp, |PieceMeaning(x)|)
  {
    hide HexNumber, FourHex, FourPlain, UnitValue, Utf8, DecodePoint, PairPoint;
    if x.Unit? {
      HexNumberIs(x.digits);
      DecodeEncoded(HexNumber(x.digits, 0), rest);
    } else if x.Pair? {
      HexNumberIs(x.high);
      HexNumberIs(x.low);
      PairIs(HexNumber(x.high, 0), HexNumber(x.low, 0));
      DecodeEncoded(PairPoint(HexNumber(x.high, 0), HexNumber(x.low, 0)), rest);
    }
  }

  /** The eight short escapes: quote, backslash, slash, backspace, form feed, line feed, carriage return, tab. */
  lemma ShortTable()
    ensures ShortEscape(34) == 34 && ShortEscape(92) == 92 && ShortEscape(47) == 47 && ShortEscape(98) == 8
    ensures ShortEscape(102) == 12 && ShortEscape(110) == 10 && ShortEscape(114) == 13 && ShortEscape(116) == 9
  {
  }
}
