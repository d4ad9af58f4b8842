/** Hexadecimal escapes and the transcoding of UTF-16 code units to UTF-8 (RFC 3629, section 3; RFC 2781, section 2.2). */
module JsonUnicode {
  import opened JsonBytes

  predicate IsHex(b: Byte) { 48 <= b <= 57 || 65 <= b <= 70 || 97 <= b <= 102 }

  /** The value of a hexadecimal digit, of either case. */
  function HexValue(b: Byte): (v: bv32)
    requires IsHex(b)
    ensures v < 16
  {
    if b <= 57 then (b - 48) as bv32 else if b <= 70 then 10 + ((b - 65) as bv32) else 10 + ((b - 97) as bv32)
  }

  /** The lower case digit that "%04x" prints. */
  function HexDigit(v: Byte): (b: Byte)
    requires v < 16
    ensures IsHex(b) && HexValue(b) == v as bv32
  {
    if v < 10 then 48 + v else 87 + v
  }

  /** Whether four hexadecimal digits stand at i. */
  predicate FourHex(t: seq<Byte>, i: nat) {
    i + 4 <= |t| && IsHex(t[i]) && IsHex(t[i + 1]) && IsHex(t[i + 2]) && IsHex(t[i + 3])
  }

  /** The number that four hexadecimal digits denote, the first the most significant. */
  function HexNumber(t: seq<Byte>, i: nat): bv32
    requires FourHex(t, i)
  {
    (HexValue(t[i]) << 12) | (HexValue(t[i + 1]) << 8) | (HexValue(t[i + 2]) << 4) | HexValue(t[i + 3])
  }

  /** Four bytes at i that neither end a literal nor start an escape. */
  predicate FourPlain(t: seq<Byte>, i: nat) {
    i + 4 <= |t| && PlainByte(t[i]) && PlainByte(t[i + 1]) && PlainByte(t[i + 2]) && PlainByte(t[i + 3])
  }

  predicate PlainByte(b: Byte) { b != QUOTE && b != BACKSLASH }

  /** What parse_hex4 makes of four bytes: their number, or zero when one is no hexadecimal digit. */
  function HexOrZero(t: seq<Byte>, i: nat): bv32 { if FourHex(t, i) then HexNumber(t, i) else 0 }

  /** h<<4 */
  function Up(h: bv32): bv32 { h << 4 }

  function Plus(h: bv32, v: bv32): bv32 { h + v }

  /** parse_hex4, whatever stands at i. */
  method ParseHex4(t: seq<Byte>, i: nat) returns (h: bv32)
    requires i <= |t|
    ensures h == HexOrZero(t, i)
  {
    hide IsHex, HexValue, HexNumber, Up, Plus;
    NulIsNoHex();
    h := 0;
    var str := i;
    if IsHex(At(t, str)) { h := Plus(h, HexValue(At(t, str))); } else { return 0; }
    h := Up(h);
    str := str + 1;
    if IsHex(At(t, str)) { h := Plus(h, HexValue(At(t, str))); } else { return 0; }
    h := Up(h);
    str := str + 1;
    if IsHex(At(t, str)) { h := Plus(h, HexValue(At(t, str))); } else { return 0; }
    h := Up(h);
    str := str + 1;
    if IsHex(At(t, str)) { h := Plus(h, HexValue(At(t, str))); } else { return 0; }
    HexIsSum(t, i);
  }

  lemma NulIsNoHex()
    ensures !IsHex(0)
  {
  }

  lemma HexIsSum(t: seq<Byte>, i: nat)
    requires FourHex(t, i)
    ensures HexNumber(t, i) ==
      Plus(Up(Plus(Up(Plus(Up(Plus(0, HexValue(t[i]))), HexValue(t[i + 1]))), HexValue(t[i + 2]))), HexValue(t[i + 3]))
  {
    hide IsHex, HexValue;
    HexSum(HexValue(t[i]), HexValue(t[i + 1]), HexValue(t[i + 2]), HexValue(t[i + 3]));
  }

  lemma HexSum(a: bv32, b: bv32, c: bv32, d: bv32)
    requires a < 16 && b < 16 && c < 16 && d < 16
    ensures Plus(Up(Plus(Up(Plus(Up(Plus(0, a)), b)), c)), d) == (a << 12) | (b << 8) | (c << 4) | d
  {
  }

  predicate HighSurrogate(u: bv32) { 0xD800 <= u <= 0xDBFF }

  predicate LowSurrogate(u: bv32) { 0xDC00 <= u <= 0xDFFF }

  /** The code point of a surrogate pair, as RFC 2781 defines it. */
  function PairPoint(hi: bv32, lo: bv32): bv32
    requires HighSurrogate(hi) && LowSurrogate(lo)
  {
    0x10000 + (((hi - 0xD800) << 10) | (lo - 0xDC00))
  }

  lemma PairAsMasked(hi: bv32, lo: bv32)
    requires HighSurrogate(hi) && LowSurrogate(lo)
    ensures PairPoint(hi, lo) == 0x10000 + (((hi & 0x3FF) << 10) | (lo & 0x3FF))
    ensures 0x10000 <= PairPoint(hi, lo) <= 0x10FFFF
  {
  }

  function Low(u: bv32): Byte { (u & 0xFF) as bv8 }

  /** The encoding of a code point, as RFC 3629 tabulates it. */
  function Utf8(cp: bv32): seq<Byte>
    requires cp <= 0x10FFFF
  {
    if cp < 0x80 then [Low(cp)]
    else if cp < 0x800 then [0xC0 | Low(cp >> 6), 0x80 | Low(cp & 0x3F)]
    else if cp < 0x10000 then [0xE0 | Low(cp >> 12), 0x80 | Low((cp >> 6) & 0x3F), 0x80 | Low(cp & 0x3F)]
    else [0xF0 | Low(cp >> 18), 0x80 | Low((cp >> 12) & 0x3F), 0x80 | Low((cp >> 6) & 0x3F), 0x80 | Low(cp & 0x3F)]
  }

  /** firstByteMark */
  function FirstByteMark(len: nat): bv32
    requires 1 <= len <= 4
  {
    if len == 1 then 0 else if len == 2 then 0xC0 else if len == 3 then 0xE0 else 0xF0
  }

  // ---------- the switch ----------

  function Next(uc: bv32): bv32 { uc >> 6 }

  function Trail(uc: bv32): Byte { Low((uc | 0x80) & 0xBF) }

  function Lead(uc: bv32, mark: bv32): Byte { Low(uc | mark) }

  /** The bytes the switch leaves: every trailing byte takes the low six bits, the first what remains. */
  function Written(uc: bv32, len: nat, mark: bv32): (s: seq<Byte>)
    requires len > 0
    ensures |s| == len
  {
    if len == 1 then [Lead(uc, mark)] else Written(Next(uc), len - 1, mark) + [Trail(uc)]
  }

  function PointLength(uc: bv32): nat { if uc < 0x80 then 1 else if uc < 0x800 then 2 else if uc < 0x10000 then 3 else 4 }

  lemma WrittenSpelled(uc: bv32, mark: bv32)
    ensures Written(uc, 1, mark) == [Lead(uc, mark)]
    ensures Written(uc, 2, mark) == [Lead(Next(uc), mark), Trail(uc)]
    ensures Written(uc, 3, mark) == [Lead(Next(Next(uc)), mark), Trail(Next(uc)), Trail(uc)]
    ensures Written(uc, 4, mark) == [Lead(Next(Next(Next(uc))), mark), Trail(Next(Next(uc))), Trail(Next(uc)), Trail(uc)]
  {
    hide Trail, Lead, Next;
    var u, v := Next(uc), Next(Next(uc));
    assert Written(uc, 2, mark) == Written(u, 1, mark) + [Trail(uc)];
    assert Written(u, 2, mark) == Written(v, 1, mark) + [Trail(u)];
    assert Written(v, 2, mark) == Written(Next(v), 1, mark) + [Trail(v)];
    assert Written(uc, 3, mark) == Written(u, 2, mark) + [Trail(uc)];
    assert Written(u, 3, mark) == Written(v, 2, mark) + [Trail(u)];
    assert Written(uc, 4, mark) == Written(u, 3, mark) + [Trail(uc)];
  }

  lemma Trails(uc: bv32)
    ensures Trail(uc) == 0x80 | Low(uc & 0x3F)
    ensures Trail(Next(uc)) == 0x80 | Low((uc >> 6) & 0x3F)
    ensures Trail(Next(Next(uc))) == 0x80 | Low((uc >> 12) & 0x3F)
  {
  }

  lemma Leads(uc: bv32)
    ensures Lead(uc, 0) == Low(uc) && Lead(Next(uc), 0xC0) == 0xC0 | Low(uc >> 6)
    ensures Lead(Next(Next(uc)), 0xE0) == 0xE0 | Low(uc >> 12) && Lead(Next(Next(Next(uc))), 0xF0) == 0xF0 | Low(uc >> 18)
  {
  }

  lemma WrittenIsUtf8(uc: bv32)
    requires uc <= 0x10FFFF
    ensures Written(uc, PointLength(uc), FirstByteMark(PointLength(uc))) == Utf8(uc)
  {
    hide Low, Trail, Lead, Next, Written;
    WrittenSpelled(uc, FirstByteMark(PointLength(uc)));
    Trails(uc);
    Leads(uc);
  }

  /** *--ptr = b */
  method PutBefore(out: array<Byte>, ptr: nat, b: Byte, ghost rest: seq<Byte>) returns (ptr': nat)
    requires 0 < ptr && ptr + |rest| <= out.Length && out[ptr..ptr + |rest|] == rest
    modifies out
    ensures ptr' == ptr - 1 && out[..ptr'] == old(out[..ptr - 1]) && out[ptr'..ptr + |rest|] == [b] + rest
  {
    ptr' := ptr - 1;
    out[ptr'] := b;
  }

  lemma WrittenStep(uc: bv32, len: nat, mark: bv32, rest: seq<Byte>)
    requires 1 < len
    ensures Written(uc, len, mark) + rest == Written(Next(uc), len - 1, mark) + ([Trail(uc)] + rest)
  {
    hide Trail, Next;
  }

  /** The switch that writes a code point backwards from the place behind it; its cases fall through. */
  method WritePoint(uc0: bv32, out: array<Byte>, at: nat) returns (end: nat)
    requires uc0 <= 0x10FFFF && at + |Utf8(uc0)| <= out.Length
    modifies out
    ensures end == at + |Utf8(uc0)| && out[at..end] == Utf8(uc0)
    ensures out[..at] == old(out[..at])
  {
    hide Lead, Trail, Next, Utf8, Written;
    WrittenIsUtf8(uc0);
    var uc := uc0;
    var len: nat := 4;
    if uc < 0x80 { len := 1; } else if uc < 0x800 { len := 2; } else if uc < 0x10000 { len := 3; }
    var ptr: nat := at + len;
    var left: nat := len;
    var mark := FirstByteMark(len);
    ghost var rest: seq<Byte> := [];
    assert out[ptr..at + len] == rest && Written(uc, left, mark) + rest == Written(uc, left, mark);
    while left > 1
      invariant 1 <= left <= len && ptr == at + left && |rest| == len - left && at + len <= out.Length
      invariant out[ptr..at + len] == rest && out[..at] == old(out[..at])
      invariant Written(uc, left, mark) + rest == Utf8(uc0)
    {
      WrittenStep(uc, left, mark, rest);
      ptr := PutBefore(out, ptr, Trail(uc), rest);
      rest := [Trail(uc)] + rest;
      uc := Next(uc);
      left := left - 1;
    }
    WrittenSpelled(uc, mark);
    ptr := PutBefore(out, ptr, Lead(uc, mark), rest);
    end := ptr + len;
  }
}
