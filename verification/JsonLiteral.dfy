/** parse_string: two passes over a string literal, the first counting, the second decoding. */
module JsonLiteral {
  import opened JsonBytes
  import opened JsonUnicode

  /** Text t has a string literal's body from p on: no backslash is the last byte, and four bytes that are no quotes and
      no backslashes follow each \u. The closing quote may be missing. */
  predicate Literal(t: seq<Byte>, p: nat)
    decreases |t| - p
  {
    && p <= |t|
    && if p == |t| || t[p] == QUOTE then true
       else if t[p] != BACKSLASH then Literal(t, p + 1)
       else if At(t, p + 1) == LETTER_U then FourPlain(t, p + 2) && Literal(t, p + 6)
       else p + 1 < |t| && Literal(t, p + 2)
  }

  /** What one character or escape of a literal gives, and where the next one starts. */
  datatype Bit = Bit(bytes: seq<Byte>, next: nat)

  /** The case 'u': p is the place of the backslash. */
  function UnicodeBit(t: seq<Byte>, p: nat): (r: Bit)
    requires FourPlain(t, p + 2) && Literal(t, p + 6)
    ensures p < r.next <= |t| && Literal(t, r.next) && |r.bytes| <= 4
  {
    hide HexOrZero;
    var uc := HexOrZero(t, p + 2);
    if LowSurrogate(uc) || uc == 0 then Bit([], p + 6)
    else if !HighSurrogate(uc) then BmpFits(t, p + 2); Bit(Utf8(uc), p + 6)
    else if At(t, p + 6) != BACKSLASH || At(t, p + 7) != LETTER_U then Bit([], p + 6)
    else
      var uc2 := HexOrZero(t, p + 8);
      if !LowSurrogate(uc2) then Bit([], p + 12)
      else PairAsMasked(uc, uc2); Bit(Utf8(PairPoint(uc, uc2)), p + 12)
  }

  lemma BmpFits(t: seq<Byte>, i: nat)
    requires FourPlain(t, i)
    ensures HexOrZero(t, i) <= 0xFFFF
  {
    if FourHex(t, i) { Nibbles(HexValue(t[i]), HexValue(t[i + 1]), HexValue(t[i + 2]), HexValue(t[i + 3])); }
  }

  lemma Nibbles(a: bv32, b: bv32, c: bv32, d: bv32)
    requires a < 16 && b < 16 && c < 16 && d < 16
    ensures (a << 12) | (b << 8) | (c << 4) | d <= 0xFFFF
  {
  }

  /** The byte that a short escape stands for; an unknown letter stands for itself. */
  function ShortEscape(e: Byte): Byte {
    if e == 98 then 8 else if e == 102 then 12 else if e == 110 then 10 else if e == 114 then 13 else if e == 116 then 9 else e
  }

  function BitAt(t: seq<Byte>, p: nat): (r: Bit)
    requires Literal(t, p) && p < |t| && t[p] != QUOTE
    ensures p < r.next <= |t| && Literal(t, r.next)
  {
    if t[p] != BACKSLASH then Bit([t[p]], p + 1)
    else if t[p + 1] == LETTER_U then UnicodeBit(t, p)
    else Bit([ShortEscape(t[p + 1])], p + 2)
  }

  /** The bytes of the literal, and the place of its closing quote or of the end of the text. */
  function Decode(t: seq<Byte>, p: nat): (r: Bit)
    requires Literal(t, p)
    ensures p <= r.next <= |t| && (r.next == |t| || t[r.next] == QUOTE)
    decreases |t| - p
  {
    if p == |t| || t[p] == QUOTE then Bit([], p)
    else
      var b := BitAt(t, p);
      var rest := Decode(t, b.next);
      Bit(b.bytes + rest.bytes, rest.next)
  }

  /** What the first pass counts from p on, and where it stops. */
  function Count(t: seq<Byte>, p: nat): nat
    requires Literal(t, p)
    decreases |t| - p
  {
    if p == |t| || t[p] == QUOTE then 0
    else if t[p] != BACKSLASH then 1 + Count(t, p + 1)
    else if t[p + 1] == LETTER_U then FourPassed(t, p + 2); 1 + Count(t, p + 2)
    else 1 + Count(t, p + 2)
  }

  /** Such bytes are passed one by one. */
  lemma FourPassed(t: seq<Byte>, i: nat)
    requires FourPlain(t, i) && Literal(t, i + 4)
    ensures Literal(t, i) && Literal(t, i + 1) && Literal(t, i + 2) && Literal(t, i + 3)
  {
    assert Literal(t, i + 3);
    assert Literal(t, i + 2);
    assert Literal(t, i + 1);
  }

  /** The first pass goes over them one by one. */
  lemma CountHex(t: seq<Byte>, i: nat)
    requires FourPlain(t, i) && Literal(t, i + 4)
    ensures Literal(t, i) && Count(t, i) == 4 + Count(t, i + 4)
  {
    FourPassed(t, i);
    assert Count(t, i + 3) == 1 + Count(t, i + 4);
    assert Count(t, i + 2) == 1 + Count(t, i + 3);
    assert Count(t, i + 1) == 1 + Count(t, i + 2);
  }

  lemma CountStep(t: seq<Byte>, p: nat)
    requires Literal(t, p) && p < |t| && t[p] != QUOTE
    ensures Count(t, p) == (BitAt(t, p).next - p - (if t[p] == BACKSLASH then if t[p + 1] == LETTER_U then (BitAt(t, p).next - p) / 6 else 1 else 0)) + Count(t, BitAt(t, p).next)
  {
    if t[p] == BACKSLASH && t[p + 1] == LETTER_U {
      CountHex(t, p + 2);
      var b := BitAt(t, p);
      if b.next == p + 12 { CountHex(t, p + 8); assert Count(t, p + 6) == 1 + Count(t, p + 8); }
    }
  }

  /** The second pass never writes more bytes than the first pass counted. */
  lemma {:induction false} DecodeFits(t: seq<Byte>, p: nat)
    requires Literal(t, p)
    ensures |Decode(t, p).bytes| <= Count(t, p)
    decreases |t| - p
  {
    if p < |t| && t[p] != QUOTE {
      CountStep(t, p);
      DecodeFits(t, BitAt(t, p).next);
      assert |BitAt(t, p).bytes| <= 4;
    }
  }

  /** The first pass. */
  method CountPass(t: seq<Byte>, str: nat) returns (len: nat)
    requires str < |t| && Literal(t, str + 1)
    ensures len == Count(t, str + 1)
  {
    var ptr := str + 1;
    len := 0;
    while At(t, ptr) != QUOTE && ptr < |t|
      invariant ptr <= |t| && Hop(t, str + 1, ptr, len)
      decreases |t| - ptr
    {
      HopOn(t, str + 1, ptr, len);
      len := len + 1;
      if t[ptr] == BACKSLASH { ptr := ptr + 1; }
      ptr := ptr + 1;
    }
  }

  /** len characters have been counted up to ptr, which may stand among the digits of an escape. */
  ghost predicate Hop(t: seq<Byte>, start: nat, ptr: nat, len: nat) {
    && start <= |t| && Literal(t, start) && ptr <= |t| && Literal(t, ptr) && len + Count(t, ptr) == Count(t, start)
  }

  lemma HopOn(t: seq<Byte>, start: nat, ptr: nat, len: nat)
    requires Hop(t, start, ptr, len) && ptr < |t| && t[ptr] != QUOTE
    ensures var next := if t[ptr] == BACKSLASH then ptr + 2 else ptr + 1; Hop(t, start, next, len + 1)
  {
    if t[ptr] == BACKSLASH && t[ptr + 1] == LETTER_U { FourPassed(t, ptr + 2); }
  }

  /** out holds what the literal from start to ptr gives. */
  ghost predicate Decoding(t: seq<Byte>, start: nat, ptr: nat, written: seq<Byte>) {
    && Literal(t, start) && ptr <= |t| && Literal(t, ptr)
    && Decode(t, start) == Bit(written + Decode(t, ptr).bytes, Decode(t, ptr).next)
  }

  lemma DecodingStarts(t: seq<Byte>, start: nat)
    requires Literal(t, start)
    ensures Decoding(t, start, start, [])
  {
  }

  lemma DecodingOn(t: seq<Byte>, start: nat, ptr: nat, written: seq<Byte>)
    requires Decoding(t, start, ptr, written) && ptr < |t| && t[ptr] != QUOTE
    ensures Literal(t, ptr) && Literal(t, start)
    ensures var b := BitAt(t, ptr); Decoding(t, start, b.next, written + b.bytes)
    ensures |written| + |BitAt(t, ptr).bytes| <= |Decode(t, start).bytes|
  {
    var b := BitAt(t, ptr);
    assert Decode(t, ptr) == Bit(b.bytes + Decode(t, b.next).bytes, Decode(t, b.next).next);
    assert written + (b.bytes + Decode(t, b.next).bytes) == written + b.bytes + Decode(t, b.next).bytes;
  }

  /** What the method makes of a literal: its bytes, and the place behind its closing quote, if it has one. */
  function StringAt(t: seq<Byte>, str: nat): (r: Bit)
    requires str < |t| && Literal(t, str + 1)
    ensures str < r.next <= |t|
  {
    var d := Decode(t, str + 1);
    Bit(d.bytes, if d.next < |t| then d.next + 1 else d.next)
  }

  /** The case 'u' of the second pass. */
  method UnicodePass(t: seq<Byte>, ptr0: nat, out: array<Byte>, at: nat) returns (ptr: nat, end: nat)
    requires FourPlain(t, ptr0 + 2) && Literal(t, ptr0 + 6) && at + |UnicodeBit(t, ptr0).bytes| <= out.Length
    modifies out
    ensures ptr + 1 == UnicodeBit(t, ptr0).next && end == at + |UnicodeBit(t, ptr0).bytes|
    ensures out[at..end] == UnicodeBit(t, ptr0).bytes && out[..at] == old(out[..at])
  {
    hide Literal, Utf8, HighSurrogate, LowSurrogate, PairPoint, HexOrZero;
    ptr := ptr0 + 1;
    end := at;
    var uc := ParseHex4(t, ptr + 1);
    ptr := ptr + 4;
    if LowSurrogate(uc) || uc == 0 { return; }
    BmpFits(t, ptr0 + 2);
    if HighSurrogate(uc) {
      if At(t, ptr + 1) != BACKSLASH || At(t, ptr + 2) != LETTER_U { return; }
      LiteralPair(t, ptr0 + 6);
      var uc2 := ParseHex4(t, ptr + 3);
      ptr := ptr + 6;
      if !LowSurrogate(uc2) { return; }
      PairAsMasked(uc, uc2);
      uc := 0x10000 + (((uc & 0x3FF) << 10) | (uc2 & 0x3FF));
    }
    end := WritePoint(uc, out, at);
  }

  lemma LiteralPair(t: seq<Byte>, p: nat)
    requires Literal(t, p) && At(t, p) == BACKSLASH && At(t, p + 1) == LETTER_U
    ensures FourPlain(t, p + 2) && Literal(t, p + 6)
  {
  }

  /** parse_string from a quote on. */
  method ParseString(t: seq<Byte>, str: nat) returns (value: seq<Byte>, end: nat)
    requires str < |t| && t[str] == QUOTE && Literal(t, str + 1)
    ensures Bit(value, end) == StringAt(t, str)
  {
    hide Decode, Decoding, Count, BitAt;
    var len := CountPass(t, str);
    var out := new Byte[len + 1];
    DecodeFits(t, str + 1);
    DecodingStarts(t, str + 1);
    var ptr, ptr2 := str + 1, 0;
    while At(t, ptr) != QUOTE && ptr < |t|
      invariant ptr2 <= len < out.Length && ptr <= |t| && Decoding(t, str + 1, ptr, out[..ptr2])
      decreases |t| - ptr
    {
      ptr, ptr2 := OneBit(t, str + 1, ptr, out, ptr2);
    }
    DecodingEnds(t, str + 1, ptr, out[..ptr2]);
    out[ptr2] := 0;
    value := out[..ptr2];
    if At(t, ptr) == QUOTE { ptr := ptr + 1; }
    end := ptr;
  }

  lemma DecodingEnds(t: seq<Byte>, start: nat, ptr: nat, written: seq<Byte>)
    requires Decoding(t, start, ptr, written) && (ptr == |t| || t[ptr] == QUOTE)
    ensures Decode(t, start) == Bit(written, ptr)
  {
  }

  /** One round of the second pass. */
  method OneBit(t: seq<Byte>, ghost start: nat, ptr0: nat, out: array<Byte>, at: nat) returns (ptr: nat, end: nat)
    requires at < out.Length && Decoding(t, start, ptr0, out[..at]) && ptr0 < |t| && t[ptr0] != QUOTE
    requires |Decode(t, start).bytes| < out.Length
    modifies out
    ensures at <= end < out.Length && end <= |Decode(t, start).bytes| && ptr0 < ptr <= |t| && Decoding(t, start, ptr, out[..end])
  {
    hide Decode, Decoding, Literal;
    DecodingOn(t, start, ptr0, out[..at]);
    BitParts(t, ptr0);
    ptr, end := ptr0, at;
    if t[ptr] != BACKSLASH {
      out[end] := t[ptr];
      end := end + 1;
      ptr := ptr + 1;
      assert out[..end] == old(out[..at]) + [t[ptr0]];
    } else {
      ptr := ptr + 1;
      if t[ptr] == LETTER_U {
        ptr, end := UnicodePass(t, ptr0, out, at);
        assert out[..end] == out[..at] + out[at..end];
      } else {
        out[end] := ShortEscape(t[ptr]);
        end := end + 1;
        assert out[..end] == old(out[..at]) + [ShortEscape(t[ptr])];
      }
      ptr := ptr + 1;
    }
  }

  lemma BitParts(t: seq<Byte>, p: nat)
    requires Literal(t, p) && p < |t| && t[p] != QUOTE
    ensures t[p] != BACKSLASH ==> BitAt(t, p) == Bit([t[p]], p + 1)
    ensures t[p] == BACKSLASH ==> p + 1 < |t|
    ensures t[p] == BACKSLASH && t[p + 1] == LETTER_U ==> FourPlain(t, p + 2) && Literal(t, p + 6) && BitAt(t, p) == UnicodeBit(t, p)
    ensures t[p] == BACKSLASH && t[p + 1] != LETTER_U ==> BitAt(t, p) == Bit([ShortEscape(t[p + 1])], p + 2)
  {
  }

  // ---------- what literals mean (RFC 8259, section 7) ----------

  /** The characters and escapes a literal is made of; digits are four bytes, which count as zero unless they
      are hexadecimal digits. A high surrogate and the code unit behind it are a Pair, or Broken when that is no low
      surrogate. */
  datatype Piece =
    | Plain(b: Byte)
    | Short(letter: Byte)
    | Unit(digits: seq<Byte>)
    | Pair(high: seq<Byte>, low: seq<Byte>)
    | Broken(high: seq<Byte>, low: seq<Byte>)

  predicate FourBytes(d: seq<Byte>) { |d| == 4 && FourPlain(d, 0) }

  predicate PieceRead(x: Piece) {
    match x
    case Plain(b) => b != 0 && b != QUOTE && b != BACKSLASH
    case Short(letter) => letter != 0 && letter != LETTER_U
    case Unit(d) => FourBytes(d)
    case Pair(h, l) => FourBytes(h) && FourBytes(l) && HighSurrogate(HexOrZero(h, 0)) && LowSurrogate(HexOrZero(l, 0))
    case Broken(h, l) => FourBytes(h) && FourBytes(l) && HighSurrogate(HexOrZero(h, 0)) && !LowSurrogate(HexOrZero(l, 0))
  }

  predicate Surrogate(u: bv32) { HighSurrogate(u) || LowSurrogate(u) }

  /** No \u0000 and no surrogate outside a pair. */
  predicate PieceOk(x: Piece) {
    PieceRead(x) && !x.Broken? && (x.Unit? ==> HexOrZero(x.digits, 0) != 0 && !Surrogate(HexOrZero(x.digits, 0)))
  }

  predicate ByUnits(x: Piece) { x.Unit? || x.Pair? || x.Broken? }

  /** A high surrogate that no code unit follows. */
  predicate Lone(x: Piece)
    requires PieceRead(x)
  {
    x.Unit? && HighSurrogate(HexOrZero(x.digits, 0))
  }

  /** The pieces that make up a literal: each is taken as long as can be. */
  predicate Spelled(xs: seq<Piece>) {
    xs == [] || (PieceRead(xs[0]) && (Lone(xs[0]) && |xs| > 1 ==> !ByUnits(xs[1])) && Spelled(xs[1..]))
  }

  function PieceText(x: Piece): seq<Byte> {
    match x
    case Plain(b) => [b]
    case Short(letter) => [BACKSLASH, letter]
    case Unit(d) => [BACKSLASH, LETTER_U] + d
    case Pair(h, l) => [BACKSLASH, LETTER_U] + h + ([BACKSLASH, LETTER_U] + l)
    case Broken(h, l) => [BACKSLASH, LETTER_U] + h + ([BACKSLASH, LETTER_U] + l)
  }

  /** The bytes a piece leaves: code points in UTF-8; \u0000 and surrogates outside pairs leave nothing. */
  function PieceMeaning(x: Piece): seq<Byte>
    requires PieceRead(x)
  {
    match x
    case Plain(b) => [b]
    case Short(letter) => [ShortEscape(letter)]
    case Unit(d) => BmpFits(d, 0); if HexOrZero(d, 0) == 0 || Surrogate(HexOrZero(d, 0)) then [] else Utf8(HexOrZero(d, 0))
    case Pair(h, l) => PairAsMasked(HexOrZero(h, 0), HexOrZero(l, 0)); Utf8(PairPoint(HexOrZero(h, 0), HexOrZero(l, 0)))
    case Broken(_, _) => []
  }

  function Text(xs: seq<Piece>): seq<Byte> { if xs == [] then [] else PieceText(xs[0]) + Text(xs[1..]) }

  predicate AllRead(xs: seq<Piece>) { forall x :: x in xs ==> PieceRead(x) }

  function Meaning(xs: seq<Piece>): seq<Byte>
    requires AllRead(xs)
  {
    if xs == [] then [] else PieceMeaning(xs[0]) + Meaning(xs[1..])
  }

  lemma {:induction false} SpelledRead(xs: seq<Piece>)
    requires Spelled(xs)
    ensures AllRead(xs)
  {
    hide PieceRead, Lone;
    if xs != [] {
      SpelledRead(xs[1..]);
      assert forall x :: x in xs ==> x == xs[0] || x in xs[1..];
    }
  }

  lemma {:induction false} OkSpelled(xs: seq<Piece>)
    requires forall x :: x in xs ==> PieceOk(x)
    ensures Spelled(xs) && AllRead(xs)
  {
    hide PieceRead, HexOrZero;
    if xs != [] {
      assert PieceOk(xs[0]);
      OkSpelled(xs[1..]);
    }
  }

  lemma HexElsewhere(t: seq<Byte>, i: nat, d: seq<Byte>)
    requires FourBytes(d) && Has(t, i, d)
    ensures FourPlain(t, i) && HexOrZero(t, i) == HexOrZero(d, 0)
  {
    HasAt(t, i, d, 0);
    HasAt(t, i, d, 1);
    HasAt(t, i, d, 2);
    HasAt(t, i, d, 3);
  }

  lemma UnitParts(t: seq<Byte>, p: nat, d: seq<Byte>)
    requires FourBytes(d) && Has(t, p, [BACKSLASH, LETTER_U] + d)
    ensures p + 6 <= |t| && t[p] == BACKSLASH && t[p + 1] == LETTER_U && FourPlain(t, p + 2) && HexOrZero(t, p + 2) == HexOrZero(d, 0)
  {
    var s := [BACKSLASH, LETTER_U] + d;
    HasAt(t, p, s, 0);
    HasAt(t, p, s, 1);
    HasSplit(t, p, [BACKSLASH, LETTER_U], d);
    HexElsewhere(t, p + 2, d);
  }

  /** An escape with four digits starts at q. */
  predicate UnitStarts(t: seq<Byte>, q: nat) { At(t, q) == BACKSLASH && At(t, q + 1) == LETTER_U }

  lemma UnitDecodes(t: seq<Byte>, p: nat, d: seq<Byte>)
    requires PieceRead(Unit(d)) && Has(t, p, PieceText(Unit(d))) && Literal(t, p + 6)
    requires Lone(Unit(d)) ==> !UnitStarts(t, p + 6)
    ensures p < |t| && t[p] != QUOTE && Literal(t, p) && BitAt(t, p) == Bit(PieceMeaning(Unit(d)), p + 6)
  {
    hide Utf8, PairPoint, HexOrZero, FourPlain, LowSurrogate, HighSurrogate;
    UnitParts(t, p, d);
  }

  lemma PairDecodes(t: seq<Byte>, p: nat, x: Piece)
    requires (x.Pair? || x.Broken?) && PieceRead(x) && Has(t, p, PieceText(x)) && Literal(t, p + 12)
    ensures p < |t| && t[p] != QUOTE && Literal(t, p) && BitAt(t, p) == Bit(PieceMeaning(x), p + 12)
  {
    hide Utf8, PairPoint, HexOrZero, FourPlain;
    HasSplit(t, p, [BACKSLASH, LETTER_U] + x.high, [BACKSLASH, LETTER_U] + x.low);
    UnitParts(t, p, x.high);
    UnitParts(t, p + 6, x.low);
    assert Literal(t, p + 6);
  }

  lemma ShortDecodes(t: seq<Byte>, p: nat, e: Byte)
    requires PieceRead(Short(e)) && Has(t, p, PieceText(Short(e))) && Literal(t, p + 2)
    ensures p < |t| && t[p] != QUOTE && Literal(t, p) && BitAt(t, p) == Bit([ShortEscape(e)], p + 2)
  {
    HasAt(t, p, [BACKSLASH, e], 0);
    HasAt(t, p, [BACKSLASH, e], 1);
  }

  /** One piece is one round of the second pass. */
  lemma PieceDecodes(t: seq<Byte>, p: nat, x: Piece)
    requires PieceRead(x) && Has(t, p, PieceText(x)) && Literal(t, p + |PieceText(x)|)
    requires Lone(x) ==> !UnitStarts(t, p + |PieceText(x)|)
    ensures p < |t| && t[p] != QUOTE && Literal(t, p) && BitAt(t, p) == Bit(PieceMeaning(x), p + |PieceText(x)|)
  {
    match x
    case Plain(b) =>
      HasOne(t, p, b);
      assert Literal(t, p);
    case Short(letter) => ShortDecodes(t, p, letter);
    case Unit(d) => UnitDecodes(t, p, d);
    case Pair(_, _) => PairDecodes(t, p, x);
    case Broken(_, _) => PairDecodes(t, p, x);
  }

  lemma DecodeOne(t: seq<Byte>, p: nat)
    requires Literal(t, p) && p < |t| && t[p] != QUOTE
    ensures var b := BitAt(t, p); var rest := Decode(t, b.next); Decode(t, p) == Bit(b.bytes + rest.bytes, rest.next)
  {
  }

  /** The end of a literal: its closing quote, or the end of the text. */
  predicate Ends(t: seq<Byte>, q: nat) { q == |t| || (q < |t| && t[q] == QUOTE) }

  /** What the pieces leave is what decoding gives. */
  lemma {:induction false} LiteralMeans(t: seq<Byte>, p: nat, xs: seq<Piece>)
    requires Spelled(xs) && Has(t, p, Text(xs)) && Ends(t, p + |Text(xs)|)
    ensures Literal(t, p) && AllRead(xs) && Decode(t, p) == Bit(Meaning(xs), p + |Text(xs)|)
    decreases |xs|
  {
    hide *;
    SpelledRead(xs);
    TextSteps(xs);
    if xs == [] {
      NothingDecoded(t, p);
    } else {
      var x := xs[0];
      var q := p + |PieceText(x)|;
      HasSplit(t, p, PieceText(x), Text(xs[1..]));
      LiteralMeans(t, q, xs[1..]);
      if Lone(x) { NoUnitStarts(t, q, xs[1..]); }
      PieceDecodes(t, p, x);
      DecodeOne(t, p);
    }
  }

  lemma NoUnitStarts(t: seq<Byte>, q: nat, xs: seq<Piece>)
    requires Spelled(xs) && (xs != [] ==> !ByUnits(xs[0])) && Has(t, q, Text(xs)) && Ends(t, q + |Text(xs)|)
    ensures !UnitStarts(t, q)
  {
    if xs != [] {
      HasSplit(t, q, PieceText(xs[0]), Text(xs[1..]));
      HasAt(t, q, PieceText(xs[0]), 0);
      if xs[0].Short? { HasAt(t, q, PieceText(xs[0]), 1); }
    }
  }

  lemma TextSteps(xs: seq<Piece>)
    requires Spelled(xs) && AllRead(xs)
    ensures xs == [] ==> Text(xs) == Meaning(xs) == []
    ensures xs != [] ==>
      && Text(xs) == PieceText(xs[0]) + Text(xs[1..]) && PieceRead(xs[0]) && AllRead(xs[1..])
      && Meaning(xs) == PieceMeaning(xs[0]) + Meaning(xs[1..])
      && Spelled(xs[1..]) && (Lone(xs[0]) && xs[1..] != [] ==> !ByUnits(xs[1..][0]))
  {
    hide PieceRead, PieceMeaning, PieceText, Lone, ByUnits;
  }

  lemma NothingDecoded(t: seq<Byte>, p: nat)
    requires Ends(t, p)
    ensures Literal(t, p) && Decode(t, p) == Bit([], p)
  {
  }

  /** So parsing the literal gives its meaning, and ends behind its closing quote. */
  lemma StringMeans(t: seq<Byte>, str: nat, xs: seq<Piece>)
    requires Spelled(xs) && Has(t, str, [QUOTE] + Text(xs) + [QUOTE])
    ensures str < |t| && t[str] == QUOTE && Literal(t, str + 1) && AllRead(xs)
    ensures StringAt(t, str) == Bit(Meaning(xs), str + |Text(xs)| + 2)
  {
    hide Has, Text, Meaning, PieceRead, Spelled, AllRead, Literal, Decode;
    HasSplit(t, str, [QUOTE] + Text(xs), [QUOTE]);
    HasSplit(t, str, [QUOTE], Text(xs));
    HasOne(t, str, QUOTE);
    HasOne(t, str + 1 + |Text(xs)|, QUOTE);
    LiteralMeans(t, str + 1, xs);
  }

  // ---------- every literal is spelled from pieces ----------

  /** The piece at p. */
  function PieceAt(t: seq<Byte>, p: nat): Piece
    requires Literal(t, p) && p < |t| && t[p] != QUOTE
  {
    if t[p] != BACKSLASH then Plain(t[p])
    else if t[p + 1] != LETTER_U then Short(t[p + 1])
    else if HighSurrogate(HexOrZero(t, p + 2)) && UnitStarts(t, p + 6) then
      LiteralPair(t, p + 6);
      if LowSurrogate(HexOrZero(t, p + 8)) then Pair(t[p + 2..p + 6], t[p + 8..p + 12]) else Broken(t[p + 2..p + 6], t[p + 8..p + 12])
    else Unit(t[p + 2..p + 6])
  }

  lemma HexHere(t: seq<Byte>, i: nat)
    requires FourPlain(t, i)
    ensures FourBytes(t[i..i + 4]) && HexOrZero(t[i..i + 4], 0) == HexOrZero(t, i)
  {
    var d := t[i..i + 4];
    assert d[0] == t[i] && d[1] == t[i + 1] && d[2] == t[i + 2] && d[3] == t[i + 3];
  }

  lemma UnitStands(t: seq<Byte>, p: nat)
    requires UnitStarts(t, p) && FourPlain(t, p + 2)
    ensures p + 6 <= |t| && FourBytes(t[p + 2..p + 6]) && HexOrZero(t[p + 2..p + 6], 0) == HexOrZero(t, p + 2)
    ensures t[p..p + 6] == [BACKSLASH, LETTER_U] + t[p + 2..p + 6]
  {
    hide HexOrZero;
    HexHere(t, p + 2);
  }

  lemma Halves(t: seq<Byte>, p: nat)
    requires p + 12 <= |t|
    ensures t[p..p + 12] == t[p..p + 6] + t[p + 6..p + 12]
  {
  }

  lemma UnitPieceStands(t: seq<Byte>, p: nat)
    requires Literal(t, p) && p < |t| && t[p] == BACKSLASH && t[p + 1] == LETTER_U
    ensures var x := PieceAt(t, p);
      && PieceRead(x) && |PieceText(x)| > 0 && p + |PieceText(x)| <= |t| && Has(t, p, PieceText(x))
      && Literal(t, p + |PieceText(x)|) && (Lone(x) ==> !UnitStarts(t, p + |PieceText(x)|))
  {
    hide HexOrZero, FourPlain, HighSurrogate, LowSurrogate;
    UnitStands(t, p);
    if HighSurrogate(HexOrZero(t, p + 2)) && UnitStarts(t, p + 6) {
      LiteralPair(t, p + 6);
      UnitStands(t, p + 6);
      Halves(t, p);
    }
  }

  lemma PieceStands(t: seq<Byte>, p: nat)
    requires Literal(t, p) && p < |t| && t[p] != QUOTE && NoNul(t)
    ensures var x := PieceAt(t, p);
      && PieceRead(x) && |PieceText(x)| > 0 && p + |PieceText(x)| <= |t| && Has(t, p, PieceText(x))
      && Literal(t, p + |PieceText(x)|) && (Lone(x) ==> !UnitStarts(t, p + |PieceText(x)|))
  {
    hide HexOrZero, FourPlain;
    if t[p] == BACKSLASH && t[p + 1] == LETTER_U { UnitPieceStands(t, p); }
  }

  /** The pieces from p on, up to the closing quote or the end of the text. */
  lemma {:induction false} PiecesAt(t: seq<Byte>, p: nat) returns (xs: seq<Piece>)
    requires p <= |t| && Literal(t, p) && NoNul(t)
    ensures Spelled(xs) && Has(t, p, Text(xs)) && Ends(t, p + |Text(xs)|)
    ensures xs != [] && ByUnits(xs[0]) ==> UnitStarts(t, p)
    decreases |t| - p
  {
    hide Literal, Has, HexOrZero, PieceText, PieceRead, Lone, ByUnits;
    if p == |t| || t[p] == QUOTE {
      xs := [];
      HasNothing(t, p);
    } else {
      var x := PieceAt(t, p);
      PieceStands(t, p);
      var rest := PiecesAt(t, p + |PieceText(x)|);
      xs := [x] + rest;
      assert xs[1..] == rest;
      HasSplit(t, p, PieceText(x), Text(rest));
      if ByUnits(x) { UnitHere(t, p); }
    }
  }

  lemma UnitHere(t: seq<Byte>, p: nat)
    requires Literal(t, p) && p < |t| && t[p] != QUOTE && ByUnits(PieceAt(t, p))
    ensures UnitStarts(t, p)
  {
  }

  lemma HasNothing(t: seq<Byte>, p: nat)
    requires p <= |t|
    ensures Has(t, p, [])
  {
  }
}
