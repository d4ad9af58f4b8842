/** JSON trees and the text that printing gives: formatted with tabs, or as short as possible. */
module JsonText {
  import opened JsonBytes
  import opened JsonUnicode
  import opened JsonLiteral

  /** An item; a number is mantissa times ten to the power exponent. Children are linked by next. */
  datatype Json =
    | Null
    | Bool(b: bool)
    | Number(mantissa: int, exponent: int)
    | Str(s: seq<Byte>)
    | Arr(items: Items)
    | Obj(members: Members)

  datatype Items = NoItems | Item(head: Json, next: Items)

  datatype Members = NoMembers | Member(name: seq<Byte>, value: Json, next: Members)

  const INT_MIN := -0x8000_0000
  const INT_MAX := 0x7FFF_FFFF

  /** Trees with integer numbers in the range of int and strings without NUL. */
  predicate Printable(v: Json) {
    match v
    case Number(mantissa, exponent) => exponent == 0 && INT_MIN <= mantissa <= INT_MAX
    case Str(s) => NoNul(s)
    case Arr(items) => PrintableItems(items)
    case Obj(members) => PrintableMembers(members)
    case _ => true
  }

  predicate PrintableItems(xs: Items) { xs.Item? ==> Printable(xs.head) && PrintableItems(xs.next) }

  predicate PrintableMembers(ms: Members) { ms.Member? ==> NoNul(ms.name) && Printable(ms.value) && PrintableMembers(ms.next) }

  // ---------- strings ----------

  function Escaped(b: Byte): (s: seq<Byte>)
    ensures 1 <= |s| <= 6
  {
    if b > 31 && b != QUOTE && b != BACKSLASH then [b]
    else if b == BACKSLASH || b == QUOTE then [BACKSLASH, b]
    else if b == 8 then [BACKSLASH, 98]
    else if b == 12 then [BACKSLASH, 102]
    else if b == 10 then [BACKSLASH, 110]
    else if b == 13 then [BACKSLASH, 114]
    else if b == 9 then [BACKSLASH, 116]
    else [BACKSLASH, LETTER_U, 48, 48, HexDigit(b >> 4), HexDigit(b & 15)]
  }

  function EscapedAll(s: seq<Byte>): seq<Byte> { if s == [] then [] else EscapedAll(s[..|s| - 1]) + Escaped(s[|s| - 1]) }

  function Quoted(s: seq<Byte>): seq<Byte> { [QUOTE] + EscapedAll(s) + [QUOTE] }

  // ---------- numbers ----------

  function DigitByte(d: nat): (b: Byte)
    requires d < 10
    ensures IsDigit(b) && DigitValue(b) == d
  {
    if d == 0 then 48 else if d == 1 then 49 else if d == 2 then 50 else if d == 3 then 51 else if d == 4 then 52
    else if d == 5 then 53 else if d == 6 then 54 else if d == 7 then 55 else if d == 8 then 56 else 57
  }

  predicate IsDigit(b: Byte) { 48 <= b <= 57 }

  function DigitValue(b: Byte): (d: nat)
    requires IsDigit(b)
    ensures d < 10
  {
    if b == 48 then 0 else if b == 49 then 1 else if b == 50 then 2 else if b == 51 then 3 else if b == 52 then 4
    else if b == 53 then 5 else if b == 54 then 6 else if b == 55 then 7 else if b == 56 then 8 else 9
  }

  function Digits(n: nat): (s: seq<Byte>)
    ensures |s| >= 1
  {
    if n < 10 then [DigitByte(n)] else Digits(n / 10) + [DigitByte(n % 10)]
  }

  /** "%d" */
  function Decimal(n: int): seq<Byte> { if n < 0 then [45] + Digits(-n) else Digits(n) }

  // ---------- values ----------

  const TEXT_NULL: seq<Byte> := [110, 117, 108, 108]
  const TEXT_TRUE: seq<Byte> := [116, 114, 117, 101]
  const TEXT_FALSE: seq<Byte> := [102, 97, 108, 115, 101]

  function Comma(fmt: bool): seq<Byte> { if fmt then [COMMA, SPACE] else [COMMA] }

  function Colon(fmt: bool): seq<Byte> { if fmt then [COLON, TAB] else [COLON] }

  function Break(fmt: bool): seq<Byte> { if fmt then [NEWLINE] else [] }

  function Indent(depth: nat, fmt: bool): seq<Byte> { if fmt then Tabs(depth) else [] }

  /** The text of an item at a depth. */
  function Print(v: Json, depth: nat, fmt: bool): seq<Byte> {
    match v
    case Null => TEXT_NULL
    case Bool(b) => if b then TEXT_TRUE else TEXT_FALSE
    case Number(mantissa, _) => Decimal(mantissa)
    case Str(s) => Quoted(s)
    case Arr(items) => [OPEN_BRACKET] + PrintItems(items, depth + 1, fmt) + [CLOSE_BRACKET]
    case Obj(members) =>
      if members.NoMembers? then [OPEN_BRACE] + Break(fmt) + Indent(if depth > 0 then depth - 1 else 0, fmt) + [CLOSE_BRACE]
      else [OPEN_BRACE] + Break(fmt) + PrintMembers(members, depth + 1, fmt) + Indent(depth, fmt) + [CLOSE_BRACE]
  }

  function PrintItems(xs: Items, depth: nat, fmt: bool): seq<Byte> {
    if xs.NoItems? then []
    else Print(xs.head, depth, fmt) + (if xs.next.Item? then Comma(fmt) else []) + PrintItems(xs.next, depth, fmt)
  }

  function PrintMember(ms: Members, depth: nat, fmt: bool): seq<Byte>
    requires ms.Member?
    decreases ms, 0
  {
    Indent(depth, fmt) + Quoted(ms.name) + Colon(fmt) + Print(ms.value, depth, fmt)
      + (if ms.next.Member? then [COMMA] else []) + Break(fmt)
  }

  function PrintMembers(ms: Members, depth: nat, fmt: bool): seq<Byte>
    decreases ms, 1
  {
    if ms.NoMembers? then [] else PrintMember(ms, depth, fmt) + PrintMembers(ms.next, depth, fmt)
  }

  // ---------- a printed string is a literal that means the string ----------

  function Spelling(b: Byte): (x: Piece)
    requires b != 0
    ensures PieceOk(x) && PieceText(x) == Escaped(b) && PieceMeaning(x) == [b]
  {
    if b > 31 && b != QUOTE && b != BACKSLASH then Plain(b)
    else if b == BACKSLASH || b == QUOTE then Short(b)
    else if b == 8 then Short(98)
    else if b == 12 then Short(102)
    else if b == 10 then Short(110)
    else if b == 13 then Short(114)
    else if b == 9 then Short(116)
    else
      ControlUnit(b);
      Unit([48, 48, HexDigit(b >> 4), HexDigit(b & 15)])
  }

  lemma ControlUnit(b: Byte)
    requires 0 < b < 32
    ensures var d := [48, 48, HexDigit(b >> 4), HexDigit(b & 15)];
      && FourBytes(d) && HexOrZero(d, 0) == b as bv32 && Utf8(b as bv32) == [b]
      && PieceText(Unit(d)) == [BACKSLASH, LETTER_U, 48, 48, HexDigit(b >> 4), HexDigit(b & 15)]
  {
  }

  function Spellings(s: seq<Byte>): (xs: seq<Piece>)
    requires NoNul(s)
    ensures AllRead(xs) && forall x :: x in xs ==> PieceOk(x)
  {
    if s == [] then [] else Spellings(s[..|s| - 1]) + [Spelling(s[|s| - 1])]
  }

  lemma {:induction false} TextConcat(xs: seq<Piece>, ys: seq<Piece>)
    ensures Text(xs + ys) == Text(xs) + Text(ys)
    decreases |xs|
  {
    hide PieceText;
    if xs == [] {
      assert xs + ys == ys;
    } else {
      TextConcat(xs[1..], ys);
      assert (xs + ys)[1..] == xs[1..] + ys;
    }
  }

  lemma {:induction false} MeaningConcat(xs: seq<Piece>, ys: seq<Piece>)
    requires AllRead(xs) && AllRead(ys)
    ensures AllRead(xs + ys) && Meaning(xs + ys) == Meaning(xs) + Meaning(ys)
    decreases |xs|
  {
    hide PieceMeaning, PieceRead;
    if xs == [] {
      assert xs + ys == ys;
    } else {
      MeaningConcat(xs[1..], ys);
      assert (xs + ys)[1..] == xs[1..] + ys;
    }
  }

  lemma OnePiece(x: Piece)
    requires PieceRead(x)
    ensures Text([x]) == PieceText(x) && AllRead([x]) && Meaning([x]) == PieceMeaning(x)
  {
    hide PieceText, PieceMeaning, PieceRead;
    assert [x][1..] == [];
  }

  lemma SpellingsStep(s: seq<Byte>)
    requires NoNul(s)
    ensures s == [] ==> Text(Spellings(s)) == EscapedAll(s) == Meaning(Spellings(s)) == []
    ensures s != [] ==> var front, b := s[..|s| - 1], s[|s| - 1];
      NoNul(front) && b != 0 && PieceRead(Spelling(b)) && AllRead([Spelling(b)])
      && Spellings(s) == Spellings(front) + [Spelling(b)] && EscapedAll(s) == EscapedAll(front) + Escaped(b)
      && s == front + [b]
  {
    hide Escaped, Spelling;
  }

  lemma {:induction false} SpellingsMean(s: seq<Byte>)
    requires NoNul(s)
    ensures Text(Spellings(s)) == EscapedAll(s) && Meaning(Spellings(s)) == s
    decreases |s|
  {
    hide *;
    SpellingsStep(s);
    if s != [] {
      var front, b := s[..|s| - 1], s[|s| - 1];
      SpellingsMean(front);
      TextConcat(Spellings(front), [Spelling(b)]);
      MeaningConcat(Spellings(front), [Spelling(b)]);
      OnePiece(Spelling(b));
    }
  }

  /** Parsing a printed string gives the string back. */
  lemma StringRoundTrip(t: seq<Byte>, i: nat, s: seq<Byte>)
    requires NoNul(s) && Has(t, i, Quoted(s))
    ensures i < |t| && t[i] == QUOTE && Literal(t, i + 1) && StringAt(t, i) == Bit(s, i + |Quoted(s)|)
  {
    hide EscapedAll, Text, Meaning, Literal, Spellings, PieceOk;
    SpellingsMean(s);
    OkSpelled(Spellings(s));
    StringMeans(t, i, Spellings(s));
  }
}
