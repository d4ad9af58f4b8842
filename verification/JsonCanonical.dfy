/** What printing gives, told apart from all other texts for the same value: the canonical text. */
module JsonCanonical {
  import opened JsonBytes
  import opened JsonUnicode
  import opened JsonLiteral
  import opened JsonText
  import opened JsonNumerals
  import opened JsonGrammar

  // ---------- canonical texts ----------

  /** Where it is formatted, a new line with n tabs. */
  function Line(n: nat, fmt: bool): seq<Byte> { if fmt then [NEWLINE] + Tabs(n) else [] }

  function Outer(depth: nat): nat { if depth > 0 then depth - 1 else 0 }

  /** No fraction, no exponent, no zero in front, no negative zero. */
  predicate CanonicalNumeral(n: Numeral) {
    NumeralOk(n) && n.fraction == [] && n.power.NoPower? && !(n.minus && n.whole == [48])
  }

  /** Only quotes, backslashes and control characters are escaped, in the short form where there is one, and otherwise
      with digits in lower case. The slash is not escaped. */
  predicate CanonicalPiece(x: Piece) {
    match x
    case Plain(b) => b >= 32 && b != QUOTE && b != BACKSLASH
    case Short(e) => e == 34 || e == 92 || e == 98 || e == 102 || e == 110 || e == 114 || e == 116
    case Unit(d) => |d| == 4 && CanonicalDigits(d[0], d[1], d[2], d[3])
    case Pair(_, _) => false
    case Broken(_, _) => false
  }

  /** 0001 to 0007, 000b, 000e, 000f, 0010 to 0019 and 001a to 001f. */
  predicate CanonicalDigits(a: Byte, b: Byte, c: Byte, d: Byte) {
    && a == 48 && b == 48 && (48 <= d <= 57 || 97 <= d <= 102)
    && ((c == 48 && (49 <= d <= 55 || d == 98 || d == 101 || d == 102)) || c == 49)
  }

  predicate CanonicalPieces(xs: seq<Piece>) { forall k :: 0 <= k < |xs| ==> CanonicalPiece(xs[k]) }

  /** Unformatted there is no space at all. Formatted, elements stand on one line with a space behind each comma; every
      entry stands on a line of its own, behind as many tabs as it is deep, with a tab between the colon and the value; the
      closing brace stands on a line of its own. */
  predicate Canonical(d: Doc, depth: nat, fmt: bool) {
    match d
    case DocNumber(n) => CanonicalNumeral(n)
    case DocString(xs) => CanonicalPieces(xs)
    case OpenString(_) => false
    case EmptyArray(space) => space == []
    case Array(e) => CanonicalElements(e, [], depth + 1, fmt)
    case EmptyObject(space) => space == Line(Outer(depth), fmt)
    case Object(e) => CanonicalEntries(e, depth + 1, fmt)
    case _ => true
  }

  predicate CanonicalElements(e: Elements, lead: seq<Byte>, depth: nat, fmt: bool) {
    && e.before == lead && Canonical(e.doc, depth, fmt) && e.after == []
    && (e.Element? ==> CanonicalElements(e.next, if fmt then [SPACE] else [], depth, fmt))
  }

  predicate CanonicalEntries(e: Entries, depth: nat, fmt: bool) {
    && e.key.before == Line(depth, fmt) && CanonicalPieces(e.key.name) && e.key.after == []
    && e.before == (if fmt then [TAB] else []) && Canonical(e.doc, depth, fmt)
    && e.after == (if e.Entry? then [] else Line(Outer(depth), fmt))
    && (e.Entry? ==> CanonicalEntries(e.next, depth, fmt))
  }

  // ---------- canonical texts are texts of the grammar ----------

  lemma CanonicalPieceLegal(x: Piece)
    requires CanonicalPiece(x)
    ensures PieceOk(x) && PieceLegal(x)
  {
    if x.Unit? { ControlDigits(x.digits[0], x.digits[1], x.digits[2], x.digits[3]); }
  }

  /** The value of such digits is a control character that has no short form. */
  lemma ControlDigits(a: Byte, b: Byte, c: Byte, d: Byte)
    requires CanonicalDigits(a, b, c, d)
    ensures IsHex(a) && IsHex(b) && IsHex(c) && IsHex(d)
    ensures var u := (HexValue(a) << 12) | (HexValue(b) << 8) | (HexValue(c) << 4) | HexValue(d);
      && 0 < u < 32 && u != 8 && u != 9 && u != 10 && u != 12 && u != 13
      && HexDigit(Low(u) >> 4) == c && HexDigit(Low(u) & 15) == d && Low(u) as bv32 == u
  {
  }

  lemma CanonicalPiecesLegal(xs: seq<Piece>)
    requires CanonicalPieces(xs)
    ensures Legal(xs) && AllRead(xs)
  {
    hide CanonicalPiece, PieceOk, PieceLegal, PieceRead, Spelled;
    forall x | x in xs ensures PieceOk(x) && PieceLegal(x) { CanonicalPieceLegal(x); }
    OkSpelled(xs);
  }

  lemma LineWhite(n: nat, fmt: bool)
    ensures White(Line(n, fmt)) && White([])
  {
  }

  lemma {:induction false} CanonicalGrammatical(d: Doc, depth: nat, fmt: bool)
    requires Canonical(d, depth, fmt)
    ensures Grammatical(d)
    decreases d, 1
  {
    hide CanonicalPieces, Legal, NumeralOk, White, Line;
    LineWhite(Outer(depth), fmt);
    match d
    case DocString(xs) => CanonicalPiecesLegal(xs);
    case Array(e) => ElementsGrammatical(e, [], depth + 1, fmt);
    case Object(e) => EntriesGrammatical(e, depth + 1, fmt);
    case _ =>
  }

  lemma {:induction false} ElementsGrammatical(e: Elements, lead: seq<Byte>, depth: nat, fmt: bool)
    requires CanonicalElements(e, lead, depth, fmt) && White(lead)
    ensures GrammaticalElements(e)
    decreases e, 0
  {
    CanonicalGrammatical(e.doc, depth, fmt);
    if e.Element? { ElementsGrammatical(e.next, if fmt then [SPACE] else [], depth, fmt); }
  }

  lemma {:induction false} EntriesGrammatical(e: Entries, depth: nat, fmt: bool)
    requires CanonicalEntries(e, depth, fmt)
    ensures GrammaticalEntries(e)
    decreases e, 0
  {
    hide CanonicalPieces, Legal, Line;
    LineWhite(depth, fmt);
    LineWhite(Outer(depth), fmt);
    CanonicalPiecesLegal(e.key.name);
    CanonicalGrammatical(e.doc, depth, fmt);
    if e.Entry? { EntriesGrammatical(e.next, depth, fmt); }
  }

  lemma CanonicalReadable(d: Doc, depth: nat, fmt: bool)
    requires Canonical(d, depth, fmt)
    ensures Grammatical(d) && Readable(d)
  {
    CanonicalGrammatical(d, depth, fmt);
    GrammaticalReadable(d);
  }

  // ---------- strings ----------

  lemma SpellingCanonical(b: Byte)
    requires b != 0
    ensures CanonicalPiece(Spelling(b))
  {
  }

  lemma {:induction false} SpellingsCanonical(s: seq<Byte>)
    requires NoNul(s)
    ensures CanonicalPieces(Spellings(s))
    decreases |s|
  {
    hide CanonicalPiece, Spelling;
    if s != [] {
      SpellingsCanonical(s[..|s| - 1]);
      SpellingCanonical(s[|s| - 1]);
    }
  }

  lemma ControlSpelling(b: Byte)
    requires 0 < b < 32 && b != 8 && b != 9 && b != 10 && b != 12 && b != 13
    ensures Spelling(b) == Unit([48, 48, HexDigit(b >> 4), HexDigit(b & 15)])
  {
    hide HexDigit;
  }

  lemma UnitOfByte(d: seq<Byte>)
    requires |d| == 4 && CanonicalDigits(d[0], d[1], d[2], d[3]) && PieceRead(Unit(d))
    ensures var s := PieceMeaning(Unit(d)); |s| == 1 && s[0] != 0 && Spelling(s[0]) == Unit(d)
  {
    ControlDigits(d[0], d[1], d[2], d[3]);
    var u := HexOrZero(d, 0);
    OneByte(u);
    hide HexValue, HexDigit, Low, Utf8, Spelling;
    ControlSpelling(Low(u));
    assert d == [d[0], d[1], d[2], d[3]];
  }

  lemma OneByte(u: bv32)
    requires 0 < u < 32
    ensures Utf8(u) == [Low(u)] && Low(u) as bv32 == u && !Surrogate(u) && 0 < Low(u) < 32
    ensures u != 8 && u != 9 && u != 10 && u != 12 && u != 13 ==>
      Low(u) != 8 && Low(u) != 9 && Low(u) != 10 && Low(u) != 12 && Low(u) != 13
  {
  }

  /** Among the canonical pieces, just one leaves a given byte. */
  lemma PieceOfByte(x: Piece)
    requires CanonicalPiece(x) && PieceRead(x)
    ensures |PieceMeaning(x)| == 1 && PieceMeaning(x)[0] != 0 && Spelling(PieceMeaning(x)[0]) == x
  {
    if x.Unit? {
      hide *;
      CanonicalUnit(x);
      UnitOfByte(x.digits);
    }
  }

  lemma CanonicalUnit(x: Piece)
    requires x.Unit? && CanonicalPiece(x)
    ensures var d := x.digits; |d| == 4 && CanonicalDigits(d[0], d[1], d[2], d[3])
  {
  }

  lemma {:induction false} PiecesOfBytes(xs: seq<Piece>)
    requires CanonicalPieces(xs) && AllRead(xs)
    ensures NoNul(Meaning(xs)) && Spellings(Meaning(xs)) == xs
    decreases |xs|
  {
    hide CanonicalPiece, PieceRead, PieceMeaning, Spelling, Meaning;
    if xs != [] {
      var front, x := xs[..|xs| - 1], xs[|xs| - 1];
      PiecesOfBytes(front);
      assert xs == front + [x];
      OnePiece(x);
      MeaningConcat(front, [x]);
      PieceOfByte(x);
      var s := Meaning(xs);
      assert s[..|s| - 1] == Meaning(front);
    } else {
      NoMeaning();
    }
  }

  lemma NoMeaning()
    ensures Meaning([]) == []
  {
  }

  // ---------- numbers ----------

  lemma {:induction false} DigitsLegal(n: nat)
    ensures AllDigits(Digits(n)) && Digits(n) != [] && (Digits(n)[0] == 48 ==> n == 0 && |Digits(n)| == 1) && PlaceValue(Digits(n)) == n
    decreases n
  {
    hide DigitByte, PlaceValue, AllDigits, Digit;
    var b := DigitByte(n % 10);
    OneDigit(b);
    DigitIs(b);
    if n >= 10 {
      DigitsLegal(n / 10);
      PlaceValueConcat(Digits(n / 10), [b]);
      TenOnce();
      assert n == (n / 10) * 10 + n % 10;
    } else {
      DigitZero(b);
    }
  }

  lemma OneDigit(b: Byte)
    requires 48 <= b <= 57
    ensures AllDigits([b]) && PlaceValue([b]) == Digit(b)
  {
  }

  lemma TenOnce()
    ensures Ten(1) == 10
  {
  }

  lemma DigitOfByte(b: Byte)
    requires 48 <= b <= 57
    ensures Digit(b) < 10 && DigitByte(Digit(b)) == b
  {
  }

  /** Digits without a zero in front are the digits of their value. */
  lemma {:induction false} DigitsOfValue(s: seq<Byte>)
    requires AllDigits(s) && s != [] && (s[0] == 48 ==> |s| == 1)
    ensures Digits(PlaceValue(s)) == s && (PlaceValue(s) == 0 ==> s == [48])
    decreases |s|
  {
    hide DigitByte, Digit, PlaceValue, Digits;
    var front, b := s[..|s| - 1], s[|s| - 1];
    assert s == front + [b];
    OneDigit(b);
    DigitOfByte(b);
    if front == [] {
      assert s == [b];
      DigitZero(b);
      DigitsOne(Digit(b));
    } else {
      assert front[0] == s[0];
      DigitsOfValue(front);
      PlaceValueConcat(front, [b]);
      TenOnce();
      DigitsOn(PlaceValue(front), Digit(b));
    }
  }

  lemma DigitZero(b: Byte)
    requires 48 <= b <= 57
    ensures Digit(b) == 0 ==> b == 48
  {
  }

  lemma DigitsOne(r: nat)
    requires r < 10
    ensures Digits(r) == [DigitByte(r)]
  {
    hide DigitByte;
  }

  lemma DigitsOn(q: nat, r: nat)
    requires 0 < q && r < 10
    ensures Digits(q * 10 + r) == Digits(q) + [DigitByte(r)]
  {
    hide DigitByte;
    Quotient(q, r);
  }

  lemma Quotient(q: nat, r: nat)
    requires r < 10
    ensures (q * 10 + r) / 10 == q && (q * 10 + r) % 10 == r
  {
  }

  /** An integer as a number of the grammar. */
  function IntegerNumeral(n: int): Numeral { Numeral(n < 0, Digits(if n < 0 then -n else n), [], NoPower) }

  lemma IntegerText(n: int)
    ensures CanonicalNumeral(IntegerNumeral(n)) && NumeralText(IntegerNumeral(n)) == Decimal(n)
    ensures NumeralValue(IntegerNumeral(n)) == Number(n, 0)
  {
    hide Digits, PlaceValue, AllDigits;
    var s := Digits(if n < 0 then -n else n);
    DigitsLegal(if n < 0 then -n else n);
    assert s + [] == s && s + ([] + []) == s && [] + s == s;
    NothingAll();
  }

  lemma NothingAll()
    ensures AllDigits([])
  {
  }

  lemma NumeralOfInteger(n: Numeral)
    requires CanonicalNumeral(n)
    ensures NumeralValue(n).Number? && NumeralValue(n).exponent == 0 && IntegerNumeral(NumeralValue(n).mantissa) == n
  {
    hide Digits, PlaceValue, AllDigits;
    assert n.whole + [] == n.whole;
    DigitsOfValue(n.whole);
  }

  // ---------- the canonical text of a value ----------

  function DocOf(v: Json, depth: nat, fmt: bool): Doc
    requires Printable(v)
  {
    match v
    case Null => DocNull
    case Bool(b) => if b then DocTrue else DocFalse
    case Number(m, _) => DocNumber(IntegerNumeral(m))
    case Str(s) => DocString(Spellings(s))
    case Arr(items) => if items.NoItems? then EmptyArray([]) else Array(ElementsOf(items, [], depth + 1, fmt))
    case Obj(members) => if members.NoMembers? then EmptyObject(Line(Outer(depth), fmt)) else Object(EntriesOf(members, depth + 1, fmt))
  }

  function ElementsOf(xs: Items, lead: seq<Byte>, depth: nat, fmt: bool): Elements
    requires xs.Item? && PrintableItems(xs)
  {
    if xs.next.Item? then Element(lead, DocOf(xs.head, depth, fmt), [], ElementsOf(xs.next, if fmt then [SPACE] else [], depth, fmt))
    else LastElement(lead, DocOf(xs.head, depth, fmt), [])
  }

  function EntriesOf(ms: Members, depth: nat, fmt: bool): Entries
    requires ms.Member? && PrintableMembers(ms)
  {
    var key := Key(Line(depth, fmt), Spellings(ms.name), []);
    var lead := if fmt then [TAB] else [];
    if ms.next.Member? then Entry(key, lead, DocOf(ms.value, depth, fmt), [], EntriesOf(ms.next, depth, fmt))
    else LastEntry(key, lead, DocOf(ms.value, depth, fmt), Line(Outer(depth), fmt))
  }

  /** It is canonical. */
  lemma {:induction false} DocOfCanonical(v: Json, depth: nat, fmt: bool)
    requires Printable(v)
    ensures Canonical(DocOf(v, depth, fmt), depth, fmt)
    decreases v, 1
  {
    hide CanonicalPieces, CanonicalNumeral, Spellings, IntegerNumeral, Line;
    match v
    case Number(m, _) => IntegerText(m);
    case Str(s) => SpellingsCanonical(s);
    case Arr(items) => if items.Item? { ElementsOfCanonical(items, [], depth + 1, fmt); }
    case Obj(members) => if members.Member? { EntriesOfCanonical(members, depth + 1, fmt); }
    case _ =>
  }

  lemma {:induction false} ElementsOfCanonical(xs: Items, lead: seq<Byte>, depth: nat, fmt: bool)
    requires xs.Item? && PrintableItems(xs)
    ensures CanonicalElements(ElementsOf(xs, lead, depth, fmt), lead, depth, fmt)
    decreases xs, 0
  {
    DocOfCanonical(xs.head, depth, fmt);
    if xs.next.Item? { ElementsOfCanonical(xs.next, if fmt then [SPACE] else [], depth, fmt); }
  }

  lemma {:induction false} EntriesOfCanonical(ms: Members, depth: nat, fmt: bool)
    requires ms.Member? && PrintableMembers(ms)
    ensures CanonicalEntries(EntriesOf(ms, depth, fmt), depth, fmt)
    decreases ms, 0
  {
    hide CanonicalPieces, Spellings, Line;
    SpellingsCanonical(ms.name);
    DocOfCanonical(ms.value, depth, fmt);
    if ms.next.Member? { EntriesOfCanonical(ms.next, depth, fmt); }
  }

  // ---------- it denotes the value ----------

  lemma StringDenotes(s: seq<Byte>)
    requires NoNul(s)
    ensures Spelled(Spellings(s)) && Denoted(Spellings(s)) == s
  {
    hide PieceOk;
    SpellingsMean(s);
    OkSpelled(Spellings(s));
  }

  lemma {:induction false} DocOfDenotes(v: Json, depth: nat, fmt: bool)
    requires Printable(v) && Readable(DocOf(v, depth, fmt))
    ensures Denotes(DocOf(v, depth, fmt)) == v
    decreases v, 1
  {
    hide Spelled, Denoted, NumeralRead, NumeralValue, Spellings, IntegerNumeral, Line;
    match v
    case Number(m, _) => IntegerText(m);
    case Str(s) => StringDenotes(s);
    case Arr(items) => if items.Item? { ElementsOfDenote(items, [], depth + 1, fmt); }
    case Obj(members) => if members.Member? { EntriesOfDenote(members, depth + 1, fmt); }
    case _ =>
  }

  lemma {:induction false} ElementsOfDenote(xs: Items, lead: seq<Byte>, depth: nat, fmt: bool)
    requires xs.Item? && PrintableItems(xs) && ReadableElements(ElementsOf(xs, lead, depth, fmt))
    ensures DenotesElements(ElementsOf(xs, lead, depth, fmt)) == xs
    decreases xs, 0
  {
    DocOfDenotes(xs.head, depth, fmt);
    if xs.next.Item? { ElementsOfDenote(xs.next, if fmt then [SPACE] else [], depth, fmt); }
  }

  lemma {:induction false} EntriesOfDenote(ms: Members, depth: nat, fmt: bool)
    requires ms.Member? && PrintableMembers(ms) && ReadableEntries(EntriesOf(ms, depth, fmt))
    ensures DenotesEntries(EntriesOf(ms, depth, fmt)) == ms
    decreases ms, 0
  {
    hide Spelled, Denoted, Spellings, Line;
    StringDenotes(ms.name);
    DocOfDenotes(ms.value, depth, fmt);
    if ms.next.Member? { EntriesOfDenote(ms.next, depth, fmt); }
  }

  // ---------- printing writes it ----------

  lemma QuotedSpelled(s: seq<Byte>)
    requires NoNul(s)
    ensures QuotedText(Spellings(s)) == Quoted(s)
  {
    SpellingsMean(s);
  }

  lemma LineIs(n: nat, fmt: bool)
    ensures Line(n, fmt) == Break(fmt) + Indent(n, fmt)
  {
  }

  lemma {:induction false} DocOfPrints(v: Json, depth: nat, fmt: bool)
    requires Printable(v)
    ensures Spell(DocOf(v, depth, fmt)) == Print(v, depth, fmt)
    decreases v, 1
  {
    hide QuotedText, NumeralText, Spellings, IntegerNumeral, Line, Decimal, Quoted, Break, Indent;
    match v
    case Number(m, _) => IntegerText(m);
    case Str(s) => QuotedSpelled(s);
    case Arr(items) => ArrayPrints(items, depth, fmt);
    case Obj(members) => ObjectPrints(members, depth, fmt);
    case _ =>
  }

  lemma {:induction false} ArrayPrints(items: Items, depth: nat, fmt: bool)
    requires PrintableItems(items)
    ensures Spell(DocOf(Arr(items), depth, fmt)) == Print(Arr(items), depth, fmt)
    decreases items, 1
  {
    hide PrintItems, SpellElements, ElementsOf, PrintableItems;
    if items.Item? {
      ElementsOfPrint(items, [], depth + 1, fmt);
      Bracketed([OPEN_BRACKET], PrintItems(items, depth + 1, fmt), [CLOSE_BRACKET]);
    } else {
      Bracketed([OPEN_BRACKET], [], [CLOSE_BRACKET]);
      NoItemsPrint(depth + 1, fmt);
    }
  }

  lemma NoItemsPrint(depth: nat, fmt: bool)
    ensures PrintItems(NoItems, depth, fmt) == []
  {
  }

  lemma Bracketed(a: seq<Byte>, s: seq<Byte>, z: seq<Byte>)
    ensures a + (([] + s) + z) == a + s + z && a + ([] + z) == a + [] + z
  {
  }

  lemma {:induction false} ObjectPrints(members: Members, depth: nat, fmt: bool)
    requires PrintableMembers(members)
    ensures Spell(DocOf(Obj(members), depth, fmt)) == Print(Obj(members), depth, fmt)
    decreases members, 2
  {
    hide Line, Break, Indent, PrintMembers, SpellEntries, EntriesOf, PrintableMembers;
    if members.Member? {
      EntriesOfPrint(members, depth + 1, fmt);
      Braced(Break(fmt), PrintMembers(members, depth + 1, fmt), Indent(depth, fmt));
    } else {
      LineIs(Outer(depth), fmt);
      Braced(Break(fmt), [], Indent(Outer(depth), fmt));
      assert Break(fmt) + [] == Break(fmt);
    }
  }

  lemma Braced(b: seq<Byte>, s: seq<Byte>, z: seq<Byte>)
    ensures [OPEN_BRACE] + ((b + s + z) + [CLOSE_BRACE]) == [OPEN_BRACE] + b + s + z + [CLOSE_BRACE]
  {
  }

  lemma {:induction false} ElementsOfPrint(xs: Items, lead: seq<Byte>, depth: nat, fmt: bool)
    requires xs.Item? && PrintableItems(xs)
    ensures SpellElements(ElementsOf(xs, lead, depth, fmt)) == lead + PrintItems(xs, depth, fmt)
    decreases xs, 0
  {
    hide Spell, Print;
    DocOfPrints(xs.head, depth, fmt);
    if xs.next.Item? { ElementsOfPrint(xs.next, if fmt then [SPACE] else [], depth, fmt); }
  }

  /** A line, a name, a colon and a value, regrouped. */
  lemma Regrouped(b: seq<Byte>, i: seq<Byte>, q: seq<Byte>, c: seq<Byte>, s: seq<Byte>, u: seq<Byte>, z: seq<Byte>)
    ensures ((b + i) + (q + [])) + ([COLON] + (c + (s + ([] + ([COMMA] + (b + u + z)))))) ==
      b + ((i + q + ([COLON] + c) + s + [COMMA] + b) + u) + z
    ensures ((b + i) + (q + [])) + ([COLON] + (c + (s + ((b + z) + [])))) == b + ((i + q + ([COLON] + c) + s + [] + b) + []) + z
  {
  }

  lemma ColonIs(fmt: bool)
    ensures Colon(fmt) == [COLON] + if fmt then [TAB] else []
  {
  }

  lemma EntriesOfText(ms: Members, depth: nat, fmt: bool)
    requires ms.Member? && PrintableMembers(ms)
    ensures SpellEntries(EntriesOf(ms, depth, fmt)) ==
      (Line(depth, fmt) + (QuotedText(Spellings(ms.name)) + []))
        + ([COLON] + ((if fmt then [TAB] else []) + (Spell(DocOf(ms.value, depth, fmt))
          + (if ms.next.Member? then [] + ([COMMA] + SpellEntries(EntriesOf(ms.next, depth, fmt))) else Line(Outer(depth), fmt) + []))))
  {
    hide Spell, QuotedText, Spellings, Line, DocOf, NoNul, Printable;
  }

  lemma {:induction false} EntriesOfPrint(ms: Members, depth: nat, fmt: bool)
    requires ms.Member? && PrintableMembers(ms)
    ensures SpellEntries(EntriesOf(ms, depth, fmt)) == Break(fmt) + PrintMembers(ms, depth, fmt) + Indent(Outer(depth), fmt)
    decreases ms, 1
  {
    hide Spell, SpellEntries, EntriesOf, DocOf, Print, QuotedText, Spellings, Quoted, Line, Break, Indent, Colon;
    DocOfPrints(ms.value, depth, fmt);
    QuotedSpelled(ms.name);
    LineIs(depth, fmt);
    LineIs(Outer(depth), fmt);
    EntriesOfText(ms, depth, fmt);
    ColonIs(fmt);
    var rest := PrintMembers(ms.next, depth, fmt);
    var lead, s, z := if fmt then [TAB] else [], Print(ms.value, depth, fmt), Indent(Outer(depth), fmt);
    Regrouped(Break(fmt), Indent(depth, fmt), Quoted(ms.name), lead, s, rest, z);
    if ms.next.Member? { EntriesOfPrint(ms.next, depth, fmt); }
  }

  // ---------- and there is no other ----------

  lemma PiecesOf(xs: seq<Piece>)
    requires CanonicalPieces(xs) && Spelled(xs)
    ensures NoNul(Denoted(xs)) && Spellings(Denoted(xs)) == xs
  {
    hide CanonicalPieces;
    SpelledRead(xs);
    PiecesOfBytes(xs);
  }

  lemma {:induction false} CanonicalIsDocOf(d: Doc, depth: nat, fmt: bool)
    requires Canonical(d, depth, fmt) && Readable(d) && Printable(Denotes(d))
    ensures DocOf(Denotes(d), depth, fmt) == d
    decreases d, 1
  {
    hide Spelled, Denoted, NumeralRead, NumeralValue, Spellings, IntegerNumeral, Line, CanonicalNumeral, CanonicalPieces;
    match d
    case DocNumber(n) => NumeralOfInteger(n);
    case DocString(xs) => PiecesOf(xs);
    case Array(e) => ElementsAreOf(e, [], depth + 1, fmt);
    case Object(e) => EntriesAreOf(e, depth + 1, fmt);
    case _ =>
  }

  lemma {:induction false} ElementsAreOf(e: Elements, lead: seq<Byte>, depth: nat, fmt: bool)
    requires CanonicalElements(e, lead, depth, fmt) && ReadableElements(e) && PrintableItems(DenotesElements(e))
    ensures ElementsOf(DenotesElements(e), lead, depth, fmt) == e
    decreases e, 0
  {
    CanonicalIsDocOf(e.doc, depth, fmt);
    if e.Element? { ElementsAreOf(e.next, if fmt then [SPACE] else [], depth, fmt); }
  }

  lemma {:induction false} EntriesAreOf(e: Entries, depth: nat, fmt: bool)
    requires CanonicalEntries(e, depth, fmt) && ReadableEntries(e) && PrintableMembers(DenotesEntries(e))
    ensures EntriesOf(DenotesEntries(e), depth, fmt) == e
    decreases e, 0
  {
    hide Spelled, Denoted, Spellings, Line, CanonicalPieces;
    PiecesOf(e.key.name);
    CanonicalIsDocOf(e.doc, depth, fmt);
    if e.Entry? { EntriesAreOf(e.next, depth, fmt); }
  }

  // ---------- main results ----------

  /** The print of a value is a text of the grammar, is canonical, and denotes the value. */
  lemma PrintIsCanonical(v: Json, depth: nat, fmt: bool)
    requires Printable(v)
    ensures var d := DocOf(v, depth, fmt);
      Spell(d) == Print(v, depth, fmt) && Canonical(d, depth, fmt) && Grammatical(d) && Readable(d) && Denotes(d) == v
  {
    hide DocOf, Spell, Print, Canonical, Denotes, Readable, Grammatical;
    DocOfCanonical(v, depth, fmt);
    CanonicalReadable(DocOf(v, depth, fmt), depth, fmt);
    DocOfDenotes(v, depth, fmt);
    DocOfPrints(v, depth, fmt);
  }

  /** And every canonical text for the value is its print. */
  lemma CanonicalIsPrint(d: Doc, depth: nat, fmt: bool)
    requires Canonical(d, depth, fmt)
    ensures Readable(d) && (Printable(Denotes(d)) ==> Spell(d) == Print(Denotes(d), depth, fmt))
  {
    hide DocOf, Spell, Print, Canonical, Denotes, Readable, Grammatical, Printable;
    CanonicalReadable(d, depth, fmt);
    if Printable(Denotes(d)) {
      CanonicalIsDocOf(d, depth, fmt);
      DocOfPrints(Denotes(d), depth, fmt);
    }
  }
}
