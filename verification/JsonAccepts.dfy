/** What is read is a text of the wider grammar, so that the texts that are read are just these. */
module JsonAccepts {
  import opened JsonBytes
  import opened JsonLiteral
  import opened JsonText
  import opened JsonParse
  import opened JsonNumerals
  import opened JsonGrammar
  import opened JsonReading

  lemma HasJoin(t: seq<Byte>, i: nat, a: seq<Byte>, b: seq<Byte>)
    requires Has(t, i, a) && Has(t, i + |a|, b)
    ensures Has(t, i, a + b)
  {
    HasSplit(t, i, a, b);
  }

  /** The space that is passed over. */
  lemma Space(t: seq<Byte>, i: nat)
    requires i <= |t|
    ensures var w := t[i..Skip(t, i)]; Blank(w) && Has(t, i, w) && i + |w| == Skip(t, i)
  {
    SkipStops(t, i);
  }

  lemma KeywordAt(t: seq<Byte>, i: nat) returns (d: Doc)
    requires Has(t, i, TEXT_NULL) || Has(t, i, TEXT_FALSE) || Has(t, i, TEXT_TRUE)
    ensures Reads(t, i, d)
  {
    hide Has;
    d := if Has(t, i, TEXT_NULL) then DocNull else if Has(t, i, TEXT_FALSE) then DocFalse else DocTrue;
  }

  lemma StringDocAt(t: seq<Byte>, i: nat) returns (d: Doc)
    requires i < |t| && NoNul(t) && t[i] == QUOTE && Literal(t, i + 1)
    ensures Reads(t, i, d) && (d.DocString? || d.OpenString?)
  {
    hide Has, Literal, Spelled, Text;
    var xs := PiecesAt(t, i + 1);
    HasOne(t, i, QUOTE);
    HasJoin(t, i, [QUOTE], Text(xs));
    var q := i + 1 + |Text(xs)|;
    if q == |t| {
      d := OpenString(xs);
    } else {
      d := DocString(xs);
      HasOne(t, q, QUOTE);
      HasJoin(t, i, [QUOTE] + Text(xs), [QUOTE]);
    }
  }

  lemma NumberDocAt(t: seq<Byte>, i: nat) returns (d: Doc)
    requires i < |t| && (t[i] == 45 || IsDigit(t[i]))
    ensures Reads(t, i, d)
  {
    hide Has, NumeralRead, NumeralText, NumeralEnds;
    var n := NumeralAt(t, i);
    d := DocNumber(n);
  }

  /** A bracket, and what stands behind it. */
  lemma Bracketed(t: seq<Byte>, i: nat, open: Byte, s: seq<Byte>)
    requires i < |t| && t[i] == open && Has(t, i + 1, s)
    ensures Has(t, i, [open] + s)
  {
    HasOne(t, i, open);
    HasJoin(t, i, [open], s);
  }

  lemma EmptyDocAt(t: seq<Byte>, i: nat, open: Byte, close: Byte) returns (space: seq<Byte>)
    requires i < |t| && t[i] == open && At(t, Skip(t, i + 1)) == close && close != 0
    ensures Blank(space) && Has(t, i, [open] + (space + [close]))
  {
    hide Has, Blank, Skip;
    Space(t, i + 1);
    space := t[i + 1..Skip(t, i + 1)];
    HasOne(t, Skip(t, i + 1), close);
    HasJoin(t, i + 1, space, [close]);
    Bracketed(t, i, open, space + [close]);
  }

  /** Every value that is read stands there as a text. */
  lemma DocAt(t: seq<Byte>, i: nat) returns (d: Doc)
    requires i <= |t| && NoNul(t) && ValueAt(t, i).Parsed?
    ensures Reads(t, i, d)
    decreases |t| - i, 0
  {
    hide Has, Blank, Skip, Literal, NumberAt, ItemsAt, MembersAt, ReadableElements, ReadableEntries, SpellElements, SpellEntries, NoNul;
    if Has(t, i, TEXT_NULL) || Has(t, i, TEXT_FALSE) || Has(t, i, TEXT_TRUE) {
      d := KeywordAt(t, i);
    } else if At(t, i) == QUOTE {
      d := StringDocAt(t, i);
    } else if At(t, i) == 45 || IsDigit(At(t, i)) {
      d := NumberDocAt(t, i);
    } else if At(t, i) == OPEN_BRACKET {
      ArrayOpens(t, i);
      if At(t, Skip(t, i + 1)) == CLOSE_BRACKET {
        var space := EmptyDocAt(t, i, OPEN_BRACKET, CLOSE_BRACKET);
        d := EmptyArray(space);
      } else {
        var e := ElementsAt(t, i + 1);
        d := Array(e);
        Bracketed(t, i, OPEN_BRACKET, SpellElements(e) + [CLOSE_BRACKET]);
      }
    } else {
      ObjectOpens(t, i);
      if At(t, Skip(t, i + 1)) == CLOSE_BRACE {
        var space := EmptyDocAt(t, i, OPEN_BRACE, CLOSE_BRACE);
        d := EmptyObject(space);
      } else {
        var e := EntriesAt(t, i + 1);
        d := Object(e);
        Bracketed(t, i, OPEN_BRACE, SpellEntries(e) + [CLOSE_BRACE]);
      }
    }
  }

  /** A text, the space around it, and what follows. */
  lemma DocAround(t: seq<Byte>, i: nat) returns (before: seq<Byte>, d: Doc, after: seq<Byte>, k: nat)
    requires i <= |t| && NoNul(t) && ValueAt(t, Skip(t, i)).Parsed?
    ensures Blank(before) && Readable(d) && Blank(after) && Has(t, i, before + (Spell(d) + after))
    ensures k == Skip(t, ValueAt(t, Skip(t, i)).end) == i + |before| + |Spell(d)| + |after| && i < k <= |t| && Dark(t, k)
    ensures DocEnds(d, t, i + |before| + |Spell(d)|)
    ensures d.OpenString? ==> after == [] && At(t, k) == 0
    decreases |t| - i, 1
  {
    hide Has, Blank, Skip, Readable, Spell, NoNul, ValueAt, DocEnds;
    Space(t, i);
    var j := Skip(t, i);
    before := t[i..j];
    d := DocAt(t, j);
    DocParses(t, j, d);
    var end := j + |Spell(d)|;
    Space(t, end);
    SkipStops(t, end);
    k := Skip(t, end);
    after := t[end..k];
    if d.OpenString? { OpenAtEnd(t, d, end); }
    HasJoin(t, j, Spell(d), after);
    HasJoin(t, i, before, Spell(d) + after);
  }

  lemma OpenAtEnd(t: seq<Byte>, d: Doc, e: nat)
    requires DocEnds(d, t, e) && d.OpenString?
    ensures e == |t| == Skip(t, e)
  {
  }

  lemma ItemsNext(t: seq<Byte>, i: nat)
    requires i <= |t| && ItemsAt(t, i).Parsed?
    ensures ValueAt(t, Skip(t, i)).Parsed?
    ensures var k := Skip(t, ValueAt(t, Skip(t, i)).end);
      (At(t, k) == COMMA && k < |t| && ItemsAt(t, k + 1).Parsed?) || At(t, k) == CLOSE_BRACKET
  {
    hide ValueAt, Skip;
  }

  lemma Around(before: seq<Byte>, s: seq<Byte>, after: seq<Byte>, u: seq<Byte>, z: seq<Byte>)
    ensures (before + (s + after)) + ([COMMA] + (u + z)) == before + (s + (after + ([COMMA] + u))) + z
    ensures (before + (s + after)) + z == before + (s + (after + [])) + z
  {
  }

  lemma ElementsAt(t: seq<Byte>, i: nat) returns (e: Elements)
    requires i <= |t| && NoNul(t) && ItemsAt(t, i).Parsed?
    ensures ReadableElements(e) && Has(t, i, SpellElements(e) + [CLOSE_BRACKET])
    decreases |t| - i, 2
  {
    hide Has, Blank, Skip, Readable, Spell, NoNul, ValueAt, ItemsAt;
    ItemsNext(t, i);
    var before, d, after, k := DocAround(t, i);
    var s := before + (Spell(d) + after);
    if At(t, k) == COMMA {
      var next := ElementsAt(t, k + 1);
      e := Element(before, d, after, next);
      var u := SpellElements(next) + [CLOSE_BRACKET];
      Bracketed(t, k, COMMA, u);
      HasJoin(t, i, s, [COMMA] + u);
      Around(before, Spell(d), after, SpellElements(next), [CLOSE_BRACKET]);
    } else {
      e := LastElement(before, d, after);
      HasOne(t, k, CLOSE_BRACKET);
      HasJoin(t, i, s, [CLOSE_BRACKET]);
      Around(before, Spell(d), after, [], [CLOSE_BRACKET]);
    }
  }

  /** The parts of a name, a colon and a value that are read. */
  lemma PairNext(t: seq<Byte>, i: nat)
    requires i <= |t| && PairAt(t, i).Parsed?
    ensures var j := Skip(t, i);
      && j < |t| && At(t, j) == QUOTE && Literal(t, j + 1)
      && var k := Skip(t, StringAt(t, j).next);
      k < |t| && At(t, k) == COLON && ValueAt(t, Skip(t, k + 1)).Parsed? && ValueAt(t, Skip(t, k + 1)).end == PairAt(t, i).end
  {
    hide ValueAt, Skip, Literal, StringAt;
  }

  /** A name, closed or not, and the space around it. */
  lemma NameAt(t: seq<Byte>, i: nat) returns (d: Doc, before: seq<Byte>, after: seq<Byte>)
    requires i <= |t| && NoNul(t)
    requires var j := Skip(t, i); j < |t| && At(t, j) == QUOTE && Literal(t, j + 1)
    ensures (d.DocString? || d.OpenString?) && Blank(before) && Spelled(d.pieces) && Blank(after)
    ensures Has(t, i, before + (Spell(d) + after)) && DocEnds(d, t, i + |before| + |Spell(d)|)
    ensures Skip(t, StringAt(t, Skip(t, i)).next) == i + |before| + |Spell(d)| + |after| && Dark(t, i + |before| + |Spell(d)| + |after|)
    ensures d.OpenString? ==> after == [] && i + |before| + |Spell(d)| == |t|
  {
    hide Has, Blank, Skip, Literal, NoNul, StringAt, Spelled, Text, DocEnds, Spell;
    Space(t, i);
    var j := Skip(t, i);
    before := t[i..j];
    d := StringDocAt(t, j);
    StringParses(t, j, d);
    QuoteParses(t, j);
    var q := StringAt(t, j).next;
    assert q == j + |Spell(d)|;
    Space(t, q);
    SkipStops(t, q);
    after := t[q..Skip(t, q)];
    if d.OpenString? { OpenAtEnd(t, d, q); }
    HasJoin(t, j, Spell(d), after);
    HasJoin(t, i, before, Spell(d) + after);
  }

  lemma KeyAt(t: seq<Byte>, i: nat) returns (key: Key, l: nat)
    requires i <= |t| && NoNul(t)
    requires var j := Skip(t, i);
      && j < |t| && At(t, j) == QUOTE && Literal(t, j + 1) && At(t, Skip(t, StringAt(t, j).next)) == COLON
    ensures ReadableKey(key) && Has(t, i, SpellKey(key)) && l == i + |SpellKey(key)| < |t| && At(t, l) == COLON
    ensures l == Skip(t, StringAt(t, Skip(t, i)).next)
  {
    hide Has, Blank, Skip, Literal, NoNul, StringAt, Spelled, Text;
    var d, before, after := NameAt(t, i);
    key := Key(before, d.pieces, after);
    l := i + |SpellKey(key)|;
  }

  lemma QuoteParses(t: seq<Byte>, j: nat)
    requires j < |t| && At(t, j) == QUOTE && Literal(t, j + 1)
    ensures ValueAt(t, j).Parsed? && ValueAt(t, j).end == StringAt(t, j).next
  {
    hide Has, Literal, StringAt;
    NoKeyword(t, j);
  }

  lemma MembersNext(t: seq<Byte>, i: nat)
    requires i <= |t| && MembersAt(t, i).Parsed?
    ensures PairAt(t, i).Parsed?
    ensures var k := Skip(t, PairAt(t, i).end);
      (At(t, k) == COMMA && k < |t| && MembersAt(t, k + 1).Parsed?) || At(t, k) == CLOSE_BRACE
  {
    hide PairAt, Skip;
  }

  lemma Beyond(key: seq<Byte>, before: seq<Byte>, s: seq<Byte>, after: seq<Byte>, u: seq<Byte>, z: seq<Byte>)
    ensures key + ([COLON] + ((before + (s + after)) + ([COMMA] + (u + z)))) ==
      key + ([COLON] + (before + (s + (after + ([COMMA] + u))))) + z
    ensures key + ([COLON] + ((before + (s + after)) + z)) == key + ([COLON] + (before + (s + (after + [])))) + z
  {
  }

  lemma EntriesAt(t: seq<Byte>, i: nat) returns (e: Entries)
    requires i <= |t| && NoNul(t) && MembersAt(t, i).Parsed?
    ensures ReadableEntries(e) && Has(t, i, SpellEntries(e) + [CLOSE_BRACE])
    decreases |t| - i, 2
  {
    hide Has, Blank, Skip, Readable, Spell, NoNul, ValueAt, PairAt, MembersAt, SpellKey, ReadableKey, StringAt, Literal, DocEnds;
    MembersNext(t, i);
    PairNext(t, i);
    var key, l := KeyAt(t, i);
    var before, d, after, k := DocAround(t, l + 1);
    var s := before + (Spell(d) + after);
    if At(t, k) == COMMA {
      var next := EntriesAt(t, k + 1);
      e := Entry(key, before, d, after, next);
      var u := SpellEntries(next) + [CLOSE_BRACE];
      Bracketed(t, k, COMMA, u);
      HasJoin(t, l + 1, s, [COMMA] + u);
      Bracketed(t, l, COLON, s + ([COMMA] + u));
      HasJoin(t, i, SpellKey(key), [COLON] + (s + ([COMMA] + u)));
      Beyond(SpellKey(key), before, Spell(d), after, SpellEntries(next), [CLOSE_BRACE]);
    } else {
      e := LastEntry(key, before, d, after);
      HasOne(t, k, CLOSE_BRACE);
      HasJoin(t, l + 1, s, [CLOSE_BRACE]);
      Bracketed(t, l, COLON, s + [CLOSE_BRACE]);
      HasJoin(t, i, SpellKey(key), [COLON] + (s + [CLOSE_BRACE]));
      Beyond(SpellKey(key), before, Spell(d), after, [], [CLOSE_BRACE]);
    }
  }

  // ---------- the texts that are read ----------

  /** Text d stands in t behind n blanks; with the requirement, only blanks follow. */
  predicate Document(t: seq<Byte>, n: nat, d: Doc, requireNullTerminated: bool) {
    && n <= |t| && Blank(t[..n]) && Reads(t, n, d)
    && (requireNullTerminated ==> Blank(t[n + |Spell(d)|..]))
  }

  lemma DocumentIsRead(t: seq<Byte>, n: nat, d: Doc, requireNullTerminated: bool)
    requires Document(t, n, d, requireNullTerminated)
    ensures ParseWithOpts(t, requireNullTerminated) == Parsed(Denotes(d), if requireNullTerminated then |t| else n + |Spell(d)|)
  {
    hide ValueAt, Blank, Skip, Spell, Readable, DocEnds, Denotes;
    var e := n + |Spell(d)|;
    Starts(d);
    HasFirst(t, n, Spell(d));
    SkipBlank(t, 0, t[..n]);
    SkipNothing(t, n);
    DocParses(t, n, d);
    if requireNullTerminated {
      SkipBlank(t, e, t[e..]);
      SkipNothing(t, |t|);
    }
  }

  lemma ReadIsDocument(t: seq<Byte>, requireNullTerminated: bool) returns (n: nat, d: Doc)
    requires NoNul(t) && ParseWithOpts(t, requireNullTerminated).Parsed?
    ensures Document(t, n, d, requireNullTerminated)
  {
    hide ValueAt, Blank, Skip, Spell, Readable, DocEnds, NoNul;
    n := Skip(t, 0);
    SkipStops(t, 0);
    d := DocAt(t, n);
    DocParses(t, n, d);
    var e := n + |Spell(d)|;
    SkipStops(t, e);
    if requireNullTerminated { assert t[e..Skip(t, e)] == t[e..]; }
  }

  /** The parser takes just the texts of the wider grammar, and to each gives its value and its end. */
  lemma AcceptsExactly(t: seq<Byte>, requireNullTerminated: bool)
    requires NoNul(t)
    ensures ParseWithOpts(t, requireNullTerminated).Parsed? <==> exists n: nat, d :: Document(t, n, d, requireNullTerminated)
    ensures forall n: nat, d | Document(t, n, d, requireNullTerminated) ::
      ParseWithOpts(t, requireNullTerminated) == Parsed(Denotes(d), if requireNullTerminated then |t| else n + |Spell(d)|)
  {
    hide ParseWithOpts, Spell, Denotes, Blank, Has, DocEnds, Readable;
    forall n: nat, d | Document(t, n, d, requireNullTerminated)
      ensures ParseWithOpts(t, requireNullTerminated) == Parsed(Denotes(d), if requireNullTerminated then |t| else n + |Spell(d)|)
    {
      DocumentIsRead(t, n, d, requireNullTerminated);
    }
    if ParseWithOpts(t, requireNullTerminated).Parsed? { var n, d := ReadIsDocument(t, requireNullTerminated); }
  }

  // ---------- the texts the methods are not called on ----------

  /** A string literal starts at j in which an escape is cut short. */
  predicate BreaksOff(t: seq<Byte>, j: nat) { j < |t| && t[j] == QUOTE && !Literal(t, j + 1) }

  /** Only such a literal, met on the way, keeps a value from being taken or refused. */
  lemma {:induction false} TruncatedValue(t: seq<Byte>, i: nat) returns (j: nat)
    requires i <= |t| && ValueAt(t, i) == Truncated
    ensures BreaksOff(t, j)
    decreases |t| - i, 0
  {
    hide Has, Skip, NumberAt, ItemsAt, MembersAt;
    if At(t, i) == QUOTE {
      j := i;
    } else if At(t, i) == OPEN_BRACKET {
      j := TruncatedItems(t, Skip(t, i + 1));
    } else {
      j := TruncatedMembers(t, Skip(t, i + 1));
    }
  }

  lemma {:induction false} TruncatedItems(t: seq<Byte>, i: nat) returns (j: nat)
    requires i <= |t| && ItemsAt(t, i) == Truncated
    ensures BreaksOff(t, j)
    decreases |t| - i, 1
  {
    hide Skip, ValueAt;
    if ValueAt(t, Skip(t, i)) == Truncated {
      j := TruncatedValue(t, Skip(t, i));
    } else {
      j := TruncatedItems(t, Skip(t, ValueAt(t, Skip(t, i)).end) + 1);
    }
  }

  lemma {:induction false} TruncatedPair(t: seq<Byte>, i: nat) returns (j: nat)
    requires i <= |t| && PairAt(t, i) == Truncated
    ensures BreaksOff(t, j)
    decreases |t| - i, 1
  {
    hide Skip, ValueAt, Literal;
    j := Skip(t, i);
    if Literal(t, j + 1) { j := TruncatedValue(t, Skip(t, Skip(t, StringAt(t, j).next) + 1)); }
  }

  lemma {:induction false} TruncatedMembers(t: seq<Byte>, i: nat) returns (j: nat)
    requires i <= |t| && MembersAt(t, i) == Truncated
    ensures BreaksOff(t, j)
    decreases |t| - i, 2
  {
    hide Skip, PairAt;
    if PairAt(t, i) == Truncated {
      j := TruncatedPair(t, i);
    } else {
      j := TruncatedMembers(t, Skip(t, PairAt(t, i).end) + 1);
    }
  }

  /** A text without such literals is taken or refused. */
  lemma DecidesAll(t: seq<Byte>, requireNullTerminated: bool)
    requires forall j | 0 <= j < |t| && t[j] == QUOTE :: Literal(t, j + 1)
    ensures ParseWithOpts(t, requireNullTerminated) != Truncated
  {
    hide ValueAt, Skip, Literal;
    if ValueAt(t, Skip(t, 0)) == Truncated { var j := TruncatedValue(t, Skip(t, 0)); }
  }
}
