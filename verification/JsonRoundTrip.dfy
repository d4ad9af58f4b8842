/** Parsing what has been printed gives it back. */
module JsonRoundTrip {
  import opened JsonBytes
  import opened JsonText
  import opened JsonParse
  import opened JsonNumerals
  import opened JsonGrammar
  import opened JsonReading
  import opened JsonCanonical

  lemma NumberRoundTrip(t: seq<Byte>, i: nat, n: int)
    requires Has(t, i, Decimal(n)) && Stops(t, i + |Decimal(n)|)
    ensures i < |t| && (t[i] == 45 || IsDigit(t[i])) && NumberAt(t, i) == Parsed(Number(n, 0), i + |Decimal(n)|)
  {
    hide IntegerNumeral, NumeralText, NumeralValue, Decimal, Stops, NumberAt, Has;
    IntegerText(n);
    StopsEnds(IntegerNumeral(n), t, i + |Decimal(n)|);
    NumeralParses(t, i, IntegerNumeral(n));
  }

  /** What continues no number continues no text of the grammar. */
  lemma GrammaticalEnds(d: Doc, t: seq<Byte>, e: nat)
    requires Grammatical(d) && Stops(t, e)
    ensures DocEnds(d, t, e)
  {
    if d.DocNumber? { StopsEnds(d.numeral, t, e); }
  }

  /** Parsing the print of a tree gives the tree and ends behind it. */
  lemma RoundTrip(t: seq<Byte>, i: nat, v: Json, depth: nat, fmt: bool)
    requires Printable(v) && Has(t, i, Print(v, depth, fmt)) && Stops(t, i + |Print(v, depth, fmt)|)
    ensures i <= |t| && ValueAt(t, i) == Parsed(v, i + |Print(v, depth, fmt)|)
  {
    hide Has, Print, ValueAt, Stops, DocOf, Spell, Canonical, Grammatical, Readable, Denotes, DocEnds;
    PrintIsCanonical(v, depth, fmt);
    GrammaticalEnds(DocOf(v, depth, fmt), t, i + |Print(v, depth, fmt)|);
    DocParses(t, i, DocOf(v, depth, fmt));
  }

  /** cJSON_Parse of cJSON_Print or cJSON_PrintUnformatted. */
  lemma PrintThenParse(v: Json, fmt: bool, requireNullTerminated: bool)
    requires Printable(v)
    ensures ParseWithOpts(Print(v, 0, fmt), requireNullTerminated) == Parsed(v, |Print(v, 0, fmt)|)
  {
    hide Print, ParseWithOpts;
    var s := Print(v, 0, fmt);
    Surrounded(v, fmt, [], [], requireNullTerminated);
    assert [] + (s + []) == s;
  }

  /** The same amid space: the end is behind the print, or behind all space when that is asked for. */
  lemma Surrounded(v: Json, fmt: bool, w: seq<Byte>, z: seq<Byte>, requireNullTerminated: bool)
    requires Printable(v) && Blank(w) && Blank(z)
    ensures ParseWithOpts(w + (Print(v, 0, fmt) + z), requireNullTerminated) ==
      Parsed(v, |w| + |Print(v, 0, fmt)| + if requireNullTerminated then |z| else 0)
  {
    Followed(v, fmt, w, z, [], requireNullTerminated);
    var s := Print(v, 0, fmt);
    assert w + (s + (z + [])) == w + (s + z);
  }

  /** With other bytes behind the space, which do not go on with the number, that is refused where they start if
      nothing may follow, and makes no difference otherwise. */
  lemma Followed(v: Json, fmt: bool, w: seq<Byte>, z: seq<Byte>, u: seq<Byte>, requireNullTerminated: bool)
    requires Printable(v) && Blank(w) && Blank(z) && (u != [] ==> u[0] > 32)
    requires var t := w + (Print(v, 0, fmt) + (z + u)); Stops(t, |w| + |Print(v, 0, fmt)|)
    ensures var e := |w| + |Print(v, 0, fmt)|;
      ParseWithOpts(w + (Print(v, 0, fmt) + (z + u)), requireNullTerminated) ==
        if !requireNullTerminated then Parsed(v, e) else if u == [] then Parsed(v, e + |z|) else Failed(e + |z|)
  {
    hide Has, Print, ParseWithOpts, Stops, DocOf, Spell, Canonical, Grammatical, Readable, Denotes, DocEnds, Blank;
    var s := Print(v, 0, fmt);
    var t, e := w + (s + (z + u)), |w| + |s|;
    PrintIsCanonical(v, 0, fmt);
    var d := DocOf(v, 0, fmt);
    Whole(t);
    assert t == (w + (s + z)) + u;
    HasSplit(t, 0, w + (s + z), u);
    HasSplit(t, 0, w, s + (z + u));
    HasSplit(t, |w|, s, z + u);
    GrammaticalEnds(d, t, e);
    DocumentParses(t, w, d, z, requireNullTerminated);
  }
}
