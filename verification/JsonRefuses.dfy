/** Where a text is refused: the place up to which it can be read, and what is missing there. */
module JsonRefuses {
  import opened JsonBytes
  import opened JsonLiteral
  import opened JsonText
  import opened JsonParse
  import opened JsonNumerals
  import opened JsonGrammar
  import opened JsonReading
  import opened JsonAccepts

  /** The part of a text in front of the place where it breaks: no value starts there, or it breaks within brackets. */
  datatype Stump = NoValue | InArray(elements: ArrayStump) | InObject(entries: ObjectStump)

  /** It breaks in an element, behind one, or later. */
  datatype ArrayStump =
    | BadElement(before: seq<Byte>, stump: Stump)
    | NoComma(before: seq<Byte>, doc: Doc, after: seq<Byte>)
    | LaterElement(before: seq<Byte>, doc: Doc, after: seq<Byte>, next: ArrayStump)

  /** It breaks where a name should start, where the name runs to the end of the text, behind a name, in a value,
      behind one, or later. */
  datatype ObjectStump =
    | NoName(before: seq<Byte>)
    | OpenName(before: seq<Byte>, name: seq<Piece>)
    | NoColon(key: Key)
    | BadValue(key: Key, before: seq<Byte>, stump: Stump)
    | NoCommaBehind(key: Key, before: seq<Byte>, doc: Doc, after: seq<Byte>)
    | LaterEntry(key: Key, before: seq<Byte>, doc: Doc, after: seq<Byte>, next: ObjectStump)

  function SpellStump(s: Stump): seq<Byte> {
    match s
    case NoValue => []
    case InArray(e) => [OPEN_BRACKET] + SpellArrayStump(e)
    case InObject(e) => [OPEN_BRACE] + SpellObjectStump(e)
  }

  function SpellArrayStump(e: ArrayStump): seq<Byte> {
    match e
    case BadElement(before, stump) => before + SpellStump(stump)
    case NoComma(before, doc, after) => before + (Spell(doc) + after)
    case LaterElement(before, doc, after, next) => before + (Spell(doc) + (after + ([COMMA] + SpellArrayStump(next))))
  }

  function SpellObjectStump(e: ObjectStump): seq<Byte> {
    match e
    case NoName(before) => before
    case OpenName(before, name) => before + ([QUOTE] + Text(name))
    case NoColon(key) => SpellKey(key)
    case BadValue(key, before, stump) => SpellKey(key) + ([COLON] + (before + SpellStump(stump)))
    case NoCommaBehind(key, before, doc, after) => SpellKey(key) + ([COLON] + (before + (Spell(doc) + after)))
    case LaterEntry(key, before, doc, after, next) =>
      SpellKey(key) + ([COLON] + (before + (Spell(doc) + (after + ([COMMA] + SpellObjectStump(next))))))
  }

  /** No value starts at e. */
  predicate Valueless(t: seq<Byte>, e: nat) {
    && !Has(t, e, TEXT_NULL) && !Has(t, e, TEXT_FALSE) && !Has(t, e, TEXT_TRUE)
    && At(t, e) != QUOTE && At(t, e) != 45 && !IsDigit(At(t, e)) && At(t, e) != OPEN_BRACKET && At(t, e) != OPEN_BRACE
  }

  /** What may stand in front of the break at e; nothing at e goes on with it. */
  predicate Last(doc: Doc, after: seq<Byte>, t: seq<Byte>, e: nat) {
    && Readable(doc) && Blank(after) && (doc.OpenString? ==> after == []) && (after == [] ==> DocEnds(doc, t, e))
    && Dark(t, e) && At(t, e) != COMMA
  }

  /** The text breaks at e, behind the stump. */
  predicate Breaks(s: Stump, t: seq<Byte>, e: nat) {
    match s
    case NoValue => Dark(t, e) && Valueless(t, e)
    case InArray(a) => ArrayBreaks(a, t, e) && (a.BadElement? && a.stump.NoValue? ==> At(t, e) != CLOSE_BRACKET)
    case InObject(o) => ObjectBreaks(o, t, e) && (o.NoName? ==> At(t, e) != CLOSE_BRACE)
  }

  predicate ArrayBreaks(a: ArrayStump, t: seq<Byte>, e: nat) {
    match a
    case BadElement(before, stump) => Blank(before) && Breaks(stump, t, e)
    case NoComma(before, doc, after) => Blank(before) && Last(doc, after, t, e) && At(t, e) != CLOSE_BRACKET
    case LaterElement(before, doc, after, next) =>
      Blank(before) && Readable(doc) && !doc.OpenString? && Blank(after) && ArrayBreaks(next, t, e)
  }

  predicate ObjectBreaks(o: ObjectStump, t: seq<Byte>, e: nat) {
    match o
    case NoName(before) => Blank(before) && Dark(t, e) && At(t, e) != QUOTE
    case OpenName(before, name) => Blank(before) && Spelled(name) && e == |t|
    case NoColon(key) => ReadableKey(key) && Dark(t, e) && At(t, e) != COLON
    case BadValue(key, before, stump) => ReadableKey(key) && Blank(before) && Breaks(stump, t, e)
    case NoCommaBehind(key, before, doc, after) =>
      ReadableKey(key) && Blank(before) && Last(doc, after, t, e) && At(t, e) != CLOSE_BRACE
    case LaterEntry(key, before, doc, after, next) =>
      ReadableKey(key) && Blank(before) && Readable(doc) && !doc.OpenString? && Blank(after) && ObjectBreaks(next, t, e)
  }

  // ---------- behind a stump the text is refused ----------

  lemma StumpDark(t: seq<Byte>, i: nat, s: Stump)
    requires Has(t, i, SpellStump(s)) && Breaks(s, t, i + |SpellStump(s)|)
    ensures Dark(t, i)
  {
    hide SpellArrayStump, SpellObjectStump, ArrayBreaks, ObjectBreaks, Valueless;
    if !s.NoValue? { HasFirst(t, i, SpellStump(s)); }
  }

  lemma BehindLast(t: seq<Byte>, e: nat, after: seq<Byte>, d: Doc)
    requires Last(d, after, t, e + |after|) && Has(t, e, after)
    ensures DocEnds(d, t, e) && e <= |t| && Skip(t, e) == e + |after|
  {
    hide Readable, DocEnds, Skip, Has;
    AllSpace(t, e, after);
    if after != [] {
      HasFirst(t, e, after);
      DelimitsEnds(d, t, e);
    }
  }

  /** An element with space on both sides, up to a place k with nothing to skip. */
  lemma ElementReads(t: seq<Byte>, i: nat, before: seq<Byte>, d: Doc, u: seq<Byte>, end: nat)
    requires Blank(before) && Has(t, i, before + (Spell(d) + u)) && Readable(d) && end == i + |before| + |Spell(d)| && DocEnds(d, t, end)
    ensures i <= |t| && ValueAt(t, Skip(t, i)) == Parsed(Denotes(d), end) && Has(t, end, u)
  {
    hide Readable, DocEnds, Skip, Has, Spell, Denotes, ValueAt, Blank;
    Starts(d);
    FirstOf(Spell(d), u);
    Arrives(t, i, before, Spell(d) + u);
    HasSplit(t, i + |before|, Spell(d), u);
    DocParses(t, i + |before|, d);
  }

  lemma ElementStands(t: seq<Byte>, i: nat, before: seq<Byte>, s: seq<Byte>, u: seq<Byte>)
    requires Has(t, i, before + (s + u))
    ensures Has(t, i + |before| + |s|, u)
  {
    HasSplit(t, i, before, s + u);
    HasSplit(t, i + |before|, s, u);
  }

  lemma BadItem(t: seq<Byte>, i: nat)
    requires i <= |t| && ValueAt(t, Skip(t, i)).Failed?
    ensures ItemsAt(t, i) == Failed(ValueAt(t, Skip(t, i)).ep)
  {
    hide ValueAt, Skip;
  }

  lemma ArrayStumpFails(t: seq<Byte>, i: nat, a: ArrayStump)
    requires Has(t, i, SpellArrayStump(a)) && ArrayBreaks(a, t, i + |SpellArrayStump(a)|)
    ensures i <= |t| && ItemsAt(t, i) == Failed(i + |SpellArrayStump(a)|)
    decreases a, 0
  {
    hide Readable, Has, Spell, Blank, DocEnds, Skip, ItemsAt, ValueAt, Denotes, SpellStump, Breaks, Valueless;
    match a
    case BadElement(before, stump) =>
      HasSplit(t, i, before, SpellStump(stump));
      StumpDark(t, i + |before|, stump);
      AllSpace(t, i, before);
      StumpFails(t, i + |before|, stump);
      BadItem(t, i);
    case NoComma(before, doc, after) =>
      var end := i + |before| + |Spell(doc)|;
      ElementStands(t, i, before, Spell(doc), after);
      BehindLast(t, end, after, doc);
      ElementReads(t, i, before, doc, after, end);
      ItemsStep(t, i, Denotes(doc), end);
    case LaterElement(before, doc, after, next) =>
      var end := i + |before| + |Spell(doc)|;
      var u := SpellArrayStump(next);
      ElementStands(t, i, before, Spell(doc), after + ([COMMA] + u));
      Behind(t, end, after, COMMA, u, doc);
      ElementReads(t, i, before, doc, after + ([COMMA] + u), end);
      ArrayStumpFails(t, end + |after| + 1, next);
      ItemsStep(t, i, Denotes(doc), end);
  }

  // names

  lemma NoNameFails(t: seq<Byte>, i: nat)
    requires i <= |t| && At(t, Skip(t, i)) != QUOTE
    ensures PairAt(t, i) == Failed(Skip(t, i))
  {
    hide Skip;
  }

  lemma NoColonFails(t: seq<Byte>, i: nat, j: nat, k: nat)
    requires i <= |t| && Skip(t, i) == j < |t| && At(t, j) == QUOTE && Literal(t, j + 1)
    requires Skip(t, StringAt(t, j).next) == k && At(t, k) != COLON
    ensures PairAt(t, i) == Failed(k)
  {
    hide Skip, Literal, StringAt;
  }

  lemma BadValueFails(t: seq<Byte>, i: nat, j: nat, k: nat)
    requires i <= |t| && Skip(t, i) == j < |t| && At(t, j) == QUOTE && Literal(t, j + 1)
    requires Skip(t, StringAt(t, j).next) == k < |t| && At(t, k) == COLON && ValueAt(t, Skip(t, k + 1)).Failed?
    ensures PairAt(t, i) == Failed(ValueAt(t, Skip(t, k + 1)).ep)
  {
    hide Skip, Literal, StringAt, ValueAt;
  }

  lemma BadMember(t: seq<Byte>, i: nat)
    requires i <= |t| && PairAt(t, i).Failed?
    ensures MembersAt(t, i) == Failed(PairAt(t, i).ep)
  {
    hide PairAt;
  }

  lemma OpenNameFails(t: seq<Byte>, i: nat, before: seq<Byte>, name: seq<Piece>)
    requires Blank(before) && Spelled(name) && Has(t, i, before + ([QUOTE] + Text(name))) && i + |before| + 1 + |Text(name)| == |t|
    ensures i <= |t| && PairAt(t, i) == Failed(|t|)
  {
    hide Has, Spelled, Text, Blank, Skip, Literal, StringAt, PairAt;
    var d := OpenString(name);
    Starts(d);
    Arrives(t, i, before, Spell(d));
    StringParses(t, i + |before|, d);
    QuoteParses(t, i + |before|);
    SkipNothing(t, |t|);
    NoColonFails(t, i, i + |before|, |t|);
  }

  /** A name in front of the end of the text or of a byte that is no space. */
  lemma KeyAlone(t: seq<Byte>, i: nat, key: Key)
    requires ReadableKey(key) && Has(t, i, SpellKey(key)) && Dark(t, i + |SpellKey(key)|)
    ensures i <= |t|
    ensures var j := Skip(t, i);
      j < |t| && At(t, j) == QUOTE && Literal(t, j + 1) && Skip(t, StringAt(t, j).next) == i + |SpellKey(key)|
  {
    hide Has, Spelled, Blank, Skip, Literal, StringAt, Text, Meaning;
    var q := QuotedText(key.name);
    QuotedStarts(key.name);
    FirstOf(q, key.after);
    Arrives(t, i, key.before, q + key.after);
    var j := i + |key.before|;
    HasSplit(t, j, q, key.after);
    StringMeans(t, j, key.name);
    AllSpace(t, j + |q|, key.after);
  }

  lemma ObjectStumpFails(t: seq<Byte>, i: nat, o: ObjectStump)
    requires Has(t, i, SpellObjectStump(o)) && ObjectBreaks(o, t, i + |SpellObjectStump(o)|)
    ensures i <= |t| && MembersAt(t, i) == Failed(i + |SpellObjectStump(o)|)
    decreases o, 0
  {
    hide Readable, ReadableKey, Has, Spell, SpellKey, Blank, DocEnds, Skip, PairAt, MembersAt, ValueAt, Denotes;
    hide SpellStump, Breaks, Valueless, Literal, StringAt;
    match o
    case NoName(before) =>
      AllSpace(t, i, before);
      NoNameFails(t, i);
      BadMember(t, i);
    case OpenName(before, name) =>
      OpenNameFails(t, i, before, name);
      BadMember(t, i);
    case NoColon(key) =>
      KeyAlone(t, i, key);
      NoColonFails(t, i, Skip(t, i), i + |SpellKey(key)|);
      BadMember(t, i);
    case BadValue(key, before, stump) =>
      BadValueStump(t, i, key, before, stump);
      BadMember(t, i);
    case NoCommaBehind(key, before, doc, after) =>
      var end := i + |SpellKey(key)| + 1 + |before| + |Spell(doc)|;
      KeyStands(t, i, SpellKey(key), before, Spell(doc), after);
      BehindLast(t, end, after, doc);
      KeySpelled(key);
      EntryReads(t, i, key, before, doc, after, end);
      MembersStep(t, i, Denoted(key.name), Denotes(doc), end);
    case LaterEntry(key, before, doc, after, next) => LaterEntryFails(t, i, key, before, doc, after, next);
  }

  lemma KeySpelled(key: Key)
    requires ReadableKey(key)
    ensures Spelled(key.name)
  {
  }

  lemma LaterEntryFails(t: seq<Byte>, i: nat, key: Key, before: seq<Byte>, doc: Doc, after: seq<Byte>, next: ObjectStump)
    requires var o := LaterEntry(key, before, doc, after, next);
      Has(t, i, SpellObjectStump(o)) && ObjectBreaks(o, t, i + |SpellObjectStump(o)|)
    ensures i <= |t| && MembersAt(t, i) == Failed(i + |SpellObjectStump(LaterEntry(key, before, doc, after, next))|)
    decreases next, 1
  {
    hide Readable, ReadableKey, Has, Spell, SpellKey, Blank, DocEnds, Skip, PairAt, MembersAt, Denotes;
    var end := i + |SpellKey(key)| + 1 + |before| + |Spell(doc)|;
    var u := SpellObjectStump(next);
    KeyStands(t, i, SpellKey(key), before, Spell(doc), after + ([COMMA] + u));
    Behind(t, end, after, COMMA, u, doc);
    KeySpelled(key);
    EntryReads(t, i, key, before, doc, after + ([COMMA] + u), end);
    ObjectStumpFails(t, end + |after| + 1, next);
    MembersStep(t, i, Denoted(key.name), Denotes(doc), end);
  }

  lemma BadValueStump(t: seq<Byte>, i: nat, key: Key, before: seq<Byte>, stump: Stump)
    requires ReadableKey(key) && Blank(before) && Has(t, i, SpellKey(key) + ([COLON] + (before + SpellStump(stump))))
    requires Breaks(stump, t, i + |SpellKey(key)| + 1 + |before| + |SpellStump(stump)|)
    ensures i <= |t| && PairAt(t, i) == Failed(i + |SpellKey(key)| + 1 + |before| + |SpellStump(stump)|)
    decreases stump, 4
  {
    hide ReadableKey, Has, SpellKey, Blank, Skip, PairAt, ValueAt, SpellStump, Breaks, Literal, StringAt, Spelled;
    KeySpelled(key);
    KeyReads(t, i, key, before + SpellStump(stump));
    var l := i + |SpellKey(key)| + 1;
    var j := l + |before|;
    HasSplit(t, l, before, SpellStump(stump));
    StumpDark(t, j, stump);
    AllSpace(t, l, before);
    StumpFails(t, j, stump);
    BadValueFails(t, i, Skip(t, i), l - 1);
  }

  lemma ArrayStumpStarts(t: seq<Byte>, i: nat, a: ArrayStump)
    requires Has(t, i, SpellArrayStump(a)) && ArrayBreaks(a, t, i + |SpellArrayStump(a)|)
    requires a.BadElement? && a.stump.NoValue? ==> At(t, i + |SpellArrayStump(a)|) != CLOSE_BRACKET
    ensures i <= |t| && At(t, Skip(t, i)) != CLOSE_BRACKET
  {
    hide Readable, Has, Spell, Blank, DocEnds, Skip, Valueless;
    match a
    case BadElement(before, stump) =>
      HasSplit(t, i, before, SpellStump(stump));
      StumpDark(t, i + |before|, stump);
      AllSpace(t, i, before);
      if !stump.NoValue? { HasFirst(t, i + |before|, SpellStump(stump)); }
    case NoComma(before, doc, after) =>
      Starts(doc);
      FirstOf(Spell(doc), after);
      Arrives(t, i, before, Spell(doc) + after);
    case LaterElement(before, doc, after, next) =>
      Starts(doc);
      FirstOf(Spell(doc), after + ([COMMA] + SpellArrayStump(next)));
      Arrives(t, i, before, Spell(doc) + (after + ([COMMA] + SpellArrayStump(next))));
  }

  /** The name that the first entry starts with. */
  lemma QuoteFirst(t: seq<Byte>, i: nat, key: Key, u: seq<Byte>)
    requires ReadableKey(key) && Has(t, i, SpellKey(key) + u)
    ensures i <= |t| && At(t, Skip(t, i)) == QUOTE
  {
    hide Has, Blank, Skip, Spelled;
    HasSplit(t, i, SpellKey(key), u);
    var q := QuotedText(key.name);
    QuotedStarts(key.name);
    FirstOf(q, key.after);
    Arrives(t, i, key.before, q + key.after);
  }

  lemma ObjectStumpStarts(t: seq<Byte>, i: nat, o: ObjectStump)
    requires Has(t, i, SpellObjectStump(o)) && ObjectBreaks(o, t, i + |SpellObjectStump(o)|)
    requires o.NoName? ==> At(t, i + |SpellObjectStump(o)|) != CLOSE_BRACE
    ensures i <= |t| && At(t, Skip(t, i)) != CLOSE_BRACE
  {
    hide Readable, Has, Spell, SpellKey, Blank, DocEnds, Skip, Valueless, ReadableKey, SpellStump, Breaks;
    match o
    case NoName(before) => AllSpace(t, i, before);
    case OpenName(before, name) => Arrives(t, i, before, [QUOTE] + Text(name));
    case NoColon(key) =>
      assert SpellKey(key) + [] == SpellKey(key);
      QuoteFirst(t, i, key, []);
    case BadValue(key, before, stump) => QuoteFirst(t, i, key, [COLON] + (before + SpellStump(stump)));
    case NoCommaBehind(key, before, doc, after) => QuoteFirst(t, i, key, [COLON] + (before + (Spell(doc) + after)));
    case LaterEntry(key, before, doc, after, next) =>
      QuoteFirst(t, i, key, [COLON] + (before + (Spell(doc) + (after + ([COMMA] + SpellObjectStump(next))))));
  }

  /** Behind a stump the text is refused, just where it breaks. */
  lemma StumpFails(t: seq<Byte>, i: nat, s: Stump)
    requires i <= |t| && Has(t, i, SpellStump(s)) && Breaks(s, t, i + |SpellStump(s)|)
    ensures ValueAt(t, i) == Failed(i + |SpellStump(s)|)
    decreases s, 1
  {
    hide Has, SpellArrayStump, SpellObjectStump, ArrayBreaks, ObjectBreaks, ItemsAt, MembersAt, Skip;
    match s
    case NoValue =>
    case InArray(a) =>
      hide ValueAt;
      HasSplit(t, i, [OPEN_BRACKET], SpellArrayStump(a));
      HasOne(t, i, OPEN_BRACKET);
      ArrayStumpStarts(t, i + 1, a);
      ArrayStumpFails(t, i + 1, a);
      ArrayOpens(t, i);
    case InObject(o) =>
      hide ValueAt;
      HasSplit(t, i, [OPEN_BRACE], SpellObjectStump(o));
      HasOne(t, i, OPEN_BRACE);
      ObjectStumpStarts(t, i + 1, o);
      ObjectStumpFails(t, i + 1, o);
      ObjectOpens(t, i);
  }

  // ---------- in front of a refusal stands a stump ----------

  lemma NothingBlank(t: seq<Byte>, i: nat)
    requires i <= |t|
    ensures Has(t, i, []) && Blank([])
  {
  }

  /** The stump in front of the place where a value is refused. */
  lemma StumpAt(t: seq<Byte>, i: nat) returns (s: Stump)
    requires i <= |t| && NoNul(t) && Dark(t, i) && ValueAt(t, i).Failed?
    ensures Has(t, i, SpellStump(s)) && Breaks(s, t, i + |SpellStump(s)|)
    decreases |t| - i, 0
  {
    hide Has, NumberAt, ItemsAt, MembersAt, Skip, Literal, NoNul, SpellArrayStump, SpellObjectStump, ArrayBreaks, ObjectBreaks;
    if At(t, i) == OPEN_BRACKET {
      ArrayOpens(t, i);
      var a := ArrayStumpAt(t, i + 1);
      s := InArray(a);
      Bracketed(t, i, OPEN_BRACKET, SpellArrayStump(a));
      FirstElement(t, i + 1, a);
    } else if At(t, i) == OPEN_BRACE {
      ObjectOpens(t, i);
      var o := ObjectStumpAt(t, i + 1);
      s := InObject(o);
      Bracketed(t, i, OPEN_BRACE, SpellObjectStump(o));
      FirstEntry(t, i + 1, o);
    } else {
      s := NoValue;
      NothingBlank(t, i);
    }
  }

  /** Where the first element is missing, the break is where the space ends. */
  lemma FirstElement(t: seq<Byte>, i: nat, a: ArrayStump)
    requires i <= |t| && Has(t, i, SpellArrayStump(a)) && ArrayBreaks(a, t, i + |SpellArrayStump(a)|)
    ensures a.BadElement? && a.stump.NoValue? ==> i + |SpellArrayStump(a)| == Skip(t, i)
  {
    hide Has, Skip, Valueless, Blank;
    if a.BadElement? && a.stump.NoValue? {
      assert a.before + [] == a.before;
      AllSpace(t, i, a.before);
    }
  }

  lemma FirstEntry(t: seq<Byte>, i: nat, o: ObjectStump)
    requires i <= |t| && Has(t, i, SpellObjectStump(o)) && ObjectBreaks(o, t, i + |SpellObjectStump(o)|)
    ensures o.NoName? ==> i + |SpellObjectStump(o)| == Skip(t, i)
  {
    hide Has, Skip, Blank;
    if o.NoName? { AllSpace(t, i, o.before); }
  }

  lemma ItemsFailed(t: seq<Byte>, i: nat)
    requires i <= |t| && ItemsAt(t, i).Failed? && ValueAt(t, Skip(t, i)).Parsed?
    ensures var k := Skip(t, ValueAt(t, Skip(t, i)).end);
      if At(t, k) == COMMA then k < |t| && ItemsAt(t, k + 1).Failed? else At(t, k) != CLOSE_BRACKET
  {
    hide ValueAt, Skip;
  }

  lemma NotTaken(t: seq<Byte>, i: nat)
    requires i <= |t| && ItemsAt(t, i).Failed?
    ensures ValueAt(t, Skip(t, i)).Parsed? || ValueAt(t, Skip(t, i)).Failed?
  {
    hide ValueAt, Skip;
  }

  lemma ArrayStumpAt(t: seq<Byte>, i: nat) returns (a: ArrayStump)
    requires i <= |t| && NoNul(t) && ItemsAt(t, i).Failed?
    ensures Has(t, i, SpellArrayStump(a)) && ArrayBreaks(a, t, i + |SpellArrayStump(a)|)
    decreases |t| - i, 2
  {
    hide Has, Blank, Skip, Readable, Spell, NoNul, ValueAt, ItemsAt, DocEnds, SpellStump, Breaks;
    NotTaken(t, i);
    if ValueAt(t, Skip(t, i)).Failed? {
      Space(t, i);
      SkipStops(t, i);
      var stump := StumpAt(t, Skip(t, i));
      a := BadElement(t[i..Skip(t, i)], stump);
      HasJoin(t, i, t[i..Skip(t, i)], SpellStump(stump));
    } else {
      ItemsFailed(t, i);
      var before, d, after, k := DocAround(t, i);
      if At(t, k) == COMMA {
        var next := ArrayStumpAt(t, k + 1);
        a := LaterElement(before, d, after, next);
        LaterStands(t, i, before, Spell(d), after, k, SpellArrayStump(next));
      } else {
        a := NoComma(before, d, after);
      }
    }
  }

  lemma LaterStands(t: seq<Byte>, i: nat, before: seq<Byte>, s: seq<Byte>, after: seq<Byte>, k: nat, u: seq<Byte>)
    requires Has(t, i, before + (s + after)) && k == i + |before| + |s| + |after| < |t| && t[k] == COMMA && Has(t, k + 1, u)
    ensures Has(t, i, before + (s + (after + ([COMMA] + u))))
  {
    hide Has;
    Bracketed(t, k, COMMA, u);
    HasJoin(t, i, before + (s + after), [COMMA] + u);
    assert (before + (s + after)) + ([COMMA] + u) == before + (s + (after + ([COMMA] + u)));
  }

  /** How a name, a colon and a value can be refused. */
  lemma PairFailed(t: seq<Byte>, i: nat)
    requires i <= |t| && PairAt(t, i).Failed?
    ensures var j := Skip(t, i);
      At(t, j) == QUOTE ==> j < |t| && Literal(t, j + 1) && var k := Skip(t, StringAt(t, j).next);
        At(t, k) == COLON ==> k < |t| && ValueAt(t, Skip(t, k + 1)).Failed?
  {
    hide Skip, Literal, StringAt, ValueAt;
  }

  lemma MembersFailed(t: seq<Byte>, i: nat)
    requires i <= |t| && MembersAt(t, i).Failed?
    ensures PairAt(t, i).Parsed? || PairAt(t, i).Failed?
    ensures PairAt(t, i).Parsed? ==>
      var k := Skip(t, PairAt(t, i).end);
      if At(t, k) == COMMA then k < |t| && MembersAt(t, k + 1).Failed? else At(t, k) != CLOSE_BRACE
  {
    hide PairAt, Skip;
  }

  lemma PairStumpAt(t: seq<Byte>, i: nat) returns (o: ObjectStump)
    requires i <= |t| && NoNul(t) && PairAt(t, i).Failed?
    ensures Has(t, i, SpellObjectStump(o)) && ObjectBreaks(o, t, i + |SpellObjectStump(o)|)
    decreases |t| - i, 2
  {
    hide Has, Blank, Skip, Spelled, NoNul, ValueAt, PairAt, DocEnds, SpellStump, Breaks, Literal, StringAt, Text;
    PairFailed(t, i);
    SkipStops(t, i);
    var j := Skip(t, i);
    if At(t, j) != QUOTE {
      Space(t, i);
      o := NoName(t[i..j]);
    } else if At(t, Skip(t, StringAt(t, j).next)) != COLON {
      var d, before, after := NameAt(t, i);
      if d.OpenString? {
        o := OpenName(before, d.pieces);
        assert Spell(d) + [] == Spell(d);
      } else {
        o := NoColon(Key(before, d.pieces, after));
      }
    } else {
      o := BadValueAt(t, i);
    }
  }

  lemma BadValueAt(t: seq<Byte>, i: nat) returns (o: ObjectStump)
    requires i <= |t| && NoNul(t)
    requires var j := Skip(t, i);
      && j < |t| && At(t, j) == QUOTE && Literal(t, j + 1)
      && var k := Skip(t, StringAt(t, j).next);
      k < |t| && At(t, k) == COLON && ValueAt(t, Skip(t, k + 1)).Failed?
    ensures Has(t, i, SpellObjectStump(o)) && ObjectBreaks(o, t, i + |SpellObjectStump(o)|)
    decreases |t| - i, 1
  {
    hide Has, Blank, Skip, NoNul, ValueAt, SpellStump, Breaks, Literal, StringAt, SpellKey, ReadableKey;
    var key, l := KeyAt(t, i);
    Space(t, l + 1);
    SkipStops(t, l + 1);
    var j := Skip(t, l + 1);
    var stump := StumpAt(t, j);
    o := BadValue(key, t[l + 1..j], stump);
    HasJoin(t, l + 1, t[l + 1..j], SpellStump(stump));
    Bracketed(t, l, COLON, t[l + 1..j] + SpellStump(stump));
    HasJoin(t, i, SpellKey(key), [COLON] + (t[l + 1..j] + SpellStump(stump)));
  }

  lemma ObjectStumpAt(t: seq<Byte>, i: nat) returns (o: ObjectStump)
    requires i <= |t| && NoNul(t) && MembersAt(t, i).Failed?
    ensures Has(t, i, SpellObjectStump(o)) && ObjectBreaks(o, t, i + |SpellObjectStump(o)|)
    decreases |t| - i, 3
  {
    hide Has, Blank, Skip, Readable, Spell, NoNul, ValueAt, PairAt, MembersAt, SpellKey, ReadableKey, StringAt, Literal, DocEnds;
    MembersFailed(t, i);
    if PairAt(t, i).Failed? {
      o := PairStumpAt(t, i);
    } else {
      PairNext(t, i);
      var key, l := KeyAt(t, i);
      var before, d, after, k := DocAround(t, l + 1);
      if At(t, k) == COMMA {
        var next := ObjectStumpAt(t, k + 1);
        o := LaterEntry(key, before, d, after, next);
        LaterStands(t, l + 1, before, Spell(d), after, k, SpellObjectStump(next));
        KeyInFront(t, i, key, l, before + (Spell(d) + (after + ([COMMA] + SpellObjectStump(next)))));
      } else {
        o := NoCommaBehind(key, before, d, after);
        KeyInFront(t, i, key, l, before + (Spell(d) + after));
      }
    }
  }

  lemma KeyInFront(t: seq<Byte>, i: nat, key: Key, l: nat, u: seq<Byte>)
    requires Has(t, i, SpellKey(key)) && l == i + |SpellKey(key)| < |t| && t[l] == COLON && Has(t, l + 1, u)
    ensures Has(t, i, SpellKey(key) + ([COLON] + u))
  {
    Bracketed(t, l, COLON, u);
    HasJoin(t, i, SpellKey(key), [COLON] + u);
  }

  // ---------- the texts that are refused ----------

  /** A stump stands behind n blanks and breaks at ep. */
  predicate StumpStands(t: seq<Byte>, n: nat, s: Stump, ep: nat) {
    n <= |t| && Blank(t[..n]) && Has(t, n, SpellStump(s)) && ep == n + |SpellStump(s)| && Breaks(s, t, ep)
  }

  /** A whole text stands behind n blanks, and behind it and more blanks, at ep, something else. */
  predicate TextTrails(t: seq<Byte>, n: nat, d: Doc, ep: nat) {
    && n <= |t| && Blank(t[..n]) && Reads(t, n, d)
    && n + |Spell(d)| <= ep < |t| && Blank(t[n + |Spell(d)|..ep]) && t[ep] > 32
  }

  lemma StumpIsRefused(t: seq<Byte>, n: nat, s: Stump, ep: nat, requireNullTerminated: bool)
    requires StumpStands(t, n, s, ep)
    ensures ParseWithOpts(t, requireNullTerminated) == Failed(ep)
  {
    hide ValueAt, Blank, Skip, SpellStump, Breaks;
    StumpDark(t, n, s);
    SkipBlank(t, 0, t[..n]);
    SkipNothing(t, n);
    StumpFails(t, n, s);
  }

  lemma TrailIsRefused(t: seq<Byte>, n: nat, d: Doc, ep: nat)
    requires TextTrails(t, n, d, ep)
    ensures ParseWithOpts(t, true) == Failed(ep)
  {
    hide ValueAt, Blank, Skip, Spell, Readable, DocEnds, Denotes;
    var e := n + |Spell(d)|;
    Starts(d);
    HasFirst(t, n, Spell(d));
    SkipBlank(t, 0, t[..n]);
    SkipNothing(t, n);
    DocParses(t, n, d);
    SkipBlank(t, e, t[e..ep]);
    SkipNothing(t, ep);
  }

  lemma RefusedHasCause(t: seq<Byte>, requireNullTerminated: bool) returns (n: nat, s: Stump, d: Doc, whole: bool)
    requires NoNul(t) && ParseWithOpts(t, requireNullTerminated).Failed?
    ensures var ep := ParseWithOpts(t, requireNullTerminated).ep;
      if whole then requireNullTerminated && TextTrails(t, n, d, ep) else StumpStands(t, n, s, ep)
  {
    hide ValueAt, Blank, Skip, Spell, Readable, DocEnds, NoNul, SpellStump, Breaks;
    n, s, d, whole := Skip(t, 0), NoValue, DocNull, false;
    SkipStops(t, 0);
    if ValueAt(t, n).Failed? {
      s := StumpAt(t, n);
      StumpFails(t, n, s);
    } else {
      whole := true;
      d := DocAt(t, n);
      DocParses(t, n, d);
      SkipStops(t, n + |Spell(d)|);
    }
  }

  /** A text is refused at ep just where a stump of one breaks there, or a whole text is followed by more than blanks
      and nothing may follow. */
  lemma RefusesExactly(t: seq<Byte>, requireNullTerminated: bool, ep: nat)
    requires NoNul(t)
    ensures ParseWithOpts(t, requireNullTerminated) == Failed(ep) <==>
      || (exists n: nat, s :: StumpStands(t, n, s, ep))
      || (requireNullTerminated && exists n: nat, d :: TextTrails(t, n, d, ep))
  {
    hide ParseWithOpts, Spell, SpellStump, Denotes, Blank, Has, DocEnds, Readable, Breaks, StumpStands, TextTrails;
    if n: nat, s :| StumpStands(t, n, s, ep) { StumpIsRefused(t, n, s, ep, requireNullTerminated); }
    if n: nat, d :| TextTrails(t, n, d, ep) { TrailIsRefused(t, n, d, ep); }
    if ParseWithOpts(t, requireNullTerminated) == Failed(ep) { var n, s, d, whole := RefusedHasCause(t, requireNullTerminated); }
  }
}
