/** Every text of the grammar is read as its value. */
module JsonReading {
  import opened JsonBytes
  import opened JsonLiteral
  import opened JsonText
  import opened JsonParse
  import opened JsonNumerals
  import opened JsonGrammar

  // ---------- space ----------

  lemma {:induction false} SkipBlank(t: seq<Byte>, i: nat, w: seq<Byte>)
    requires Blank(w) && Has(t, i, w)
    ensures i + |w| <= |t| && Skip(t, i) == Skip(t, i + |w|)
    decreases |w|
  {
    if w != [] {
      assert w == w[..1] + w[1..];
      HasSplit(t, i, w[..1], w[1..]);
      HasAt(t, i, w, 0);
      SkipBlank(t, i + 1, w[1..]);
    }
  }

  /** Nothing to skip: the end of the text, or a byte that is no space. */
  predicate Dark(t: seq<Byte>, i: nat) { i == |t| || (i < |t| && t[i] > 32) }

  lemma SkipNothing(t: seq<Byte>, i: nat)
    requires Dark(t, i)
    ensures Skip(t, i) == i
  {
  }

  lemma {:induction false} SkipStops(t: seq<Byte>, i: nat)
    requires i <= |t|
    ensures Dark(t, Skip(t, i)) && Skip(t, Skip(t, i)) == Skip(t, i) && Blank(t[i..Skip(t, i)])
    decreases |t| - i
  {
    if i < |t| && t[i] <= 32 {
      SkipStops(t, i + 1);
      assert t[i..Skip(t, i)] == [t[i]] + t[i + 1..Skip(t, i + 1)];
    } else {
      SkipNothing(t, i);
    }
  }

  /** The byte that starts s, behind blanks w. */
  lemma Arrives(t: seq<Byte>, i: nat, w: seq<Byte>, s: seq<Byte>)
    requires Blank(w) && Has(t, i, w + s) && s != [] && s[0] > 32
    ensures i <= |t| && Skip(t, i) == i + |w| < |t| && Has(t, i + |w|, s) && At(t, i + |w|) == s[0]
  {
    hide Has, Blank, Skip;
    HasSplit(t, i, w, s);
    HasFirst(t, i + |w|, s);
    SkipBlank(t, i, w);
    SkipNothing(t, i + |w|);
  }

  lemma NoKeyword(t: seq<Byte>, i: nat)
    requires At(t, i) != 110 && At(t, i) != 102 && At(t, i) != 116
    ensures !Has(t, i, TEXT_NULL) && !Has(t, i, TEXT_FALSE) && !Has(t, i, TEXT_TRUE)
  {
    if Has(t, i, TEXT_NULL) { HasAt(t, i, TEXT_NULL, 0); }
    if Has(t, i, TEXT_FALSE) { HasAt(t, i, TEXT_FALSE, 0); }
    if Has(t, i, TEXT_TRUE) { HasAt(t, i, TEXT_TRUE, 0); }
  }

  // ---------- what may follow a text ----------

  /** Nothing at e continues the text d. */
  predicate DocEnds(d: Doc, t: seq<Byte>, e: nat) {
    (d.DocNumber? ==> NumeralEnds(d.numeral, t, e)) && (d.OpenString? ==> e == |t|)
  }

  /** Text d stands at i, and what follows does not continue it. */
  predicate Reads(t: seq<Byte>, i: nat, d: Doc) { Readable(d) && Has(t, i, Spell(d)) && DocEnds(d, t, i + |Spell(d)|) }

  /** A byte that is space, a comma or a closing bracket ends every text. */
  predicate Delimits(b: Byte) { b <= 32 || b == COMMA || b == CLOSE_BRACKET || b == CLOSE_BRACE }

  lemma DelimitsEnds(d: Doc, t: seq<Byte>, e: nat)
    requires !d.OpenString? && Readable(d) && Delimits(At(t, e))
    ensures DocEnds(d, t, e)
  {
  }

  /** The first byte of a text is no space and closes nothing. */
  lemma Starts(d: Doc)
    requires Readable(d)
    ensures var s := Spell(d); s != [] && s[0] > 32 && s[0] != CLOSE_BRACKET && s[0] != CLOSE_BRACE
  {
    hide Text, SpellElements, SpellEntries, Blank, Spelled;
    if d.DocNumber? { NumeralStarts(d.numeral); }
  }

  lemma NumeralStarts(n: Numeral)
    requires NumeralRead(n)
    ensures NumeralText(n) != [] && (NumeralText(n)[0] == MINUS || IsDigit(NumeralText(n)[0]))
  {
    hide FractionText, PowerText;
  }

  // ---------- one element after the other ----------

  lemma AllSpace(t: seq<Byte>, i: nat, w: seq<Byte>)
    requires Blank(w) && Has(t, i, w) && Dark(t, i + |w|)
    ensures i <= |t| && Skip(t, i) == i + |w|
  {
    SkipBlank(t, i, w);
    SkipNothing(t, i + |w|);
  }

  lemma AtEnd(t: seq<Byte>, i: nat, s: seq<Byte>, b: Byte, u: seq<Byte>)
    requires Has(t, i, s + ([b] + u))
    ensures Has(t, i, s) && i + |s| < |t| && At(t, i + |s|) == b && Has(t, i + |s| + 1, u)
  {
    HasSplit(t, i, s, [b] + u);
    HasSplit(t, i + |s|, [b], u);
    HasOne(t, i + |s|, b);
  }

  /** Behind a text stand space and a mark b that is not space. */
  lemma Behind(t: seq<Byte>, e: nat, after: seq<Byte>, b: Byte, u: seq<Byte>, d: Doc)
    requires Readable(d) && !d.OpenString? && Blank(after) && Has(t, e, after + ([b] + u))
    requires b == COMMA || b == CLOSE_BRACKET || b == CLOSE_BRACE
    ensures DocEnds(d, t, e) && e <= |t| && Skip(t, e) == e + |after| < |t| && At(t, e + |after|) == b && Has(t, e + |after| + 1, u)
  {
    hide Readable, DocEnds, Skip, Has;
    AtEnd(t, e, after, b, u);
    AllSpace(t, e, after);
    if after != [] { HasFirst(t, e, after); }
    DelimitsEnds(d, t, e);
  }

  lemma ItemsStep(t: seq<Byte>, i: nat, v: Json, end: nat)
    requires i <= |t| && ValueAt(t, Skip(t, i)) == Parsed(v, end)
    ensures end <= |t|
    ensures var k := Skip(t, end);
      if At(t, k) == COMMA then k < |t| && ItemsAt(t, i) == WithItem(v, ItemsAt(t, k + 1))
      else ItemsAt(t, i) == if At(t, k) == CLOSE_BRACKET then Parsed(Item(v, NoItems), k + 1) else Failed(k)
  {
    hide ValueAt, Skip;
  }

  function WithItem(v: Json, r: Result<Items>): Result<Items> {
    match r
    case Failed(ep) => Failed(ep)
    case Truncated => Truncated
    case Parsed(rest, last) => Parsed(Item(v, rest), last)
  }

  /** Elements and the closing bracket: what stands behind the space that follows the first one. */
  function ElementsTail(e: Elements): seq<Byte> {
    if e.Element? then [COMMA] + (SpellElements(e.next) + [CLOSE_BRACKET]) else [CLOSE_BRACKET] + []
  }

  lemma ElementsUnfold(e: Elements)
    requires ReadableElements(e)
    ensures Blank(e.before) && Readable(e.doc) && !e.doc.OpenString? && Blank(e.after)
    ensures SpellElements(e) + [CLOSE_BRACKET] == e.before + (Spell(e.doc) + (e.after + ElementsTail(e)))
    ensures e.Element? ==> ReadableElements(e.next)
    ensures DenotesElements(e) == Item(Denotes(e.doc), if e.Element? then DenotesElements(e.next) else NoItems)
  {
    hide Readable, Spell;
  }

  lemma FirstOf(s: seq<Byte>, u: seq<Byte>)
    requires s != []
    ensures (s + u)[0] == s[0] && s + u != []
  {
  }

  /** Elements and the closing bracket are read. */
  lemma ElementsParse(t: seq<Byte>, i: nat, e: Elements)
    requires ReadableElements(e) && Has(t, i, SpellElements(e) + [CLOSE_BRACKET])
    ensures i <= |t| && ItemsAt(t, i) == Parsed(DenotesElements(e), i + |SpellElements(e)| + 1)
    decreases e, 0
  {
    hide Readable, ReadableElements, SpellElements, DenotesElements, Has, Spell, Blank, DocEnds, Skip, ItemsAt, ValueAt;
    ElementsUnfold(e);
    var s, tail := Spell(e.doc), ElementsTail(e);
    Starts(e.doc);
    FirstOf(s, e.after + tail);
    Arrives(t, i, e.before, s + (e.after + tail));
    var j := i + |e.before|;
    var end := j + |s|;
    HasSplit(t, j, s, e.after + tail);
    Behind(t, end, e.after, tail[0], tail[1..], e.doc);
    if e.Element? { ElementsParse(t, end + |e.after| + 1, e.next); }
    DocParses(t, j, e.doc);
    ItemsStep(t, i, Denotes(e.doc), end);
  }

  // ---------- one entry after the other ----------

  lemma PairSteps(t: seq<Byte>, i: nat, j: nat, name: Bit, k: nat, l: nat, v: Json, end: nat)
    requires i <= |t| && Skip(t, i) == j && At(t, j) == QUOTE && j < |t| && Literal(t, j + 1) && StringAt(t, j) == name
    requires Skip(t, name.next) == k && At(t, k) == COLON && k < |t| && Skip(t, k + 1) == l && ValueAt(t, l) == Parsed(v, end)
    ensures PairAt(t, i) == Parsed(Member(name.bytes, v, NoMembers), end)
  {
    hide Skip, ValueAt, Literal, StringAt;
  }

  lemma MembersStep(t: seq<Byte>, i: nat, name: seq<Byte>, v: Json, end: nat)
    requires i <= |t| && PairAt(t, i) == Parsed(Member(name, v, NoMembers), end)
    ensures end <= |t|
    ensures var k := Skip(t, end);
      if At(t, k) == COMMA then k < |t| && MembersAt(t, i) == WithMember(name, v, MembersAt(t, k + 1))
      else MembersAt(t, i) == if At(t, k) == CLOSE_BRACE then Parsed(Member(name, v, NoMembers), k + 1) else Failed(k)
  {
    hide PairAt, Skip;
  }

  function WithMember(name: seq<Byte>, v: Json, r: Result<Members>): Result<Members> {
    match r
    case Failed(ep) => Failed(ep)
    case Truncated => Truncated
    case Parsed(rest, last) => Parsed(Member(name, v, rest), last)
  }

  /** A name and its colon. */
  lemma KeyReads(t: seq<Byte>, i: nat, k: Key, u: seq<Byte>)
    requires ReadableKey(k) && Has(t, i, SpellKey(k) + ([COLON] + u))
    ensures i <= |t|
    ensures var j, l := Skip(t, i), i + |SpellKey(k)|;
      && j < |t| && At(t, j) == QUOTE && Literal(t, j + 1) && StringAt(t, j).bytes == Denoted(k.name)
      && Skip(t, StringAt(t, j).next) == l < |t| && At(t, l) == COLON && Has(t, l + 1, u)
  {
    hide Has, Spelled, Blank, Skip, Literal, StringAt, Text, Meaning;
    var q := QuotedText(k.name);
    AtEnd(t, i, SpellKey(k), COLON, u);
    QuotedStarts(k.name);
    FirstOf(q, k.after);
    Arrives(t, i, k.before, q + k.after);
    var j := i + |k.before|;
    HasSplit(t, j, q, k.after);
    StringMeans(t, j, k.name);
    AllSpace(t, j + |q|, k.after);
  }

  lemma QuotedStarts(xs: seq<Piece>)
    ensures QuotedText(xs) != [] && QuotedText(xs)[0] == QUOTE > 32
  {
  }

  function EntriesTail(e: Entries): seq<Byte> {
    if e.Entry? then [COMMA] + (SpellEntries(e.next) + [CLOSE_BRACE]) else [CLOSE_BRACE] + []
  }

  lemma EntriesUnfold(e: Entries)
    requires ReadableEntries(e)
    ensures ReadableKey(e.key) && Spelled(e.key.name) && Blank(e.before) && Readable(e.doc) && !e.doc.OpenString? && Blank(e.after)
    ensures SpellEntries(e) + [CLOSE_BRACE] == SpellKey(e.key) + ([COLON] + (e.before + (Spell(e.doc) + (e.after + EntriesTail(e)))))
    ensures e.Entry? ==> ReadableEntries(e.next)
    ensures DenotesEntries(e) == Member(Denoted(e.key.name), Denotes(e.doc), if e.Entry? then DenotesEntries(e.next) else NoMembers)
  {
    hide Readable, Spell, SpellKey, Spelled;
  }

  /** A name, a colon and a value. */
  lemma EntryReads(t: seq<Byte>, i: nat, k: Key, before: seq<Byte>, d: Doc, u: seq<Byte>, end: nat)
    requires ReadableKey(k) && Spelled(k.name) && Blank(before) && Has(t, i, SpellKey(k) + ([COLON] + (before + (Spell(d) + u))))
    requires Readable(d) && DocEnds(d, t, end) && end == i + |SpellKey(k)| + 1 + |before| + |Spell(d)|
    ensures i <= |t| && PairAt(t, i) == Parsed(Member(Denoted(k.name), Denotes(d), NoMembers), end) && Has(t, end, u)
    decreases d, 4
  {
    hide Readable, Spelled, ReadableKey, SpellKey, Has, Spell, Blank, DocEnds, Skip, PairAt, ValueAt, Literal, StringAt, Denoted, Denotes;
    var s := Spell(d);
    KeyReads(t, i, k, before + (s + u));
    var l := i + |SpellKey(k)|;
    Starts(d);
    FirstOf(s, u);
    Arrives(t, l + 1, before, s + u);
    var j := l + 1 + |before|;
    HasSplit(t, j, s, u);
    DocParses(t, j, d);
    PairSteps(t, i, Skip(t, i), StringAt(t, Skip(t, i)), l, j, Denotes(d), end);
  }

  lemma KeyStands(t: seq<Byte>, i: nat, k: seq<Byte>, before: seq<Byte>, s: seq<Byte>, u: seq<Byte>)
    requires Has(t, i, k + ([COLON] + (before + (s + u))))
    ensures Has(t, i + |k| + 1 + |before| + |s|, u)
  {
    hide Has;
    HasSplit(t, i, k, [COLON] + (before + (s + u)));
    HasSplit(t, i + |k|, [COLON], before + (s + u));
    HasSplit(t, i + |k| + 1, before, s + u);
    HasSplit(t, i + |k| + 1 + |before|, s, u);
  }

  /** Entries and the closing brace are read. */
  lemma EntriesParse(t: seq<Byte>, i: nat, e: Entries)
    requires ReadableEntries(e) && Has(t, i, SpellEntries(e) + [CLOSE_BRACE])
    ensures i <= |t| && MembersAt(t, i) == Parsed(DenotesEntries(e), i + |SpellEntries(e)| + 1)
    decreases e, 0
  {
    hide Readable, ReadableEntries, ReadableKey, SpellKey, SpellEntries, DenotesEntries, Has, Spell, Blank, DocEnds;
    hide Skip, PairAt, MembersAt, Denotes, Denoted, Spelled;
    EntriesUnfold(e);
    var tail := EntriesTail(e);
    var end := i + |SpellKey(e.key)| + 1 + |e.before| + |Spell(e.doc)|;
    KeyStands(t, i, SpellKey(e.key), e.before, Spell(e.doc), e.after + tail);
    Behind(t, end, e.after, tail[0], tail[1..], e.doc);
    if e.Entry? { EntriesParse(t, end + |e.after| + 1, e.next); }
    EntryReads(t, i, e.key, e.before, e.doc, e.after + tail, end);
    MembersStep(t, i, Denoted(e.key.name), Denotes(e.doc), end);
  }

  // ---------- all texts ----------

  lemma KeywordParses(t: seq<Byte>, i: nat, d: Doc)
    requires (d.DocNull? || d.DocTrue? || d.DocFalse?) && Has(t, i, Spell(d))
    ensures i <= |t| && ValueAt(t, i) == Parsed(Denotes(d), i + |Spell(d)|)
  {
    HasFirst(t, i, Spell(d));
    if Has(t, i, TEXT_NULL) { HasAt(t, i, TEXT_NULL, 0); }
    if Has(t, i, TEXT_FALSE) { HasAt(t, i, TEXT_FALSE, 0); }
  }

  lemma NumberParses(t: seq<Byte>, i: nat, n: Numeral)
    requires NumeralRead(n) && Has(t, i, NumeralText(n)) && NumeralEnds(n, t, i + |NumeralText(n)|)
    ensures i <= |t| && ValueAt(t, i) == Parsed(NumeralValue(n), i + |NumeralText(n)|)
  {
    hide NumberAt, NumeralText, NumeralRead, NumeralEnds, Has, NumeralValue;
    NumeralParses(t, i, n);
    NoKeyword(t, i);
  }

  lemma StringParses(t: seq<Byte>, i: nat, d: Doc)
    requires (d.DocString? || d.OpenString?) && Reads(t, i, d)
    ensures i <= |t| && ValueAt(t, i) == Parsed(Denotes(d), i + |Spell(d)|)
  {
    hide Has, Literal, Text, Meaning, Spelled, AllRead, Decode;
    var xs := d.pieces;
    if d.DocString? {
      StringMeans(t, i, xs);
    } else {
      HasSplit(t, i, [QUOTE], Text(xs));
      HasOne(t, i, QUOTE);
      LiteralMeans(t, i + 1, xs);
    }
    NoKeyword(t, i);
  }

  lemma ArrayOpens(t: seq<Byte>, i: nat)
    requires i < |t| && At(t, i) == OPEN_BRACKET
    ensures var j := Skip(t, i + 1);
      ValueAt(t, i) == if At(t, j) == CLOSE_BRACKET then Parsed(Arr(NoItems), j + 1) else WithArr(ItemsAt(t, i + 1))
  {
    NoKeyword(t, i);
    SkipStops(t, i + 1);
    ItemsFrom(t, i + 1);
    hide Has, Skip, ItemsAt;
  }

  function WithArr(r: Result<Items>): Result<Json> {
    match r
    case Failed(ep) => Failed(ep)
    case Truncated => Truncated
    case Parsed(items, end) => Parsed(Arr(items), end)
  }

  function WithObj(r: Result<Members>): Result<Json> {
    match r
    case Failed(ep) => Failed(ep)
    case Truncated => Truncated
    case Parsed(members, end) => Parsed(Obj(members), end)
  }

  lemma ItemsFrom(t: seq<Byte>, i: nat)
    requires i <= |t|
    ensures ItemsAt(t, Skip(t, i)) == ItemsAt(t, i)
  {
    hide Skip, ValueAt;
    SkipStops(t, i);
  }

  lemma MembersFrom(t: seq<Byte>, i: nat)
    requires i <= |t|
    ensures MembersAt(t, Skip(t, i)) == MembersAt(t, i)
  {
    hide Skip, ValueAt, Literal;
    SkipStops(t, i);
    assert PairAt(t, i) == PairAt(t, Skip(t, i));
  }

  lemma ObjectOpens(t: seq<Byte>, i: nat)
    requires i < |t| && At(t, i) == OPEN_BRACE
    ensures var j := Skip(t, i + 1);
      ValueAt(t, i) == if At(t, j) == CLOSE_BRACE then Parsed(Obj(NoMembers), j + 1) else WithObj(MembersAt(t, i + 1))
  {
    NoKeyword(t, i);
    SkipStops(t, i + 1);
    MembersFrom(t, i + 1);
    hide Has, Skip, MembersAt;
  }

  /** No element starts with a closing bracket. */
  lemma ElementsStart(t: seq<Byte>, i: nat, e: Elements)
    requires ReadableElements(e) && Has(t, i, SpellElements(e) + [CLOSE_BRACKET])
    ensures i <= |t| && At(t, Skip(t, i)) != CLOSE_BRACKET
  {
    hide Readable, ReadableElements, SpellElements, Has, Spell, Blank, Skip;
    ElementsUnfold(e);
    Starts(e.doc);
    FirstOf(Spell(e.doc), e.after + ElementsTail(e));
    Arrives(t, i, e.before, Spell(e.doc) + (e.after + ElementsTail(e)));
  }

  lemma EntriesStart(t: seq<Byte>, i: nat, e: Entries)
    requires ReadableEntries(e) && Has(t, i, SpellEntries(e) + [CLOSE_BRACE])
    ensures i <= |t| && At(t, Skip(t, i)) != CLOSE_BRACE
  {
    hide Readable, ReadableEntries, SpellEntries, Has, Spell, Blank, Skip, SpellKey;
    EntriesUnfold(e);
    KeyReads(t, i, e.key, e.before + (Spell(e.doc) + (e.after + EntriesTail(e))));
  }

  lemma ArrayParses(t: seq<Byte>, i: nat, e: Elements)
    requires ReadableElements(e) && Has(t, i, Spell(Array(e)))
    ensures i <= |t| && ValueAt(t, i) == Parsed(Arr(DenotesElements(e)), i + |Spell(Array(e))|)
    decreases e, 1
  {
    hide ReadableElements, SpellElements, DenotesElements, Has, Skip, ItemsAt, ValueAt;
    HasSplit(t, i, [OPEN_BRACKET], SpellElements(e) + [CLOSE_BRACKET]);
    HasOne(t, i, OPEN_BRACKET);
    ElementsStart(t, i + 1, e);
    ElementsParse(t, i + 1, e);
    ArrayOpens(t, i);
  }

  lemma ObjectParses(t: seq<Byte>, i: nat, e: Entries)
    requires ReadableEntries(e) && Has(t, i, Spell(Object(e)))
    ensures i <= |t| && ValueAt(t, i) == Parsed(Obj(DenotesEntries(e)), i + |Spell(Object(e))|)
    decreases e, 1
  {
    hide ReadableEntries, SpellEntries, DenotesEntries, Has, Skip, MembersAt, ValueAt;
    HasSplit(t, i, [OPEN_BRACE], SpellEntries(e) + [CLOSE_BRACE]);
    HasOne(t, i, OPEN_BRACE);
    EntriesStart(t, i + 1, e);
    EntriesParse(t, i + 1, e);
    ObjectOpens(t, i);
  }

  lemma EmptyParses(t: seq<Byte>, i: nat, d: Doc)
    requires (d.EmptyArray? || d.EmptyObject?) && Readable(d) && Has(t, i, Spell(d))
    ensures i <= |t| && ValueAt(t, i) == Parsed(Denotes(d), i + |Spell(d)|)
  {
    hide Blank, Has, Skip, ItemsAt, MembersAt, ValueAt;
    if d.EmptyArray? {
      HasSplit(t, i, [OPEN_BRACKET], d.space + [CLOSE_BRACKET]);
      HasOne(t, i, OPEN_BRACKET);
      ArrayOpens(t, i);
      Arrives(t, i + 1, d.space, [CLOSE_BRACKET]);
    } else {
      HasSplit(t, i, [OPEN_BRACE], d.space + [CLOSE_BRACE]);
      HasOne(t, i, OPEN_BRACE);
      ObjectOpens(t, i);
      Arrives(t, i + 1, d.space, [CLOSE_BRACE]);
    }
  }

  /** A text that stands at i is read as its value, up to its end. */
  lemma DocParses(t: seq<Byte>, i: nat, d: Doc)
    requires Reads(t, i, d)
    ensures i <= |t| && ValueAt(t, i) == Parsed(Denotes(d), i + |Spell(d)|)
    decreases d, 3
  {
    hide Has, ValueAt;
    match d
    case DocNumber(n) => NumberParses(t, i, n);
    case DocString(_) => StringParses(t, i, d);
    case OpenString(_) => StringParses(t, i, d);
    case EmptyArray(_) => EmptyParses(t, i, d);
    case Array(e) => ArrayParses(t, i, e);
    case EmptyObject(_) => EmptyParses(t, i, d);
    case Object(e) => ObjectParses(t, i, e);
    case _ => KeywordParses(t, i, d);
  }

  // ---------- whole texts ----------

  /** cJSON_Parse and cJSON_ParseWithOpts on a text with space in front and behind, and anything else behind that:
      with the requirement, that is refused where it starts. */
  lemma DocumentParses(t: seq<Byte>, w: seq<Byte>, d: Doc, z: seq<Byte>, requireNullTerminated: bool)
    requires Blank(w) && Blank(z) && Has(t, 0, w + (Spell(d) + z)) && Reads(t, |w|, d) && Dark(t, |w| + |Spell(d)| + |z|)
    ensures var e := |w| + |Spell(d)|;
      ParseWithOpts(t, requireNullTerminated) ==
        if !requireNullTerminated then Parsed(Denotes(d), e) else if e + |z| == |t| then Parsed(Denotes(d), |t|) else Failed(e + |z|)
  {
    hide Has, ValueAt, Blank, Skip, Spell, Readable, DocEnds, Denotes;
    Starts(d);
    FirstOf(Spell(d), z);
    Arrives(t, 0, w, Spell(d) + z);
    HasSplit(t, |w|, Spell(d), z);
    DocParses(t, |w|, d);
    AllSpace(t, |w| + |Spell(d)|, z);
  }

  /** Every JSON text of RFC 8259 is read as its value. */
  lemma GrammaticalParses(w: seq<Byte>, d: Doc, z: seq<Byte>, requireNullTerminated: bool)
    requires White(w) && Grammatical(d) && White(z)
    ensures Readable(d) && ParseWithOpts(w + (Spell(d) + z), requireNullTerminated) ==
      Parsed(Denotes(d), |w| + |Spell(d)| + if requireNullTerminated then |z| else 0)
  {
    hide Spell, Readable, Grammatical, Denotes, ParseWithOpts, DocEnds, Has;
    GrammaticalReadable(d);
    WhiteBlank(w);
    WhiteBlank(z);
    var t, e := w + (Spell(d) + z), |w| + |Spell(d)|;
    Whole(t);
    HasSplit(t, 0, w, Spell(d) + z);
    HasSplit(t, |w|, Spell(d), z);
    if z != [] { HasFirst(t, e, z); }
    NotOpened(d);
    DelimitsEnds(d, t, e);
    DocumentParses(t, w, d, z, requireNullTerminated);
  }

  lemma Whole(t: seq<Byte>)
    ensures Has(t, 0, t)
  {
  }

  lemma NotOpened(d: Doc)
    requires Grammatical(d)
    ensures !d.OpenString?
  {
  }

  lemma WhiteBlank(w: seq<Byte>)
    requires White(w)
    ensures Blank(w)
  {
  }
}
