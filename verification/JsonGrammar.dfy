/** Texts as trees, with all space between their parts: the grammar of RFC 8259 (sections 2 to 7), and the wider one
    that is read. */
module JsonGrammar {
  import opened JsonBytes
  import opened JsonUnicode
  import opened JsonLiteral
  import opened JsonText
  import opened JsonNumerals

  /** A text for a value. OpenString lacks its closing quote. */
  datatype Doc =
    | DocNull
    | DocTrue
    | DocFalse
    | DocNumber(numeral: Numeral)
    | DocString(pieces: seq<Piece>)
    | OpenString(pieces: seq<Piece>)
    | EmptyArray(space: seq<Byte>)
    | Array(elements: Elements)
    | EmptyObject(space: seq<Byte>)
    | Object(entries: Entries)

  /** What stands between the brackets: texts with space on both sides, between commas. */
  datatype Elements =
    | LastElement(before: seq<Byte>, doc: Doc, after: seq<Byte>)
    | Element(before: seq<Byte>, doc: Doc, after: seq<Byte>, next: Elements)

  /** A name with space on both sides. */
  datatype Key = Key(before: seq<Byte>, name: seq<Piece>, after: seq<Byte>)

  /** What stands between the braces. */
  datatype Entries =
    | LastEntry(key: Key, before: seq<Byte>, doc: Doc, after: seq<Byte>)
    | Entry(key: Key, before: seq<Byte>, doc: Doc, after: seq<Byte>, next: Entries)

  // ---------- the text of a tree ----------

  function QuotedText(xs: seq<Piece>): seq<Byte> { [QUOTE] + Text(xs) + [QUOTE] }

  function Spell(d: Doc): seq<Byte> {
    match d
    case DocNull => TEXT_NULL
    case DocTrue => TEXT_TRUE
    case DocFalse => TEXT_FALSE
    case DocNumber(n) => NumeralText(n)
    case DocString(xs) => QuotedText(xs)
    case OpenString(xs) => [QUOTE] + Text(xs)
    case EmptyArray(space) => [OPEN_BRACKET] + (space + [CLOSE_BRACKET])
    case Array(e) => [OPEN_BRACKET] + (SpellElements(e) + [CLOSE_BRACKET])
    case EmptyObject(space) => [OPEN_BRACE] + (space + [CLOSE_BRACE])
    case Object(e) => [OPEN_BRACE] + (SpellEntries(e) + [CLOSE_BRACE])
  }

  function SpellElements(e: Elements): seq<Byte> {
    e.before + (Spell(e.doc) + (e.after + if e.Element? then [COMMA] + SpellElements(e.next) else []))
  }

  function SpellKey(k: Key): seq<Byte> { k.before + (QuotedText(k.name) + k.after) }

  function SpellEntries(e: Entries): seq<Byte> {
    SpellKey(e.key)
      + ([COLON] + (e.before + (Spell(e.doc) + (e.after + if e.Entry? then [COMMA] + SpellEntries(e.next) else []))))
  }

  // ---------- the grammar of RFC 8259 ----------

  /** Space, tab, line feed and carriage return. */
  predicate White(w: seq<Byte>) { forall k :: 0 <= k < |w| ==> w[k] == 32 || w[k] == 9 || w[k] == 10 || w[k] == 13 }

  /** The short escapes are \" \\ \/ \b \f \n \r \t, control characters are escaped, and code units have four
      hexadecimal digits. */
  predicate PieceLegal(x: Piece) {
    match x
    case Plain(b) => b >= 32
    case Short(e) => e == 34 || e == 92 || e == 47 || e == 98 || e == 102 || e == 110 || e == 114 || e == 116
    case Unit(d) => FourHex(d, 0)
    case Pair(h, l) => FourHex(h, 0) && FourHex(l, 0)
    case Broken(h, l) => FourHex(h, 0) && FourHex(l, 0)
  }

  predicate Legal(xs: seq<Piece>) { Spelled(xs) && forall x :: x in xs ==> PieceLegal(x) }

  predicate Grammatical(d: Doc) {
    match d
    case DocNumber(n) => NumeralOk(n)
    case DocString(xs) => Legal(xs)
    case OpenString(_) => false
    case EmptyArray(space) => White(space)
    case Array(e) => GrammaticalElements(e)
    case EmptyObject(space) => White(space)
    case Object(e) => GrammaticalEntries(e)
    case _ => true
  }

  predicate GrammaticalElements(e: Elements) {
    White(e.before) && Grammatical(e.doc) && White(e.after) && (e.Element? ==> GrammaticalElements(e.next))
  }

  predicate GrammaticalEntries(e: Entries) {
    && White(e.key.before) && Legal(e.key.name) && White(e.key.after)
    && White(e.before) && Grammatical(e.doc) && White(e.after) && (e.Entry? ==> GrammaticalEntries(e.next))
  }

  // ---------- what is read ----------

  /** What is passed over. */
  predicate Blank(w: seq<Byte>) { forall k :: 0 <= k < |w| ==> w[k] <= 32 }

  predicate Readable(d: Doc) {
    match d
    case DocNumber(n) => NumeralRead(n)
    case DocString(xs) => Spelled(xs)
    case OpenString(xs) => Spelled(xs)
    case EmptyArray(space) => Blank(space)
    case Array(e) => ReadableElements(e)
    case EmptyObject(space) => Blank(space)
    case Object(e) => ReadableEntries(e)
    case _ => true
  }

  predicate ReadableElements(e: Elements) {
    && Blank(e.before) && Readable(e.doc) && !e.doc.OpenString? && Blank(e.after) && (e.Element? ==> ReadableElements(e.next))
  }

  predicate ReadableKey(k: Key) { Blank(k.before) && Spelled(k.name) && Blank(k.after) }

  predicate ReadableEntries(e: Entries) {
    && ReadableKey(e.key) && Blank(e.before) && Readable(e.doc) && !e.doc.OpenString? && Blank(e.after)
    && (e.Entry? ==> ReadableEntries(e.next))
  }

  lemma {:induction false} GrammaticalReadable(d: Doc)
    requires Grammatical(d)
    ensures Readable(d)
    decreases d, 1
  {
    hide Spelled, NumeralRead;
    match d
    case Array(e) => ElementsReadable(e);
    case Object(e) => EntriesReadable(e);
    case _ =>
  }

  lemma {:induction false} ElementsReadable(e: Elements)
    requires GrammaticalElements(e)
    ensures ReadableElements(e)
    decreases e, 0
  {
    GrammaticalReadable(e.doc);
    if e.Element? { ElementsReadable(e.next); }
  }

  lemma {:induction false} EntriesReadable(e: Entries)
    requires GrammaticalEntries(e)
    ensures ReadableEntries(e)
    decreases e, 0
  {
    hide Spelled;
    GrammaticalReadable(e.doc);
    if e.Entry? { EntriesReadable(e.next); }
  }

  // ---------- the value ----------

  function Denoted(xs: seq<Piece>): seq<Byte>
    requires Spelled(xs)
  {
    SpelledRead(xs);
    Meaning(xs)
  }

  /** The value of a text; space makes no difference. */
  function Denotes(d: Doc): Json
    requires Readable(d)
  {
    match d
    case DocNull => Null
    case DocTrue => Bool(true)
    case DocFalse => Bool(false)
    case DocNumber(n) => NumeralValue(n)
    case DocString(xs) => Str(Denoted(xs))
    case OpenString(xs) => Str(Denoted(xs))
    case EmptyArray(_) => Arr(NoItems)
    case Array(e) => Arr(DenotesElements(e))
    case EmptyObject(_) => Obj(NoMembers)
    case Object(e) => Obj(DenotesEntries(e))
  }

  function DenotesElements(e: Elements): Items
    requires ReadableElements(e)
  {
    Item(Denotes(e.doc), if e.Element? then DenotesElements(e.next) else NoItems)
  }

  function DenotesEntries(e: Entries): Members
    requires ReadableEntries(e)
  {
    Member(Denoted(e.key.name), Denotes(e.doc), if e.Entry? then DenotesEntries(e.next) else NoMembers)
  }
}
