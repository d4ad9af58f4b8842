/** The parser: what it makes of every text, and the loops that do it. */
module JsonParse {
  import opened JsonBytes
  import opened JsonLiteral
  import opened JsonText

  /** Failed carries the place that the error pointer is set to. Truncated: a string literal met on the way has an
      escape cut short, so that the two passes over it disagree, and the C code may run behind the end of the text. */
  datatype Result<V> = Parsed(value: V, end: nat) | Failed(ep: nat) | Truncated

  /** skip */
  function Skip(t: seq<Byte>, i: nat): (k: nat)
    requires i <= |t|
    ensures i <= k <= |t|
    decreases |t| - i
  {
    if i < |t| && t[i] <= 32 then Skip(t, i + 1) else i
  }

  // ---------- numbers ----------

  datatype Scanned = Scanned(value: nat, end: nat)

  /** Digits from i on, behind those that gave n. */
  function Scan(t: seq<Byte>, i: nat, n: nat): (r: Scanned)
    requires i <= |t|
    ensures i <= r.end <= |t|
    decreases |t| - i
  {
    if i < |t| && IsDigit(t[i]) then Scan(t, i + 1, 10 * n + DigitValue(t[i])) else Scanned(n, i)
  }

  function Mantissa(t: seq<Byte>, i: nat): (r: Scanned)
    requires i <= |t|
    ensures i <= r.end <= |t|
  {
    var j := if At(t, i) == 48 then i + 1 else i;
    if 49 <= At(t, j) <= 57 then Scan(t, j, 0) else Scanned(0, j)
  }

  /** The fraction continues the mantissa. */
  function Fraction(t: seq<Byte>, m: Scanned): (r: Scanned)
    requires m.end <= |t|
    ensures m.end <= r.end <= |t| && (r.end == m.end || r.end > m.end + 1)
  {
    if At(t, m.end) == 46 && IsDigit(At(t, m.end + 1)) then Scan(t, m.end + 1, m.value) else m
  }

  datatype Signed = Signed(value: int, end: nat)

  function Exponent(t: seq<Byte>, i: nat): (r: Signed)
    requires i <= |t|
    ensures i <= r.end <= |t|
  {
    if At(t, i) == 101 || At(t, i) == 69 then
      var negative := At(t, i + 1) == 45;
      var j := if At(t, i + 1) == 43 || negative then i + 2 else i + 1;
      var e := Scan(t, j, 0);
      Signed(if negative then -(e.value as int) else e.value, e.end)
    else Signed(0, i)
  }

  /** parse_number, the result as an exact decimal. */
  function NumberAt(t: seq<Byte>, i: nat): (r: Result<Json>)
    requires i < |t| && (t[i] == 45 || IsDigit(t[i]))
    ensures r.Parsed? && i < r.end <= |t|
  {
    var negative := t[i] == 45;
    var m := Mantissa(t, if negative then i + 1 else i);
    var f := Fraction(t, m);
    var e := Exponent(t, f.end);
    var scale := if f.end > m.end then -((f.end - m.end - 1) as int) else 0;
    Parsed(Number(if negative then -(f.value as int) else f.value, scale + e.value), e.end)
  }

  // ---------- values ----------

  function ValueAt(t: seq<Byte>, i: nat): (r: Result<Json>)
    requires i <= |t|
    ensures r.Parsed? ==> i < r.end <= |t|
    decreases |t| - i, 0
  {
    if Has(t, i, TEXT_NULL) then Parsed(Null, i + 4)
    else if Has(t, i, TEXT_FALSE) then Parsed(Bool(false), i + 5)
    else if Has(t, i, TEXT_TRUE) then Parsed(Bool(true), i + 4)
    else if At(t, i) == QUOTE then
      if Literal(t, i + 1) then Parsed(Str(StringAt(t, i).bytes), StringAt(t, i).next) else Truncated
    else if At(t, i) == 45 || IsDigit(At(t, i)) then NumberAt(t, i)
    else if At(t, i) == OPEN_BRACKET then
      var j := Skip(t, i + 1);
      if At(t, j) == CLOSE_BRACKET then Parsed(Arr(NoItems), j + 1)
      else
        var r := ItemsAt(t, j);
        (match r case Parsed(items, end) => Parsed(Arr(items), end) case Failed(ep) => Failed(ep) case Truncated => Truncated)
    else if At(t, i) == OPEN_BRACE then
      var j := Skip(t, i + 1);
      if At(t, j) == CLOSE_BRACE then Parsed(Obj(NoMembers), j + 1)
      else
        var r := MembersAt(t, j);
        (match r case Parsed(members, end) => Parsed(Obj(members), end) case Failed(ep) => Failed(ep) case Truncated => Truncated)
    else Failed(i)
  }

  /** The children of an array, from the place of the first up to the closing bracket. */
  function ItemsAt(t: seq<Byte>, i: nat): (r: Result<Items>)
    requires i <= |t|
    ensures r.Parsed? ==> i < r.end <= |t|
    decreases |t| - i, 1
  {
    match ValueAt(t, Skip(t, i))
    case Failed(ep) => Failed(ep)
    case Truncated => Truncated
    case Parsed(v, end) =>
      var k := Skip(t, end);
      if At(t, k) == COMMA then
        match ItemsAt(t, k + 1)
        case Failed(ep) => Failed(ep)
        case Truncated => Truncated
        case Parsed(rest, last) => Parsed(Item(v, rest), last)
      else if At(t, k) == CLOSE_BRACKET then Parsed(Item(v, NoItems), k + 1)
      else Failed(k)
  }

  /** A name, a colon and a value. */
  function PairAt(t: seq<Byte>, i: nat): (r: Result<Members>)
    requires i <= |t|
    ensures r.Parsed? ==> i < r.end <= |t| && r.value.Member? && r.value.next.NoMembers?
    decreases |t| - i, 1
  {
    var j := Skip(t, i);
    if At(t, j) != QUOTE then Failed(j)
    else if !Literal(t, j + 1) then Truncated
    else
      var name := StringAt(t, j);
      var k := Skip(t, name.next);
      if At(t, k) != COLON then Failed(k)
      else
        match ValueAt(t, Skip(t, k + 1))
        case Failed(ep) => Failed(ep)
        case Truncated => Truncated
        case Parsed(v, end) => Parsed(Member(name.bytes, v, NoMembers), end)
  }

  function MembersAt(t: seq<Byte>, i: nat): (r: Result<Members>)
    requires i <= |t|
    ensures r.Parsed? ==> i < r.end <= |t|
    decreases |t| - i, 2
  {
    match PairAt(t, i)
    case Failed(ep) => Failed(ep)
    case Truncated => Truncated
    case Parsed(m, end) =>
      var k := Skip(t, end);
      if At(t, k) == COMMA then
        match MembersAt(t, k + 1)
        case Failed(ep) => Failed(ep)
        case Truncated => Truncated
        case Parsed(rest, last) => Parsed(Member(m.name, m.value, rest), last)
      else if At(t, k) == CLOSE_BRACE then Parsed(m, k + 1)
      else Failed(k)
  }

  /** cJSON_ParseWithOpts: the item, and where it ends; with the requirement, nothing but space may follow. */
  function ParseWithOpts(t: seq<Byte>, requireNullTerminated: bool): Result<Json> {
    match ValueAt(t, Skip(t, 0))
    case Failed(ep) => Failed(ep)
    case Truncated => Truncated
    case Parsed(v, end) =>
      if !requireNullTerminated then Parsed(v, end)
      else if Skip(t, end) < |t| then Failed(Skip(t, end))
      else Parsed(v, Skip(t, end))
  }
}
