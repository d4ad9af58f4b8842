/** The parser's loops, proved to compute what JsonParse says. They are called on texts in which no string literal
    met on the way has an escape cut short. */
module JsonParser {
  import opened JsonBytes
  import opened JsonLiteral
  import opened JsonText
  import opened JsonParse

  method SkipSpace(t: seq<Byte>, start: nat) returns (k: nat)
    requires start <= |t| && NoNul(t)
    ensures k == Skip(t, start)
  {
    k := start;
    while At(t, k) != 0 && At(t, k) <= 32
      invariant k <= |t| && Skip(t, k) == Skip(t, start)
      decreases |t| - k
    {
      k := k + 1;
    }
  }

  method ScanLoop(t: seq<Byte>, start: nat, n0: nat) returns (n: nat, k: nat)
    requires start <= |t|
    ensures Scanned(n, k) == Scan(t, start, n0)
  {
    n, k := n0, start;
    while IsDigit(At(t, k))
      invariant k <= |t| && Scan(t, k, n) == Scan(t, start, n0)
      decreases |t| - k
    {
      n := 10 * n + DigitValue(At(t, k));
      k := k + 1;
    }
  }

  /** Digits behind the point: each lowers the scale. */
  method FractionLoop(t: seq<Byte>, m: nat, n0: nat) returns (n: nat, k: nat, scale: int)
    requires m <= |t|
    ensures Scanned(n, k) == Fraction(t, Scanned(n0, m)) && scale == if k > m then m + 1 - k else 0
  {
    hide Scan;
    n, k, scale := n0, m, 0;
    if At(t, k) == 46 && IsDigit(At(t, k + 1)) {
      k := k + 1;
      while IsDigit(At(t, k))
        invariant m + 1 <= k <= |t| && Scan(t, k, n) == Scan(t, m + 1, n0) && scale == m + 1 - k
        decreases |t| - k
      {
        ScanOne(t, k, n);
        n := 10 * n + DigitValue(At(t, k));
        k := k + 1;
        scale := scale - 1;
      }
      ScanOne(t, k, n);
    }
  }

  lemma ScanOne(t: seq<Byte>, k: nat, n: nat)
    requires k <= |t|
    ensures IsDigit(At(t, k)) ==> Scan(t, k, n) == Scan(t, k + 1, 10 * n + DigitValue(At(t, k)))
    ensures !IsDigit(At(t, k)) ==> Scan(t, k, n) == Scanned(n, k)
  {
  }

  method ExponentLoop(t: seq<Byte>, start: nat) returns (subscale: nat, signsubscale: int, k: nat)
    requires start <= |t|
    ensures (signsubscale == 1 || signsubscale == -1) && k == Exponent(t, start).end
    ensures Exponent(t, start).value == if signsubscale == 1 then subscale else -(subscale as int)
  {
    hide Scan;
    subscale, signsubscale, k := 0, 1, start;
    if At(t, k) == 101 || At(t, k) == 69 {
      k := k + 1;
      if At(t, k) == 43 { k := k + 1; } else if At(t, k) == 45 { signsubscale := -1; k := k + 1; }
      subscale, k := ScanLoop(t, k, subscale);
    }
  }

  lemma Signs(n: nat)
    ensures 1 * n == n && (-1) * n == -(n as int)
    ensures n * 1 == n && n * (-1) == -(n as int)
  {
  }

  /** parse_number */
  method ParseNumber(t: seq<Byte>, start: nat) returns (r: Result<Json>)
    requires start < |t| && (t[start] == 45 || IsDigit(t[start]))
    ensures r == NumberAt(t, start)
  {
    hide Scan, Fraction, Exponent;
    var n: nat, sign, num := 0, 1, start;
    if At(t, num) == 45 { sign := -1; num := num + 1; }
    ghost var m := Mantissa(t, num);
    if At(t, num) == 48 { num := num + 1; }
    if 49 <= At(t, num) <= 57 {
      n, num := ScanLoop(t, num, n);
    }
    assert m == Scanned(n, num);
    var scale, subscale, signsubscale;
    n, num, scale := FractionLoop(t, num, n);
    subscale, signsubscale, num := ExponentLoop(t, num);
    Signs(n);
    Signs(subscale);
    r := Parsed(Number(sign * n, scale + subscale * signsubscale), num);
  }

  // ---------- arrays ----------

  /** Children in a row, before the rest of the chain. */
  function Chain(kids: seq<Json>, rest: Items): Items { if kids == [] then rest else Item(kids[0], Chain(kids[1..], rest)) }

  lemma {:induction false} ChainOn(kids: seq<Json>, v: Json, rest: Items)
    ensures Chain(kids + [v], rest) == Chain(kids, Item(v, rest))
    decreases |kids|
  {
    if kids == [] {
      assert [v][1..] == [];
    } else {
      assert (kids + [v])[1..] == kids[1..] + [v];
      ChainOn(kids[1..], v, rest);
    }
  }

  /** What remains when the place k behind a child has been reached. */
  function AfterItem(t: seq<Byte>, k: nat): Result<Items>
    requires k <= |t|
  {
    if At(t, k) == COMMA then ItemsAt(t, k + 1) else if At(t, k) == CLOSE_BRACKET then Parsed(NoItems, k + 1) else Failed(k)
  }

  function WithItems(kids: seq<Json>, r: Result<Items>): Result<Items> {
    if r.Parsed? then Parsed(Chain(kids, r.value), r.end) else r
  }

  lemma ItemsUnfold(t: seq<Byte>, i: nat, kids: seq<Json>)
    requires i <= |t|
    ensures var r := ValueAt(t, Skip(t, i));
      WithItems(kids, ItemsAt(t, i)) == match r
        case Failed(ep) => Failed(ep)
        case Truncated => Truncated
        case Parsed(v, end) => WithItems(kids + [v], AfterItem(t, Skip(t, end)))
  {
    hide ValueAt, Skip, Chain;
    var r := ValueAt(t, Skip(t, i));
    if r.Parsed? {
      var a := AfterItem(t, Skip(t, r.end));
      if a.Parsed? { ChainOn(kids, r.value, a.value); }
    }
  }

  /** parse_array, behind the opening bracket when the array is not empty. */
  method ParseItems(t: seq<Byte>, start: nat) returns (r: Result<Items>)
    requires start <= |t| && NoNul(t) && ItemsAt(t, start) != Truncated
    ensures r == ItemsAt(t, start)
    decreases |t| - start, 1
  {
    hide ValueAt, ItemsAt, Skip, Chain, NoNul;
    ItemsUnfold(t, start, []);
    NothingBefore(ItemsAt(t, start));
    var value := SkipSpace(t, start);
    var v := ParseValue(t, value);
    if v.Failed? { return Failed(v.ep); }
    var kids := [v.value];
    assert [] + [v.value] == kids;
    value := SkipSpace(t, v.end);
    while At(t, value) == COMMA
      invariant start < value <= |t| && ItemsAt(t, start) == WithItems(kids, AfterItem(t, value))
      decreases |t| - value
    {
      ItemsUnfold(t, value + 1, kids);
      value := SkipSpace(t, value + 1);
      v := ParseValue(t, value);
      if v.Failed? { return Failed(v.ep); }
      kids := kids + [v.value];
      value := SkipSpace(t, v.end);
    }
    if At(t, value) == CLOSE_BRACKET { return Parsed(Chain(kids, NoItems), value + 1); }
    r := Failed(value);
  }

  lemma NothingBefore(r: Result<Items>)
    ensures WithItems([], r) == r
  {
  }

  // ---------- objects ----------

  datatype Pairing = Pairing(name: seq<Byte>, value: Json)

  function Row(kids: seq<Pairing>, rest: Members): Members {
    if kids == [] then rest else Member(kids[0].name, kids[0].value, Row(kids[1..], rest))
  }

  lemma {:induction false} RowOn(kids: seq<Pairing>, p: Pairing, rest: Members)
    ensures Row(kids + [p], rest) == Row(kids, Member(p.name, p.value, rest))
    decreases |kids|
  {
    if kids == [] {
      assert [p][1..] == [];
    } else {
      assert (kids + [p])[1..] == kids[1..] + [p];
      RowOn(kids[1..], p, rest);
    }
  }

  function AfterMember(t: seq<Byte>, k: nat): Result<Members>
    requires k <= |t|
  {
    if At(t, k) == COMMA then MembersAt(t, k + 1) else if At(t, k) == CLOSE_BRACE then Parsed(NoMembers, k + 1) else Failed(k)
  }

  function WithMembers(kids: seq<Pairing>, r: Result<Members>): Result<Members> {
    if r.Parsed? then Parsed(Row(kids, r.value), r.end) else r
  }

  lemma MembersUnfold(t: seq<Byte>, i: nat, kids: seq<Pairing>)
    requires i <= |t|
    ensures var r := PairAt(t, i);
      WithMembers(kids, MembersAt(t, i)) == match r
        case Failed(ep) => Failed(ep)
        case Truncated => Truncated
        case Parsed(m, end) => WithMembers(kids + [Pairing(m.name, m.value)], AfterMember(t, Skip(t, end)))
  {
    hide PairAt, Skip, Row;
    var r := PairAt(t, i);
    if r.Parsed? {
      var a := AfterMember(t, Skip(t, r.end));
      if a.Parsed? { RowOn(kids, Pairing(r.value.name, r.value.value), a.value); }
    }
  }

  /** A name, a colon and a value. */
  method ParsePair(t: seq<Byte>, start: nat) returns (r: Result<Members>)
    requires start <= |t| && NoNul(t) && PairAt(t, start) != Truncated
    ensures r == PairAt(t, start)
    decreases |t| - start, 1
  {
    hide ValueAt, Skip, StringAt, Literal, NoNul;
    var value := SkipSpace(t, start);
    if At(t, value) != QUOTE { return Failed(value); }
    var name, end := ParseString(t, value);
    value := SkipSpace(t, end);
    if At(t, value) != COLON { return Failed(value); }
    value := SkipSpace(t, value + 1);
    var v := ParseValue(t, value);
    if v.Failed? { return Failed(v.ep); }
    r := Parsed(Member(name, v.value, NoMembers), v.end);
  }

  /** parse_object, behind the opening brace when the object is not empty. */
  method ParseMembers(t: seq<Byte>, start: nat) returns (r: Result<Members>)
    requires start <= |t| && NoNul(t) && MembersAt(t, start) != Truncated
    ensures r == MembersAt(t, start)
    decreases |t| - start, 2
  {
    hide PairAt, MembersAt, Skip, Row, NoNul;
    MembersUnfold(t, start, []);
    NoneBefore(MembersAt(t, start));
    var m := ParsePair(t, start);
    if m.Failed? { return Failed(m.ep); }
    var kids := [Pairing(m.value.name, m.value.value)];
    assert [] + [Pairing(m.value.name, m.value.value)] == kids;
    var value := SkipSpace(t, m.end);
    while At(t, value) == COMMA
      invariant start < value <= |t| && MembersAt(t, start) == WithMembers(kids, AfterMember(t, value))
      decreases |t| - value
    {
      MembersUnfold(t, value + 1, kids);
      m := ParsePair(t, value + 1);
      if m.Failed? { return Failed(m.ep); }
      kids := kids + [Pairing(m.value.name, m.value.value)];
      value := SkipSpace(t, m.end);
    }
    if At(t, value) == CLOSE_BRACE { return Parsed(Row(kids, NoMembers), value + 1); }
    r := Failed(value);
  }

  lemma NoneBefore(r: Result<Members>)
    ensures WithMembers([], r) == r
  {
  }

  // ---------- values ----------

  /** parse_value, with the opening of parse_array and parse_object. */
  method ParseValue(t: seq<Byte>, start: nat) returns (r: Result<Json>)
    requires start <= |t| && NoNul(t) && ValueAt(t, start) != Truncated
    ensures r == ValueAt(t, start)
    decreases |t| - start, 0
  {
    hide Has, NumberAt, ItemsAt, MembersAt, Skip, StringAt, Literal, NoNul;
    if Has(t, start, TEXT_NULL) { return Parsed(Null, start + 4); }
    if Has(t, start, TEXT_FALSE) { return Parsed(Bool(false), start + 5); }
    if Has(t, start, TEXT_TRUE) { return Parsed(Bool(true), start + 4); }
    if At(t, start) == QUOTE {
      var s, end := ParseString(t, start);
      return Parsed(Str(s), end);
    }
    if At(t, start) == 45 || IsDigit(At(t, start)) {
      r := ParseNumber(t, start);
      return;
    }
    if At(t, start) == OPEN_BRACKET {
      var value := SkipSpace(t, start + 1);
      if At(t, value) == CLOSE_BRACKET { return Parsed(Arr(NoItems), value + 1); }
      var items := ParseItems(t, value);
      return if items.Parsed? then Parsed(Arr(items.value), items.end) else Failed(items.ep);
    }
    if At(t, start) == OPEN_BRACE {
      var value := SkipSpace(t, start + 1);
      if At(t, value) == CLOSE_BRACE { return Parsed(Obj(NoMembers), value + 1); }
      var members := ParseMembers(t, value);
      return if members.Parsed? then Parsed(Obj(members.value), members.end) else Failed(members.ep);
    }
    r := Failed(start);
  }

  /** cJSON_ParseWithOpts */
  method Parse(t: seq<Byte>, requireNullTerminated: bool) returns (r: Result<Json>)
    requires NoNul(t) && ParseWithOpts(t, requireNullTerminated) != Truncated
    ensures r == ParseWithOpts(t, requireNullTerminated)
  {
    hide ValueAt, Skip, NoNul;
    var start := SkipSpace(t, 0);
    r := ParseValue(t, start);
    if r.Parsed? && requireNullTerminated {
      var end := SkipSpace(t, r.end);
      r := if end < |t| then Failed(end) else Parsed(r.value, end);
    }
  }
}
