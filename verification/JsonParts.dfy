/** The parts that printed text is put together from: how long they are, and that they hold no NUL. */
module JsonParts {
  import opened JsonBytes
  import opened JsonText

  // ---------- numbers ----------

  lemma {:induction false} DigitsLength(n: nat, k: nat, bound: nat)
    requires k >= 1 && bound == Ten(k) && n < bound
    ensures |Digits(n)| <= k
    decreases k
  {
    if n >= 10 { DigitsLength(n / 10, k - 1, Ten(k - 1)); }
  }

  function Ten(k: nat): (p: nat)
    ensures p >= 1
  {
    if k == 0 then 1 else 10 * Ten(k - 1)
  }

  /** No int takes more than eleven characters. */
  lemma DecimalLength(n: int)
    requires INT_MIN <= n <= INT_MAX
    ensures 1 <= |Decimal(n)| <= 11
  {
    assert Ten(5) == 100000;
    assert Ten(10) == 10_000_000_000;
    DigitsLength(if n < 0 then -n else n, 10, Ten(10));
  }

  // ---------- the texts of children ----------

  function Texts(xs: Items, depth: nat, fmt: bool): seq<seq<Byte>> {
    if xs.NoItems? then [] else [Print(xs.head, depth, fmt)] + Texts(xs.next, depth, fmt)
  }

  /** The first k texts with what separates them from the next. */
  function Joined(ts: seq<seq<Byte>>, fmt: bool, k: nat): seq<Byte>
    requires k <= |ts|
  {
    if k == 0 then [] else Joined(ts, fmt, k - 1) + ts[k - 1] + if k < |ts| then Comma(fmt) else []
  }

  lemma {:induction false} JoinedFront(ts: seq<seq<Byte>>, fmt: bool, k: nat)
    requires 1 <= k <= |ts|
    ensures Joined(ts, fmt, k) == ts[0] + (if |ts| > 1 then Comma(fmt) else []) + Joined(ts[1..], fmt, k - 1)
  {
    hide Comma;
    if k > 1 {
      JoinedFront(ts, fmt, k - 1);
      assert ts[1..][k - 2] == ts[k - 1];
      var c := if k < |ts| then Comma(fmt) else [];
      assert ts[0] + Comma(fmt) + Joined(ts[1..], fmt, k - 2) + ts[k - 1] + c
        == ts[0] + Comma(fmt) + (Joined(ts[1..], fmt, k - 2) + ts[k - 1] + c);
    } else {
      assert [] + ts[0] == ts[0];
    }
  }

  lemma {:induction false} JoinedIsPrint(xs: Items, depth: nat, fmt: bool)
    ensures Joined(Texts(xs, depth, fmt), fmt, |Texts(xs, depth, fmt)|) == PrintItems(xs, depth, fmt)
  {
    hide Print, Comma;
    if xs.Item? {
      JoinedIsPrint(xs.next, depth, fmt);
      var ts := Texts(xs, depth, fmt);
      JoinedFront(ts, fmt, |ts|);
      assert ts[1..] == Texts(xs.next, depth, fmt);
    }
  }

  /** What the first pass adds up for k children: the texts, and room for what separates them. */
  function Room(ts: seq<seq<Byte>>, fmt: bool, k: nat): nat
    requires k <= |ts|
  {
    if k == 0 then 0 else Room(ts, fmt, k - 1) + |ts[k - 1]| + 2 + if fmt then 1 else 0
  }

  lemma {:induction false} RoomEnough(ts: seq<seq<Byte>>, fmt: bool, k: nat)
    requires k <= |ts|
    ensures |Joined(ts, fmt, k)| <= Room(ts, fmt, k)
  {
    if k > 0 { RoomEnough(ts, fmt, k - 1); }
  }

  lemma {:induction false} JoinedGrows(ts: seq<seq<Byte>>, fmt: bool, j: nat, k: nat)
    requires j <= k <= |ts|
    ensures |Joined(ts, fmt, j)| <= |Joined(ts, fmt, k)|
  {
    if j < k { JoinedGrows(ts, fmt, j, k - 1); }
  }

  // ---------- the texts of members ----------

  function Names(ms: Members): seq<seq<Byte>> { if ms.NoMembers? then [] else [Quoted(ms.name)] + Names(ms.next) }

  function Values(ms: Members, depth: nat, fmt: bool): seq<seq<Byte>> {
    if ms.NoMembers? then [] else [Print(ms.value, depth, fmt)] + Values(ms.next, depth, fmt)
  }

  function Line(name: seq<Byte>, value: seq<Byte>, more: bool, depth: nat, fmt: bool): seq<Byte> {
    Indent(depth, fmt) + name + Colon(fmt) + value + (if more then [COMMA] else []) + Break(fmt)
  }

  function Lines(ns: seq<seq<Byte>>, ts: seq<seq<Byte>>, depth: nat, fmt: bool, k: nat): seq<Byte>
    requires k <= |ts| == |ns|
  {
    if k == 0 then [] else Lines(ns, ts, depth, fmt, k - 1) + Line(ns[k - 1], ts[k - 1], k < |ts|, depth, fmt)
  }

  lemma {:induction false} LinesFront(ns: seq<seq<Byte>>, ts: seq<seq<Byte>>, depth: nat, fmt: bool, k: nat)
    requires 1 <= k <= |ts| == |ns|
    ensures Lines(ns, ts, depth, fmt, k) == Line(ns[0], ts[0], |ts| > 1, depth, fmt) + Lines(ns[1..], ts[1..], depth, fmt, k - 1)
  {
    hide Line;
    if k > 1 {
      LinesFront(ns, ts, depth, fmt, k - 1);
      var a, b := Line(ns[0], ts[0], |ts| > 1, depth, fmt), Lines(ns[1..], ts[1..], depth, fmt, k - 2);
      var c := Line(ns[k - 1], ts[k - 1], k < |ts|, depth, fmt);
      assert a + b + c == a + (b + c);
    }
  }

  lemma {:induction false} LinesArePrint(ms: Members, depth: nat, fmt: bool)
    ensures |Names(ms)| == |Values(ms, depth, fmt)|
    ensures Lines(Names(ms), Values(ms, depth, fmt), depth, fmt, |Names(ms)|) == PrintMembers(ms, depth, fmt)
  {
    hide Print, Line, Quoted;
    if ms.Member? {
      LinesArePrint(ms.next, depth, fmt);
      var ns, ts := Names(ms), Values(ms, depth, fmt);
      LinesFront(ns, ts, depth, fmt, |ts|);
      assert ns[1..] == Names(ms.next) && ts[1..] == Values(ms.next, depth, fmt);
      LineIsMember(ms, depth, fmt);
    }
  }

  lemma LineIsMember(ms: Members, depth: nat, fmt: bool)
    requires ms.Member?
    ensures Line(Quoted(ms.name), Print(ms.value, depth, fmt), ms.next.Member?, depth, fmt) == PrintMember(ms, depth, fmt)
    ensures |Names(ms.next)| > 0 <==> ms.next.Member?
  {
  }

  function LineRoom(ns: seq<seq<Byte>>, ts: seq<seq<Byte>>, depth: nat, fmt: bool, k: nat): nat
    requires k <= |ts| == |ns|
  {
    if k == 0 then 0
    else LineRoom(ns, ts, depth, fmt, k - 1) + |ts[k - 1]| + |ns[k - 1]| + 2 + if fmt then 2 + depth else 0
  }

  lemma {:induction false} LineRoomEnough(ns: seq<seq<Byte>>, ts: seq<seq<Byte>>, depth: nat, fmt: bool, k: nat)
    requires k <= |ts| == |ns|
    ensures |Lines(ns, ts, depth, fmt, k)| <= LineRoom(ns, ts, depth, fmt, k)
  {
    if k > 0 { LineRoomEnough(ns, ts, depth, fmt, k - 1); }
  }

  lemma {:induction false} LinesGrow(ns: seq<seq<Byte>>, ts: seq<seq<Byte>>, depth: nat, fmt: bool, j: nat, k: nat)
    requires j <= k <= |ts| == |ns|
    ensures |Lines(ns, ts, depth, fmt, j)| <= |Lines(ns, ts, depth, fmt, k)|
  {
    if j < k { LinesGrow(ns, ts, depth, fmt, j, k - 1); }
  }

  // ---------- no NUL in what is printed ----------

  lemma NoNulConcat(a: seq<Byte>, b: seq<Byte>)
    ensures NoNul(a + b) <==> NoNul(a) && NoNul(b)
  {
    if NoNul(a + b) {
      forall i | 0 <= i < |a| ensures a[i] != 0 { assert (a + b)[i] == a[i]; }
      forall i | 0 <= i < |b| ensures b[i] != 0 { assert (a + b)[|a| + i] == b[i]; }
    }
  }

  lemma {:induction false} QuotedNoNul(s: seq<Byte>)
    requires NoNul(s)
    ensures NoNul(Quoted(s))
  {
    EscapedNoNul(s);
    NoNulConcat([QUOTE] + EscapedAll(s), [QUOTE]);
    NoNulConcat([QUOTE], EscapedAll(s));
  }

  lemma {:induction false} EscapedNoNul(s: seq<Byte>)
    requires NoNul(s)
    ensures NoNul(EscapedAll(s))
  {
    hide Escaped;
    if s != [] {
      EscapedNoNul(s[..|s| - 1]);
      EscapedOneNoNul(s[|s| - 1]);
      NoNulConcat(EscapedAll(s[..|s| - 1]), Escaped(s[|s| - 1]));
    }
  }

  lemma EscapedOneNoNul(b: Byte)
    requires b != 0
    ensures NoNul(Escaped(b))
  {
  }

  lemma {:induction false} DigitsNoNul(n: nat)
    ensures NoNul(Digits(n))
    decreases n
  {
    if n >= 10 {
      DigitsNoNul(n / 10);
      NoNulConcat(Digits(n / 10), [DigitByte(n % 10)]);
    }
  }

  lemma SeparatorsNoNul(depth: nat, fmt: bool)
    ensures NoNul(Comma(fmt)) && NoNul(Colon(fmt)) && NoNul(Break(fmt)) && NoNul(Indent(depth, fmt)) && NoNul([COMMA]) && NoNul([])
    ensures NoNul([OPEN_BRACKET]) && NoNul([CLOSE_BRACKET]) && NoNul([OPEN_BRACE]) && NoNul([CLOSE_BRACE])
    ensures NoNul(TEXT_NULL) && NoNul(TEXT_TRUE) && NoNul(TEXT_FALSE) && NoNul([45])
  {
  }

  lemma {:induction false} PrintNoNul(v: Json, depth: nat, fmt: bool)
    requires Printable(v)
    ensures NoNul(Print(v, depth, fmt))
    decreases v, 0
  {
    hide NoNul, Indent, Break, PrintItems, PrintMembers, Digits, EscapedAll;
    SeparatorsNoNul(depth, fmt);
    match v
    case Number(n, _) =>
      DigitsNoNul(if n < 0 then -n else n);
      if n < 0 { NoNulConcat([45], Digits(-n)); }
    case Str(s) => QuotedNoNul(s);
    case Arr(items) =>
      ItemsNoNul(items, depth + 1, fmt);
      NoNulConcat([OPEN_BRACKET] + PrintItems(items, depth + 1, fmt), [CLOSE_BRACKET]);
      NoNulConcat([OPEN_BRACKET], PrintItems(items, depth + 1, fmt));
    case Obj(members) => ObjectNoNul(members, depth, fmt);
    case _ =>
  }

  lemma {:induction false} ObjectNoNul(ms: Members, depth: nat, fmt: bool)
    requires PrintableMembers(ms)
    ensures NoNul(Print(Obj(ms), depth, fmt))
    decreases ms, 2
  {
    hide NoNul, Indent, Break, PrintMembers;
    MembersNoNul(ms, depth + 1, fmt);
    SeparatorsNoNul(depth, fmt);
    SeparatorsNoNul(if depth > 0 then depth - 1 else 0, fmt);
    var o, b, i, j, c := [OPEN_BRACE], Break(fmt), Indent(if depth > 0 then depth - 1 else 0, fmt), Indent(depth, fmt), [CLOSE_BRACE];
    var p := PrintMembers(ms, depth + 1, fmt);
    NoNulConcat(o, b);
    NoNulConcat(o + b, i);
    NoNulConcat(o + b + i, c);
    NoNulConcat(o + b, p);
    NoNulConcat(o + b + p, j);
    NoNulConcat(o + b + p + j, c);
  }

  lemma {:induction false} ItemsNoNul(xs: Items, depth: nat, fmt: bool)
    requires PrintableItems(xs)
    ensures NoNul(PrintItems(xs, depth, fmt))
    decreases xs, 1
  {
    hide NoNul, Print, Printable, Comma;
    SeparatorsNoNul(depth, fmt);
    if xs.Item? {
      PrintNoNul(xs.head, depth, fmt);
      ItemsNoNul(xs.next, depth, fmt);
      var s, c := Print(xs.head, depth, fmt), if xs.next.Item? then Comma(fmt) else [];
      NoNulConcat(s, c);
      NoNulConcat(s + c, PrintItems(xs.next, depth, fmt));
    }
  }

  lemma {:induction false} MembersNoNul(ms: Members, depth: nat, fmt: bool)
    requires PrintableMembers(ms)
    ensures NoNul(PrintMembers(ms, depth, fmt))
    decreases ms, 1
  {
    hide NoNul, Print, Printable, Colon, Indent, Break, Quoted;
    SeparatorsNoNul(depth, fmt);
    if ms.Member? {
      PrintNoNul(ms.value, depth, fmt);
      MembersNoNul(ms.next, depth, fmt);
      QuotedNoNul(ms.name);
      var a, q, c, s := Indent(depth, fmt), Quoted(ms.name), Colon(fmt), Print(ms.value, depth, fmt);
      var d, b := if ms.next.Member? then [COMMA] else [], Break(fmt);
      NoNulConcat(a, q);
      NoNulConcat(a + q, c);
      NoNulConcat(a + q + c, s);
      NoNulConcat(a + q + c + s, d);
      NoNulConcat(a + q + c + s + d, b);
      NoNulConcat(PrintMember(ms, depth, fmt), PrintMembers(ms.next, depth, fmt));
    }
  }
}
