/** print_value with a print buffer writes the text that printing in two passes gives. */
module JsonBuffered {
  import opened JsonBytes
  import opened JsonText
  import opened JsonParts
  import opened JsonCompose
  import opened JsonPrinter
  import opened JsonBuffer

  /** The text s stands behind front, closed by a NUL; the offset has reached front's end or gone into s. */
  ghost predicate Shows(p: PrintBuffer, front: seq<Byte>, s: seq<Byte>)
    reads p, p.buffer
  {
    && p.Valid() && |front| <= p.offset <= |front| + |s| < p.length
    && p.buffer[..|front| + |s|] == front + s && p.buffer[|front| + |s|] == 0
  }

  /** Bytes written behind ensure, with the offset moved over them; extra bytes are asked for, too. */
  method Append(p: PrintBuffer, s: seq<Byte>, extra: nat)
    requires p.Valid() && 1 <= |s| + extra && p.offset + |s| + extra <= LIMIT
    modifies p, p.buffer
    ensures p.Valid() && p.Front() == old(p.Front()) + s && p.offset == old(p.offset) + |s| && p.offset + extra <= p.length
    ensures p.buffer == old(p.buffer) || fresh(p.buffer)
  {
    var ptr := p.Ensure(|s| + extra);
    ptr := PutBytes(p.buffer, ptr, s);
    p.offset := ptr;
  }

  /** The last bytes of a text and the NUL; the offset stays. The answer is the place ensure gave. */
  method Close(p: PrintBuffer, s: seq<Byte>, needed: nat) returns (out: nat)
    requires p.Valid() && |s| + 1 <= needed && p.offset + needed <= LIMIT
    modifies p, p.buffer
    ensures Shows(p, old(p.Front()), s) && p.offset == old(p.offset) && out == old(p.offset)
    ensures p.buffer == old(p.buffer) || fresh(p.buffer)
  {
    out := p.Ensure(needed);
    var ptr := PutBytes(p.buffer, out, s);
    PutNul(p.buffer, ptr);
  }

  /** Moving the offset behind the text. */
  method PassOver(p: PrintBuffer, ghost front: seq<Byte>, ghost s: seq<Byte>)
    requires Shows(p, front, s) && NoNul(s)
    modifies p`offset
    ensures p.Valid() && p.Front() == front + s && p.offset == |front| + |s|
  {
    assert p.buffer[|front|..|front| + |s|] == p.buffer[..|front| + |s|][|front|..] == s;
    p.offset := p.Update(|front|, s);
  }

  method PrintStringTo(p: PrintBuffer, str: seq<Byte>) returns (out: nat)
    requires p.Valid() && NoNul(str) && p.offset + |Quoted(str)| + 32 <= LIMIT
    modifies p, p.buffer
    ensures Shows(p, old(p.Front()), Quoted(str)) && p.offset == old(p.offset) && out == old(p.offset)
    ensures p.buffer == old(p.buffer) || fresh(p.buffer)
  {
    hide EscapedAll, Tame;
    var flag, needed := MeasureString(str);
    out := p.Ensure(needed);
    var _ := PutQuoted(p.buffer, out, str, flag);
  }

  method PrintNumberTo(p: PrintBuffer, n: int) returns (out: nat)
    requires p.Valid() && INT_MIN <= n <= INT_MAX && p.offset + 32 <= LIMIT
    modifies p, p.buffer
    ensures Shows(p, old(p.Front()), Decimal(n)) && p.offset == old(p.offset) && out == old(p.offset)
    ensures p.buffer == old(p.buffer) || fresh(p.buffer)
  {
    DecimalLength(n);
    out := Close(p, if n == 0 then [48] else Decimal(n), if n == 0 then 2 else 21);
  }

  /** A child, and the offset behind it. */
  method AppendValue(p: PrintBuffer, v: Json, depth: nat, fmt: bool)
    requires p.Valid() && Printable(v) && p.offset + |Print(v, depth, fmt)| + 32 <= LIMIT
    modifies p, p.buffer
    ensures p.Valid() && p.Front() == old(p.Front()) + Print(v, depth, fmt) && p.offset == old(p.offset) + |Print(v, depth, fmt)|
    ensures p.buffer == old(p.buffer) || fresh(p.buffer)
    decreases v, 1
  {
    hide Print, Printable, NoNul;
    ghost var front := p.Front();
    var _ := PrintValueTo(p, v, depth, fmt);
    PrintNoNul(v, depth, fmt);
    PassOver(p, front, Print(v, depth, fmt));
  }

  /** One round of print_array's loop. */
  method ArrayRound(p: PrintBuffer, child: Items, depth: nat, fmt: bool, ghost ts: seq<seq<Byte>>, ghost k: nat, ghost before: seq<Byte>)
    requires p.Valid() && child.Item? && PrintableItems(child) && k <= |ts| && ts[k..] == Texts(child, depth, fmt)
    requires p.Front() == before + Joined(ts, fmt, k) && |before| + |Joined(ts, fmt, |ts|)| + 33 <= LIMIT
    modifies p, p.buffer
    ensures p.Valid() && (p.buffer == old(p.buffer) || fresh(p.buffer))
    ensures k < |ts| && ts[k + 1..] == Texts(child.next, depth, fmt) && p.Front() == before + Joined(ts, fmt, k + 1)
    decreases child, 0
  {
    hide Texts, Joined, NoNul, Print, Printable, Comma;
    TextsStep(ts, k, child, depth, fmt);
    NextText(ts, k, child, depth, fmt, before);
    JoinedGrows(ts, fmt, k + 1, |ts|);
    AppendValue(p, child.head, depth, fmt);
    if child.next.Item? {
      Append(p, Comma(fmt), 1);
    }
  }

  /** print_array with a print buffer. */
  method PrintArrayTo(p: PrintBuffer, items: Items, depth: nat, fmt: bool) returns (out: nat)
    requires p.Valid() && PrintableItems(items) && p.offset + |Print(Arr(items), depth, fmt)| + 32 <= LIMIT
    modifies p, p.buffer
    ensures Shows(p, old(p.Front()), Print(Arr(items), depth, fmt)) && out == old(p.offset)
    ensures p.buffer == old(p.buffer) || fresh(p.buffer)
    decreases items, 1
  {
    hide Texts, Joined, PrintItems, Shows, NoNul, Print, Printable;
    ghost var front := p.Front();
    ArrayParts(items, depth, fmt, front);
    if items.NoItems? {
      out := Close(p, [OPEN_BRACKET, CLOSE_BRACKET], 3);
      return;
    }
    ghost var ts := Texts(items, depth + 1, fmt);
    ghost var k: nat := 0;
    var i := p.offset;
    Append(p, [OPEN_BRACKET], 0);
    var child := items;
    while child.Item?
      invariant p.Valid() && (p.buffer == old(p.buffer) || fresh(p.buffer))
      invariant k <= |ts| && ts[k..] == Texts(child, depth + 1, fmt) && PrintableItems(child) && (child == items || child < items)
      invariant p.Front() == front + [OPEN_BRACKET] + Joined(ts, fmt, k)
      decreases child
    {
      ArrayRound(p, child, depth + 1, fmt, ts, k, front + [OPEN_BRACKET]);
      k := k + 1;
      child := child.next;
    }
    NoTexts(depth + 1, fmt);
    ghost var inner := p.Front();
    out := Close(p, [CLOSE_BRACKET], 2);
    out := i;
    CloseText(p, front, [OPEN_BRACKET] + Joined(ts, fmt, |ts|), inner, [CLOSE_BRACKET]);
  }

  /** What has been written since the front belongs to the text that is closed. */
  lemma CloseText(p: PrintBuffer, front: seq<Byte>, a: seq<Byte>, inner: seq<Byte>, z: seq<Byte>)
    requires Shows(p, inner, z) && inner == front + a
    ensures Shows(p, front, a + z)
  {
    assert front + (a + z) == inner + z;
  }

  lemma ArrayParts(items: Items, depth: nat, fmt: bool, front: seq<Byte>)
    ensures var ts := Texts(items, depth + 1, fmt);
      && Print(Arr(items), depth, fmt) == [OPEN_BRACKET] + Joined(ts, fmt, |ts|) + [CLOSE_BRACKET] && ts[0..] == ts
      && Joined(ts, fmt, 0) == [] && front + [OPEN_BRACKET] + [] == front + [OPEN_BRACKET]
    ensures items.NoItems? ==> Print(Arr(items), depth, fmt) == [OPEN_BRACKET, CLOSE_BRACKET]
  {
    hide PrintItems;
    JoinedIsPrint(items, depth + 1, fmt);
    if items.NoItems? { NoTexts(depth + 1, fmt); }
  }

  lemma NextText(ts: seq<seq<Byte>>, k: nat, xs: Items, depth: nat, fmt: bool, before: seq<Byte>)
    requires xs.Item? && k < |ts| && ts[k] == Print(xs.head, depth, fmt) && ts[k + 1..] == Texts(xs.next, depth, fmt)
    ensures before + Joined(ts, fmt, k + 1)
      == before + Joined(ts, fmt, k) + Print(xs.head, depth, fmt) + if xs.next.Item? then Comma(fmt) else []
    ensures xs.next.NoItems? ==> before + Joined(ts, fmt, k + 1) == before + Joined(ts, fmt, k) + Print(xs.head, depth, fmt)
    ensures |Comma(fmt)| == if fmt then 2 else 1
  {
    hide Print;
    assert k + 1 < |ts| <==> xs.next.Item?;
  }

  // ---------- objects ----------

  /** One round of print_object's loop; depth is the children's. */
  method ObjectRound(p: PrintBuffer, child: Members, depth: nat, fmt: bool)
    requires p.Valid() && child.Member? && PrintableMembers(child) && depth >= 1 && p.offset + |PrintMember(child, depth, fmt)| + 33 <= LIMIT
    modifies p, p.buffer
    ensures p.Valid() && (p.buffer == old(p.buffer) || fresh(p.buffer))
    ensures p.Front() == old(p.Front()) + PrintMember(child, depth, fmt)
    decreases child, 0
  {
    hide NoNul, Print, Printable, Quoted, PrintMember;
    ghost var front := p.Front();
    MemberParts(child, depth, fmt, front);
    if fmt {
      Append(p, Tabs(depth), 0);
    }
    ghost var inner := p.Front();
    var _ := PrintStringTo(p, child.name);
    QuotedNoNul(child.name);
    PassOver(p, inner, Quoted(child.name));
    Append(p, Colon(fmt), 0);
    AppendValue(p, child.value, depth, fmt);
    Append(p, (if child.next.Member? then [COMMA] else []) + Break(fmt), 1);
  }

  lemma MemberParts(ms: Members, depth: nat, fmt: bool, front: seq<Byte>)
    requires ms.Member?
    ensures var e := (if ms.next.Member? then [COMMA] else []) + Break(fmt);
      && front + PrintMember(ms, depth, fmt)
        == front + Indent(depth, fmt) + Quoted(ms.name) + Colon(fmt) + Print(ms.value, depth, fmt) + e
      && |PrintMember(ms, depth, fmt)| == |Indent(depth, fmt)| + |Quoted(ms.name)| + |Colon(fmt)| + |Print(ms.value, depth, fmt)| + |e|
    ensures !fmt ==> front + Indent(depth, fmt) == front
  {
    hide Print, Quoted, Indent, Break, Colon;
    var i, q, c, s := Indent(depth, fmt), Quoted(ms.name), Colon(fmt), Print(ms.value, depth, fmt);
    var d, b := if ms.next.Member? then [COMMA] else [], Break(fmt);
    assert front + (i + q + c + s + d + b) == front + i + q + c + s + (d + b);
    NoIndent(depth, front);
  }

  lemma NoIndent(depth: nat, front: seq<Byte>)
    ensures front + Indent(depth, false) == front
  {
  }

  /** The loop of print_object; depth is the children's. */
  method AppendMembers(p: PrintBuffer, members: Members, depth: nat, fmt: bool)
    requires p.Valid() && PrintableMembers(members) && depth >= 1 && p.offset + |PrintMembers(members, depth, fmt)| + 33 <= LIMIT
    modifies p, p.buffer
    ensures p.Valid() && (p.buffer == old(p.buffer) || fresh(p.buffer))
    ensures p.Front() == old(p.Front()) + PrintMembers(members, depth, fmt)
    decreases members, 1
  {
    hide PrintMembers, NoNul, Print, PrintMember, Printable;
    ghost var front, total := p.Front(), p.Front() + PrintMembers(members, depth, fmt);
    var child := members;
    while child.Member?
      invariant p.Valid() && (p.buffer == old(p.buffer) || fresh(p.buffer))
      invariant PrintableMembers(child) && (child == members || child < members)
      invariant p.Front() + PrintMembers(child, depth, fmt) == total
      decreases child
    {
      MembersOn(child, depth, fmt, p.Front());
      ObjectRound(p, child, depth, fmt);
      child := child.next;
    }
    NoMembersLeft(depth, fmt, p.Front());
  }

  /** The end of print_object. The tabs are counted in i, which held the place where the object starts. */
  method CloseObject(p: PrintBuffer, depth: nat, fmt: bool, i0: nat) returns (i: nat)
    requires p.Valid() && p.offset + (if fmt then depth + 2 else 2) <= LIMIT
    modifies p, p.buffer
    ensures Shows(p, old(p.Front()), Indent(depth, fmt) + [CLOSE_BRACE]) && i == if fmt then depth else i0
    ensures p.buffer == old(p.buffer) || fresh(p.buffer)
  {
    i := i0;
    ghost var front := p.Front();
    var ptr := p.Ensure(if fmt then depth + 2 else 2);
    NoIndent(depth, front);
    if fmt {
      ptr, i := CountedTabs(p.buffer, ptr, depth);
    }
    ptr := PutByte(p.buffer, ptr, CLOSE_BRACE);
    PutNul(p.buffer, ptr);
    assert front + (Indent(depth, fmt) + [CLOSE_BRACE]) == front + Indent(depth, fmt) + [CLOSE_BRACE];
  }

  method CountedTabs(buf: array<Byte>, at: nat, depth: nat) returns (ptr: nat, i: nat)
    requires at + depth <= buf.Length
    modifies buf
    ensures ptr == at + depth && buf[..ptr] == old(buf[..at]) + Indent(depth, true) && i == depth
  {
    ptr, i := at, 0;
    while i < depth
      invariant i <= depth && ptr == at + i && buf[..ptr] == old(buf[..at]) + Tabs(i)
    {
      ptr := PutByte(buf, ptr, TAB);
      i := i + 1;
      assert Tabs(i) == Tabs(i - 1) + [TAB];
    }
  }

  /** The place in the buffer that print_value gives as the start of its text. For an object that has members and is
      formatted it is the number of tabs before the closing brace. */
  function StartGiven(v: Json, depth: nat, fmt: bool, offset: nat): nat {
    if v.Obj? && v.members.Member? && fmt then depth else offset
  }

  /** print_object with a print buffer. */
  method PrintObjectTo(p: PrintBuffer, members: Members, depth: nat, fmt: bool) returns (out: nat)
    requires p.Valid() && PrintableMembers(members) && p.offset + |Print(Obj(members), depth, fmt)| + 32 <= LIMIT
    modifies p, p.buffer
    ensures Shows(p, old(p.Front()), Print(Obj(members), depth, fmt))
    ensures out == StartGiven(Obj(members), depth, fmt, old(p.offset))
    ensures out == old(p.offset) <==> !fmt || members.NoMembers? || depth == old(p.offset)
    ensures p.buffer == old(p.buffer) || fresh(p.buffer)
    decreases members, 2
  {
    hide PrintMembers, Shows, NoNul, Print, Printable, Indent, Break;
    SeparatorLengths(depth, fmt);
    if members.NoMembers? {
      ObjectEmpty(depth, fmt);
      out := Close(p, Print(Obj(NoMembers), depth, fmt), if fmt then depth + 4 else 3);
      return;
    }
    ghost var front := p.Front();
    ObjectStarts(members, depth, fmt, front);
    var i := p.offset;
    Append(p, [OPEN_BRACE] + Break(fmt), 1);
    AppendMembers(p, members, depth + 1, fmt);
    ghost var inner := p.Front();
    i := CloseObject(p, depth, fmt, i);
    out := i;
    CloseText(p, front, [OPEN_BRACE] + Break(fmt) + PrintMembers(members, depth + 1, fmt), inner, Indent(depth, fmt) + [CLOSE_BRACE]);
  }

  lemma ObjectEmpty(depth: nat, fmt: bool)
    ensures |Print(Obj(NoMembers), depth, fmt)| + 1 <= (if fmt then depth + 4 else 3) <= |Print(Obj(NoMembers), depth, fmt)| + 32
  {
  }

  lemma ObjectStarts(members: Members, depth: nat, fmt: bool, front: seq<Byte>)
    requires members.Member?
    ensures Print(Obj(members), depth, fmt)
      == [OPEN_BRACE] + Break(fmt) + PrintMembers(members, depth + 1, fmt) + (Indent(depth, fmt) + [CLOSE_BRACE])
    ensures front + ([OPEN_BRACE] + Break(fmt)) + PrintMembers(members, depth + 1, fmt)
      == front + ([OPEN_BRACE] + Break(fmt) + PrintMembers(members, depth + 1, fmt))
  {
    hide PrintMembers, Break, Indent;
    var a, i := [OPEN_BRACE] + Break(fmt) + PrintMembers(members, depth + 1, fmt), Indent(depth, fmt);
    assert a + i + [CLOSE_BRACE] == a + (i + [CLOSE_BRACE]);
  }

  lemma MembersOn(ms: Members, depth: nat, fmt: bool, done: seq<Byte>)
    requires ms.Member?
    ensures done + PrintMembers(ms, depth, fmt) == done + PrintMember(ms, depth, fmt) + PrintMembers(ms.next, depth, fmt)
    ensures |PrintMembers(ms, depth, fmt)| == |PrintMember(ms, depth, fmt)| + |PrintMembers(ms.next, depth, fmt)|
  {
    hide PrintMember;
    var a, b := PrintMember(ms, depth, fmt), PrintMembers(ms.next, depth, fmt);
    assert done + (a + b) == done + a + b;
  }

  lemma NoMembersLeft(depth: nat, fmt: bool, done: seq<Byte>)
    ensures done + PrintMembers(NoMembers, depth, fmt) == done
  {
  }

  /** print_value with a print buffer. */
  method PrintValueTo(p: PrintBuffer, v: Json, depth: nat, fmt: bool) returns (out: nat)
    requires p.Valid() && Printable(v) && p.offset + |Print(v, depth, fmt)| + 32 <= LIMIT
    modifies p, p.buffer
    ensures Shows(p, old(p.Front()), Print(v, depth, fmt)) && out == StartGiven(v, depth, fmt, old(p.offset))
    ensures p.buffer == old(p.buffer) || fresh(p.buffer)
    decreases v, 0
  {
    hide Shows, NoNul;
    match v
    case Null => out := Close(p, TEXT_NULL, 5);
    case Bool(b) => out := Close(p, if b then TEXT_TRUE else TEXT_FALSE, if b then 5 else 6);
    case Number(n, _) => out := PrintNumberTo(p, n);
    case Str(s) => out := PrintStringTo(p, s);
    case Arr(items) => out := PrintArrayTo(p, items, depth, fmt);
    case Obj(members) => out := PrintObjectTo(p, members, depth, fmt);
  }

  /** cJSON_PrintBuffered: the same text as printing in two passes, whatever the size of the buffer at the start. */
  method PrintBuffered(v: Json, prebuffer: nat, fmt: bool) returns (out: array<Byte>, start: nat)
    requires Printable(v) && |Print(v, 0, fmt)| + 32 <= LIMIT
    ensures Holds(out, Print(v, 0, fmt)) && fresh(out) && start == 0
  {
    var p := new PrintBuffer(prebuffer);
    start := PrintValueTo(p, v, 0, fmt);
    out := p.buffer;
    assert [] + Print(v, 0, fmt) == Print(v, 0, fmt);
  }

  /** An object that stands second in an array, behind null: it starts at 7, and the place given for it is 1. */
  method SecondInArray(members: Members) returns (p: PrintBuffer, out: nat)
    requires members.Member? && PrintableMembers(members) && 7 + |Print(Obj(members), 1, true)| + 32 <= LIMIT
    ensures fresh(p) && Shows(p, [OPEN_BRACKET] + TEXT_NULL + Comma(true), Print(Obj(members), 1, true))
    ensures |[OPEN_BRACKET] + TEXT_NULL + Comma(true)| == 7 && out == 1
  {
    hide Print, Shows;
    p := new PrintBuffer(0);
    ghost var before := [OPEN_BRACKET] + TEXT_NULL + Comma(true);
    Append(p, [OPEN_BRACKET] + TEXT_NULL + Comma(true), 0);
    assert [] + before == before;
    out := PrintValueTo(p, Obj(members), 1, true);
  }
}
