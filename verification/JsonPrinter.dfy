/** Printing in two passes: every item's text goes into a buffer of its own, of the computed length. */
module JsonPrinter {
  import opened JsonBytes
  import opened JsonText
  import opened JsonParts
  import opened JsonCompose

  /** The buffer holds the C string s. */
  ghost predicate Holds(a: array<Byte>, s: seq<Byte>)
    reads a
  {
    |s| < a.Length && a[..|s|] == s && a[|s|] == 0
  }

  // ---------- numbers ----------

  /** strcpy, into a buffer that is large enough */
  method Fill(out: array<Byte>, s: seq<Byte>)
    requires |s| < out.Length
    modifies out
    ensures Holds(out, s)
  {
    var end := PutBytes(out, 0, s);
    assert out[..end] == s;
    PutNul(out, end);
  }

  method PrintNumber(n: int) returns (out: array<Byte>)
    requires INT_MIN <= n <= INT_MAX
    ensures fresh(out) && Holds(out, Decimal(n))
  {
    DecimalLength(n);
    if n == 0 {
      out := new Byte[2];
      Fill(out, [48]);
    } else {
      out := new Byte[21];
      Fill(out, Decimal(n));
    }
  }

  /** How many bytes print_string_ptr asks for, and whether it found anything to escape. */
  method MeasureString(str: seq<Byte>) returns (flag: bool, needed: nat)
    requires NoNul(str)
    ensures (flag <==> !Tame(str)) && needed == |Quoted(str)| + 1
  {
    hide EscapedAll, Tame, Escaped;
    flag := NeedsEscape(str);
    if !flag {
      TameIsPlain(str);
      needed := |str| + 3;
    } else {
      var len := EscapedLength(str);
      needed := len + 3;
    }
  }

  method PrintString(str: seq<Byte>) returns (out: array<Byte>)
    requires NoNul(str)
    ensures fresh(out) && Holds(out, Quoted(str))
  {
    hide EscapedAll, Tame;
    var flag, needed := MeasureString(str);
    out := new Byte[needed];
    var end := PutQuoted(out, 0, str, flag);
    assert out[..end] == Quoted(str);
  }

  ghost predicate AllHold(entries: seq<array<Byte>>, ts: seq<seq<Byte>>)
    reads entries
  {
    |entries| <= |ts| && forall k :: 0 <= k < |entries| ==> Holds(entries[k], ts[k])
  }

  /** strlen */
  method Length(a: array<Byte>, ghost s: seq<Byte>) returns (n: nat)
    requires Holds(a, s) && NoNul(s)
    ensures n == |s|
  {
    n := 0;
    while a[n] != 0
      invariant n <= |s|
      decreases |s| - n
    {
      assert a[..|s|][n] == s[n];
      n := n + 1;
    }
  }

  // ---------- arrays ----------

  lemma TextsStep(ts: seq<seq<Byte>>, k: nat, xs: Items, depth: nat, fmt: bool)
    requires k <= |ts| && ts[k..] == Texts(xs, depth, fmt) && xs.Item?
    ensures k < |ts| && ts[k] == Print(xs.head, depth, fmt) && ts[k + 1..] == Texts(xs.next, depth, fmt)
  {
    hide Print;
    assert ts[k..][0] == ts[k] && ts[k..][1..] == ts[k + 1..];
  }

  lemma {:induction false} TextsNoNul(xs: Items, depth: nat, fmt: bool, k: nat)
    requires PrintableItems(xs) && k < |Texts(xs, depth, fmt)|
    ensures NoNul(Texts(xs, depth, fmt)[k])
    decreases k
  {
    hide Print, NoNul, Printable;
    if k == 0 { PrintNoNul(xs.head, depth, fmt); } else { TextsNoNul(xs.next, depth, fmt, k - 1); }
  }

  /** Composing the array from its children's texts. */
  method ComposeArray(out: array<Byte>, entries: seq<array<Byte>>, ghost ts: seq<seq<Byte>>, fmt: bool)
    requires |entries| == |ts| > 0 && AllHold(entries, ts) && (forall k :: 0 <= k < |ts| ==> NoNul(ts[k])) && out !in entries
    requires |Joined(ts, fmt, |ts|)| + 2 < out.Length
    modifies out
    ensures Holds(out, [OPEN_BRACKET] + Joined(ts, fmt, |ts|) + [CLOSE_BRACKET])
  {
    hide Comma, NoNul, Joined, AllHold, Holds;
    var ptr := PutByte(out, 0, OPEN_BRACKET);
    var i := 0;
    JoinedStep(ts, fmt, 0);
    while i < |entries|
      invariant i <= |ts| && ptr == 1 + |Joined(ts, fmt, i)| < out.Length && AllHold(entries, ts)
      invariant out[..ptr] == [OPEN_BRACKET] + Joined(ts, fmt, i)
    {
      JoinedGrows(ts, fmt, i + 1, |ts|);
      JoinedStep(ts, fmt, i);
      ptr := ComposeItem(out, ptr, entries, ts, fmt, i, [OPEN_BRACKET] + Joined(ts, fmt, i));
      i := i + 1;
    }
    ptr := PutByte(out, ptr, CLOSE_BRACKET);
    PutNul(out, ptr);
    Held(out, ptr, [OPEN_BRACKET] + Joined(ts, fmt, |ts|) + [CLOSE_BRACKET]);
  }

  lemma Held(a: array<Byte>, n: nat, s: seq<Byte>)
    requires n < a.Length && a[..n] == s && a[n] == 0
    ensures Holds(a, s)
  {
  }

  lemma JoinedStep(ts: seq<seq<Byte>>, fmt: bool, i: nat)
    requires i < |ts|
    ensures Joined(ts, fmt, 0) == [] && [OPEN_BRACKET] + [] == [OPEN_BRACKET]
    ensures [OPEN_BRACKET] + Joined(ts, fmt, i) + ts[i] + (if i + 1 < |ts| then Comma(fmt) else []) == [OPEN_BRACKET] + Joined(ts, fmt, i + 1)
  {
    hide Comma;
  }

  method ComposeItem(out: array<Byte>, at: nat, entries: seq<array<Byte>>, ghost ts: seq<seq<Byte>>, fmt: bool, i: nat, ghost before: seq<Byte>)
    returns (ptr: nat)
    requires i < |entries| == |ts| && AllHold(entries, ts) && NoNul(ts[i]) && out !in entries
    requires at <= out.Length && out[..at] == before && at + |ts[i]| + (if i + 1 < |ts| then |Comma(fmt)| else 0) < out.Length
    modifies out
    ensures ptr == at + |ts[i]| + (if i + 1 < |ts| then |Comma(fmt)| else 0)
    ensures out[..ptr] == before + ts[i] + (if i + 1 < |ts| then Comma(fmt) else []) && AllHold(entries, ts)
  {
    var tmplen := Length(entries[i], ts[i]);
    ptr := PutBytes(out, at, entries[i][..tmplen]);
    if i != |entries| - 1 {
      ptr := PutByte(out, ptr, COMMA);
      if fmt { ptr := PutByte(out, ptr, SPACE); }
      PutNul(out, ptr);
      Spread(before + ts[i], fmt);
    }
  }

  lemma Spread(a: seq<Byte>, fmt: bool)
    ensures a + Comma(fmt) == if fmt then a + [COMMA] + [SPACE] else a + [COMMA]
  {
  }

  lemma OneMore(entries: seq<array<Byte>>, ts: seq<seq<Byte>>, a: array<Byte>)
    requires AllHold(entries, ts) && |entries| < |ts| && Holds(a, ts[|entries|])
    ensures AllHold(entries + [a], ts)
  {
    hide Holds;
  }

  lemma NoneYet(ts: seq<seq<Byte>>)
    ensures AllHold([], ts)
  {
  }

  lemma RoomStep(ts: seq<seq<Byte>>, fmt: bool, k: nat)
    requires k < |ts|
    ensures Room(ts, fmt, 0) == 0 && Room(ts, fmt, k + 1) == Room(ts, fmt, k) + |ts[k]| + 2 + if fmt then 1 else 0
  {
  }

  /** One round of a first pass: a child's text and its length. */
  method Child(v: Json, depth: nat, fmt: bool) returns (ret: array<Byte>, n: nat)
    requires Printable(v)
    ensures fresh(ret) && Holds(ret, Print(v, depth, fmt)) && n == |Print(v, depth, fmt)|
    decreases v, 1
  {
    hide Holds, Print, Printable, NoNul;
    ret := PrintValue(v, depth, fmt);
    PrintNoNul(v, depth, fmt);
    n := Length(ret, Print(v, depth, fmt));
  }

  /** The first pass of print_array; depth is the children's. */
  method CollectItems(items: Items, depth: nat, fmt: bool) returns (entries: seq<array<Byte>>, len: nat)
    requires PrintableItems(items) && items.Item?
    ensures var ts := Texts(items, depth, fmt); |ts| == |entries| > 0 && AllHold(entries, ts) && len == 5 + Room(ts, fmt, |ts|)
    decreases items, 0
  {
    hide Holds, Texts, AllHold, Room, Printable, Print;
    ghost var ts := Texts(items, depth, fmt);
    entries, len := [], 5;
    var child := items;
    assert ts[0..] == ts;
    TextsStep(ts, 0, items, depth, fmt);
    NoneYet(ts);
    RoomStep(ts, fmt, 0);
    while child.Item?
      invariant |entries| <= |ts| && ts[|entries|..] == Texts(child, depth, fmt) && PrintableItems(child)
      invariant AllHold(entries, ts) && len == 5 + Room(ts, fmt, |entries|) && (child == items || child < items)
      decreases child
    {
      TextsStep(ts, |entries|, child, depth, fmt);
      RoomStep(ts, fmt, |entries|);
      var ret, n := Child(child.head, depth, fmt);
      OneMore(entries, ts, ret);
      len := len + n + 2 + if fmt then 1 else 0;
      entries := entries + [ret];
      child := child.next;
    }
    NoTexts(depth, fmt);
  }

  /** print_array without a print buffer. */
  method PrintArray(items: Items, depth: nat, fmt: bool) returns (out: array<Byte>)
    requires PrintableItems(items)
    ensures fresh(out) && Holds(out, Print(Arr(items), depth, fmt))
    decreases items, 1
  {
    hide Holds, Texts, Joined, PrintItems, AllHold, Room, NoNul;
    JoinedIsPrint(items, depth + 1, fmt);
    if items.NoItems? {
      NoTexts(depth + 1, fmt);
      out := new Byte[3];
      Fill(out, [OPEN_BRACKET, CLOSE_BRACKET]);
      assert [OPEN_BRACKET] + [] + [CLOSE_BRACKET] == [OPEN_BRACKET, CLOSE_BRACKET];
      return;
    }
    ghost var ts := Texts(items, depth + 1, fmt);
    var entries, len := CollectItems(items, depth + 1, fmt);
    out := new Byte[len];
    RoomEnough(ts, fmt, |ts|);
    forall k | 0 <= k < |ts| ensures NoNul(ts[k]) { TextsNoNul(items, depth + 1, fmt, k); }
    ComposeArray(out, entries, ts, fmt);
  }

  lemma NoTexts(depth: nat, fmt: bool)
    ensures Texts(NoItems, depth, fmt) == [] && PrintItems(NoItems, depth, fmt) == []
  {
  }

  // ---------- objects ----------

  lemma ValuesStep(ns: seq<seq<Byte>>, ts: seq<seq<Byte>>, k: nat, ms: Members, depth: nat, fmt: bool)
    requires k <= |ts| == |ns| && ts[k..] == Values(ms, depth, fmt) && ns[k..] == Names(ms) && ms.Member?
    ensures k < |ts| && ts[k] == Print(ms.value, depth, fmt) && ts[k + 1..] == Values(ms.next, depth, fmt)
    ensures ns[k] == Quoted(ms.name) && ns[k + 1..] == Names(ms.next)
  {
    hide Print, Quoted;
    assert ts[k..][0] == ts[k] && ts[k..][1..] == ts[k + 1..] && ns[k..][0] == ns[k] && ns[k..][1..] == ns[k + 1..];
  }

  lemma {:induction false} ValuesNoNul(ms: Members, depth: nat, fmt: bool, k: nat)
    requires PrintableMembers(ms) && k < |Values(ms, depth, fmt)| && k < |Names(ms)|
    ensures NoNul(Values(ms, depth, fmt)[k]) && NoNul(Names(ms)[k])
    decreases k
  {
    hide Print, NoNul, Printable, Quoted;
    if k == 0 {
      PrintNoNul(ms.value, depth, fmt);
      QuotedNoNul(ms.name);
    } else {
      ValuesNoNul(ms.next, depth, fmt, k - 1);
    }
  }

  lemma LineParts(a: seq<Byte>, name: seq<Byte>, value: seq<Byte>, more: bool, depth: nat, fmt: bool)
    ensures a + Line(name, value, more, depth, fmt)
      == a + Indent(depth, fmt) + name + Colon(fmt) + value + (if more then [COMMA] else []) + Break(fmt)
    ensures a + [] == a && a + Colon(fmt) == (if fmt then a + [COLON] + [TAB] else a + [COLON])
    ensures |Line(name, value, more, depth, fmt)|
      == |Indent(depth, fmt)| + |name| + |Colon(fmt)| + |value| + (if more then 1 else 0) + |Break(fmt)|
  {
    hide Indent, Break;
    var i, c, d, b := Indent(depth, fmt), Colon(fmt), if more then [COMMA] else [], Break(fmt);
    assert a + (i + name + c + value + d + b) == a + i + name + c + value + d + b;
  }

  method PutIndent(out: array<Byte>, at: nat, depth: nat, fmt: bool) returns (end: nat)
    requires at + |Indent(depth, fmt)| <= out.Length
    modifies out
    ensures end == at + |Indent(depth, fmt)| && out[..end] == old(out[..at]) + Indent(depth, fmt)
  {
    end := at;
    if fmt { end := PutTabs(out, at, depth); }
  }

  method PutColon(out: array<Byte>, at: nat, fmt: bool) returns (end: nat)
    requires at + |Colon(fmt)| <= out.Length
    modifies out
    ensures end == at + |Colon(fmt)| && out[..end] == old(out[..at]) + Colon(fmt)
  {
    ghost var before := out[..at];
    end := PutByte(out, at, COLON);
    if fmt { end := PutByte(out, end, TAB); }
    assert out[..end] == before + Colon(fmt);
  }

  method PutBreak(out: array<Byte>, at: nat, fmt: bool) returns (end: nat)
    requires at + |Break(fmt)| <= out.Length
    modifies out
    ensures end == at + |Break(fmt)| && out[..end] == old(out[..at]) + Break(fmt)
  {
    end := at;
    if fmt { end := PutByte(out, at, NEWLINE); }
  }

  /** One round of the loop that composes an object. */
  method ComposeLine(out: array<Byte>, at: nat, names: seq<array<Byte>>, entries: seq<array<Byte>>,
      ghost ns: seq<seq<Byte>>, ghost ts: seq<seq<Byte>>, depth: nat, fmt: bool, i: nat) returns (ptr: nat)
    requires i < |entries| == |ts| == |names| == |ns| && AllHold(entries, ts) && AllHold(names, ns)
    requires NoNul(ts[i]) && NoNul(ns[i]) && out !in entries && out !in names
    requires at + |Line(ns[i], ts[i], i + 1 < |ts|, depth, fmt)| < out.Length
    modifies out
    ensures ptr == at + |Line(ns[i], ts[i], i + 1 < |ts|, depth, fmt)|
    ensures out[..ptr] == old(out[..at]) + Line(ns[i], ts[i], i + 1 < |ts|, depth, fmt)
    ensures AllHold(entries, ts) && AllHold(names, ns)
  {
    hide Indent, Break, Colon, Line, NoNul, AllHold;
    ghost var before := out[..at];
    LineParts(before, ns[i], ts[i], i + 1 < |ts|, depth, fmt);
    ptr := PutName(out, at, names, ns, depth, fmt, i);
    ptr := PutEntry(out, ptr, entries, ts, i);
    if i != |entries| - 1 { ptr := PutByte(out, ptr, COMMA); }
    ptr := PutBreak(out, ptr, fmt);
    PutNul(out, ptr);
  }

  /** The part of a line up to the value. */
  method PutName(out: array<Byte>, at: nat, names: seq<array<Byte>>, ghost ns: seq<seq<Byte>>, depth: nat, fmt: bool, i: nat)
      returns (ptr: nat)
    requires i < |names| == |ns| && AllHold(names, ns) && NoNul(ns[i]) && out !in names
    requires at + |Indent(depth, fmt)| + |ns[i]| + |Colon(fmt)| <= out.Length
    modifies out
    ensures ptr == at + |Indent(depth, fmt)| + |ns[i]| + |Colon(fmt)|
    ensures out[..ptr] == old(out[..at]) + Indent(depth, fmt) + ns[i] + Colon(fmt)
  {
    hide Indent, Colon, NoNul, AllHold;
    ptr := PutIndent(out, at, depth, fmt);
    ptr := PutEntry(out, ptr, names, ns, i);
    ptr := PutColon(out, ptr, fmt);
  }

  /** The text of entry i. */
  method PutEntry(out: array<Byte>, at: nat, entries: seq<array<Byte>>, ghost ts: seq<seq<Byte>>, i: nat) returns (ptr: nat)
    requires i < |entries| == |ts| && AllHold(entries, ts) && NoNul(ts[i]) && out !in entries && at + |ts[i]| <= out.Length
    modifies out
    ensures ptr == at + |ts[i]| && out[..ptr] == old(out[..at]) + ts[i]
  {
    var tmplen := Length(entries[i], ts[i]);
    ptr := PutBytes(out, at, entries[i][..tmplen]);
  }

  /** The opening and all members. */
  method ComposeObject(out: array<Byte>, names: seq<array<Byte>>, entries: seq<array<Byte>>,
      ghost ns: seq<seq<Byte>>, ghost ts: seq<seq<Byte>>, depth: nat, fmt: bool)
    requires |entries| == |ts| == |names| == |ns| && AllHold(entries, ts) && AllHold(names, ns)
    requires (forall k :: 0 <= k < |ts| ==> NoNul(ts[k]) && NoNul(ns[k])) && out !in entries && out !in names
    requires 2 + |Break(fmt)| + |Lines(ns, ts, depth + 1, fmt, |ts|)| + |Indent(depth, fmt)| < out.Length
    modifies out
    ensures Holds(out, [OPEN_BRACE] + Break(fmt) + Lines(ns, ts, depth + 1, fmt, |ts|) + Indent(depth, fmt) + [CLOSE_BRACE])
  {
    hide Indent, Break, Line, Lines, NoNul, AllHold, Holds;
    var ptr := PutByte(out, 0, OPEN_BRACE);
    ptr := PutBreak(out, ptr, fmt);
    ghost var o := [OPEN_BRACE] + Break(fmt);
    var i := 0;
    NoLines(ns, ts, depth + 1, fmt, o);
    while i < |entries|
      invariant i <= |ts| && ptr == 1 + |Break(fmt)| + |Lines(ns, ts, depth + 1, fmt, i)|
      invariant AllHold(entries, ts) && AllHold(names, ns)
      invariant ptr + 1 + |Indent(depth, fmt)| < out.Length && out[..ptr] == o + Lines(ns, ts, depth + 1, fmt, i)
    {
      LinesGrow(ns, ts, depth + 1, fmt, i + 1, |ts|);
      LinesStep(ns, ts, depth + 1, fmt, i, o);
      ptr := ComposeLine(out, ptr, names, entries, ns, ts, depth + 1, fmt, i);
      i := i + 1;
    }
    ptr := PutIndent(out, ptr, depth, fmt);
    ptr := PutByte(out, ptr, CLOSE_BRACE);
    PutNul(out, ptr);
    Held(out, ptr, o + Lines(ns, ts, depth + 1, fmt, |ts|) + Indent(depth, fmt) + [CLOSE_BRACE]);
  }

  lemma NoLines(ns: seq<seq<Byte>>, ts: seq<seq<Byte>>, depth: nat, fmt: bool, o: seq<Byte>)
    requires |ns| == |ts|
    ensures Lines(ns, ts, depth, fmt, 0) == [] && o + [] == o
  {
  }

  lemma LinesStep(ns: seq<seq<Byte>>, ts: seq<seq<Byte>>, depth: nat, fmt: bool, i: nat, o: seq<Byte>)
    requires i < |ns| == |ts|
    ensures |Lines(ns, ts, depth, fmt, i + 1)| == |Lines(ns, ts, depth, fmt, i)| + |Line(ns[i], ts[i], i + 1 < |ts|, depth, fmt)|
    ensures o + Lines(ns, ts, depth, fmt, i) + Line(ns[i], ts[i], i + 1 < |ts|, depth, fmt) == o + Lines(ns, ts, depth, fmt, i + 1)
  {
    hide Line;
  }

  /** "{}", with a break and tabs when formatted */
  method PrintNoMembers(depth: nat, fmt: bool) returns (out: array<Byte>)
    ensures fresh(out) && Holds(out, Print(Obj(NoMembers), depth, fmt))
  {
    out := new Byte[if fmt then depth + 4 else 3];
    var ptr := PutByte(out, 0, OPEN_BRACE);
    if fmt {
      ptr := PutByte(out, ptr, NEWLINE);
      ptr := PutTabs(out, ptr, if depth > 0 then depth - 1 else 0);
    }
    ptr := PutByte(out, ptr, CLOSE_BRACE);
    PutNul(out, ptr);
    assert out[..ptr] == Print(Obj(NoMembers), depth, fmt);
  }

  /** print_object without a print buffer. */
  method PrintObject(members: Members, depth: nat, fmt: bool) returns (out: array<Byte>)
    requires PrintableMembers(members)
    ensures fresh(out) && Holds(out, Print(Obj(members), depth, fmt))
    decreases members, 1
  {
    hide Holds, Names, Values, Lines, PrintMembers, Indent, Break, AllHold, NoNul;
    if members.NoMembers? {
      out := PrintNoMembers(depth, fmt);
      return;
    }
    LinesArePrint(members, depth + 1, fmt);
    ghost var ns, ts := Names(members), Values(members, depth + 1, fmt);
    var names, entries, len := CollectMembers(members, depth + 1, fmt);
    out := new Byte[len];
    LineRoomEnough(ns, ts, depth + 1, fmt, |ts|);
    SeparatorLengths(depth, fmt);
    forall k | 0 <= k < |ts| ensures NoNul(ts[k]) && NoNul(ns[k]) { ValuesNoNul(members, depth + 1, fmt, k); }
    ComposeObject(out, names, entries, ns, ts, depth, fmt);
  }

  lemma SeparatorLengths(depth: nat, fmt: bool)
    ensures |Break(fmt)| == (if fmt then 1 else 0) && |Indent(depth, fmt)| == if fmt then depth else 0
  {
  }

  method ChildName(name: seq<Byte>) returns (str: array<Byte>, m: nat)
    requires NoNul(name)
    ensures fresh(str) && Holds(str, Quoted(name)) && m == |Quoted(name)|
  {
    hide Holds, NoNul;
    str := PrintString(name);
    QuotedNoNul(name);
    m := Length(str, Quoted(name));
  }

  /** The first pass of print_object: the children's texts and the length; depth is the children's. */
  method CollectMembers(members: Members, depth: nat, fmt: bool) returns (names: seq<array<Byte>>, entries: seq<array<Byte>>, len: nat)
    requires PrintableMembers(members)
    ensures |Names(members)| == |Values(members, depth, fmt)| == |names| == |entries|
    ensures AllHold(names, Names(members)) && AllHold(entries, Values(members, depth, fmt))
    ensures len == 7 + (if fmt then depth else 0) + LineRoom(Names(members), Values(members, depth, fmt), depth, fmt, |names|)
    decreases members, 0, 1
  {
    hide Holds, Names, Values, AllHold, LineRoom, Printable, Print, NoNul, Quoted;
    LinesArePrint(members, depth, fmt);
    ghost var ns, ts := Names(members), Values(members, depth, fmt);
    names, entries, len := [], [], 7;
    if fmt { len := len + depth; }
    var child := members;
    assert ts[0..] == ts && ns[0..] == ns;
    NoneYet(ts);
    NoneYet(ns);
    NoLineRoom(ns, ts, depth, fmt);
    while child.Member?
      invariant |names| == |entries| <= |ts| && ts[|entries|..] == Values(child, depth, fmt) && ns[|names|..] == Names(child)
      invariant AllHold(names, ns) && AllHold(entries, ts) && PrintableMembers(child)
      invariant len == 7 + (if fmt then depth else 0) + LineRoom(ns, ts, depth, fmt, |names|)
      invariant child == members || child < members
      decreases child
    {
      names, entries, len := CollectMember(child, depth, fmt, names, entries, len, ns, ts);
      child := child.next;
    }
    NoValues(depth, fmt);
  }

  /** One round of it. */
  method CollectMember(child: Members, depth: nat, fmt: bool, names0: seq<array<Byte>>, entries0: seq<array<Byte>>, len0: nat,
      ghost ns: seq<seq<Byte>>, ghost ts: seq<seq<Byte>>) returns (names: seq<array<Byte>>, entries: seq<array<Byte>>, len: nat)
    requires child.Member? && PrintableMembers(child) && |names0| == |entries0| <= |ts| == |ns|
    requires ts[|entries0|..] == Values(child, depth, fmt) && ns[|names0|..] == Names(child)
    requires AllHold(names0, ns) && AllHold(entries0, ts)
    ensures |names| == |entries| == |names0| + 1 <= |ts| && AllHold(names, ns) && AllHold(entries, ts)
    ensures ts[|entries|..] == Values(child.next, depth, fmt) && ns[|names|..] == Names(child.next)
    ensures len - LineRoom(ns, ts, depth, fmt, |names|) == len0 - LineRoom(ns, ts, depth, fmt, |names0|)
    decreases child, 0, 0
  {
    hide Holds, Names, Values, AllHold, LineRoom, Printable, Print, NoNul, Quoted;
    ValuesStep(ns, ts, |names0|, child, depth, fmt);
    LineRoomStep(ns, ts, depth, fmt, |names0|);
    var str, m := ChildName(child.name);
    var ret, n := Child(child.value, depth, fmt);
    OneMore(entries0, ts, ret);
    OneMore(names0, ns, str);
    len := len0 + n + m + 2 + if fmt then 2 + depth else 0;
    names, entries := names0 + [str], entries0 + [ret];
  }

  lemma NoLineRoom(ns: seq<seq<Byte>>, ts: seq<seq<Byte>>, depth: nat, fmt: bool)
    requires |ns| == |ts|
    ensures LineRoom(ns, ts, depth, fmt, 0) == 0
  {
  }

  lemma LineRoomStep(ns: seq<seq<Byte>>, ts: seq<seq<Byte>>, depth: nat, fmt: bool, k: nat)
    requires k < |ns| == |ts|
    ensures LineRoom(ns, ts, depth, fmt, k + 1) == LineRoom(ns, ts, depth, fmt, k) + |ts[k]| + |ns[k]| + 2 + if fmt then 2 + depth else 0
  {
  }

  lemma NoValues(depth: nat, fmt: bool)
    ensures Names(NoMembers) == [] && Values(NoMembers, depth, fmt) == []
  {
  }

  /** print_value without a print buffer. */
  method PrintValue(v: Json, depth: nat, fmt: bool) returns (out: array<Byte>)
    requires Printable(v)
    ensures fresh(out) && Holds(out, Print(v, depth, fmt))
    decreases v, 0
  {
    hide Holds;
    match v
    case Null =>
      out := new Byte[5];
      Fill(out, TEXT_NULL);
    case Bool(b) =>
      out := new Byte[if b then 5 else 6];
      Fill(out, if b then TEXT_TRUE else TEXT_FALSE);
    case Number(n, _) => out := PrintNumber(n);
    case Str(s) => out := PrintString(s);
    case Arr(items) => out := PrintArray(items, depth, fmt);
    case Obj(members) => out := PrintObject(members, depth, fmt);
  }
}
