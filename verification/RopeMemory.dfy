/** The node store behind ropes: cells with reference counts, the tree that a cell stands for, and the accounting
    of references. RopeHeap.dfy runs the algorithms on it. */
module RopeMemory {
  import opened Options
  import opened RopeTree

  type Addr = nat

  datatype Kind =
    | LeafK(data: seq<char>)
    | ProducerK(produced: seq<char>)
    | WindowK(base: Addr, start: nat)
    | JoinK(left: Addr, right: Addr)

  /** Addresses are not reused: a destroyed node leaves Free behind. */
  datatype Cell = Free | Node(rc: nat, kind: Kind, size: nat, depth: nat, balanced: bool)

  type Memory = seq<Cell>

  predicate Live(mem: Memory, a: Addr) { a < |mem| && mem[a].Node? }

  predicate FlatKind(k: Kind) { k.LeafK? || k.ProducerK? }

  /** The data structure invariant of one node. A node under construction may be one level too deep. */
  predicate CellOk(mem: Memory, a: Addr)
    requires Live(mem, a)
  {
    var c := mem[a];
    match c.kind
    case LeafK(data) => data != [] && c.size == |data| && c.depth == 0 && c.balanced
    case ProducerK(produced) => produced != [] && c.size == |produced| && c.depth == 0 && c.balanced
    case WindowK(base, start) =>
      && Live(mem, base) && FlatKind(mem[base].kind) && start + c.size <= mem[base].size && c.size > 0
      && c.depth == 0 && c.balanced
    case JoinK(left, right) =>
      && Live(mem, left) && Live(mem, right)
      && c.size == mem[left].size + mem[right].size
      && c.depth == Max(mem[left].depth, mem[right].depth) + 1 <= MAX_DEPTH + 1
      && (c.balanced ==> c.depth <= MAX_DEPTH && Fib(c.depth) <= c.size)
  }

  ghost predicate WellFormed(mem: Memory) { forall a: Addr :: Live(mem, a) ==> CellOk(mem, a) }

  // ---------- the tree a cell stands for ----------

  function FlatRep(k: Kind): Rep { if k.LeafK? then Leaf(k.data) else if k.ProducerK? then Producer(k.produced) else Leaf([]) }

  function Tree(mem: Memory, a: Addr): Rep
    decreases if Live(mem, a) then mem[a].depth else 0
  {
    if !Live(mem, a) then Leaf([]) else
    match mem[a].kind
    case JoinK(l, r) =>
      if Live(mem, l) && mem[l].depth < mem[a].depth && Live(mem, r) && mem[r].depth < mem[a].depth then
        Join(Tree(mem, l), Tree(mem, r), mem[a].balanced)
      else Leaf([])
    case WindowK(base, start) =>
      Window(if Live(mem, base) then FlatRep(mem[base].kind) else Leaf([]), start, mem[a].size)
    case k => FlatRep(k)
  }

  lemma {:induction false} TreeFacts(mem: Memory, a: Addr)
    requires WellFormed(mem) && Live(mem, a)
    ensures var t := Tree(mem, a);
      && Shaped(t) && Size(t) == mem[a].size && Depth(t) == mem[a].depth && Balanced(t) == mem[a].balanced
      && t.Join? == mem[a].kind.JoinK? && t.Leaf? == mem[a].kind.LeafK? && t.Window? == mem[a].kind.WindowK?
    decreases mem[a].depth
  {
    assert CellOk(mem, a);
    match mem[a].kind
    case JoinK(l, r) =>
      TreeFacts(mem, l);
      TreeFacts(mem, r);
      hide WellFormed, Shaped, Fib;
      assert Tree(mem, a) == Join(Tree(mem, l), Tree(mem, r), mem[a].balanced);
      JoinShaped(Tree(mem, l), Tree(mem, r), mem[a].balanced);
    case WindowK(base, _) => assert CellOk(mem, base);
    case _ =>
  }

  lemma JoinShaped(l: Rep, r: Rep, balanced: bool)
    requires Shaped(l) && Shaped(r)
    requires balanced ==> Max(Depth(l), Depth(r)) < MAX_DEPTH && Fib(Max(Depth(l), Depth(r)) + 1) <= Size(l) + Size(r)
    ensures Shaped(Join(l, r, balanced)) && Size(Join(l, r, balanced)) == Size(l) + Size(r)
    ensures Depth(Join(l, r, balanced)) == Max(Depth(l), Depth(r)) + 1
  {
    hide Fib;
  }

  function TreeOpt(mem: Memory, o: Option<Addr>): Option<Rep> {
    if o.Some? then Some(Tree(mem, o.value)) else None
  }

  // ---------- what other owners see ----------

  predicate SameButCount(c: Cell, d: Cell) { c.Node? && d.Node? && d == c.(rc := d.rc) }

  /** Nodes may have been added, counted differently or destroyed, but not changed. */
  ghost predicate Preserves(mem: Memory, mem': Memory) {
    |mem| <= |mem'| && forall a: Addr :: a < |mem| && Live(mem', a) ==> SameButCount(mem[a], mem'[a])
  }

  lemma PreservesTransitive(m0: Memory, m1: Memory, m2: Memory)
    requires Preserves(m0, m1) && Preserves(m1, m2)
    ensures Preserves(m0, m2)
  {
    forall a: Addr | a < |m0| && Live(m2, a) ensures SameButCount(m0[a], m2[a]) {
      assert SameButCount(m1[a], m2[a]);
      assert Live(m1, a);
    }
  }

  lemma {:induction false} TreePreserved(mem: Memory, mem': Memory, a: Addr)
    requires WellFormed(mem) && WellFormed(mem') && Preserves(mem, mem') && a < |mem| && Live(mem', a)
    ensures Live(mem, a) && Tree(mem', a) == Tree(mem, a)
    decreases mem'[a].depth
  {
    hide Fib;
    assert SameButCount(mem[a], mem'[a]);
    assert CellOk(mem', a) && CellOk(mem, a);
    match mem'[a].kind
    case JoinK(l, r) =>
      TreePreserved(mem, mem', l);
      TreePreserved(mem, mem', r);
    case WindowK(base, _) => assert SameButCount(mem[base], mem'[base]);
    case _ =>
  }

  // ---------- reference counts ----------

  function KindLinks(k: Kind): multiset<Addr> {
    match k
    case JoinK(left, right) => multiset{left, right}
    case WindowK(base, _) => multiset{base}
    case _ => multiset{}
  }

  function CellLinks(c: Cell): multiset<Addr> { if c.Node? then KindLinks(c.kind) else multiset{} }

  /** All references held by nodes. */
  ghost function Links(mem: Memory): multiset<Addr> {
    if mem == [] then multiset{} else Links(mem[..|mem| - 1]) + CellLinks(mem[|mem| - 1])
  }

  /** A node is counted once for each reference: those held by nodes, and those held outside. */
  ghost predicate CountedAt(mem: Memory, owned: multiset<Addr>, a: Addr) {
    if Live(mem, a) then mem[a].rc == owned[a] + Links(mem)[a] && mem[a].rc > 0 else owned[a] == 0
  }

  ghost predicate Counted(mem: Memory, owned: multiset<Addr>) { forall a: Addr :: CountedAt(mem, owned, a) }

  ghost predicate Inv(mem: Memory, owned: multiset<Addr>) { WellFormed(mem) && Counted(mem, owned) }

  lemma {:induction false} LinksUpdate(mem: Memory, i: Addr, c: Cell)
    requires i < |mem|
    ensures Links(mem[i := c]) + CellLinks(mem[i]) == Links(mem) + CellLinks(c)
  {
    hide CellLinks;
    var n := |mem| - 1;
    if i < n {
      assert mem[i := c][..n] == mem[..n][i := c];
      LinksUpdate(mem[..n], i, c);
      SumSwap(Links(mem[..n][i := c]), CellLinks(mem[i]), Links(mem[..n]), CellLinks(c), CellLinks(mem[n]));
    } else {
      assert mem[i := c][..n] == mem[..n];
    }
  }

  lemma SumSwap<T>(a: multiset<T>, b: multiset<T>, c: multiset<T>, d: multiset<T>, e: multiset<T>)
    requires a + b == c + d
    ensures (a + e) + b == (c + e) + d
  {
    assert (a + e) + b == (a + b) + e;
    assert (c + e) + d == (c + d) + e;
  }

  lemma Cancel<T>(a: multiset<T>, x: multiset<T>, b: multiset<T>)
    requires a + x == b + x
    ensures a == b
  {
    assert (a + x) - x == a && (b + x) - x == b;
  }

  lemma LinksAppend(mem: Memory, c: Cell)
    ensures Links(mem + [c]) == Links(mem) + CellLinks(c)
  {
    assert (mem + [c])[..|mem|] == mem;
  }

  /** Only live nodes are referred to, and by a node that exists. */
  lemma {:induction false} LinkSource(mem: Memory, a: Addr) returns (p: Addr)
    requires a in Links(mem)
    ensures Live(mem, p) && a in CellLinks(mem[p])
  {
    var n := |mem| - 1;
    if a in CellLinks(mem[n]) { p := n; } else { p := LinkSource(mem[..n], a); }
  }

  lemma {:induction false} LinkCounted(mem: Memory, p: Addr)
    requires Live(mem, p)
    ensures CellLinks(mem[p]) <= Links(mem)
  {
    var n := |mem| - 1;
    if p < n { LinkCounted(mem[..n], p); }
  }

  lemma LinksLive(mem: Memory, a: Addr)
    requires WellFormed(mem) && a in Links(mem)
    ensures Live(mem, a)
  {
    var p := LinkSource(mem, a);
    assert CellOk(mem, p);
  }

  function Rank(c: Cell): nat { if c.Node? then 2 * c.depth + (if c.kind.WindowK? then 1 else 0) else 0 }

  /** A step that gives up no reference destroys no node. */
  lemma {:induction false} NothingLost(mem: Memory, owned: multiset<Addr>, mem': Memory, owned': multiset<Addr>, a: Addr)
    requires Inv(mem, owned) && Inv(mem', owned') && owned <= owned' && Preserves(mem, mem') && Live(mem, a)
    ensures Live(mem', a)
    decreases 2 * MAX_DEPTH + 4 - Rank(mem[a])
  {
    hide Fib;
    assert CountedAt(mem, owned, a) && CountedAt(mem', owned', a);
    if a !in owned {
      var p := LinkSource(mem, a);
      assert CellOk(mem, p) && CellOk(mem, a);
      NothingLost(mem, owned, mem', owned', p);
      assert SameButCount(mem[p], mem'[p]) && CellOk(mem', p);
    }
  }

  // ---------- the elementary steps ----------

  lemma CellOkFrame(mem: Memory, mem': Memory, a: Addr)
    requires Live(mem, a) && Live(mem', a) && SameButCount(mem[a], mem'[a]) && CellOk(mem, a)
    requires forall b: Addr :: b in CellLinks(mem[a]) && Live(mem, b) ==> Live(mem', b) && SameButCount(mem[b], mem'[b])
    ensures CellOk(mem', a)
  {
    hide Fib;
    match mem[a].kind
    case JoinK(l, r) => assert l in CellLinks(mem[a]) && r in CellLinks(mem[a]);
    case WindowK(b, _) => assert b in CellLinks(mem[a]);
    case _ =>
  }

  ghost predicate LinksIn(c: Cell, mem: Memory) { forall b: Addr :: b in CellLinks(c) ==> Live(mem, b) }

  /** Old nodes that survive with everything they refer to stay well formed. */
  lemma WellFormedStep(mem: Memory, mem': Memory)
    requires WellFormed(mem) && Preserves(mem, mem')
    requires forall a: Addr :: Live(mem', a) && a < |mem| ==> LinksIn(mem[a], mem')
    requires forall a: Addr :: Live(mem', a) && a >= |mem| ==> CellOk(mem', a)
    ensures WellFormed(mem')
  {
    forall a: Addr | Live(mem', a) ensures CellOk(mem', a) {
      if a < |mem| {
        assert SameButCount(mem[a], mem'[a]);
        assert CellOk(mem, a) && LinksIn(mem[a], mem');
        hide CellOk;
        forall b: Addr | b in CellLinks(mem[a]) && Live(mem, b) ensures Live(mem', b) && SameButCount(mem[b], mem'[b]) {
          assert Live(mem', b);
        }
        CellOkFrame(mem, mem', a);
      }
    }
  }

  lemma LinksStayLive(mem: Memory, a: Addr)
    requires WellFormed(mem) && Live(mem, a)
    ensures LinksIn(mem[a], mem)
  {
    assert CellOk(mem, a);
  }

  /** _M_ref_nonnil, and _M_unref_nonnil as long as it leaves other references: only the count changes. */
  lemma Recount(mem: Memory, owned: multiset<Addr>, a: Addr, rc: nat, owned': multiset<Addr>)
    requires Inv(mem, owned) && Live(mem, a) && rc > 0
    requires owned'[a := 0] == owned[a := 0] && owned'[a] + Links(mem)[a] == rc
    ensures Inv(mem[a := mem[a].(rc := rc)], owned') && Preserves(mem, mem[a := mem[a].(rc := rc)])
  {
    hide CellOk, Links;
    var mem' := mem[a := mem[a].(rc := rc)];
    LinksUpdate(mem, a, mem'[a]);
    assert CellLinks(mem[a]) == CellLinks(mem'[a]);
    hide CellLinks;
    Cancel(Links(mem'), CellLinks(mem[a]), Links(mem));
    assert Preserves(mem, mem');
    forall b: Addr | Live(mem', b) && b < |mem| ensures LinksIn(mem[b], mem') {
      LinksStayLive(mem, b);
    }
    WellFormedStep(mem, mem');
    forall b: Addr ensures CountedAt(mem', owned', b) {
      assert CountedAt(mem, owned, b);
      assert b != a ==> owned'[a := 0][b] == owned[a := 0][b];
    }
  }

  /** A node constructor: the new node takes over the references it holds. */
  lemma Construct(mem: Memory, owned: multiset<Addr>, c: Cell)
    requires Inv(mem, owned) && c.Node? && c.rc == 1 && CellLinks(c) <= owned && CellOk(mem + [c], |mem|)
    ensures Inv(mem + [c], owned - CellLinks(c) + multiset{|mem|}) && Preserves(mem, mem + [c])
  {
    hide CellOk, Links, CellLinks;
    var mem' := mem + [c];
    assert Preserves(mem, mem');
    forall b: Addr | Live(mem', b) && b < |mem| ensures LinksIn(mem[b], mem') {
      LinksStayLive(mem, b);
    }
    WellFormedStep(mem, mem');
    forall b: Addr ensures CountedAt(mem', owned - CellLinks(c) + multiset{|mem|}, b) {
      ConstructCounted(mem, owned, c, b);
    }
  }

  lemma ConstructCounted(mem: Memory, owned: multiset<Addr>, c: Cell, b: Addr)
    requires Inv(mem, owned) && c.Node? && c.rc == 1 && CellLinks(c) <= owned
    ensures CountedAt(mem + [c], owned - CellLinks(c) + multiset{|mem|}, b)
  {
    NotYet(mem, owned);
    LinksAppend(mem, c);
    assert CountedAt(mem, owned, b);
    hide CellOk, Links, WellFormed, CellLinks, Counted;
    assert CellLinks(c)[b] <= owned[b];
  }

  lemma NotYet(mem: Memory, owned: multiset<Addr>)
    requires Inv(mem, owned)
    ensures owned[|mem|] == 0 && Links(mem)[|mem|] == 0
  {
    assert CountedAt(mem, owned, |mem|);
    if |mem| in Links(mem) { LinksLive(mem, |mem|); }
  }

  /** _M_free_tree: the last reference is gone, and the node hands back those it held. */
  lemma Destroy(mem: Memory, owned: multiset<Addr>, a: Addr)
    requires Inv(mem, owned) && Live(mem, a) && a in owned && mem[a].rc == 1
    ensures Inv(mem[a := Free], owned - multiset{a} + CellLinks(mem[a])) && Preserves(mem, mem[a := Free])
  {
    hide CellOk, Links;
    var mem' := mem[a := Free];
    assert CountedAt(mem, owned, a);
    assert Preserves(mem, mem');
    forall b: Addr | Live(mem', b) && b < |mem| ensures LinksIn(mem[b], mem') {
      LinksStayLive(mem, b);
      LinkCounted(mem, b);
    }
    WellFormedStep(mem, mem');
    forall b: Addr ensures CountedAt(mem', owned - multiset{a} + CellLinks(mem[a]), b) {
      DestroyCounted(mem, owned, a, b);
    }
  }

  lemma DestroyCounted(mem: Memory, owned: multiset<Addr>, a: Addr, b: Addr)
    requires Inv(mem, owned) && Live(mem, a) && a in owned && mem[a].rc == 1
    ensures CountedAt(mem[a := Free], owned - multiset{a} + CellLinks(mem[a]), b)
  {
    LinksUpdateAt(mem, a, Free, b);
    LinkCountedAt(mem, a, a);
    ExchangeAt(owned, a, CellLinks(mem[a]), b);
    if CellLinks(mem[a])[b] > 0 {
      LinksStayLive(mem, a);
      assert b in CellLinks(mem[a]) && Live(mem, b);
    }
    assert CountedAt(mem, owned, a) && CountedAt(mem, owned, b);
    hide CellOk, Links, WellFormed, CellLinks, Counted;
  }

  lemma LinksUpdateAt(mem: Memory, i: Addr, c: Cell, b: Addr)
    requires i < |mem|
    ensures Links(mem[i := c])[b] + CellLinks(mem[i])[b] == Links(mem)[b] + CellLinks(c)[b]
  {
    LinksUpdate(mem, i, c);
    SumAt(Links(mem[i := c]), CellLinks(mem[i]), Links(mem), CellLinks(c), b);
  }

  lemma LinkCountedAt(mem: Memory, p: Addr, b: Addr)
    requires Live(mem, p)
    ensures CellLinks(mem[p])[b] <= Links(mem)[b]
  {
    LinkCounted(mem, p);
  }

  lemma SumAt<T>(a: multiset<T>, b: multiset<T>, c: multiset<T>, d: multiset<T>, x: T)
    requires a + b == c + d
    ensures a[x] + b[x] == c[x] + d[x]
  {
    assert (a + b)[x] == (c + d)[x];
  }

  lemma ExchangeAt<T>(s: multiset<T>, a: T, k: multiset<T>, x: T)
    requires a in s
    ensures (s - multiset{a} + k)[x] == s[x] - (if x == a then 1 else 0) + k[x]
  {
  }

  lemma OwnedLive(mem: Memory, owned: multiset<Addr>, a: Addr)
    requires Inv(mem, owned) && a in owned
    ensures Live(mem, a) && mem[a].rc > 0
  {
    assert CountedAt(mem, owned, a);
  }

  /** Destroying nodes recursively comes to an end: what a node refers to ranks below it. */
  lemma RankDecreases(mem: Memory, mem': Memory, a: Addr, b: Addr)
    requires WellFormed(mem) && Live(mem, a) && b in CellLinks(mem[a])
    requires Preserves(mem, mem') && Live(mem', b)
    ensures Rank(mem'[b]) < Rank(mem[a])
  {
    assert CellOk(mem, a);
    assert Live(mem, b) && CellOk(mem, b);
    assert SameButCount(mem[b], mem'[b]);
  }

  /** What one owner sees across the steps of others, when no reference is given up ... */
  lemma Stays(mem: Memory, owned: multiset<Addr>, mem': Memory, owned': multiset<Addr>, a: Addr)
    requires Inv(mem, owned) && Inv(mem', owned') && owned <= owned' && Preserves(mem, mem') && Live(mem, a)
    ensures Live(mem', a) && SameButCount(mem[a], mem'[a]) && Tree(mem', a) == Tree(mem, a)
  {
    NothingLost(mem, owned, mem', owned', a);
    TreePreserved(mem, mem', a);
  }

  lemma StaysOpt(mem: Memory, owned: multiset<Addr>, mem': Memory, owned': multiset<Addr>, o: Option<Addr>)
    requires Inv(mem, owned) && Inv(mem', owned') && owned <= owned' && Preserves(mem, mem')
    requires o.Some? ==> Live(mem, o.value)
    ensures (o.Some? ==> Live(mem', o.value)) && TreeOpt(mem', o) == TreeOpt(mem, o)
  {
    if o.Some? { Stays(mem, owned, mem', owned', o.value); }
  }

  /** ... and when it still owns a reference itself. */
  lemma StaysOwned(mem: Memory, mem': Memory, owned': multiset<Addr>, a: Addr)
    requires WellFormed(mem) && Inv(mem', owned') && Preserves(mem, mem') && a in owned' && a < |mem|
    ensures Live(mem, a) && Live(mem', a) && SameButCount(mem[a], mem'[a]) && Tree(mem', a) == Tree(mem, a)
  {
    OwnedLive(mem', owned', a);
    TreePreserved(mem, mem', a);
  }

  // ---------- the balance flag ----------

  lemma {:induction false} FlagBelow(mem: Memory, a: Addr, b: Addr)
    requires WellFormed(mem) && Live(mem, a) && Live(mem, b) && mem[b].depth < mem[a].depth
    ensures Tree(mem[a := mem[a].(balanced := true)], b) == Tree(mem, b)
    decreases mem[b].depth
  {
    hide Fib;
    assert CellOk(mem, b);
    match mem[b].kind
    case JoinK(l, r) => FlagBelow(mem, a, l); FlagBelow(mem, a, r);
    case _ =>
  }

  /** Setting _M_is_balanced on a node that deserves it. */
  lemma SetFlag(mem: Memory, owned: multiset<Addr>, a: Addr)
    requires Inv(mem, owned) && Live(mem, a) && mem[a].kind.JoinK?
    requires mem[a].depth <= MAX_DEPTH && Fib(mem[a].depth) <= mem[a].size
    ensures Inv(mem[a := mem[a].(balanced := true)], owned)
  {
    var mem' := mem[a := mem[a].(balanced := true)];
    FlagWellFormed(mem, a);
    hide Fib, Links, WellFormed, CellLinks;
    forall b: Addr ensures CountedAt(mem', owned, b) {
      assert CountedAt(mem, owned, b);
      hide Counted;
      FlagCounted(mem, owned, a, b);
    }
  }

  lemma FlagCounted(mem: Memory, owned: multiset<Addr>, a: Addr, b: Addr)
    requires Live(mem, a) && CountedAt(mem, owned, b)
    ensures CountedAt(mem[a := mem[a].(balanced := true)], owned, b)
  {
    LinksUpdateAt(mem, a, mem[a].(balanced := true), b);
    assert CellLinks(mem[a]) == CellLinks(mem[a].(balanced := true));
    hide Links, CellLinks;
  }

  lemma FlagWellFormed(mem: Memory, a: Addr)
    requires WellFormed(mem) && Live(mem, a) && mem[a].kind.JoinK?
    requires mem[a].depth <= MAX_DEPTH && Fib(mem[a].depth) <= mem[a].size
    ensures WellFormed(mem[a := mem[a].(balanced := true)])
  {
    var mem' := mem[a := mem[a].(balanced := true)];
    forall b: Addr | Live(mem', b) ensures CellOk(mem', b) {
      assert Live(mem, b) && CellOk(mem, b);
      hide WellFormed;
      FlagCellOk(mem, a, b);
    }
  }

  lemma FlagCellOk(mem: Memory, a: Addr, b: Addr)
    requires Live(mem, a) && mem[a].kind.JoinK? && mem[a].depth <= MAX_DEPTH && Fib(mem[a].depth) <= mem[a].size
    requires Live(mem, b) && CellOk(mem, b)
    ensures CellOk(mem[a := mem[a].(balanced := true)], b)
  {
    hide Fib;
    match mem[b].kind
    case JoinK(l, r) =>
    case WindowK(base, _) =>
    case _ =>
  }

  lemma FlagTree(mem: Memory, a: Addr)
    requires WellFormed(mem) && Live(mem, a) && mem[a].kind.JoinK?
    ensures Tree(mem, a).Join?
    ensures Tree(mem[a := mem[a].(balanced := true)], a) == Tree(mem, a).(balanced := true)
  {
    hide Fib;
    assert CellOk(mem, a);
    FlagBelow(mem, a, mem[a].kind.left);
    FlagBelow(mem, a, mem[a].kind.right);
  }

  lemma JoinChildren(mem: Memory, a: Addr)
    requires WellFormed(mem) && Live(mem, a) && mem[a].kind.JoinK?
    ensures var JoinK(l, r) := mem[a].kind;
      && Live(mem, l) && Live(mem, r)
      && Tree(mem, a) == Join(Tree(mem, l), Tree(mem, r), mem[a].balanced)
      && mem[r].kind.LeafK? == Tree(mem, r).Leaf? && mem[r].size == Size(Tree(mem, r))
      && mem[a].size == mem[l].size + mem[r].size
      && mem[l].depth < mem[a].depth && mem[r].depth < mem[a].depth
      && (mem[r].kind.LeafK? ==> Tree(mem, r) == Leaf(mem[r].kind.data))
  {
    hide Fib;
    assert CellOk(mem, a);
    TreeFacts(mem, mem[a].kind.right);
  }

  lemma PreservesSelf(mem: Memory)
    ensures Preserves(mem, mem)
  {
  }

  lemma PreservesFlag(mem: Memory, mem': Memory, a: Addr)
    requires Preserves(mem, mem') && |mem| <= a && Live(mem', a)
    ensures Preserves(mem, mem'[a := mem'[a].(balanced := true)])
  {
    forall b: Addr | b < |mem| && Live(mem'[a := mem'[a].(balanced := true)], b) ensures SameButCount(mem[b], mem'[b]) {
      assert Live(mem', b);
    }
  }

  // ---------- the forest ----------

  function OptRefs(o: Option<Addr>): multiset<Addr> { if o.Some? then multiset{o.value} else multiset{} }

  /** The references held by the forest array of _S_balance. */
  function ForestRefs(f: seq<Option<Addr>>): multiset<Addr> {
    if f == [] then multiset{} else ForestRefs(f[..|f| - 1]) + OptRefs(f[|f| - 1])
  }

  lemma {:induction false} ForestRefsUpdate(f: seq<Option<Addr>>, i: nat, o: Option<Addr>)
    requires i < |f|
    ensures ForestRefs(f[i := o]) + OptRefs(f[i]) == ForestRefs(f) + OptRefs(o)
  {
    hide OptRefs;
    var n := |f| - 1;
    if i < n {
      assert f[i := o][..n] == f[..n][i := o];
      ForestRefsUpdate(f[..n], i, o);
      SumSwap(ForestRefs(f[..n][i := o]), OptRefs(f[i]), ForestRefs(f[..n]), OptRefs(o), OptRefs(f[n]));
    } else {
      assert f[i := o][..n] == f[..n];
    }
  }

  /** Taking the reference out of a slot. */
  lemma ForestRefsTake(f: seq<Option<Addr>>, i: nat)
    requires i < |f|
    ensures ForestRefs(f) == ForestRefs(f[i := None]) + OptRefs(f[i])
  {
    ForestRefsUpdate(f, i, None);
    assert ForestRefs(f) + OptRefs(None) == ForestRefs(f);
  }

  lemma ForestRefsPut(f: seq<Option<Addr>>, i: nat, o: Option<Addr>)
    requires i < |f| && f[i] == None
    ensures ForestRefs(f[i := o]) == ForestRefs(f) + OptRefs(o)
  {
    ForestRefsUpdate(f, i, o);
    assert ForestRefs(f[i := o]) + OptRefs(None) == ForestRefs(f[i := o]);
  }

  function Trees(mem: Memory, f: seq<Option<Addr>>): seq<Option<Rep>> {
    seq(|f|, i requires 0 <= i < |f| => TreeOpt(mem, f[i]))
  }

  ghost predicate ForestLive(mem: Memory, f: seq<Option<Addr>>) {
    forall i :: 0 <= i < |f| && f[i].Some? ==> Live(mem, f[i].value)
  }

  lemma ForestOwned(mem: Memory, owned: multiset<Addr>, f: seq<Option<Addr>>)
    requires Inv(mem, owned) && ForestRefs(f) <= owned
    ensures ForestLive(mem, f)
  {
    forall i | 0 <= i < |f| && f[i].Some? ensures Live(mem, f[i].value) {
      ForestRefsTake(f, i);
      assert f[i].value in ForestRefs(f);
      OwnedLive(mem, owned, f[i].value);
    }
  }

  lemma TreesPreserved(mem: Memory, mem': Memory, owned': multiset<Addr>, f: seq<Option<Addr>>)
    requires WellFormed(mem) && Inv(mem', owned') && Preserves(mem, mem') && ForestLive(mem, f) && ForestRefs(f) <= owned'
    ensures ForestLive(mem', f) && Trees(mem', f) == Trees(mem, f)
  {
    ForestOwned(mem', owned', f);
    forall i | 0 <= i < |f| ensures TreeOpt(mem', f[i]) == TreeOpt(mem, f[i]) {
      if f[i].Some? {
        assert Live(mem, f[i].value) && Live(mem', f[i].value);
        hide ForestLive, WellFormed, Counted, ForestRefs, Preserves;
        TreePreserved(mem, mem', f[i].value);
      }
    }
  }

  lemma ForestLiveTake(mem: Memory, f: seq<Option<Addr>>, i: nat)
    requires i < |f| && ForestLive(mem, f)
    ensures ForestLive(mem, f[i := None]) && Trees(mem, f[i := None]) == Trees(mem, f)[i := None]
  {
  }

  lemma TreesAt(mem: Memory, f: seq<Option<Addr>>, i: nat)
    requires i < |f|
    ensures |Trees(mem, f)| == |f| && Trees(mem, f)[i] == TreeOpt(mem, f[i])
  {
  }

  /** What the forest stands for after slot i was emptied and other nodes came and went. */
  lemma SlotEmptied(mem: Memory, f: seq<Option<Addr>>, i: nat, mem': Memory, owned': multiset<Addr>)
    requires WellFormed(mem) && ForestLive(mem, f) && i < |f|
    requires Inv(mem', owned') && Preserves(mem, mem') && ForestRefs(f[i := None]) <= owned'
    ensures Trees(mem', f[i := None]) == Trees(mem, f)[i := None]
  {
    ForestLiveTake(mem, f, i);
    TreesPreserved(mem, mem', owned', f[i := None]);
  }

  lemma TreesPut(mem: Memory, f: seq<Option<Addr>>, i: nat, o: Option<Addr>)
    requires i < |f|
    ensures Trees(mem, f[i := o]) == Trees(mem, f)[i := TreeOpt(mem, o)]
  {
  }

  // ---------- borrowed nodes ----------

  /** A chain of references from an owned node down to a borrowed one. */
  ghost predicate Chain(mem: Memory, path: seq<Addr>) {
    && path != [] && (forall k :: 0 <= k < |path| ==> Live(mem, path[k]))
    && forall k :: 0 <= k < |path| - 1 ==> path[k + 1] in CellLinks(mem[path[k]])
  }

  lemma {:induction false} ChainStays(mem: Memory, mem': Memory, owned': multiset<Addr>, path: seq<Addr>)
    requires Chain(mem, path) && Inv(mem', owned') && Preserves(mem, mem') && path[0] in owned'
    ensures Chain(mem', path)
  {
    if |path| == 1 {
      OwnedLive(mem', owned', path[0]);
    } else {
      var n := |path| - 1;
      ChainStays(mem, mem', owned', path[..n]);
      var p := path[n - 1];
      assert path[..n][n - 1] == p && Live(mem, p) && Live(mem', p);
      assert SameButCount(mem[p], mem'[p]);
      LinksStayLive(mem', p);
      assert path[n] in CellLinks(mem[p]);
      forall k | 0 <= k < n ensures Live(mem', path[k]) { assert path[..n][k] == path[k]; }
      forall k | 0 <= k < n ensures path[k + 1] in CellLinks(mem'[path[k]]) {
        if k < n - 1 { assert path[..n][k] == path[k] && path[..n][k + 1] == path[k + 1]; }
      }
    }
  }

  /** What a borrower sees after others gave up references of their own. */
  lemma Borrowed(mem: Memory, mem': Memory, owned': multiset<Addr>, path: seq<Addr>)
    requires WellFormed(mem) && Chain(mem, path) && Inv(mem', owned') && Preserves(mem, mem') && path[0] in owned'
    ensures var a := path[|path| - 1];
      && Chain(mem', path) && Live(mem, a) && Live(mem', a)
      && SameButCount(mem[a], mem'[a]) && Tree(mem', a) == Tree(mem, a)
  {
    ChainStays(mem, mem', owned', path);
    TreePreserved(mem, mem', path[|path| - 1]);
  }

  lemma ChainChild(mem: Memory, path: seq<Addr>, b: Addr)
    requires Chain(mem, path) && Live(mem, b) && b in CellLinks(mem[path[|path| - 1]])
    ensures Chain(mem, path + [b])
  {
  }

  lemma {:induction false} AllTaken(f: seq<Option<Addr>>)
    requires forall i :: 0 <= i < |f| ==> f[i] == None
    ensures ForestRefs(f) == multiset{}
  {
    if f != [] {
      assert f[|f| - 1] == None;
      AllTaken(f[..|f| - 1]);
    }
  }

  lemma EmptySlots(mem: Memory, f: seq<Option<Addr>>)
    requires |f| == MAX_DEPTH + 1 && forall i :: 0 <= i < |f| ==> f[i] == None
    ensures ForestRefs(f) == multiset{} && Trees(mem, f) == NoTrees()
  {
    AllTaken(f);
  }

  // ---------- the loop that empties the forest ----------

  ghost predicate SameFrom(f: seq<Option<Rep>>, g: seq<Option<Rep>>, i: nat) {
    |f| == |g| && forall j :: i <= j < |f| ==> g[j] == f[j]
  }

  ghost predicate EmptyUpTo(f: seq<Option<Addr>>, i: nat) { i <= |f| && forall j :: 0 <= j < i ==> f[j] == None }

  lemma SameFromStart(f: seq<Option<Rep>>)
    ensures SameFrom(f, f, 0)
  {
  }

  lemma SameFromAt(f: seq<Option<Rep>>, g: seq<Option<Rep>>, i: nat)
    requires SameFrom(f, g, i) && i < |f|
    ensures |g| == |f| && g[i] == f[i] && SameFrom(f, g, i + 1) && SameFrom(f, g[i := None], i + 1)
  {
  }

  lemma EmptyUpToStart(f: seq<Option<Addr>>)
    ensures EmptyUpTo(f, 0)
  {
  }

  lemma EmptyUpToStep(f: seq<Option<Addr>>, i: nat)
    requires EmptyUpTo(f, i) && i < |f|
    ensures EmptyUpTo(f[i := None], i + 1) && (f[i] == None ==> EmptyUpTo(f, i + 1))
  {
  }

  lemma EmptyUpToEnd(f: seq<Option<Addr>>)
    requires EmptyUpTo(f, |f|)
    ensures ForestRefs(f) == multiset{}
  {
    AllTaken(f);
  }

  // ---------- cutting ----------

  lemma FlatCell(mem: Memory, a: Addr)
    requires WellFormed(mem) && Live(mem, a) && !mem[a].kind.JoinK?
    ensures match mem[a].kind
      case WindowK(base, start) =>
        && Live(mem, base) && FlatKind(mem[base].kind) && start + mem[a].size <= mem[base].size
        && Tree(mem, a) == Window(Tree(mem, base), start, mem[a].size)
        && |Content(Tree(mem, base))| == mem[base].size
        && Content(Tree(mem, base)) == if mem[base].kind.LeafK? then mem[base].kind.data else mem[base].kind.produced
      case LeafK(data) => Tree(mem, a) == Leaf(data)
      case ProducerK(produced) => Tree(mem, a) == Producer(produced)
      case JoinK(_, _) => true
  {
    assert CellOk(mem, a);
    if mem[a].kind.WindowK? { assert CellOk(mem, mem[a].kind.base); }
  }
}
