/** Changing a node in place, which destructive append does when nobody else refers to it: who can see the change. */
module RopeInPlace {
  import opened RopeTree
  import opened RopeMemory

  // ---------- leaf buffers ----------

  const ALIGNMENT := 8

  /** _S_rounded_up_size, for a character type with a terminating null. */
  function RoundedUpSize(n: nat): nat { (n + 1 + ALIGNMENT - 1) / ALIGNMENT * ALIGNMENT }

  /** _S_allocated_capacity */
  function AllocatedCapacity(n: nat): nat { RoundedUpSize(n) - 1 }

  /** A leaf's buffer is recorded nowhere but in its length, by which it is freed. Growing within the capacity
      leaves that record right, and the terminating null fits; growing beyond it would not. */
  lemma GrowthKeepsBuffer(n: nat, len: nat)
    ensures n + len <= AllocatedCapacity(n) <==> RoundedUpSize(n + len) == RoundedUpSize(n)
    ensures n + len <= AllocatedCapacity(n + len)
  {
    var q := (n + ALIGNMENT) / ALIGNMENT;
    if n + len <= AllocatedCapacity(n) {
      assert q <= (n + len + ALIGNMENT) / ALIGNMENT < q + 1;
    }
  }

  // ---------- who sees a node ----------

  /** All that is left of a cell between two memories, outside the cells in touched, which nothing else refers to. */
  ghost predicate Untouched(mem: Memory, mem': Memory, touched: set<Addr>, a: Addr) {
    Live(mem, a) && a !in touched ==>
      Live(mem', a) && SameButCount(mem[a], mem'[a]) && forall b: Addr :: b in CellLinks(mem[a]) ==> b !in touched
  }

  lemma {:induction false} TreeUntouched(mem: Memory, mem': Memory, touched: set<Addr>, a: Addr)
    requires WellFormed(mem) && WellFormed(mem') && Live(mem, a) && a !in touched
    requires forall b: Addr :: Untouched(mem, mem', touched, b)
    ensures Live(mem', a) && Tree(mem', a) == Tree(mem, a)
    decreases mem[a].depth
  {
    hide Fib;
    assert Untouched(mem, mem', touched, a) && CellOk(mem, a);
    var links := CellLinks(mem[a]);
    match mem[a].kind
    case JoinK(l, r) =>
      assert l in links && r in links;
      assert CellOk(mem', a);
      TreeUntouched(mem, mem', touched, l);
      TreeUntouched(mem, mem', touched, r);
    case WindowK(base, _) =>
      assert base in links;
      assert Untouched(mem, mem', touched, base);
    case _ =>
  }

  /** Two nodes hold their references separately. */
  lemma TwoLinks(mem: Memory, a: Addr, b: Addr, x: Addr)
    requires Live(mem, a) && Live(mem, b) && a != b
    ensures CellLinks(mem[a])[x] + CellLinks(mem[b])[x] <= Links(mem)[x]
  {
    LinksUpdateAt(mem, a, Free, x);
    LinkCountedAt(mem[a := Free], b, x);
  }

  lemma NoLinkTo(mem: Memory, x: Addr, b: Addr)
    requires Links(mem)[x] == 0 && Live(mem, b)
    ensures x !in CellLinks(mem[b])
  {
    LinkCountedAt(mem, b, x);
  }

  /** The only reference to r is outside, and r holds the only reference to right. */
  ghost predicate Private(mem: Memory, owned: multiset<Addr>, r: Addr) {
    Inv(mem, owned) && r in owned && Live(mem, r) && mem[r].rc == 1
  }

  lemma PrivateRoot(mem: Memory, owned: multiset<Addr>, r: Addr, b: Addr)
    requires Private(mem, owned, r) && Live(mem, b)
    ensures Links(mem)[r] == 0 && owned[r] == 1 && r !in CellLinks(mem[b])
  {
    assert CountedAt(mem, owned, r);
    NoLinkTo(mem, r, b);
  }

  lemma PrivateChild(mem: Memory, owned: multiset<Addr>, r: Addr, right: Addr, b: Addr)
    requires Private(mem, owned, r) && Live(mem, right) && right in CellLinks(mem[r]) && mem[right].rc == 1
    requires Live(mem, b) && b != r
    ensures right !in CellLinks(mem[b]) && right !in owned && right != r && CellLinks(mem[r])[right] == 1
  {
    PrivateRoot(mem, owned, r, r);
    assert CountedAt(mem, owned, right);
    LinkCountedAt(mem, r, right);
    TwoLinks(mem, r, b, right);
  }

  // ---------- replacing a private root ----------

  /** The references r held before go to the caller, who hands over those that r holds now, and gains one to r. */
  lemma Rewrite(mem: Memory, owned: multiset<Addr>, r: Addr, kind: Kind, size: nat)
    requires Private(mem, owned, r) && KindLinks(kind) <= owned + CellLinks(mem[r]) && r !in KindLinks(kind)
    requires CellOk(mem[r := mem[r].(rc := 2, kind := kind, size := size)], r)
    ensures Inv(mem[r := mem[r].(rc := 2, kind := kind, size := size)],
                owned + CellLinks(mem[r]) - KindLinks(kind) + multiset{r})
  {
    hide CellOk, Links, CellLinks;
    var mem' := mem[r := mem[r].(rc := 2, kind := kind, size := size)];
    forall b: Addr | Live(mem', b) ensures CellOk(mem', b) {
      if b != r { RewriteCellOk(mem, owned, r, kind, size, b); }
    }
    forall b: Addr ensures CountedAt(mem', owned + CellLinks(mem[r]) - KindLinks(kind) + multiset{r}, b) {
      RewriteCounted(mem, owned, r, kind, size, b);
    }
  }

  lemma RewriteCellOk(mem: Memory, owned: multiset<Addr>, r: Addr, kind: Kind, size: nat, b: Addr)
    requires Private(mem, owned, r) && Live(mem, b) && b != r
    ensures CellOk(mem[r := mem[r].(rc := 2, kind := kind, size := size)], b)
  {
    hide CellOk, Counted, WellFormed, CellLinks, Links;
    PrivateRoot(mem, owned, r, b);
    PrivateCell(mem, owned, r, b);
    LinksAvoid(mem[b], r);
    CellOkFrame(mem, mem[r := mem[r].(rc := 2, kind := kind, size := size)], b);
  }

  lemma PrivateCell(mem: Memory, owned: multiset<Addr>, r: Addr, b: Addr)
    requires Private(mem, owned, r) && Live(mem, b)
    ensures r < |mem| && b < |mem| && CellOk(mem, b)
  {
    hide CellOk, Counted;
  }

  lemma LinksAvoid(c: Cell, r: Addr)
    requires r !in CellLinks(c)
    ensures forall b: Addr :: b in CellLinks(c) ==> b != r
  {
  }

  lemma RewriteCounted(mem: Memory, owned: multiset<Addr>, r: Addr, kind: Kind, size: nat, b: Addr)
    requires Private(mem, owned, r) && KindLinks(kind) <= owned + CellLinks(mem[r]) && r !in KindLinks(kind)
    ensures CountedAt(mem[r := mem[r].(rc := 2, kind := kind, size := size)],
                      owned + CellLinks(mem[r]) - KindLinks(kind) + multiset{r}, b)
  {
    hide CellOk, Links, WellFormed, CellLinks;
    var c := mem[r].(rc := 2, kind := kind, size := size);
    PrivateRoot(mem, owned, r, r);
    LinksUpdateAt(mem, r, c, b);
    KindOfCell(c);
    assert CountedAt(mem, owned, b);
    hide Counted, KindLinks;
    SwapAt(owned, KindLinks(kind), CellLinks(mem[r]), r, b);
    LinksLiveAt(mem, r, b);
  }

  lemma KindOfCell(c: Cell)
    requires c.Node?
    ensures CellLinks(c) == KindLinks(c.kind)
  {
  }

  lemma LinksLiveAt(mem: Memory, r: Addr, b: Addr)
    requires WellFormed(mem) && Live(mem, r)
    ensures CellLinks(mem[r])[b] > 0 ==> Live(mem, b)
  {
    LinksStayLive(mem, r);
    assert CellLinks(mem[r])[b] > 0 ==> b in CellLinks(mem[r]);
  }

  lemma SwapAt(s: multiset<Addr>, x: multiset<Addr>, y: multiset<Addr>, a: Addr, b: Addr)
    requires x <= s + y
    ensures (s + y - x + multiset{a})[b] == s[b] + y[b] - x[b] + (if a == b then 1 else 0) && x[b] <= s[b] + y[b]
  {
  }

  /** Nobody but the holder of r sees the change. */
  lemma RewriteUnseen(mem: Memory, owned: multiset<Addr>, r: Addr, c: Cell, owned': multiset<Addr>, b: Addr)
    requires Private(mem, owned, r) && Inv(mem[r := c], owned') && Live(mem, b) && b != r
    ensures Live(mem[r := c], b) && Tree(mem[r := c], b) == Tree(mem, b)
  {
    hide Fib, CellOk, Links, CellLinks, Tree;
    var mem', touched := mem[r := c], {r};
    forall x: Addr ensures Untouched(mem, mem', touched, x) {
      if Live(mem, x) && x != r {
        PrivateRoot(mem, owned, r, x);
        LinksAvoid(mem[x], r);
      }
    }
    hide WellFormed;
    TreeUntouched(mem, mem', touched, b);
  }

  lemma WithoutRoot(mem: Memory, owned: multiset<Addr>, r: Addr)
    requires Private(mem, owned, r)
    ensures r !in owned - multiset{r}
  {
    PrivateRoot(mem, owned, r, r);
  }

  /** Every owner of a reference in others finds the same tree behind it as before. */
  ghost predicate Isolated(mem: Memory, others: multiset<Addr>, mem': Memory) {
    forall b: Addr :: b in others ==> Live(mem', b) && Tree(mem', b) == Tree(mem, b)
  }

  lemma PreservedIsolated(mem: Memory, owned: multiset<Addr>, mem': Memory, owned': multiset<Addr>, others: multiset<Addr>)
    requires Inv(mem, owned) && Inv(mem', owned') && Preserves(mem, mem') && others <= owned && others <= owned'
    ensures Isolated(mem, others, mem')
  {
    hide WellFormed, Counted, Preserves, Tree;
    forall b: Addr | b in others ensures Live(mem', b) && Tree(mem', b) == Tree(mem, b) {
      OwnedLive(mem, owned, b);
      StaysOwned(mem, mem', owned', b);
    }
  }

  lemma IsolatedTransitive(m0: Memory, m1: Memory, m2: Memory, others: multiset<Addr>)
    requires Isolated(m0, others, m1) && Isolated(m1, others, m2)
    ensures Isolated(m0, others, m2)
  {
    hide Tree;
  }

  lemma RewriteIsolated(mem: Memory, owned: multiset<Addr>, r: Addr, c: Cell, owned': multiset<Addr>, others: multiset<Addr>)
    requires Private(mem, owned, r) && Inv(mem[r := c], owned') && others <= owned - multiset{r}
    ensures Isolated(mem, others, mem[r := c])
  {
    hide WellFormed, Counted, Tree;
    WithoutRoot(mem, owned, r);
    forall b: Addr | b in others ensures Live(mem[r := c], b) && Tree(mem[r := c], b) == Tree(mem, b) {
      OwnedLive(mem, owned, b);
      RewriteUnseen(mem, owned, r, c, owned', b);
    }
  }

  // ---------- growing the right leaf of a private root ----------

  function Grown(mem: Memory, r: Addr, right: Addr, s: seq<char>): Memory {
    if Live(mem, r) && Live(mem, right) && mem[right].kind.LeafK? then
      mem[right := mem[right].(kind := LeafK(mem[right].kind.data + s), size := mem[right].size + |s|)]
         [r := mem[r].(rc := 2, size := mem[r].size + |s|)]
    else mem
  }

  ghost predicate Growable(mem: Memory, owned: multiset<Addr>, r: Addr, left: Addr, right: Addr) {
    && Private(mem, owned, r) && mem[r].kind == JoinK(left, right)
    && Live(mem, right) && mem[right].kind.LeafK? && mem[right].rc == 1
  }

  lemma GrowableApart(mem: Memory, owned: multiset<Addr>, r: Addr, left: Addr, right: Addr, b: Addr)
    requires Growable(mem, owned, r, left, right) && Live(mem, b) && b != r
    ensures right !in CellLinks(mem[b]) && r !in CellLinks(mem[b]) && right !in owned && right != r && left != right
    ensures left != r && Live(mem, left)
  {
    assert CellLinks(mem[r]) == multiset{left, right};
    PrivateChild(mem, owned, r, right, b);
    PrivateRoot(mem, owned, r, b);
    PrivateRoot(mem, owned, r, r);
    assert CellOk(mem, r);
  }

  lemma GrowInv(mem: Memory, owned: multiset<Addr>, r: Addr, left: Addr, right: Addr, s: seq<char>)
    requires Growable(mem, owned, r, left, right)
    ensures Inv(Grown(mem, r, right, s), owned + multiset{r})
  {
    hide CellOk, Links, CellLinks;
    var mem' := Grown(mem, r, right, s);
    forall b: Addr | Live(mem', b) ensures CellOk(mem', b) {
      GrowCellOk(mem, owned, r, left, right, s, b);
    }
    forall b: Addr ensures CountedAt(mem', owned + multiset{r}, b) {
      GrowCounted(mem, owned, r, left, right, s, b);
    }
  }

  lemma GrowCellOk(mem: Memory, owned: multiset<Addr>, r: Addr, left: Addr, right: Addr, s: seq<char>, b: Addr)
    requires Growable(mem, owned, r, left, right) && Live(mem, b)
    ensures CellOk(Grown(mem, r, right, s), b)
  {
    hide Fib, Counted;
    var mem' := Grown(mem, r, right, s);
    assert CellOk(mem, b) && CellOk(mem, r) && CellOk(mem, right);
    GrowableApart(mem, owned, r, left, right, right);
    if b != r && b != right {
      GrowableApart(mem, owned, r, left, right, b);
      hide WellFormed;
      LinksAvoid(mem[b], r);
      LinksAvoid(mem[b], right);
      CellOkFrame(mem, mem', b);
    }
  }

  /** A change that leaves the references of a node alone. */
  lemma LinksKept(mem: Memory, a: Addr, c: Cell, b: Addr)
    requires a < |mem| && CellLinks(mem[a]) == CellLinks(c)
    ensures Links(mem[a := c])[b] == Links(mem)[b]
  {
    hide CellLinks, Links;
    LinksUpdateAt(mem, a, c, b);
  }

  lemma GrowLinks(mem: Memory, r: Addr, right: Addr, s: seq<char>, b: Addr)
    requires Live(mem, r) && Live(mem, right) && mem[right].kind.LeafK? && r != right
    ensures Links(Grown(mem, r, right, s))[b] == Links(mem)[b]
  {
    hide Links;
    var c := mem[right].(kind := LeafK(mem[right].kind.data + s), size := mem[right].size + |s|);
    LinksKept(mem, right, c, b);
    LinksKept(mem[right := c], r, mem[r].(rc := 2, size := mem[r].size + |s|), b);
  }

  lemma GrowCounted(mem: Memory, owned: multiset<Addr>, r: Addr, left: Addr, right: Addr, s: seq<char>, b: Addr)
    requires Growable(mem, owned, r, left, right)
    ensures CountedAt(Grown(mem, r, right, s), owned + multiset{r}, b)
  {
    hide CellOk, Links, WellFormed, CellLinks, KindLinks;
    GrowableApart(mem, owned, r, left, right, right);
    PrivateRoot(mem, owned, r, r);
    assert CountedAt(mem, owned, b);
    hide Counted;
    GrowLinks(mem, r, right, s, b);
  }

  lemma GrowUnseen(mem: Memory, owned: multiset<Addr>, r: Addr, left: Addr, right: Addr, s: seq<char>, b: Addr)
    requires Growable(mem, owned, r, left, right) && Live(mem, b) && b != r && b != right
    ensures Live(Grown(mem, r, right, s), b) && Tree(Grown(mem, r, right, s), b) == Tree(mem, b)
  {
    GrowInv(mem, owned, r, left, right, s);
    hide Fib, CellOk, Links, CellLinks, Tree, Counted;
    var mem' := Grown(mem, r, right, s);
    forall x: Addr ensures Untouched(mem, mem', {r, right}, x) {
      if Live(mem, x) && x != r && x != right {
        GrowableApart(mem, owned, r, left, right, x);
        LinksAvoid(mem[x], r);
        LinksAvoid(mem[x], right);
      }
    }
    hide WellFormed;
    TreeUntouched(mem, mem', {r, right}, b);
  }

  lemma GrowIsolated(mem: Memory, owned: multiset<Addr>, r: Addr, left: Addr, right: Addr, s: seq<char>)
    requires Growable(mem, owned, r, left, right)
    ensures Isolated(mem, owned - multiset{r}, Grown(mem, r, right, s))
  {
    hide WellFormed, Counted, Tree, Grown;
    WithoutRoot(mem, owned, r);
    GrowableApart(mem, owned, r, left, right, right);
    forall b: Addr | b in owned - multiset{r}
      ensures Live(Grown(mem, r, right, s), b) && Tree(Grown(mem, r, right, s), b) == Tree(mem, b)
    {
      OwnedLive(mem, owned, b);
      GrowUnseen(mem, owned, r, left, right, s, b);
    }
  }

  lemma GrowTree(mem: Memory, owned: multiset<Addr>, r: Addr, left: Addr, right: Addr, s: seq<char>)
    requires Growable(mem, owned, r, left, right)
    ensures Live(Grown(mem, r, right, s), r) && Tree(mem, r).Join? && Tree(mem, r).right == Leaf(mem[right].kind.data)
    ensures Tree(Grown(mem, r, right, s), r)
         == Join(Tree(mem, r).left, Leaf(mem[right].kind.data + s), Tree(mem, r).balanced)
  {
    GrowableApart(mem, owned, r, left, right, left);
    GrowInv(mem, owned, r, left, right, s);
    GrowUnseen(mem, owned, r, left, right, s, left);
    JoinChildren(mem, r);
    JoinChildren(Grown(mem, r, right, s), r);
    hide WellFormed, Counted;
  }

  lemma LeafCell(mem: Memory, a: Addr)
    requires WellFormed(mem) && Live(mem, a) && mem[a].kind.LeafK?
    ensures mem[a].size == |mem[a].kind.data| && mem[a].depth == 0 && mem[a].balanced && CellLinks(mem[a]) == multiset{}
  {
    assert CellOk(mem, a);
  }

  /** Adding a node leaves r as private as it was. */
  lemma StaysPrivate(mem: Memory, owned: multiset<Addr>, mem': Memory, owned': multiset<Addr>, r: Addr, n: Addr)
    requires Private(mem, owned, r) && Inv(mem', owned') && owned' == owned + multiset{n} && n == |mem|
    requires mem <= mem' && r in owned'
    ensures Private(mem', owned', r) && n != r && mem'[r] == mem[r]
  {
  }

  // ---------- a new right leaf for a private root ----------

  /** The new leaf n is owned by the caller, who gets the reference to the old right child back. */
  lemma Relink(mem: Memory, owned: multiset<Addr>, r: Addr, left: Addr, right: Addr, n: Addr, data: seq<char>)
    requires Private(mem, owned, r) && mem[r].kind == JoinK(left, right) && Live(mem, right) && mem[right].kind.LeafK?
    requires n in owned && Live(mem, n) && mem[n].kind == LeafK(data) && n != r && mem[right].size <= |data|
    ensures var size := mem[r].size - mem[right].size + |data|;
      var mem' := mem[r := mem[r].(rc := 2, kind := JoinK(left, n), size := size)];
      && size >= 0 && Inv(mem', owned - multiset{n} + multiset{right} + multiset{r})
      && Tree(mem, r).Join? && Tree(mem', r) == Join(Tree(mem, r).left, Leaf(data), Tree(mem, r).balanced)
  {
    hide Fib, Links, Counted, Tree;
    assert CellOk(mem, r) && CellOk(mem, n) && CellOk(mem, right) && Live(mem, left);
    PrivateRoot(mem, owned, r, r);
    var kind, size := JoinK(left, n), mem[r].size - mem[right].size + |data|;
    var owned' := owned - multiset{n} + multiset{right} + multiset{r};
    assert CellLinks(mem[r]) == multiset{left, right};
    assert owned' == owned + multiset{left, right} - multiset{left, n} + multiset{r};
    Rewrite(mem, owned, r, kind, size);
    var c := mem[r].(rc := 2, kind := kind, size := size);
    RewriteUnseen(mem, owned, r, c, owned', left);
    JoinChildren(mem, r);
    JoinChildren(mem[r := c], r);
  }
}
