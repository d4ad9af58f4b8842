/** Ropes as handles on shared, reference-counted nodes. Every method follows the original pointer by pointer and
    is proved to build the tree that RopeTree.dfy and RopeOps.dfy describe, to keep every reference count exact, and
    to leave what other ropes stand for alone. */
module RopeHeap {
  import opened Options
  import opened RopeTree
  import opened RopeLoops
  import opened RopeMemory
  import opened RopeInPlace
  import Ops = RopeOps

  lemma TakeBack<T>(s: multiset<T>, x: multiset<T>, y: multiset<T>)
    ensures (s + (x + y)) - x - y == s && (s + x) - x == s
  {
  }

  lemma Exchange<T>(s: multiset<T>, a: T, b: T)
    requires a in s
    ensures s + multiset{b} - multiset{a} == s - multiset{a} + multiset{b} && a in s + multiset{b} && b in s + multiset{b} - multiset{a}
  {
  }

  lemma TakeBackMiddle<T>(s: multiset<T>, x: multiset<T>, y: multiset<T>)
    ensures s + x + y - x == s + y
  {
  }

  /** Two references gained and handed to a new node. */
  lemma HandOver<T>(s: multiset<T>, a: T, b: T, y: T)
    ensures s + multiset{a} + multiset{b} - multiset{a, b} + multiset{y} == s + multiset{y}
    ensures s + multiset{a} + multiset{b} - multiset{b, a} + multiset{y} == s + multiset{y}
  {
  }

  lemma RegroupRefs<T>(s: multiset<T>, x: multiset<T>, y: multiset<T>, z: multiset<T>)
    ensures x + y <= s + x + y && s + x + y - (x + y) + z == s + z
  {
  }

  lemma SwapLast(s: multiset<Addr>, x: multiset<Addr>, y: multiset<Addr>)
    ensures s + x + y == s + (x + OptRefs(None)) + y
  {
  }

  lemma DropTwo<T>(s: multiset<T>, x: multiset<T>, y: multiset<T>, z: multiset<T>)
    ensures x <= s + (x + y) + z && y <= s + (x + y) + z - x
    ensures s + (x + y) + z - x - y == s + z
  {
  }

  lemma Rearrange<T>(rest: multiset<T>, x: multiset<T>, f: multiset<T>, a: multiset<T>, y: multiset<T>)
    ensures (rest + x) + (f + a) == (rest + f) + (a + x)
    ensures (rest + y) + f == (rest + f) + y
  {
  }

  lemma NoneRefs()
    ensures OptRefs(None) == multiset{}
  {
  }

  class NodeStore {
    var mem: Memory
    /** The references held outside the nodes: by rope handles, local variables and the forest. */
    ghost var owned: multiset<Addr>

    ghost predicate Good()
      reads this
    {
      Inv(mem, owned)
    }

    constructor ()
      ensures Good() && owned == multiset{} && mem == []
    {
      mem, owned := [], multiset{};
    }

    // ---------- references ----------

    /** _M_ref_nonnil */
    method Ref(a: Addr)
      requires Good() && Live(mem, a)
      modifies this
      ensures Good() && owned == old(owned) + multiset{a} && Preserves(old(mem), mem)
      ensures mem == old(mem)[a := old(mem)[a].(rc := old(mem)[a].rc + 1)]
    {
      assert CountedAt(mem, owned, a);
      Recount(mem, owned, a, mem[a].rc + 1, owned + multiset{a});
      mem := mem[a := mem[a].(rc := mem[a].rc + 1)];
      owned := owned + multiset{a};
    }

    /** _M_decr, when other references remain. */
    method Decrement(a: Addr)
      requires Good() && a in owned && Live(mem, a) && mem[a].rc > 1
      modifies this
      ensures Good() && owned == old(owned) - multiset{a} && Preserves(old(mem), mem)
    {
      assert CountedAt(mem, owned, a);
      Recount(mem, owned, a, mem[a].rc - 1, owned - multiset{a});
      mem := mem[a := mem[a].(rc := mem[a].rc - 1)];
      owned := owned - multiset{a};
    }

    /** _M_unref_nonnil */
    method Unref(a: Addr)
      requires Good() && a in owned
      modifies this
      ensures Good() && owned == old(owned) - multiset{a} && Preserves(old(mem), mem)
      decreases if Live(mem, a) then Rank(mem[a]) else 0, 2
    {
      OwnedLive(mem, owned, a);
      if mem[a].rc > 1 { Decrement(a); } else { FreeTree(a); }
    }

    /** _M_free_tree with the node destructors: the node goes, and gives up the references it held. */
    method FreeTree(a: Addr)
      requires Good() && a in owned && Live(mem, a) && mem[a].rc == 1
      modifies this
      ensures Good() && owned == old(owned) - multiset{a} && Preserves(old(mem), mem)
      decreases Rank(mem[a]), 1
    {
      Destroy(mem, owned, a);
      ghost var m0, rest := mem, owned - multiset{a};
      var kind := mem[a].kind;
      mem := mem[a := Free];
      owned := rest + KindLinks(kind);
      hide CellOk, Counted, Preserves, Rank;
      match kind
      case JoinK(left, right) =>
        assert KindLinks(kind) == multiset{left} + multiset{right};
        UnrefChild(left, m0, a);
        UnrefChild(right, m0, a);
        TakeBack(rest, multiset{left}, multiset{right});
      case WindowK(base, _) =>
        UnrefChild(base, m0, a);
        TakeBack(rest, multiset{base}, multiset{});
      case _ =>
    }

    /** Gives up a reference that the destroyed node a held. */
    method UnrefChild(b: Addr, ghost m0: Memory, ghost a: Addr)
      requires Good() && b in owned && WellFormed(m0) && Preserves(m0, mem) && Live(m0, a) && b in CellLinks(m0[a])
      modifies this
      ensures Good() && owned == old(owned) - multiset{b} && Preserves(m0, mem)
      decreases Rank(m0[a]), 0
    {
      OwnedLive(mem, owned, b);
      RankDecreases(m0, mem, a, b);
      Unref(b);
      PreservesTransitive(m0, old(mem), mem);
    }

    method UnrefOpt(o: Option<Addr>)
      requires Good() && OptRefs(o) <= owned
      modifies this
      ensures Good() && owned == old(owned) - OptRefs(o) && Preserves(old(mem), mem)
    {
      if o.Some? { Unref(o.value); }
    }

    // ---------- node constructors ----------

    method NewNode(kind: Kind, size: nat, depth: nat) returns (a: Addr)
      requires Good() && KindLinks(kind) <= owned
      requires CellOk(mem + [Node(1, kind, size, depth, !kind.JoinK?)], |mem|)
      modifies this
      ensures a == |old(mem)| && mem == old(mem) + [Node(1, kind, size, depth, !kind.JoinK?)]
      ensures Good() && owned == old(owned) - KindLinks(kind) + multiset{a} && Preserves(old(mem), mem)
    {
      a := |mem|;
      var node := Node(1, kind, size, depth, !kind.JoinK?);
      Construct(mem, owned, node);
      mem := mem + [node];
      owned := owned - KindLinks(kind) + multiset{a};
    }

    method NewLeaf(data: seq<char>) returns (a: Addr)
      requires Good() && data != []
      modifies this
      ensures Good() && owned == old(owned) + multiset{a} && Preserves(old(mem), mem)
      ensures a == |old(mem)| && Live(mem, a) && Tree(mem, a) == Leaf(data)
      ensures mem == old(mem) + [Node(1, LeafK(data), |data|, 0, true)]
    {
      a := NewNode(LeafK(data), |data|, 0);
    }

    method NewProducer(produced: seq<char>) returns (a: Addr)
      requires Good() && produced != []
      modifies this
      ensures Good() && owned == old(owned) + multiset{a} && Preserves(old(mem), mem)
      ensures a == |old(mem)| && Live(mem, a) && Tree(mem, a) == Producer(produced)
    {
      a := NewNode(ProducerK(produced), |produced|, 0);
    }

    method NewWindow(base: Addr, start: nat, len: nat) returns (a: Addr)
      requires Good() && Live(mem, base) && FlatKind(mem[base].kind) && 0 < len && start + len <= mem[base].size
      modifies this
      ensures Good() && owned == old(owned) + multiset{a} && Preserves(old(mem), mem)
      ensures Live(mem, a) && Tree(mem, a) == Window(Tree(old(mem), base), start, len)
    {
      Ref(base);
      ghost var m1 := mem;
      a := NewNode(WindowK(base, start), len, 0);
      PreservesTransitive(old(mem), m1, mem);
    }

    /** The constructor of a concatenation takes over the references to both children. */
    method NewJoin(left: Addr, right: Addr) returns (a: Addr)
      requires Good() && multiset{left, right} <= owned
      requires Live(mem, left) && mem[left].depth <= MAX_DEPTH && Live(mem, right) && mem[right].depth <= MAX_DEPTH
      modifies this
      ensures Good() && owned == old(owned) - multiset{left, right} + multiset{a} && Preserves(old(mem), mem)
      ensures a == |old(mem)| && Live(mem, a) && mem[a].kind == JoinK(left, right)
      ensures Tree(mem, a) == Join(Tree(old(mem), left), Tree(old(mem), right), false)
    {
      a := NewNode(JoinK(left, right), mem[left].size + mem[right].size, Max(mem[left].depth, mem[right].depth) + 1);
      TreePreserved(old(mem), mem, left);
      TreePreserved(old(mem), mem, right);
    }

    // ---------- concatenation ----------

    predicate LiveOpt(o: Option<Addr>)
      reads this
    {
      o.Some? ==> Live(mem, o.value)
    }

    /** _S_tree_concat: takes over the references to both children. */
    method TreeConcat(left: Addr, right: Addr) returns (res: Addr)
      requires Good() && multiset{left, right} <= owned && Live(mem, left) && Live(mem, right)
      requires Joinable(Tree(mem, left), Tree(mem, right))
      modifies this
      ensures Good() && owned == old(owned) - multiset{left, right} + multiset{res} && Preserves(old(mem), mem)
      ensures Live(mem, res)
      ensures Tree(mem, res) == RopeTree.TreeConcat(Tree(old(mem), left), Tree(old(mem), right))
      ensures !NeedsRebalance(Tree(old(mem), left), Tree(old(mem), right)) ==> res >= |old(mem)|
      decreases if NeedsRebalance(Tree(mem, left), Tree(mem, right)) then 4 else 0, 0, 0
    {
      hide WellFormed, Counted, Preserves, CellOk, Shaped, Fib, Tree, Content;
      TreeFacts(mem, left);
      TreeFacts(mem, right);
      ghost var rest := owned - multiset{left, right};
      var node := NewJoin(left, right);
      ghost var m1 := mem;
      TreeFacts(mem, node);
      if mem[node].depth > REBALANCE_DEPTH && (mem[node].size < REBALANCE_SIZE || mem[node].depth > MAX_DEPTH) {
        res := BalanceAndDrop(node);
        PreservesTransitive(old(mem), m1, mem);
        assert owned == rest + multiset{res};
      } else {
        res := node;
      }
    }

    /** The rebalancing branch of _S_tree_concat. */
    method BalanceAndDrop(node: Addr) returns (res: Addr)
      requires Good() && node in owned && Live(mem, node)
      requires Shaped(Tree(mem, node)) && Size(Tree(mem, node)) <= MAX_SIZE
      modifies this
      ensures Good() && owned == old(owned) - multiset{node} + multiset{res} && Preserves(old(mem), mem)
      ensures Live(mem, res) && Tree(mem, res) == RopeTree.Balance(Tree(old(mem), node))
      decreases 3, 1, 0
    {
      hide WellFormed, Counted, Preserves, CellOk, Shaped, Fib, Tree, Content;
      res := Balance(node);
      Exchange(old(owned), node, res);
      ghost var m2 := mem;
      Unref(node);
      PreservesTransitive(old(mem), m2, mem);
      StaysOwned(m2, mem, owned, res);
    }

    /** _S_concat on two ropes that are not null; borrows both. */
    method ConcatNodes(left: Addr, right: Addr) returns (res: Addr)
      requires Good() && Live(mem, left) && Live(mem, right) && Joinable(Tree(mem, left), Tree(mem, right))
      modifies this
      ensures Good() && owned == old(owned) + multiset{res} && Preserves(old(mem), mem)
      ensures Live(mem, res)
      ensures Tree(mem, res) == RopeTree.Concat(Tree(old(mem), left), Tree(old(mem), right))
      ensures !Rebalances(Tree(old(mem), left), Tree(old(mem), right)) ==> res >= |old(mem)|
      decreases if Rebalances(Tree(mem, left), Tree(mem, right)) then 4 else 0, 1, 0
    {
      hide WellFormed, Counted, Preserves, CellOk, Fib, Content;
      TreeFacts(mem, left);
      TreeFacts(mem, right);
      if mem[right].kind.LeafK? && mem[left].kind.LeafK? && mem[right].size + mem[left].size <= COPY_MAX {
        res := NewLeaf(mem[left].kind.data + mem[right].kind.data);
        return;
      }
      if mem[right].kind.LeafK? && mem[left].kind.JoinK? {
        var leftleft, leftright := mem[left].kind.left, mem[left].kind.right;
        JoinChildren(mem, left);
        if mem[leftright].kind.LeafK? && mem[leftright].size + mem[right].size <= COPY_MAX {
          res := AppendToRight(left, leftleft, leftright, mem[right].kind.data);
          return;
        }
      }
      res := JoinBoth(left, right);
    }

    /** The general case of _S_concat: both arguments gain a reference, which the new node takes over. */
    method JoinBoth(left: Addr, right: Addr) returns (res: Addr)
      requires Good() && Live(mem, left) && Live(mem, right) && Joinable(Tree(mem, left), Tree(mem, right))
      modifies this
      ensures Good() && owned == old(owned) + multiset{res} && Preserves(old(mem), mem) && Live(mem, res)
      ensures Tree(mem, res) == RopeTree.TreeConcat(Tree(old(mem), left), Tree(old(mem), right))
      ensures !NeedsRebalance(Tree(old(mem), left), Tree(old(mem), right)) ==> res >= |old(mem)|
      decreases if NeedsRebalance(Tree(mem, left), Tree(mem, right)) then 4 else 0, 0, 2
    {
      hide WellFormed, Counted, Preserves, CellOk, Fib, Content, Tree, Valid;
      ghost var m0, own0 := mem, owned;
      Ref(left);
      Stays(m0, own0, mem, owned, left);
      Stays(m0, own0, mem, owned, right);
      ghost var m1, own1 := mem, owned;
      Ref(right);
      Stays(m1, own1, mem, owned, left);
      Stays(m1, own1, mem, owned, right);
      ghost var m2 := mem;
      res := TreeConcat(left, right);
      PreservesTransitive(m0, m1, m2);
      PreservesTransitive(m0, m2, mem);
      HandOver(own0, left, right, res);
    }

    /** Concatenation of a short leaf onto the short right leaf of a concatenation. */
    method AppendToRight(node: Addr, left: Addr, right: Addr, data: seq<char>) returns (res: Addr)
      requires Good() && Live(mem, node) && mem[node].kind == JoinK(left, right) && Live(mem, left) && Live(mem, right)
      requires mem[right].kind.LeafK? && data != []
      requires Tree(mem, node).Join? && Tree(mem, node).left == Tree(mem, left)
      requires Joinable(Tree(mem, left), Leaf(mem[right].kind.data + data))
      modifies this
      ensures Good() && owned == old(owned) + multiset{res} && Preserves(old(mem), mem) && Live(mem, res)
      ensures Tree(mem, res) == RopeTree.TreeConcat(Tree(old(mem), left), Leaf(old(mem)[right].kind.data + data))
      ensures !NeedsRebalance(Tree(old(mem), left), Leaf(old(mem)[right].kind.data + data)) ==> res >= |old(mem)|
      decreases if NeedsRebalance(Tree(mem, left), Leaf(mem[right].kind.data + data)) then 4 else 0, 0, 2
    {
      hide WellFormed, Counted, Preserves, CellOk, Fib, Content, Valid;
      ghost var m0, own0 := mem, owned;
      var rest := NewLeaf(mem[right].kind.data + data);
      Stays(m0, own0, mem, owned, left);
      ghost var m1, own1 := mem, owned;
      Ref(left);
      Stays(m1, own1, mem, owned, left);
      Stays(m1, own1, mem, owned, rest);
      ghost var m2 := mem;
      res := TreeConcat(left, rest);
      PreservesTransitive(m0, m1, m2);
      PreservesTransitive(m0, m2, mem);
      HandOver(own0, rest, left, res);
    }

    /** _S_concat */
    method Concat(left: Option<Addr>, right: Option<Addr>) returns (res: Option<Addr>)
      requires Good() && LiveOpt(left) && LiveOpt(right) && JoinableOpt(TreeOpt(mem, left), TreeOpt(mem, right))
      modifies this
      ensures Good() && owned == old(owned) + OptRefs(res) && Preserves(old(mem), mem) && LiveOpt(res)
      ensures TreeOpt(mem, res) == ConcatOpt(TreeOpt(old(mem), left), TreeOpt(old(mem), right))
      ensures left.None? ==> res == right
      ensures right.None? ==> res == left
      ensures left.Some? && right.Some? && !Rebalances(Tree(old(mem), left.value), Tree(old(mem), right.value)) ==>
        res.value >= |old(mem)|
      decreases if left.Some? && right.Some? && Rebalances(Tree(mem, left.value), Tree(mem, right.value)) then 4 else 0, 2, 0
    {
      hide WellFormed, Counted, Preserves, CellOk, Fib, Content, Tree, Valid, Rebalances;
      if left.None? || right.None? {
        res := if left.None? then right else left;
        if res.Some? {
          Ref(res.value);
          Stays(old(mem), old(owned), mem, owned, res.value);
        } else {
          PreservesSelf(mem);
        }
      } else {
        var a := ConcatNodes(left.value, right.value);
        res := Some(a);
      }
    }

    /** _S_concat_and_set_balanced: the flag goes to a node just made, or is already set. */
    method ConcatAndSetBalanced(left: Option<Addr>, right: Option<Addr>) returns (res: Addr)
      requires Good() && LiveOpt(left) && LiveOpt(right) && JoinableOpt(TreeOpt(mem, left), TreeOpt(mem, right))
      requires left.Some? || right.Some?
      requires left.Some? && right.Some? ==> !Rebalances(Tree(mem, left.value), Tree(mem, right.value))
      requires left.None? && IsBalanced(Tree(mem, right.value)) ==> Balanced(Tree(mem, right.value))
      requires right.None? && IsBalanced(Tree(mem, left.value)) ==> Balanced(Tree(mem, left.value))
      modifies this
      ensures Good() && owned == old(owned) + multiset{res} && Preserves(old(mem), mem) && Live(mem, res)
      ensures Tree(mem, res) == RopeTree.ConcatAndSetBalanced(TreeOpt(old(mem), left), TreeOpt(old(mem), right))
      decreases 0, 3, 0
    {
      hide WellFormed, Counted, Preserves, CellOk, Fib, Content, Tree, Rebalances, Links;
      var r := Concat(left, right);
      res := r.value;
      TreeFacts(mem, res);
      if MinLen(mem[res].depth) <= mem[res].size && !mem[res].balanced {
        assert left.Some? && right.Some?;
        SetFlag(mem, owned, res);
        FlagTree(mem, res);
        PreservesFlag(old(mem), mem, res);
        mem := mem[res := mem[res].(balanced := true)];
      }
    }

    // ---------- rebalancing ----------

    /** The forest and everyone else own what is owned. */
    ghost predicate ForestGood(forest: array<Option<Addr>>, rest: multiset<Addr>)
      reads this, forest
    {
      Good() && forest.Length == MAX_DEPTH + 1 && owned == rest + ForestRefs(forest[..])
    }

    /** One merge in either loop of _S_add_leaf_to_forest: the tree in slot i is joined with x, and both are
        given up. */
    method MergeSlot(forest: array<Option<Addr>>, i: nat, x: Option<Addr>, ghost rest: multiset<Addr>) returns (y: Addr)
      requires i < forest.Length && forest[i].Some? && ForestGood(forest, rest + OptRefs(x))
      requires JoinableOpt(TreeOpt(mem, forest[i]), TreeOpt(mem, x))
      requires x.Some? ==> !Rebalances(Tree(mem, forest[i].value), Tree(mem, x.value))
      requires IsBalanced(Tree(mem, forest[i].value)) ==> Balanced(Tree(mem, forest[i].value))
      modifies this, forest
      ensures ForestGood(forest, rest + multiset{y}) && Preserves(old(mem), mem) && Live(mem, y)
      ensures forest[..] == old(forest[..])[i := None]
      ensures ForestLive(old(mem), old(forest[..]))
      ensures Trees(mem, forest[..]) == Trees(old(mem), old(forest[..]))[i := None]
      ensures Tree(mem, y) == RopeTree.ConcatAndSetBalanced(TreeOpt(old(mem), old(forest[i])), TreeOpt(old(mem), x))
      decreases 0, 4, 0
    {
      hide WellFormed, Counted, Preserves, CellOk, Fib, Content, Tree, Trees, Rebalances, Links, ForestRefs;
      ghost var m0, f0 := mem, forest[..];
      ForestRefsTake(f0, i);
      ForestOwned(mem, owned, f0);
      assert Live(mem, f0[i].value);
      if x.Some? { OwnedLive(mem, owned, x.value); }
      ghost var others := rest + ForestRefs(f0[i := None]);
      Rearrange(rest, OptRefs(x), ForestRefs(f0[i := None]), OptRefs(f0[i]), multiset{});
      hide ForestLive, OptRefs;
      y := ConcatAndSetBalanced(forest[i], x);
      ghost var m1 := mem;
      Rearrange(rest, OptRefs(x), ForestRefs(f0[i := None]), OptRefs(f0[i]), multiset{y});
      GiveUpBoth(forest[i], x, y, others);
      PreservesTransitive(m0, m1, mem);
      forest[i] := None;
      assert forest[..] == f0[i := None];
      SlotEmptied(m0, f0, i, mem, owned);
    }

    /** The two operands of a merge go; the result stays. */
    method GiveUpBoth(a: Option<Addr>, b: Option<Addr>, y: Addr, ghost others: multiset<Addr>)
      requires Good() && owned == others + (OptRefs(a) + OptRefs(b)) + multiset{y}
      modifies this
      ensures Good() && owned == others + multiset{y} && Preserves(old(mem), mem)
      ensures Live(mem, y) && Live(old(mem), y) && Tree(mem, y) == Tree(old(mem), y)
    {
      hide WellFormed, Counted, Preserves, CellOk, Tree, OptRefs;
      ghost var m0 := mem;
      OwnedLive(mem, owned, y);
      DropTwo(others, OptRefs(a), OptRefs(b), multiset{y});
      UnrefOpt(a);
      ghost var m1 := mem;
      UnrefOpt(b);
      PreservesTransitive(m0, m1, mem);
      StaysOwned(m0, mem, owned, y);
    }

    /** The first loop of _S_add_leaf_to_forest. */
    method MergeTiny(s: nat, forest: array<Option<Addr>>, ghost rest: multiset<Addr>) returns (i: nat, tiny: Option<Addr>)
      requires ForestGood(forest, rest) && MergeTinyPre(Trees(mem, forest[..]), s, 0, None)
      modifies this, forest
      ensures ForestGood(forest, rest + OptRefs(tiny)) && Preserves(old(mem), mem) && LiveOpt(tiny)
      ensures ForestLive(old(mem), old(forest[..]))
      ensures RopeTree.MergeTiny(Trees(old(mem), old(forest[..])), s, 0, None)
           == Merged(Trees(mem, forest[..]), i, TreeOpt(mem, tiny))
      decreases 1, 0, 0
    {
      hide WellFormed, Counted, Preserves, CellOk, Fib, Content, Tree, Trees, Rebalances, Links, ForestRefs;
      hide RopeTree.MergeTiny;
      i, tiny := 0, None;
      ghost var m0, f0 := mem, Trees(mem, forest[..]);
      ForestOwned(mem, owned, forest[..]);
      PreservesSelf(mem);
      while true
        invariant ForestGood(forest, rest + OptRefs(tiny)) && Preserves(m0, mem) && LiveOpt(tiny)
        invariant MergeTinyPre(Trees(mem, forest[..]), s, i, TreeOpt(mem, tiny))
        invariant RopeTree.MergeTiny(f0, s, 0, None) == RopeTree.MergeTiny(Trees(mem, forest[..]), s, i, TreeOpt(mem, tiny))
        decreases MAX_DEPTH - i
      {
        if s < MinLen(i + 1) {
          MergeTinyDone(Trees(mem, forest[..]), s, i, TreeOpt(mem, tiny));
          break;
        }
        MergeTinyStep(Trees(mem, forest[..]), s, i, TreeOpt(mem, tiny));
        TreesAt(mem, forest[..], i);
        if forest[i].Some? {
          ghost var m1 := mem;
          var y := MergeSlot(forest, i, tiny, rest);
          tiny := Some(y);
          PreservesTransitive(m0, m1, mem);
        } else {
          assert Trees(mem, forest[..])[i := None] == Trees(mem, forest[..]);
        }
        i := i + 1;
      }
    }

    /** The second loop of _S_add_leaf_to_forest. */
    method Place(x0: Addr, i0: nat, forest: array<Option<Addr>>, ghost rest: multiset<Addr>)
      requires ForestGood(forest, rest + multiset{x0}) && Live(mem, x0)
      requires PlacePre(Trees(mem, forest[..]), Tree(mem, x0), i0)
      modifies this, forest
      ensures ForestGood(forest, rest) && Preserves(old(mem), mem) && ForestLive(mem, forest[..])
      ensures Trees(mem, forest[..]) == RopeTree.Place(Trees(old(mem), old(forest[..])), Tree(old(mem), x0), i0)
      decreases 1, 0, 0
    {
      hide WellFormed, Counted, Preserves, CellOk, Fib, Content, Tree, Trees, Rebalances, Links, ForestRefs, ForestLive;
      hide RopeTree.Place, CarriedOn;
      var x, i := x0, i0;
      ghost var m0, f0 := mem, Trees(mem, forest[..]);
      PreservesSelf(mem);
      while true
        invariant ForestGood(forest, rest + multiset{x}) && Preserves(m0, mem) && Live(mem, x)
        invariant PlacePre(Trees(mem, forest[..]), Tree(mem, x), i)
        invariant RopeTree.Place(f0, Tree(m0, x0), i0) == RopeTree.Place(Trees(mem, forest[..]), Tree(mem, x), i)
        decreases MAX_DEPTH - i
      {
        ghost var m1 := mem;
        PlaceStep(Trees(mem, forest[..]), Tree(mem, x), i);
        x := AbsorbSlot(forest, i, x, rest);
        PreservesTransitive(m0, m1, mem);
        TreeFacts(mem, x);
        if i == MAX_DEPTH || mem[x].size < MinLen(i + 1) {
          StoreTree(forest, i, x, rest);
          break;
        }
        i := i + 1;
      }
    }

    /** One round: what is in slot i, if anything, goes in front of x. */
    method AbsorbSlot(forest: array<Option<Addr>>, i: nat, x: Addr, ghost rest: multiset<Addr>) returns (y: Addr)
      requires ForestGood(forest, rest + multiset{x}) && Live(mem, x) && PlacePre(Trees(mem, forest[..]), Tree(mem, x), i)
      modifies this, forest
      ensures ForestGood(forest, rest + multiset{y}) && Preserves(old(mem), mem) && Live(mem, y)
      ensures |Trees(old(mem), old(forest[..]))| == forest.Length > i && forest[i] == None
      ensures Trees(mem, forest[..]) == Trees(old(mem), old(forest[..]))[i := None]
      ensures Tree(mem, y) == CarriedOn(Trees(old(mem), old(forest[..])), Tree(old(mem), x), i)
      decreases 0, 5, 0
    {
      hide WellFormed, Counted, Preserves, CellOk, Fib, Content, Tree, Trees, Rebalances, Links, ForestRefs, ForestLive;
      hide RopeTree.Place;
      y := x;
      ghost var f := Trees(mem, forest[..]);
      PreservesSelf(mem);
      PlaceStep(f, Tree(mem, x), i);
      TreesAt(mem, forest[..], i);
      if forest[i].Some? {
        y := MergeSlot(forest, i, Some(x), rest);
      } else {
        assert f[i := None] == f;
      }
    }

    method StoreTree(forest: array<Option<Addr>>, i: nat, x: Addr, ghost rest: multiset<Addr>)
      requires i < forest.Length && forest[i] == None && ForestGood(forest, rest + multiset{x})
      modifies forest
      ensures ForestGood(forest, rest) && ForestLive(mem, forest[..])
      ensures Trees(mem, forest[..]) == Trees(mem, old(forest[..]))[i := Some(Tree(mem, x))]
    {
      hide WellFormed, Counted, CellOk, Tree, Trees, ForestRefs;
      ForestRefsPut(forest[..], i, Some(x));
      TreesPut(mem, forest[..], i, Some(x));
      Rearrange(rest, multiset{x}, ForestRefs(forest[..]), multiset{}, multiset{});
      assert forest[..][i := Some(x)] == old(forest[..])[i := Some(x)];
      ghost var f := forest[..][i := Some(x)];
      forest[i] := Some(x);
      assert forest[..] == f;
      assert owned == rest + ForestRefs(f);
      ForestOwned(mem, owned, f);
    }

    /** _S_add_leaf_to_forest: borrows the node at the end of the path. */
    method AddLeafToForest(forest: array<Option<Addr>>, r: Addr, ghost rest: multiset<Addr>, ghost path: seq<Addr>)
      requires ForestGood(forest, rest) && Chain(mem, path) && path[0] in rest && path[|path| - 1] == r
      requires Live(mem, r) && Shaped(Tree(mem, r)) && Balanced(Tree(mem, r)) && IsBalanced(Tree(mem, r))
      requires ForestOk(Trees(mem, forest[..])) && ForestSize(Trees(mem, forest[..]), 0) + Size(Tree(mem, r)) <= MAX_SIZE
      modifies this, forest
      ensures ForestGood(forest, rest) && Preserves(old(mem), mem) && ForestLive(mem, forest[..])
      ensures Trees(mem, forest[..]) == RopeTree.AddLeafToForest(Tree(old(mem), r), Trees(old(mem), old(forest[..])))
      decreases 1, 1, 0
    {
      hide WellFormed, Counted, Preserves, CellOk, Fib, Content, Tree, Trees, Rebalances, Links, ForestRefs, ForestLive;
      hide RopeTree.Place, RopeTree.MergeTiny, RopeTree.AddLeafToForest, Chain, RopeTree.ConcatAndSetBalanced, Shaped;
      hide RopeTree.ForestOk, PlacePre, MergeTinyPre, IsBalanced;
      ghost var m0 := mem;
      AddLeafSteps(Tree(mem, r), Trees(mem, forest[..]));
      TreeFacts(mem, r);
      var i, tiny := MergeTiny(mem[r].size, forest, rest);
      Borrowed(m0, mem, owned, path);
      ghost var m1 := mem;
      var x := JoinTiny(forest, tiny, r, rest);
      PreservesTransitive(m0, m1, mem);
      ghost var m2 := mem;
      Place(x, i, forest, rest);
      PreservesTransitive(m0, m2, mem);
    }

    /** The middle part: the insertee is made, and the tiny prefixes are given up. */
    method JoinTiny(forest: array<Option<Addr>>, tiny: Option<Addr>, r: Addr, ghost rest: multiset<Addr>) returns (x: Addr)
      requires ForestGood(forest, rest + OptRefs(tiny)) && LiveOpt(tiny) && Live(mem, r)
      requires JoinableOpt(TreeOpt(mem, tiny), Some(Tree(mem, r)))
      requires tiny.Some? ==> !Rebalances(Tree(mem, tiny.value), Tree(mem, r))
      requires IsBalanced(Tree(mem, r)) ==> Balanced(Tree(mem, r))
      modifies this
      ensures ForestGood(forest, rest + multiset{x}) && Preserves(old(mem), mem) && Live(mem, x)
      ensures Trees(mem, forest[..]) == Trees(old(mem), forest[..])
      ensures Tree(mem, x) == RopeTree.ConcatAndSetBalanced(TreeOpt(old(mem), tiny), Some(Tree(old(mem), r)))
      decreases 0, 4, 0
    {
      hide WellFormed, Counted, Preserves, CellOk, Fib, Content, Tree, Trees, Rebalances, Links, ForestRefs, OptRefs;
      ghost var m0 := mem;
      ForestOwned(mem, owned, forest[..]);
      hide ForestLive;
      Rearrange(rest, OptRefs(tiny), ForestRefs(forest[..]), multiset{}, multiset{});
      x := ConcatAndSetBalanced(tiny, Some(r));
      ghost var m1 := mem;
      Rearrange(rest, OptRefs(tiny), ForestRefs(forest[..]), multiset{}, multiset{x});
      NoneRefs();
      GiveUpBoth(tiny, None, x, rest + ForestRefs(forest[..]));
      PreservesTransitive(m0, m1, mem);
      TreesPreserved(m0, mem, owned, forest[..]);
    }

    /** _S_add_to_forest: borrows the node at the end of the path. */
    method AddToForest(forest: array<Option<Addr>>, r: Addr, ghost rest: multiset<Addr>, ghost path: seq<Addr>)
      requires ForestGood(forest, rest) && Chain(mem, path) && path[0] in rest && path[|path| - 1] == r
      requires Live(mem, r) && Shaped(Tree(mem, r))
      requires ForestOk(Trees(mem, forest[..])) && ForestSize(Trees(mem, forest[..]), 0) + Size(Tree(mem, r)) <= MAX_SIZE
      modifies this, forest
      ensures ForestGood(forest, rest) && Preserves(old(mem), mem) && ForestLive(mem, forest[..])
      ensures Trees(mem, forest[..]) == RopeTree.AddToForest(Tree(old(mem), r), Trees(old(mem), old(forest[..])))
      decreases 2, mem[r].depth, 0
    {
      hide WellFormed, Counted, Preserves, CellOk, Fib, Content, Tree, Trees, Links, ForestRefs, ForestLive;
      assert path != [] && forall b: Addr :: (path + [b])[0] == path[0];
      hide RopeTree.AddLeafToForest, Chain, RopeTree.ForestOk, IsBalanced, Shaped;
      TreeFacts(mem, r);
      if mem[r].balanced {
        FlatIsBalanced(Tree(mem, r));
        AddLeafToForest(forest, r, rest, path);
        return;
      }
      ghost var m0, f0 := mem, Trees(mem, forest[..]);
      AddBranch(Tree(mem, r), f0);
      assert mem[r].kind.JoinK?;
      JoinChildren(mem, r);
      var left, right := mem[r].kind.left, mem[r].kind.right;
      ChainChild(mem, path, left);
      AddToForest(forest, left, rest, path + [left]);
      Borrowed(m0, mem, owned, path);
      JoinChildren(mem, r);
      ChainChild(mem, path, right);
      ghost var m1 := mem;
      AddToForest(forest, right, rest, path + [right]);
      PreservesTransitive(m0, m1, mem);
    }

    /** The last loop of _S_balance. */
    method JoinForest(forest: array<Option<Addr>>, ghost rest: multiset<Addr>) returns (result: Option<Addr>)
      requires ForestGood(forest, rest) && JoinForestPre(Trees(mem, forest[..]), 0, None)
      modifies this, forest
      ensures Good() && Preserves(old(mem), mem) && LiveOpt(result) && owned == rest + OptRefs(result)
      ensures TreeOpt(mem, result) == RopeTree.JoinForest(Trees(old(mem), old(forest[..])), 0, None)
      decreases 1, 0, 0
    {
      hide WellFormed, Counted, Preserves, CellOk, Fib, Content, Tree, Trees, Rebalances, Links, ForestLive, ForestRefs;
      hide RopeTree.JoinForest, JoinForestPre, SameFrom, EmptyUpTo;
      ghost var m0, f := mem, Trees(mem, forest[..]);
      result := None;
      PreservesSelf(mem);
      TreesAt(mem, forest[..], 0);
      SameFromStart(f);
      EmptyUpToStart(forest[..]);
      NoneRefs();
      var i := 0;
      while i < forest.Length
        invariant 0 <= i <= forest.Length && |f| == forest.Length
        invariant ForestGood(forest, rest + OptRefs(result)) && Preserves(m0, mem) && LiveOpt(result)
        invariant SameFrom(f, Trees(mem, forest[..]), i) && EmptyUpTo(forest[..], i)
        invariant JoinForestPre(f, i, TreeOpt(mem, result))
        invariant RopeTree.JoinForest(f, 0, None) == RopeTree.JoinForest(f, i, TreeOpt(mem, result))
      {
        JoinForestStep(f, i, TreeOpt(mem, result));
        SameFromAt(f, Trees(mem, forest[..]), i);
        TreesAt(mem, forest[..], i);
        EmptyUpToStep(forest[..], i);
        if forest[i].Some? {
          ghost var m1 := mem;
          var y := JoinSlot(forest, i, result, rest);
          result := Some(y);
          PreservesTransitive(m0, m1, mem);
        }
        i := i + 1;
      }
      JoinForestDone(f, TreeOpt(mem, result));
      EmptyUpToEnd(forest[..]);
    }

    /** One step of that loop: the tree in slot i is joined with the tail, and both are given up. */
    method JoinSlot(forest: array<Option<Addr>>, i: nat, tail: Option<Addr>, ghost rest: multiset<Addr>) returns (y: Addr)
      requires i < forest.Length && forest[i].Some? && ForestGood(forest, rest + OptRefs(tail))
      requires JoinableOpt(TreeOpt(mem, forest[i]), TreeOpt(mem, tail))
      requires tail.Some? ==> !Rebalances(Tree(mem, forest[i].value), Tree(mem, tail.value))
      modifies this, forest
      ensures ForestGood(forest, rest + multiset{y}) && Preserves(old(mem), mem) && Live(mem, y)
      ensures forest[..] == old(forest[..])[i := None]
      ensures ForestLive(old(mem), old(forest[..]))
      ensures Trees(mem, forest[..]) == Trees(old(mem), old(forest[..]))[i := None]
      ensures Some(Tree(mem, y)) == ConcatOpt(TreeOpt(old(mem), old(forest[i])), TreeOpt(old(mem), tail))
      decreases 0, 4, 0
    {
      hide WellFormed, Counted, Preserves, CellOk, Fib, Content, Tree, Trees, Rebalances, Links, ForestRefs;
      ghost var m0, f0 := mem, forest[..];
      ForestRefsTake(f0, i);
      ForestOwned(mem, owned, f0);
      assert Live(mem, f0[i].value);
      if tail.Some? { OwnedLive(mem, owned, tail.value); }
      ghost var others := rest + ForestRefs(f0[i := None]);
      Rearrange(rest, OptRefs(tail), ForestRefs(f0[i := None]), OptRefs(f0[i]), multiset{});
      hide ForestLive;
      var r := Concat(forest[i], tail);
      y := r.value;
      assert OptRefs(r) == multiset{y};
      hide OptRefs;
      ghost var m1 := mem;
      Rearrange(rest, OptRefs(tail), ForestRefs(f0[i := None]), OptRefs(f0[i]), multiset{y});
      GiveUpBoth(forest[i], tail, y, others);
      PreservesTransitive(m0, m1, mem);
      forest[i] := None;
      assert forest[..] == f0[i := None];
      SlotEmptied(m0, f0, i, mem, owned);
    }

    method NewForest() returns (forest: array<Option<Addr>>)
      requires Good()
      ensures fresh(forest) && ForestGood(forest, owned) && Trees(mem, forest[..]) == NoTrees()
    {
      hide WellFormed, Counted;
      forest := new Option<Addr>[MAX_DEPTH + 1](_ => None);
      EmptySlots(mem, forest[..]);
    }

    /** _S_balance */
    method Balance(r: Addr) returns (res: Addr)
      requires Good() && r in owned && Live(mem, r) && Shaped(Tree(mem, r)) && Size(Tree(mem, r)) <= MAX_SIZE
      modifies this
      ensures Good() && owned == old(owned) + multiset{res} && Preserves(old(mem), mem)
      ensures Live(mem, res) && Tree(mem, res) == RopeTree.Balance(Tree(old(mem), r))
      decreases 3, 0, 0
    {
      assert Chain(mem, [r]);
      hide WellFormed, Counted, Preserves, CellOk, Fib, Content, Tree, Trees, Links, ForestRefs, ForestLive, Shaped;
      hide RopeTree.AddToForest, RopeTree.JoinForest, RopeTree.Balance, RopeTree.ForestOk, ForestSize, JoinForestPre;
      hide Chain, NoTrees, Live;
      ghost var m0, own0 := mem, owned;
      var forest := NewForest();
      BalanceSteps(Tree(mem, r));
      AddToForest(forest, r, own0, [r]);
      ghost var m1 := mem;
      var result := JoinForest(forest, own0);
      PreservesTransitive(m0, m1, mem);
      res := result.value;
    }

    // ---------- append ----------

    /** The last case of both append functions: a new leaf, and a new node above it and r. */
    method JoinNewLeaf(r: Addr, s: seq<char>) returns (res: Addr)
      requires Good() && Live(mem, r) && s != [] && Joinable(Tree(mem, r), Leaf(s))
      modifies this
      ensures Good() && owned == old(owned) + multiset{res} && Preserves(old(mem), mem) && Live(mem, res)
      ensures Tree(mem, res) == RopeTree.TreeConcat(Tree(old(mem), r), Leaf(s))
    {
      hide WellFormed, Counted, Preserves, CellOk, Fib, Content, Tree, Valid;
      ghost var m0, own0 := mem, owned;
      var right := NewLeaf(s);
      Stays(m0, own0, mem, owned, r);
      ghost var m1, own1 := mem, owned;
      Ref(r);
      Stays(m1, own1, mem, owned, r);
      Stays(m1, own1, mem, owned, right);
      ghost var m2 := mem;
      res := TreeConcat(r, right);
      PreservesTransitive(m0, m1, m2);
      PreservesTransitive(m0, m2, mem);
      HandOver(own0, right, r, res);
    }

    /** _S_concat_char_iter on a rope that is not null and characters that are not none. */
    method ConcatCharsNode(r: Addr, s: seq<char>) returns (res: Addr)
      requires Good() && Live(mem, r) && s != [] && Joinable(Tree(mem, r), Leaf(s))
      modifies this
      ensures Good() && owned == old(owned) + multiset{res} && Preserves(old(mem), mem) && Live(mem, res)
      ensures Tree(mem, res) == RopeTree.Concat(Tree(old(mem), r), Leaf(s))
    {
      hide WellFormed, Counted, Preserves, CellOk, Fib, Content;
      TreeFacts(mem, r);
      if mem[r].kind.LeafK? && mem[r].size + |s| <= COPY_MAX {
        res := NewLeaf(mem[r].kind.data + s);
        return;
      }
      if mem[r].kind.JoinK? {
        var left, right := mem[r].kind.left, mem[r].kind.right;
        JoinChildren(mem, r);
        if mem[right].kind.LeafK? && mem[right].size + |s| <= COPY_MAX {
          res := AppendToRight(r, left, right, s);
          return;
        }
      }
      res := JoinNewLeaf(r, s);
    }

    /** _S_concat_char_iter: what concatenation with a new leaf would build. */
    method ConcatChars(r: Option<Addr>, s: seq<char>) returns (res: Option<Addr>)
      requires Good() && LiveOpt(r) && JoinableOpt(TreeOpt(mem, r), Ops.Text(s))
      modifies this
      ensures Good() && owned == old(owned) + OptRefs(res) && Preserves(old(mem), mem) && LiveOpt(res)
      ensures TreeOpt(mem, res) == ConcatOpt(TreeOpt(old(mem), r), Ops.Text(s))
    {
      hide WellFormed, Counted, Preserves, CellOk, Fib, Content, Tree, Valid;
      if s == [] {
        if r.Some? { res := RefSelf(r.value); } else { res := None; PreservesSelf(mem); }
      } else if r.None? {
        var a := NewLeaf(s);
        res := Some(a);
      } else {
        var a := ConcatCharsNode(r.value, s);
        res := Some(a);
      }
    }

    /** _S_destr_leaf_concat_char_iter on a leaf that only the caller holds. */
    method GrowLeaf(r: Addr, s: seq<char>) returns (res: Addr)
      requires Private(mem, owned, r) && mem[r].kind.LeafK? && s != []
      modifies this
      ensures Good() && owned == old(owned) + multiset{res} && Live(mem, res)
      ensures Tree(mem, res) == Leaf(old(mem)[r].kind.data + s)
      ensures Isolated(old(mem), old(owned) - multiset{r}, mem)
    {
      hide WellFormed, Counted, Preserves, Links, RoundedUpSize;
      ghost var m0, own0 := mem, owned;
      assert CellOk(mem, r) by { TreeFacts(mem, r); FlatCell(mem, r); LeafCell(mem, r); }
      var data := mem[r].kind.data + s;
      if AllocatedCapacity(mem[r].size) >= mem[r].size + |s| {
        Rewrite(mem, owned, r, LeafK(data), |data|);
        mem := mem[r := mem[r].(rc := 2, kind := LeafK(data), size := |data|)];
        owned := owned + multiset{r};
        assert owned == own0 + CellLinks(m0[r]) - KindLinks(LeafK(data)) + multiset{r};
        RewriteIsolated(m0, own0, r, mem[r], owned, own0 - multiset{r});
        res := r;
      } else {
        res := NewLeaf(data);
        PreservedIsolated(m0, own0, mem, owned, own0 - multiset{r});
      }
    }

    /** The in-place case of _S_destr_concat_char_iter on a concatenation with a short right leaf. */
    method GrowRightLeaf(r: Addr, s: seq<char>) returns (res: Addr)
      requires Private(mem, owned, r) && mem[r].kind.JoinK? && s != []
      requires Live(mem, mem[r].kind.right) && mem[mem[r].kind.right].kind.LeafK? && Valid(Tree(mem, r))
      modifies this
      ensures res == r && Good() && owned == old(owned) + multiset{res} && Live(mem, res)
      ensures Tree(old(mem), r).Join? && Tree(old(mem), r).right.Leaf?
      ensures Tree(mem, res) == Ops.GrowRight(Tree(old(mem), r), s)
      ensures Isolated(old(mem), old(owned) - multiset{r}, mem)
    {
      hide WellFormed, Counted, Preserves, Links, RoundedUpSize, Tree, Valid, CellOk, CellLinks, Isolated;
      ghost var m0, own0 := mem, owned;
      var left, right := mem[r].kind.left, mem[r].kind.right;
      JoinChildren(mem, r);
      if mem[right].rc == 1 && AllocatedCapacity(mem[right].size) >= mem[right].size + |s| {
        GrowInv(mem, owned, r, left, right, s);
        GrowTree(mem, owned, r, left, right, s);
        GrowIsolated(mem, owned, r, left, right, s);
        GrowableApart(mem, owned, r, left, right, right);
        var data := mem[right].kind.data + s;
        mem := mem[right := mem[right].(kind := LeafK(data), size := mem[right].size + |s|)];
        mem := mem[r := mem[r].(rc := 2, size := mem[r].size + |s|)];
        owned := owned + multiset{r};
        assert mem == Grown(m0, r, right, s);
      } else {
        RelinkRight(r, left, right, s);
      }
      res := r;
    }

    /** The right leaf is shared or full: a longer copy takes its place. */
    method RelinkRight(r: Addr, left: Addr, right: Addr, s: seq<char>)
      requires Private(mem, owned, r) && mem[r].kind == JoinK(left, right) && s != []
      requires Live(mem, right) && mem[right].kind.LeafK? && Valid(Tree(mem, r))
      modifies this
      ensures Good() && owned == old(owned) + multiset{r} && Live(mem, r)
      ensures Tree(old(mem), r).Join? && Tree(old(mem), r).right.Leaf?
      ensures Tree(mem, r) == Ops.GrowRight(Tree(old(mem), r), s)
      ensures Isolated(old(mem), old(owned) - multiset{r}, mem)
    {
      hide WellFormed, Counted, Preserves, Links, Tree, Valid, CellLinks, Isolated;
      ghost var m0, own0 := mem, owned;
      JoinChildren(mem, r);
      LeafCell(mem, right);
      hide CellOk;
      var data := mem[right].kind.data + s;
      var n := NewLeaf(data);
      ghost var m1, own1 := mem, owned;
      Stays(m0, own0, m1, own1, r);
      Stays(m0, own0, m1, own1, right);
      PreservedIsolated(m0, own0, m1, own1, own0 - multiset{r});
      StaysPrivate(m0, own0, m1, own1, r, n);
      hide Private;
      assert own1 - multiset{n} == own0;
      SwapRight(r, left, right, n, data);
      IsolatedTransitive(m0, m1, mem, own0 - multiset{r});
    }

    /** r gives up its right child for n, which the caller owns. */
    method SwapRight(r: Addr, left: Addr, right: Addr, n: Addr, data: seq<char>)
      requires Private(mem, owned, r) && mem[r].kind == JoinK(left, right) && Live(mem, right) && mem[right].kind.LeafK?
      requires n in owned && Live(mem, n) && mem[n].kind == LeafK(data) && n != r && mem[right].size <= |data|
      requires mem[right].size <= mem[r].size
      modifies this
      ensures Good() && owned == old(owned) - multiset{n} + multiset{r} && Live(mem, r)
      ensures Tree(old(mem), r).Join?
      ensures Tree(mem, r) == Join(Tree(old(mem), r).left, Leaf(data), Tree(old(mem), r).balanced)
      ensures Isolated(old(mem), old(owned) - multiset{n} - multiset{r}, mem)
    {
      hide WellFormed, Counted, Preserves, Links, Tree, Valid, CellLinks, Isolated, CellOk;
      ghost var m1, own1 := mem, owned;
      ghost var rest, others := owned - multiset{n}, owned - multiset{n} - multiset{r};
      Relink(mem, owned, r, left, right, n, data);
      mem := mem[r := mem[r].(rc := 2, kind := JoinK(left, n), size := mem[r].size - mem[right].size + |data|)];
      owned := rest + multiset{right} + multiset{r};
      ghost var m2, own2 := mem, owned;
      RewriteIsolated(m1, own1, r, mem[r], owned, others);
      Unref(right);
      TakeBackMiddle(rest, multiset{right}, multiset{r});
      PreservedIsolated(m2, own2, mem, owned, others);
      IsolatedTransitive(m1, m2, mem, others);
      StaysOwned(m2, mem, owned, r);
    }

    /** _S_destr_concat_char_iter. When the caller holds the only reference to r, nodes are overwritten; still no
        other owner can tell. */
    method DestrConcatChars(r: Option<Addr>, s: seq<char>) returns (res: Option<Addr>)
      requires Good() && OptRefs(r) <= owned && LiveOpt(r) && JoinableOpt(TreeOpt(mem, r), Ops.Text(s))
      modifies this
      ensures Good() && owned == old(owned) + OptRefs(res) && LiveOpt(res)
      ensures TreeOpt(mem, res) ==
        if r.Some? && old(mem)[r.value].rc > 1 then ConcatOpt(TreeOpt(old(mem), r), Ops.Text(s))
        else Ops.AppendText(TreeOpt(old(mem), r), s)
      ensures Isolated(old(mem), old(owned) - OptRefs(r), mem)
    {
      hide WellFormed, Counted, Preserves, Links, Tree, CellLinks, Valid;
      if r.None? || mem[r.value].rc > 1 || s == [] {
        res := ConcatChars(r, s);
        PreservedIsolated(old(mem), old(owned), mem, owned, old(owned) - OptRefs(r));
      } else {
        OwnedLive(mem, owned, r.value);
        var a := AppendInPlace(r.value, s);
        res := Some(a);
      }
    }

    method AppendInPlace(r: Addr, s: seq<char>) returns (res: Addr)
      requires Private(mem, owned, r) && s != [] && Joinable(Tree(mem, r), Leaf(s))
      modifies this
      ensures Good() && owned == old(owned) + multiset{res} && Live(mem, res)
      ensures Tree(mem, res) == Ops.AppendToRep(Tree(old(mem), r), s)
      ensures Isolated(old(mem), old(owned) - multiset{r}, mem)
    {
      hide WellFormed, Counted, Preserves, Links, CellLinks, Isolated, Valid, Fib;
      TreeFacts(mem, r);
      if mem[r].size + |s| <= COPY_MAX && mem[r].kind.LeafK? {
        res := GrowLeaf(r, s);
        return;
      }
      if mem[r].kind.JoinK? {
        JoinChildren(mem, r);
        var right := mem[r].kind.right;
        if mem[right].kind.LeafK? && mem[right].size + |s| <= COPY_MAX {
          res := GrowRightLeaf(r, s);
          return;
        }
      }
      res := JoinNewLeaf(r, s);
      PreservedIsolated(old(mem), old(owned), mem, owned, old(owned) - multiset{r});
    }

    // ---------- substring ----------

    /** _S_substring on a rope that is not null; borrows it. */
    method Substring(base: Addr, start: nat, endp1: nat) returns (res: Option<Addr>)
      requires Good() && Live(mem, base) && Valid(Tree(mem, base)) && Size(Tree(mem, base)) <= MAX_SIZE
      modifies this
      ensures Good() && owned == old(owned) + OptRefs(res) && Preserves(old(mem), mem) && LiveOpt(res)
      ensures TreeOpt(mem, res) == Ops.Substring(Tree(old(mem), base), start, endp1)
      decreases mem[base].depth, 1
    {
      hide WellFormed, Counted, Preserves, CellOk, Fib, Content, Tree, Rebalances, Links, Ops.CutFlat, Shaped, OptRefs;
      hide ConcatOpt, JoinableOpt;
      TreeFacts(mem, base);
      if endp1 >= mem[base].size && start == 0 {
        res := RefSelf(base);
        return;
      }
      var adj := if endp1 >= mem[base].size then mem[base].size else endp1;
      if mem[base].kind.JoinK? {
        res := SubstringOfJoin(base, start, adj, endp1);
      } else {
        res := SubstringOfFlat(base, start, adj);
      }
    }

    method SubstringOfJoin(base: Addr, start: nat, adj: nat, endp1: nat) returns (res: Option<Addr>)
      requires Good() && Live(mem, base) && mem[base].kind.JoinK?
      requires Valid(Tree(mem, base)) && Size(Tree(mem, base)) <= MAX_SIZE
      requires adj == Min(endp1, mem[base].size) && (endp1 < mem[base].size || start != 0)
      modifies this
      ensures Good() && owned == old(owned) + OptRefs(res) && Preserves(old(mem), mem) && LiveOpt(res)
      ensures TreeOpt(mem, res) == Ops.Substring(Tree(old(mem), base), start, endp1)
      decreases mem[base].depth, 0
    {
      hide WellFormed, Counted, Preserves, CellOk, Fib, Content, Tree, Rebalances, Links, Shaped, OptRefs;
      hide ConcatOpt, JoinableOpt, Depth, Size, Valid, Ops.Substring;
      JoinChildren(mem, base);
      var left, right := mem[base].kind.left, mem[base].kind.right;
      TreeFacts(mem, base);
      TreeFacts(mem, left);
      Ops.JoinValid(Tree(mem, base));
      ghost var tree := Tree(mem, base);
      if adj <= mem[left].size {
        Ops.SizePositive(tree.right);
        Ops.GoLeft(tree, start, endp1);
        res := Substring(left, start, endp1);
      } else if start >= mem[left].size {
        Ops.GoRight(tree, start, adj, endp1);
        res := Substring(right, start - mem[left].size, adj - mem[left].size);
      } else {
        Ops.GoAcross(tree, start, endp1);
        res := SubstringAcross(left, right, start, endp1);
      }
    }

    method RefSelf(a: Addr) returns (res: Option<Addr>)
      requires Good() && Live(mem, a)
      modifies this
      ensures res == Some(a) && Good() && owned == old(owned) + OptRefs(res) && Preserves(old(mem), mem) && Live(mem, a)
      ensures Tree(mem, a) == Tree(old(mem), a)
    {
      hide WellFormed, Counted, Preserves, Tree;
      Ref(a);
      Stays(old(mem), old(owned), mem, owned, a);
      res := Some(a);
    }

    method SubstringOfFlat(base: Addr, start: nat, adj: nat) returns (res: Option<Addr>)
      requires Good() && Live(mem, base) && !mem[base].kind.JoinK? && adj <= mem[base].size
      modifies this
      ensures Good() && owned == old(owned) + OptRefs(res) && Preserves(old(mem), mem) && LiveOpt(res)
      ensures start >= adj ==> res == None
      ensures Shaped(Tree(old(mem), base)) && !Tree(old(mem), base).Join? && adj <= Size(Tree(old(mem), base))
      ensures start < adj ==> TreeOpt(mem, res) == Some(Ops.CutFlat(Tree(old(mem), base), start, adj))
    {
      hide WellFormed, Counted, Preserves, CellOk, Tree, Ops.CutFlat;
      TreeFacts(mem, base);
      if start >= adj {
        PreservesSelf(mem);
        res := None;
      } else {
        var a := CutFlat(base, start, adj);
        res := Some(a);
      }
    }

    method SubstringAcross(left: Addr, right: Addr, start: nat, endp1: nat) returns (res: Option<Addr>)
      requires Good() && Live(mem, left) && Live(mem, right) && Valid(Tree(mem, left)) && Valid(Tree(mem, right))
      requires Size(Tree(mem, left)) + Size(Tree(mem, right)) <= MAX_SIZE
      requires start < Size(Tree(mem, left)) < endp1
      modifies this
      ensures Good() && owned == old(owned) + OptRefs(res) && Preserves(old(mem), mem) && LiveOpt(res)
      ensures JoinableOpt(Ops.Substring(Tree(old(mem), left), start, Size(Tree(old(mem), left))),
                          Ops.Substring(Tree(old(mem), right), 0, endp1 - Size(Tree(old(mem), left))))
      ensures TreeOpt(mem, res) == ConcatOpt(Ops.Substring(Tree(old(mem), left), start, Size(Tree(old(mem), left))),
                                             Ops.Substring(Tree(old(mem), right), 0, endp1 - Size(Tree(old(mem), left))))
      decreases Max(mem[left].depth, mem[right].depth), 2
    {
      hide WellFormed, Counted, Preserves, CellOk, Fib, Content, Tree, Rebalances, Links, Ops.Substring, OptRefs, Shaped;
      ghost var m0, own0 := mem, owned;
      TreeFacts(mem, left);
      TreeFacts(mem, right);
      SubstringsJoin(Tree(mem, left), Tree(mem, right), start, endp1);
      var leftLen := mem[left].size;
      var leftResult := Substring(left, start, leftLen);
      Stays(m0, own0, mem, owned, right);
      ghost var m1, own1 := mem, owned;
      var rightResult := Substring(right, 0, endp1 - leftLen);
      StaysOpt(m1, own1, mem, owned, leftResult);
      ghost var m2 := mem;
      PreservesTransitive(m0, m1, m2);
      res := Concat(leftResult, rightResult);
      ghost var m3 := mem;
      PreservesTransitive(m0, m2, m3);
      SumOfThree(own0, OptRefs(leftResult), OptRefs(rightResult), OptRefs(res));
      GiveUpTwo(leftResult, rightResult, res, own0);
      PreservesTransitive(m0, m3, mem);
    }

    /** The destructors of two self-destructing pointers. */
    method GiveUpTwo(a: Option<Addr>, b: Option<Addr>, y: Option<Addr>, ghost others: multiset<Addr>)
      requires Good() && owned == others + (OptRefs(a) + OptRefs(b)) + OptRefs(y)
      modifies this
      ensures Good() && owned == others + OptRefs(y) && Preserves(old(mem), mem)
      ensures LiveOpt(y) && TreeOpt(mem, y) == TreeOpt(old(mem), y)
    {
      hide WellFormed, Counted, Preserves, CellOk, Tree;
      if y.Some? {
        GiveUpBoth(a, b, y.value, others);
      } else {
        ghost var m0 := mem;
        NoneRefs();
        DropTwo(others, OptRefs(a), OptRefs(b), multiset{});
        hide OptRefs;
        UnrefOpt(a);
        ghost var m1 := mem;
        UnrefOpt(b);
        PreservesTransitive(m0, m1, mem);
      }
    }

    method CutFlat(base: Addr, start: nat, endp1: nat) returns (res: Addr)
      requires Good() && Live(mem, base) && !mem[base].kind.JoinK? && start < endp1 <= mem[base].size
      modifies this
      ensures Good() && owned == old(owned) + multiset{res} && Preserves(old(mem), mem) && Live(mem, res)
      ensures Shaped(Tree(old(mem), base)) && !Tree(old(mem), base).Join? && endp1 <= Size(Tree(old(mem), base))
      ensures Tree(mem, res) == Ops.CutFlat(Tree(old(mem), base), start, endp1)
    {
      hide WellFormed, Counted, Preserves, Links;
      TreeFacts(mem, base);
      FlatCell(mem, base);
      SizeIsLength(Tree(mem, base));
      if endp1 - start > Ops.LAZY_THRESHOLD {
        if mem[base].kind.WindowK? {
          res := NewWindow(mem[base].kind.base, start + mem[base].kind.start, endp1 - start);
        } else {
          res := NewWindow(base, start, endp1 - start);
        }
      } else {
        var text := FlatText(base);
        res := NewLeaf(text[start..endp1]);
      }
    }

    /** What the producer of a function or substring node writes, or what a leaf holds. */
    function FlatText(base: Addr): (s: seq<char>)
      requires Good() && Live(mem, base) && !mem[base].kind.JoinK?
      reads this
      ensures s == Content(Tree(mem, base))
    {
      FlatCell(mem, base);
      var kind := mem[base].kind;
      if kind.LeafK? then kind.data
      else if kind.ProducerK? then kind.produced
      else
        var below := mem[kind.base].kind;
        (if below.LeafK? then below.data else below.produced)[kind.start..kind.start + mem[base].size]
    }

    // ---------- replace ----------

    method SubstringOpt(base: Option<Addr>, start: nat, endp1: nat) returns (res: Option<Addr>)
      requires Good() && LiveOpt(base) && ValidOpt(TreeOpt(mem, base)) && SizeOpt(TreeOpt(mem, base)) <= MAX_SIZE
      modifies this
      ensures Good() && owned == old(owned) + OptRefs(res) && Preserves(old(mem), mem) && LiveOpt(res)
      ensures TreeOpt(mem, res) == Ops.SubstringOpt(TreeOpt(old(mem), base), start, endp1)
    {
      hide WellFormed, Counted, Preserves, CellOk, Fib, Content, Tree, Links, Ops.Substring, Valid;
      if base.None? {
        PreservesSelf(mem);
        res := None;
      } else {
        res := Substring(base.value, start, endp1);
      }
    }

    /** The static member replace of stl_rope.h, with its self-destructing pointers. */
    method Replace(whole: Option<Addr>, pos1: nat, pos2: nat, r: Option<Addr>) returns (res: Option<Addr>)
      requires Good() && LiveOpt(whole) && LiveOpt(r) && pos1 <= pos2
      requires JoinableOpt(TreeOpt(mem, whole), TreeOpt(mem, r))
      modifies this
      ensures Good() && owned == old(owned) + OptRefs(res) && Preserves(old(mem), mem) && LiveOpt(res)
      ensures TreeOpt(mem, res) == Ops.Replace(TreeOpt(old(mem), whole), pos1, pos2, TreeOpt(old(mem), r))
    {
      hide WellFormed, Counted, Preserves, CellOk, Fib, Content, Tree, Links, Ops.Substring, Valid;
      if whole.None? {
        if r.Some? { res := RefSelf(r.value); } else { res := None; PreservesSelf(mem); }
        return;
      }
      ghost var m0, own0 := mem, owned;
      Ops.ReplaceSteps(Tree(mem, whole.value), pos1, pos2, TreeOpt(mem, r));
      hide Ops.Replace;
      TreeFacts(mem, whole.value);
      var left := Substring(whole.value, 0, pos1);
      Stays(m0, own0, mem, owned, whole.value);
      StaysOpt(m0, own0, mem, owned, r);
      ghost var m1, own1 := mem, owned;
      var right := Substring(whole.value, pos2, mem[whole.value].size);
      StaysOpt(m1, own1, mem, owned, left);
      StaysOpt(m1, own1, mem, owned, r);
      PreservesTransitive(m0, m1, mem);
      ghost var m2 := mem;
      res := ReplaceMiddle(left, right, r);
      PreservesTransitive(m0, m2, mem);
      RegroupRefs(own0, OptRefs(left), OptRefs(right), OptRefs(res));
    }

    method JoinThree(left: Option<Addr>, r: Option<Addr>, right: Option<Addr>) returns (res: Option<Addr>)
      requires Good() && LiveOpt(left) && LiveOpt(right) && LiveOpt(r) && OptRefs(left) + OptRefs(right) <= owned
      requires JoinableOpt(TreeOpt(mem, left), TreeOpt(mem, r))
      requires JoinableOpt(ConcatOpt(TreeOpt(mem, left), TreeOpt(mem, r)), TreeOpt(mem, right))
      modifies this
      ensures Good() && owned == old(owned) + OptRefs(res) && Preserves(old(mem), mem) && LiveOpt(res)
      ensures TreeOpt(mem, res)
           == ConcatOpt(ConcatOpt(TreeOpt(old(mem), left), TreeOpt(old(mem), r)), TreeOpt(old(mem), right))
    {
      hide WellFormed, Counted, Preserves, CellOk, Fib, Content, Tree, Links, Valid, OptRefs;
      ghost var m0, own0 := mem, owned;
      var leftResult := Concat(left, r);
      StaysOpt(m0, own0, mem, owned, right);
      ghost var m1 := mem;
      res := Concat(leftResult, right);
      PreservesTransitive(m0, m1, mem);
      ghost var m2 := mem;
      SwapLast(own0, OptRefs(leftResult), OptRefs(res));
      GiveUpTwo(leftResult, None, res, own0);
      PreservesTransitive(m0, m2, mem);
    }

    /** What replace does with the two pieces it keeps, which the caller gives up. */
    method ReplaceMiddle(left: Option<Addr>, right: Option<Addr>, r: Option<Addr>) returns (res: Option<Addr>)
      requires Good() && LiveOpt(left) && LiveOpt(right) && LiveOpt(r) && OptRefs(left) + OptRefs(right) <= owned
      requires JoinableOpt(TreeOpt(mem, left), TreeOpt(mem, r))
      requires JoinableOpt(ConcatOpt(TreeOpt(mem, left), TreeOpt(mem, r)), TreeOpt(mem, right))
      modifies this
      ensures Good() && owned == old(owned) - (OptRefs(left) + OptRefs(right)) + OptRefs(res)
      ensures Preserves(old(mem), mem) && LiveOpt(res)
      ensures TreeOpt(mem, res)
           == ConcatOpt(ConcatOpt(TreeOpt(old(mem), left), TreeOpt(old(mem), r)), TreeOpt(old(mem), right))
    {
      hide WellFormed, Counted, Preserves, CellOk, Fib, Content, Tree, Links, Valid, OptRefs;
      ghost var m0 := mem;
      ghost var others := owned - (OptRefs(left) + OptRefs(right));
      if r.None? {
        res := Concat(left, right);
      } else {
        res := JoinThree(left, r, right);
      }
      ghost var m3 := mem;
      assert owned == others + (OptRefs(left) + OptRefs(right)) + OptRefs(res);
      GiveUpTwo(left, right, res, others);
      PreservesTransitive(m0, m3, mem);
    }
  }

  lemma SumOfThree(a: multiset<Addr>, b: multiset<Addr>, c: multiset<Addr>, d: multiset<Addr>)
    ensures a + b + c + d == a + (b + c) + d
  {
  }

  lemma SubstringsJoin(l: Rep, r: Rep, start: nat, endp1: nat)
    requires Valid(l) && Valid(r) && Size(l) + Size(r) <= MAX_SIZE && start < Size(l) < endp1
    ensures JoinableOpt(Ops.Substring(l, start, Size(l)), Ops.Substring(r, 0, endp1 - Size(l)))
  {
    hide Valid, Size, Ops.Substring;
  }
}
