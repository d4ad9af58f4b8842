/** How deep trees get while they move through the forest, from sizes and depths alone: what can be said of
    _S_add_leaf_to_forest before it is called. */
module RopeOutlines {
  import opened Options
  import opened RopeTree
  import opened RopeLoops

  /** A concatenation whose right child is a character leaf may have that leaf rewritten instead of growing. */
  datatype Tail = NoTail | LeafTail(leftDepth: nat, length: nat)

  datatype Outline = Outline(size: nat, depth: nat, leaf: bool, tail: Tail)

  function OutlineOf(r: Rep): Outline {
    Outline(Size(r), Depth(r), r.Leaf?, if r.Join? && r.right.Leaf? then LeafTail(Depth(r.left), |r.right.data|) else NoTail)
  }

  function OutlineOpt(o: Option<Rep>): Option<Outline> { if o.Some? then Some(OutlineOf(o.value)) else None }

  function Outlines(f: seq<Option<Rep>>): (os: seq<Option<Outline>>)
    ensures |os| == |f|
  {
    seq(|f|, i requires 0 <= i < |f| => OutlineOpt(f[i]))
  }

  // ---------- concatenation ----------

  /** Both are copied into one leaf. */
  predicate Copies(a: Outline, b: Outline) { b.leaf && a.leaf && a.size + b.size <= COPY_MAX }

  /** The last leaf is rewritten. */
  predicate Rewrites(a: Outline, b: Outline) { b.leaf && a.tail.LeafTail? && a.tail.length + b.size <= COPY_MAX }

  function Glue(a: Outline, b: Outline): Outline {
    if Copies(a, b) then Outline(a.size + b.size, 0, true, NoTail)
    else if Rewrites(a, b) then
      Outline(a.size + b.size, a.tail.leftDepth + 1, false, LeafTail(a.tail.leftDepth, a.tail.length + b.size))
    else Outline(a.size + b.size, Max(a.depth, b.depth) + 1, false, if b.leaf then LeafTail(a.depth, b.size) else NoTail)
  }

  function GlueOpt(a: Option<Outline>, b: Outline): Outline { if a.Some? then Glue(a.value, b) else b }

  /** A slot's tree, if any, in front of the prefix merged so far. */
  function InFront(e: Option<Outline>, tiny: Option<Outline>): Option<Outline> {
    if e.None? then tiny else if tiny.None? then e else Some(Glue(e.value, tiny.value))
  }

  lemma ConcatOutline(l: Rep, r: Rep)
    requires Joinable(l, r) && !Rebalances(l, r)
    ensures OutlineOf(Concat(l, r)) == Glue(OutlineOf(l), OutlineOf(r))
  {
    hide Shaped, Fib, Content, Concat, Rebalances;
    ConcatIs(l, r);
    var c := Concat(l, r);
    match PlanConcat(l, r)
    case CopyLeaf(leaf) => assert c == leaf;
    case BuildTree(x, y) =>
      assert c == Join(x, y, false) && Depth(c) == Max(Depth(x), Depth(y)) + 1 && Size(c) == Size(x) + Size(y);
      if y == r {
        assert r.Leaf? ==> Size(r) == |r.data|;
      } else {
        assert Depth(y) == 0 && Size(y) == |l.right.data| + |r.data| && Size(l) == Size(x) + |l.right.data|;
      }
  }

  lemma ConcatIs(l: Rep, r: Rep)
    requires Joinable(l, r) && !Rebalances(l, r)
    ensures Concat(l, r) == match PlanConcat(l, r) case CopyLeaf(leaf) => leaf case BuildTree(x, y) => Join(x, y, false)
  {
    hide Shaped, Fib, Content, Size, Depth, Valid;
    if PlanConcat(l, r).BuildTree? { PlanTree(l, r); }
  }

  lemma FlaggedOutline(l: Option<Rep>, r: Rep)
    requires JoinableOpt(l, Some(r)) && (l.Some? ==> !Rebalances(l.value, r))
    ensures OutlineOf(ConcatAndSetBalanced(l, Some(r))) == GlueOpt(OutlineOpt(l), OutlineOf(r))
  {
    hide Shaped, Fib, Content, Concat, Rebalances;
    if l.Some? { ConcatOutline(l.value, r); }
  }

  lemma FlaggedAlone(l: Rep)
    requires JoinableOpt(Some(l), None)
    ensures OutlineOf(ConcatAndSetBalanced(Some(l), None)) == OutlineOf(l)
  {
    hide Shaped, Fib, Content;
  }

  // ---------- the loops ----------

  /** A slot, and the outline of a tree that has come to it. */
  datatype Stop<T> = Stop(slot: nat, tree: T)

  /** The first loop: the prefix merged from the slots below the bucket of a leaf of size s. */
  function Prefix(os: seq<Option<Outline>>, s: nat, i: nat, tiny: Option<Outline>): Stop<Option<Outline>>
    decreases |os| - i
  {
    if i + 1 >= |os| || s < Fib(i + 1) then Stop(i, tiny)
    else Prefix(os, s, i + 1, InFront(os[i], tiny))
  }

  /** The second loop: where the tree stops, and how deep it then is. */
  function Landing(os: seq<Option<Outline>>, x: Outline, i: nat): Stop<Outline>
    requires i < |os|
    decreases |os| - i
  {
    var y := GlueOpt(os[i], x);
    if i + 1 >= |os| || y.size < Fib(i + 1) then Stop(i, y) else Landing(os, y, i + 1)
  }

  /** All of _S_add_leaf_to_forest. */
  function Predicted(os: seq<Option<Outline>>, r: Outline): Stop<Outline>
    requires os != []
  {
    var p := Prefix(os, r.size, 0, None);
    Landing(os, GlueOpt(p.tree, r), if p.slot < |os| then p.slot else 0)
  }

  lemma {:induction false} PrefixIs(f: seq<Option<Rep>>, os: seq<Option<Outline>>, s: nat, i: nat, tiny: Option<Rep>)
    requires MergeTinyPre(f, s, i, tiny) && |os| == |f| == MAX_DEPTH + 1 && forall j :: i <= j < |f| ==> os[j] == OutlineOpt(f[j])
    ensures var m := MergeTiny(f, s, i, tiny);
      && Prefix(os, s, i, OutlineOpt(tiny)) == Stop(m.slot, OutlineOpt(m.tiny)) && |m.forest| == |f| && i <= m.slot
      && forall j :: m.slot <= j < |f| ==> m.forest[j] == f[j]
    decreases |f| - i
  {
    hide *;
    PrefixBounds(f, s, i, tiny);
    PrefixUnfold(os, s, i, OutlineOpt(tiny));
    if s < Fib(i + 1) {
      MergeTinyDone(f, s, i, tiny);
    } else {
      MergeTinyStep(f, s, i, tiny);
      var t := if f[i].Some? then Some(ConcatAndSetBalanced(f[i], tiny)) else tiny;
      SlotOutline(f[i], tiny);
      PrefixIs(f[i := None], os, s, i + 1, t);
    }
  }

  lemma SlotOutline(e: Option<Rep>, tiny: Option<Rep>)
    requires e.Some? ==> JoinableOpt(e, tiny) && (tiny.Some? ==> !Rebalances(e.value, tiny.value))
    ensures OutlineOpt(if e.Some? then Some(ConcatAndSetBalanced(e, tiny)) else tiny) == InFront(OutlineOpt(e), OutlineOpt(tiny))
  {
    hide OutlineOf, Glue, ConcatAndSetBalanced, Rebalances, JoinableOpt;
    if e.Some? {
      if tiny.Some? { FlaggedOutline(e, tiny.value); } else { FlaggedAlone(e.value); }
    }
  }

  lemma PrefixBounds(f: seq<Option<Rep>>, s: nat, i: nat, tiny: Option<Rep>)
    requires MergeTinyPre(f, s, i, tiny)
    ensures i + 1 < |f| == MAX_DEPTH + 1
  {
  }

  lemma PrefixUnfold(os: seq<Option<Outline>>, s: nat, i: nat, tiny: Option<Outline>)
    requires i + 1 < |os|
    ensures Prefix(os, s, i, tiny) == if s < Fib(i + 1) then Stop(i, tiny)
      else Prefix(os, s, i + 1, InFront(os[i], tiny))
  {
    hide Fib, Glue;
  }

  lemma {:induction false} LandingIs(f: seq<Option<Rep>>, os: seq<Option<Outline>>, x: Rep, i: nat)
    requires PlacePre(f, x, i) && |os| == |f| == MAX_DEPTH + 1 && forall j :: i <= j < |f| ==> os[j] == OutlineOpt(f[j])
    ensures var p, g := Landing(os, OutlineOf(x), i), RopeTree.Place(f, x, i);
      && i <= p.slot < |g| == |f| && EmptyBelow(g, p.slot) && g[p.slot].Some? && OutlineOf(g[p.slot].value) == p.tree
      && forall j :: p.slot < j < |f| ==> g[j] == f[j]
    decreases |f| - i
  {
    hide OutlineOf, Glue, RopeTree.Place, PlacePre, ConcatAndSetBalanced, Rebalances, JoinableOpt, Landing, Fib;
    LandingBounds(f, x, i);
    PlaceStep(f, x, i);
    LandingUnfold(os, OutlineOf(x), i);
    if f[i].Some? { FlaggedOutline(f[i], x); }
    var y := if f[i].Some? then ConcatAndSetBalanced(f[i], Some(x)) else x;
    SizeOutline(y);
    if Size(y) >= Fib(i + 1) { LandingIs(f[i := None], os, y, i + 1); }
  }

  lemma SizeOutline(r: Rep)
    ensures OutlineOf(r).size == Size(r) && OutlineOf(r).depth == Depth(r) && OutlineOf(r).leaf == r.Leaf?
  {
  }

  lemma LandingBounds(f: seq<Option<Rep>>, x: Rep, i: nat)
    requires PlacePre(f, x, i)
    ensures i + 1 < |f| == MAX_DEPTH + 1 && EmptyBelow(f, i)
  {
  }

  lemma LandingUnfold(os: seq<Option<Outline>>, x: Outline, i: nat)
    requires i + 1 < |os|
    ensures var y := GlueOpt(os[i], x); Landing(os, x, i) == if y.size < Fib(i + 1) then Stop(i, y) else Landing(os, y, i + 1)
  {
    hide Fib, Glue;
  }

  /** What _S_add_leaf_to_forest demands of its callers. */
  ghost predicate Addable(r: Rep, f: seq<Option<Rep>>) {
    ForestOk(f) && Shaped(r) && Balanced(r) && IsBalanced(r) && ForestSize(f, 0) + Size(r) <= MAX_SIZE
  }

  /** The insertee between the loops. */
  lemma InserteeOutline(r: Rep, f: seq<Option<Rep>>)
    requires Addable(r, f)
    ensures MergeTinyPre(f, Size(r), 0, None)
    ensures var m, p := MergeTiny(f, Size(r), 0, None), Prefix(Outlines(f), Size(r), 0, None);
      && JoinableOpt(m.tiny, Some(r)) && (m.tiny.Some? ==> !Rebalances(m.tiny.value, r))
      && p == Stop(m.slot, OutlineOpt(m.tiny))
      && OutlineOf(ConcatAndSetBalanced(m.tiny, Some(r))) == GlueOpt(p.tree, OutlineOf(r))
  {
    hide OutlineOf, Glue, MergeTiny, MergeTinyPre, ConcatAndSetBalanced, Rebalances, JoinableOpt, Prefix, Fib, Shaped, IsBalanced, ForestSize;
    AddLeafSteps(r, f);
    PrefixIs(f, Outlines(f), Size(r), 0, None);
    FlaggedOutline(MergeTiny(f, Size(r), 0, None).tiny, r);
  }

  /** Where the leaf's tree stops and how deep it is, from the outlines of the slots alone. */
  lemma Predicts(r: Rep, f: seq<Option<Rep>>)
    requires Addable(r, f)
    ensures var g, p := AddLeafToForest(r, f), Predicted(Outlines(f), OutlineOf(r));
      && |g| == |f| == MAX_DEPTH + 1 && p.slot < |g| && EmptyBelow(g, p.slot)
      && g[p.slot].Some? && Depth(g[p.slot].value) == p.tree.depth && Size(g[p.slot].value) == p.tree.size
      && forall j :: p.slot < j < |f| ==> g[j] == f[j]
  {
    hide OutlineOf, Glue, MergeTiny, MergeTinyPre, PlacePre, ConcatAndSetBalanced, Rebalances, JoinableOpt, Prefix, Landing;
    hide Fib, Shaped, IsBalanced, ForestSize, RopeTree.Place, AddLeafToForest, Size, Depth;
    AddLeafSteps(r, f);
    InserteeOutline(r, f);
    var m := MergeTiny(f, Size(r), 0, None);
    var x := ConcatAndSetBalanced(m.tiny, Some(r));
    PrefixIs(f, Outlines(f), Size(r), 0, None);
    LandingIs(m.forest, Outlines(f), x, m.slot);
    LandingBounds(m.forest, x, m.slot);
    SizeOutline(r);
    SizeOutline(AddLeafToForest(r, f)[Landing(Outlines(f), OutlineOf(x), m.slot).slot].value);
  }

  // ---------- the assertion on the insertee's depth ----------

  /** The merged prefix, or the part of it that stays a child, is no deeper than the leaf. */
  predicate PrefixIsShallow(os: seq<Option<Outline>>, r: Outline) {
    var tiny := Prefix(os, r.size, 0, None).tree;
    tiny.None? || Copies(tiny.value, r)
    || (if Rewrites(tiny.value, r) then tiny.value.tail.leftDepth <= r.depth else tiny.value.depth <= r.depth)
  }

  /** The second assertion behind the first loop holds exactly when the slots below the leaf's bucket are shallow. */
  lemma SecondCheck(r: Rep, f: seq<Option<Rep>>)
    requires Addable(r, f)
    ensures MergeTinyPre(f, Size(r), 0, None)
    ensures var m := MergeTiny(f, Size(r), 0, None);
      && JoinableOpt(m.tiny, Some(r)) && (m.tiny.Some? ==> !Rebalances(m.tiny.value, r))
      && (Depth(ConcatAndSetBalanced(m.tiny, Some(r))) <= Depth(r) + 1 <==> PrefixIsShallow(Outlines(f), OutlineOf(r)))
  {
    hide Shaped, Fib, Size, Depth, Rebalances, MergeTiny, MergeTinyPre, ConcatAndSetBalanced, ForestOk, ForestSize, IsBalanced;
    hide Prefix, OutlineOf, Outlines, JoinableOpt;
    InserteeOutline(r, f);
    SizeOutline(r);
    SizeOutline(ConcatAndSetBalanced(MergeTiny(f, Size(r), 0, None).tiny, Some(r)));
    LeafDepth(r);
  }

  lemma LeafDepth(r: Rep)
    ensures OutlineOf(r).leaf ==> OutlineOf(r).depth == 0
  {
  }

  // ---------- the comment on the depths in the forest ----------

  /** forest[i]'s depth is i, for every filled slot. */
  predicate DepthsAreIndices(f: seq<Option<Rep>>) { forall i :: 0 <= i < |f| && f[i].Some? ==> Depth(f[i].value) == i }

  /** The comment holds after the call exactly when it holds above the slot where the leaf's tree stops, and the tree
      is then as deep as that slot's index. */
  lemma CommentHolds(r: Rep, f: seq<Option<Rep>>)
    requires Addable(r, f)
    ensures var p := Predicted(Outlines(f), OutlineOf(r));
      DepthsAreIndices(AddLeafToForest(r, f)) <==>
        p.tree.depth == p.slot && forall j :: p.slot < j < |f| && f[j].Some? ==> Depth(f[j].value) == j
  {
    hide OutlineOf, Outlines, Predicted, AddLeafToForest, Addable, Depth, Size;
    Predicts(r, f);
  }
}
