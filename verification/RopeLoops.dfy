/** One iteration of each loop over the forest, in terms of the recursive functions of RopeTree.dfy. */
module RopeLoops {
  import opened Options
  import opened RopeTree

  lemma SlotMergeable(f: seq<Option<Rep>>, i: nat, x: Option<Rep>)
    requires ForestOk(f) && i <= MAX_DEPTH && EmptyBelow(f, i) && f[i].Some? && TinyOk(x, i)
    requires ForestSize(f, 0) + SizeOpt(x) <= MAX_SIZE
    ensures JoinableOpt(f[i], x) && (x.Some? ==> !Rebalances(f[i].value, x.value))
    ensures IsBalanced(f[i].value) ==> Balanced(f[i].value)
  {
    TakeLowestSize(f, i);
    assert SlotOk(f[i].value, i);
    SlotJoinsCalmly(f[i].value, x, i);
  }

  lemma MergeTinyStep(f: seq<Option<Rep>>, s: nat, i: nat, tiny: Option<Rep>)
    requires MergeTinyPre(f, s, i, tiny) && Fib(i + 1) <= s
    ensures f[i].Some? ==> JoinableOpt(f[i], tiny) && (tiny.Some? ==> !Rebalances(f[i].value, tiny.value))
    ensures f[i].Some? && IsBalanced(f[i].value) ==> Balanced(f[i].value)
    ensures var t := if f[i].Some? then Some(ConcatAndSetBalanced(f[i], tiny)) else tiny;
      MergeTinyPre(f[i := None], s, i + 1, t) && MergeTiny(f, s, i, tiny) == MergeTiny(f[i := None], s, i + 1, t)
  {
    if f[i].Some? { SlotMergeable(f, i, tiny); }
    TakeLowest(f, i);
    BucketBelowTop(i + 1, s);
    var t := if f[i].Some? then Some(MergeSlot(f[i].value, i, tiny)) else tiny;
    hide Fib, Shaped, Depth, Content, Size, Rebalances, IsBalanced, IsRoughlyBalanced, ForestContent, ForestSize;
  }

  lemma MergeTinyDone(f: seq<Option<Rep>>, s: nat, i: nat, tiny: Option<Rep>)
    requires MergeTinyPre(f, s, i, tiny) && s < Fib(i + 1)
    ensures MergeTiny(f, s, i, tiny) == Merged(f, i, tiny)
  {
    hide Fib, Shaped, Depth, Content, Size, ForestOk, ForestSize;
  }

  lemma InserteeMergeable(f: seq<Option<Rep>>, x: Rep, i: nat)
    requires PlacePre(f, x, i) && f[i].Some?
    ensures JoinableOpt(f[i], Some(x)) && !Rebalances(f[i].value, x)
    ensures IsBalanced(f[i].value) ==> Balanced(f[i].value)
  {
    TakeLowestSize(f, i);
    assert SlotOk(f[i].value, i);
    AbsorbsCalmly(f[i].value, x, i);
  }

  lemma SlotJoins(f: seq<Option<Rep>>, x: Rep, i: nat)
    requires PlacePre(f, x, i)
    ensures i < |f|
    ensures f[i].Some? ==> JoinableOpt(f[i], Some(x)) && !Rebalances(f[i].value, x)
    ensures f[i].Some? && IsBalanced(f[i].value) ==> Balanced(f[i].value)
  {
    hide Fib, Shaped, Depth, Content, Size, Rebalances, IsBalanced, ForestContent, ForestSize;
    if f[i].Some? { InserteeMergeable(f, x, i); }
  }

  /** What is carried on from slot i: its tree, if it has one, in front of x. */
  function CarriedOn(f: seq<Option<Rep>>, x: Rep, i: nat): Rep
    requires PlacePre(f, x, i)
  {
    SlotJoins(f, x, i);
    if f[i].Some? then ConcatAndSetBalanced(f[i], Some(x)) else x
  }

  lemma PlaceStep(f: seq<Option<Rep>>, x: Rep, i: nat)
    requires PlacePre(f, x, i)
    ensures f[i].Some? ==> JoinableOpt(f[i], Some(x)) && !Rebalances(f[i].value, x)
    ensures f[i].Some? && IsBalanced(f[i].value) ==> Balanced(f[i].value)
    ensures var y := CarriedOn(f, x, i);
      if Size(y) < Fib(i + 1) then Place(f, x, i) == f[i := Some(y)]
      else PlacePre(f[i := None], y, i + 1) && Place(f, x, i) == Place(f[i := None], y, i + 1)
  {
    hide Fib, Shaped, Depth, Content, Size, Rebalances, IsBalanced, ForestContent, ForestSize;
    if f[i].Some? { InserteeMergeable(f, x, i); }
    TakeLowest(f, i);
    var y := if f[i].Some? then Absorb(f[i].value, x, i) else x;
    if Fib(i + 1) <= Size(y) { BucketBelowTop(i + 1, Size(y)); }
  }

  lemma JoinForestStep(f: seq<Option<Rep>>, i: nat, tail: Option<Rep>)
    requires JoinForestPre(f, i, tail) && i < |f|
    ensures JoinableOpt(f[i], tail)
    ensures f[i].Some? && tail.Some? ==> !Rebalances(f[i].value, tail.value)
    ensures var t := if f[i].Some? then ConcatOpt(f[i], tail) else tail;
      JoinForestPre(f, i + 1, t) && JoinForest(f, i, tail) == JoinForest(f, i + 1, t)
  {
    if f[i].Some? {
      assert SlotOk(f[i].value, i);
      SlotJoinsCalmly(f[i].value, tail, i);
      var t := JoinSlot(f[i].value, i, tail);
    }
    hide Fib, Shaped, Depth, Content, Size, Rebalances, IsBalanced, ForestContent;
  }

  lemma FirstLoopStarts(r: Rep, f: seq<Option<Rep>>)
    requires ForestOk(f) && Shaped(r) && IsBalanced(r) && ForestSize(f, 0) + Size(r) <= MAX_SIZE
    ensures MergeTinyPre(f, Size(r), 0, None)
  {
    SizeIsLength(r);
    assert EmptyBelow(f, 0) && TinyOk(None, 0) && Fib(0) <= Size(r);
  }

  lemma InserteeStarts(r: Rep, tiny: Option<Rep>, k: nat)
    requires Shaped(r) && Balanced(r) && IsBalanced(r) && k < MAX_DEPTH - 1 && TinyOk(tiny, k)
    requires Fib(k) <= Size(r) < Fib(k + 1) && SizeOpt(tiny) + Size(r) <= MAX_SIZE
    ensures JoinableOpt(tiny, Some(r)) && (tiny.Some? ==> !Rebalances(tiny.value, r))
    ensures Insertee(tiny, r, k) == ConcatAndSetBalanced(tiny, Some(r))
  {
    hide Fib, Content, Rebalances, ConcatAndSetBalanced;
    BucketBoundsDepth(r, k);
    InserteeJoinsCalmly(tiny, r, k);
  }

  /** The middle of _S_add_leaf_to_forest, between its loops. */
  lemma AddLeafSteps(r: Rep, f: seq<Option<Rep>>)
    requires ForestOk(f) && Shaped(r) && Balanced(r) && IsBalanced(r) && ForestSize(f, 0) + Size(r) <= MAX_SIZE
    ensures MergeTinyPre(f, Size(r), 0, None)
    ensures var m := MergeTiny(f, Size(r), 0, None);
      && JoinableOpt(m.tiny, Some(r)) && (m.tiny.Some? ==> !Rebalances(m.tiny.value, r))
      && PlacePre(m.forest, ConcatAndSetBalanced(m.tiny, Some(r)), m.slot)
      && AddLeafToForest(r, f) == Place(m.forest, ConcatAndSetBalanced(m.tiny, Some(r)), m.slot)
  {
    hide Fib, Shaped, Depth, Content, Size, IsBalanced, Balanced, ForestContent, ForestSize, ForestOk, EmptyBelow, TinyOk;
    hide InserteeOk, MergeTiny, ConcatAndSetBalanced, Insertee, Place, JoinableOpt, Rebalances;
    FirstLoopStarts(r, f);
    var m := MergeTiny(f, Size(r), 0, None);
    InserteeStarts(r, m.tiny, m.slot);
  }

  lemma AddBranch(r: Rep, f: seq<Option<Rep>>)
    requires ForestOk(f) && Shaped(r) && !Balanced(r) && ForestSize(f, 0) + Size(r) <= MAX_SIZE
    ensures Shaped(r.left) && Shaped(r.right) && ForestSize(f, 0) + Size(r.left) <= MAX_SIZE
    ensures var g := AddToForest(r.left, f);
      ForestOk(g) && ForestSize(g, 0) + Size(r.right) <= MAX_SIZE && AddToForest(r, f) == AddToForest(r.right, g)
  {
  }

  /** The frame of _S_balance around its loops. */
  lemma BalanceSteps(r: Rep)
    requires Shaped(r) && Size(r) <= MAX_SIZE
    ensures ForestOk(NoTrees()) && ForestSize(NoTrees(), 0) == 0
    ensures var f := AddToForest(r, NoTrees());
      JoinForestPre(f, 0, None) && JoinForest(f, 0, None).Some? && Balance(r) == JoinForest(f, 0, None).value
  {
    SkipEmpty(NoTrees(), MAX_DEPTH + 1);
    SizeIsLength(r);
    hide Fib, Shaped, Depth, Content;
  }

  lemma JoinForestDone(f: seq<Option<Rep>>, tail: Option<Rep>)
    requires JoinForestPre(f, |f|, tail)
    ensures JoinForest(f, |f|, tail) == tail
  {
    hide ForestOk, ForestSize, Content;
  }
}
