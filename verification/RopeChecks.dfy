/** The assertions and the comment inside _S_balance and _S_add_leaf_to_forest: which of them hold, and when. */
module RopeChecks {
  import opened Options
  import opened RopeTree
  import opened RopeLoops
  import opened RopeOutlines

  /** The trees on their way up are almost balanced: the assertions after both loops' merges. */
  lemma InserteeAlmostBalanced(x: Rep, i: nat)
    requires InserteeOk(x, i) && i < MAX_DEPTH - 1
    ensures IsAlmostBalanced(x)
  {
    if Depth(x) > 0 {
      FibMonotone(Depth(x) - 1, if Depth(x) <= i + 1 && Fib(i) <= Size(x) then i else i + 1);
    }
  }

  /** After the first loop the insertee is almost balanced ... */
  lemma FirstCheck(tiny: Option<Rep>, r: Rep, k: nat)
    requires k < MAX_DEPTH - 1 && TinyOk(tiny, k) && Shaped(r) && Balanced(r) && IsBalanced(r)
    requires SizeOpt(tiny) + Size(r) <= MAX_SIZE && Fib(k) <= Size(r) < Fib(k + 1)
    ensures IsAlmostBalanced(Insertee(tiny, r, k))
  {
    InserteeAlmostBalanced(Insertee(tiny, r, k), k);
  }

  /** ... and so it is after each merge of the second loop, where it also reaches the bucket it has come to ... */
  lemma LoopChecks(e: Rep, x: Rep, i: nat)
    requires SlotOk(e, i) && InserteeOk(x, i) && Size(e) + Size(x) <= MAX_SIZE
    ensures IsAlmostBalanced(Absorb(e, x, i)) && Fib(i) <= Size(Absorb(e, x, i))
  {
    var y := Absorb(e, x, i);
    BucketBelowTop(i + 1, Size(y));
    InserteeAlmostBalanced(y, i + 1);
    FibMonotone(i, i + 1);
  }

  // ... but it need not be at most one level deeper than the leaf: RopeOutlines.SecondCheck says when it is.
  // Here is a rope for which it is not, and for which the comment on the depths in the forest is wrong as well.

  /** Three one-character function ropes, concatenated by append, in front of one of eight characters. */
  function Short(c: char): Rep { Producer([c]) }

  const PREFIX := Join(Join(Short('a'), Short('b'), false), Short('c'), false)
  const LONG := Producer("01234567")

  lemma SmallFib()
    ensures Fib(0) == 1 && Fib(1) == 2 && Fib(2) == 3 && Fib(3) == 5 && Fib(4) == 8 && Fib(5) == 13
  {
  }

  /** Adding a one-character tree to a forest whose lowest slot is free ... */
  lemma AddFree(f: seq<Option<Rep>>, r: Rep)
    requires ForestOk(f) && f[0] == None && Shaped(r) && Balanced(r) && IsBalanced(r) && Size(r) == 1
    requires ForestSize(f, 0) + 1 <= MAX_SIZE
    ensures AddLeafToForest(r, f) == f[0 := Some(r)]
  {
    SmallFib();
    Alone(r);
    hide Fib, Size, Depth, Shaped, ForestSize, Content, ConcatAndSetBalanced, MergeTiny, Place, ForestOk, IsBalanced;
    AddLeafSteps(r, f);
    MergeTinyDone(f, 1, 0, None);
    PlaceStep(f, r, 0);
  }

  lemma Alone(r: Rep)
    requires Shaped(r) && Balanced(r) && IsBalanced(r) && Size(r) <= MAX_SIZE
    ensures JoinableOpt(None, Some(r)) && ConcatAndSetBalanced(None, Some(r)) == r
    ensures JoinableOpt(Some(r), None) && ConcatAndSetBalanced(Some(r), None) == r
  {
    hide Fib;
  }

  /** ... and to one where it holds a, while slot 1 is free. */
  lemma AddOnto(f: seq<Option<Rep>>, a: Rep, r: Rep, pair: Rep)
    requires ForestOk(f) && f[0] == Some(a) && f[1] == None
    requires Shaped(r) && Balanced(r) && IsBalanced(r) && Size(r) == 1 && ForestSize(f, 0) + 1 <= MAX_SIZE
    requires JoinableOpt(Some(a), Some(r)) && !Rebalances(a, r) && ConcatAndSetBalanced(Some(a), Some(r)) == pair
    requires Size(pair) == 2
    ensures AddLeafToForest(r, f) == f[0 := None][1 := Some(pair)]
  {
    SmallFib();
    Alone(r);
    hide Fib, Size, Depth, Shaped, ForestSize, Content, ConcatAndSetBalanced, MergeTiny, Place, ForestOk, IsBalanced;
    AddLeafSteps(r, f);
    MergeTinyDone(f, 1, 0, None);
    PlaceStep(f, r, 0);
    PlaceStep(f[0 := None], pair, 1);
  }

  lemma MergeOne(f: seq<Option<Rep>>, s: nat, i: nat, tiny: Option<Rep>, e: Rep, t: Rep)
    requires MergeTinyPre(f, s, i, tiny) && Fib(i + 1) <= s && f[i] == Some(e)
    requires JoinableOpt(Some(e), tiny) && (tiny.Some? ==> !Rebalances(e, tiny.value))
    requires ConcatAndSetBalanced(Some(e), tiny) == t
    ensures MergeTinyPre(f[i := None], s, i + 1, Some(t))
    ensures MergeTiny(f, s, i, tiny) == MergeTiny(f[i := None], s, i + 1, Some(t))
  {
    hide Fib, ForestSize, ConcatAndSetBalanced, MergeTiny, ForestOk, MergeTinyPre, Size, Depth, Content, Shaped;
    MergeTinyStep(f, s, i, tiny);
  }

  /** The first loop on a forest with both of these, for a leaf that belongs to slot 4. */
  lemma MergeBoth(f: seq<Option<Rep>>, s: nat, c: Rep, pair: Rep, triple: Rep)
    requires MergeTinyPre(f, s, 0, None) && Fib(4) <= s < Fib(5)
    requires f[0] == Some(c) && f[1] == Some(pair) && f[2] == None && f[3] == None
    requires Shaped(c) && Balanced(c) && IsBalanced(c) && Size(c) <= MAX_SIZE
    requires JoinableOpt(Some(pair), Some(c)) && !Rebalances(pair, c)
    requires ConcatAndSetBalanced(Some(pair), Some(c)) == triple
    ensures MergeTiny(f, s, 0, None) == Merged(f[0 := None][1 := None], 4, Some(triple))
  {
    hide *;
    SmallFib();
    Alone(c);
    PrefixBounds(f, s, 0, None);
    MergeOne(f, s, 0, None, c, c);
    MergeOne(f[0 := None], s, 1, Some(c), pair, triple);
    SkipTwo(f[0 := None][1 := None], s, Some(triple));
  }

  lemma SkipTwo(f: seq<Option<Rep>>, s: nat, tiny: Option<Rep>)
    requires MergeTinyPre(f, s, 2, tiny) && Fib(4) <= s < Fib(5) && f[2] == None && f[3] == None
    ensures MergeTiny(f, s, 2, tiny) == Merged(f, 4, tiny)
  {
    SmallFib();
    hide *;
    SkipOne(f, s, 2, tiny);
    SkipOne(f, s, 3, tiny);
    MergeTinyDone(f, s, 4, tiny);
  }

  lemma SkipOne(f: seq<Option<Rep>>, s: nat, i: nat, tiny: Option<Rep>)
    requires MergeTinyPre(f, s, i, tiny) && Fib(i + 1) <= s && f[i] == None
    ensures MergeTinyPre(f, s, i + 1, tiny) && MergeTiny(f, s, i, tiny) == MergeTiny(f, s, i + 1, tiny)
  {
    assert f[i := None] == f;
    hide Fib, ForestSize, ConcatAndSetBalanced, MergeTiny, ForestOk, MergeTinyPre, Size, Depth, Content;
    MergeTinyStep(f, s, i, tiny);
  }

  function Pair(): Rep { Join(Short('a'), Short('b'), true) }

  function Triple(): Rep { Join(Pair(), Short('c'), true) }

  lemma PairFacts()
    ensures JoinableOpt(Some(Short('a')), Some(Short('b'))) && !Rebalances(Short('a'), Short('b'))
    ensures ConcatAndSetBalanced(Some(Short('a')), Some(Short('b'))) == Pair() && Size(Pair()) == 2
  {
    SmallFib();
    var p := Concat(Short('a'), Short('b'));
    assert p == Join(Short('a'), Short('b'), false);
    hide Fib;
  }

  lemma TripleFacts()
    ensures JoinableOpt(Some(Pair()), Some(Short('c'))) && !Rebalances(Pair(), Short('c'))
    ensures ConcatAndSetBalanced(Some(Pair()), Some(Short('c'))) == Triple() && Depth(Triple()) == 2 && Size(Triple()) == 3
  {
    SmallFib();
    var p := Concat(Pair(), Short('c'));
    assert p == Join(Pair(), Short('c'), false);
    hide Fib;
  }

  lemma SingleFacts(c: char)
    ensures Shaped(Short(c)) && Balanced(Short(c)) && IsBalanced(Short(c)) && Size(Short(c)) == 1
  {
  }

  lemma AddThree(x: Rep, y: Rep, z: Rep, f: seq<Option<Rep>>)
    requires ForestOk(f) && Shaped(x) && Shaped(y) && Shaped(z) && ForestSize(f, 0) + Size(x) + Size(y) + Size(z) <= MAX_SIZE
    requires Balanced(x) && Balanced(y) && Balanced(z)
    ensures var r := Join(Join(x, y, false), z, false);
      Shaped(r) && Size(r) == Size(x) + Size(y) + Size(z) && IsBalanced(x) && IsBalanced(y) && IsBalanced(z)
    ensures AddToForest(Join(Join(x, y, false), z, false), f)
         == AddLeafToForest(z, AddLeafToForest(y, AddLeafToForest(x, f)))
  {
    FlatIsBalanced(x);
    FlatIsBalanced(y);
    FlatIsBalanced(z);
    hide Fib, ForestOk, ForestSize, AddLeafToForest, Content, IsBalanced;
    var r := Join(Join(x, y, false), z, false);
    assert Shaped(r.left) && Size(r.left) == Size(x) + Size(y);
    AddBranch(r, f);
    AddBranch(r.left, f);
  }

  lemma ForestTexts<T>(f: seq<Option<T>>, a: T, ab: T, c: T)
    requires |f| > 1 && f[0] == None && f[1] == None
    ensures f[0 := Some(a)][0 := None][1 := Some(ab)] == f[1 := Some(ab)]
    ensures f[1 := Some(ab)][0 := Some(c)] == f[0 := Some(c)][1 := Some(ab)]
  {
  }

  lemma AddTwo(f: seq<Option<Rep>>, a: Rep, b: Rep, ab: Rep)
    requires ForestOk(f) && f[0] == None && f[1] == None && ForestSize(f, 0) == 0
    requires Shaped(a) && Shaped(b) && Size(a) == Size(b) == 1
    requires Balanced(a) && Balanced(b) && IsBalanced(a) && IsBalanced(b)
    requires JoinableOpt(Some(a), Some(b)) && !Rebalances(a, b) && ConcatAndSetBalanced(Some(a), Some(b)) == ab
    requires Size(ab) == 2
    ensures AddLeafToForest(b, AddLeafToForest(a, f)) == f[1 := Some(ab)]
  {
    assert |f| == MAX_DEPTH + 1;
    hide *;
    AddFree(f, a);
    AddOnto(f[0 := Some(a)], a, b, ab);
    ForestTexts(f, a, ab, a);
  }

  /** The forest that _S_add_to_forest makes of three one-character trees, put into an empty one. */
  lemma PrefixForest(f: seq<Option<Rep>>, a: Rep, b: Rep, c: Rep, ab: Rep)
    requires ForestOk(f) && f[0] == None && f[1] == None && ForestSize(f, 0) == 0
    requires Shaped(a) && Shaped(b) && Shaped(c) && Size(a) == Size(b) == Size(c) == 1
    requires Balanced(a) && Balanced(b) && Balanced(c)
    requires JoinableOpt(Some(a), Some(b)) && !Rebalances(a, b) && ConcatAndSetBalanced(Some(a), Some(b)) == ab
    requires Size(ab) == 2
    ensures Shaped(Join(Join(a, b, false), c, false)) && Size(Join(Join(a, b, false), c, false)) == 3
    ensures AddToForest(Join(Join(a, b, false), c, false), f) == f[0 := Some(c)][1 := Some(ab)]
  {
    assert |f| == MAX_DEPTH + 1;
    hide Fib, ForestOk, ForestSize, AddLeafToForest, AddToForest, ConcatAndSetBalanced, JoinableOpt, Shaped, Balanced;
    hide IsBalanced, Size, Rebalances, Content, Depth, ForestContent, Chars, SizeOpt;
    AddThree(a, b, c, f);
    AddTwo(f, a, b, ab);
    ForestTexts(f, a, ab, c);
    AddFree(f[1 := Some(ab)], c);
  }

  lemma LongFacts()
    ensures Shaped(LONG) && Balanced(LONG) && IsBalanced(LONG) && Size(LONG) == 8 && Depth(LONG) == 0
    ensures TinyOk(Some(Triple()), 4) && Size(Triple()) == 3 && Depth(Triple()) == 2 && Fib(4) == 8 && Fib(5) == 13
    ensures PlanConcat(Triple(), LONG) == BuildTree(Triple(), LONG)
  {
    SmallFib();
    assert Shaped(Pair());
  }

  /** The forest while _S_balance works on the concatenation of PREFIX and LONG. */
  lemma LongMeetsPrefix()
    ensures Shaped(PREFIX) && ForestOk(NoTrees()) && ForestSize(NoTrees(), 0) == 0 && Size(PREFIX) == 3
    ensures MergeTinyPre(AddToForest(PREFIX, NoTrees()), 8, 0, None)
    ensures MergeTiny(AddToForest(PREFIX, NoTrees()), 8, 0, None) == Merged(NoTrees(), 4, Some(Triple()))
  {
    hide Fib, ForestOk, ForestSize, AddLeafToForest, Rebalances, ConcatAndSetBalanced, JoinableOpt, Size, Shaped, Balanced;
    hide IsBalanced, AddToForest, MergeTiny, MergeTinyPre, Content, Depth, TinyOk, NoTrees, Short, Pair, Triple;
    EmptyForest(Some(Short('c')), Some(Pair()));
    SingleFacts('a');
    SingleFacts('b');
    SingleFacts('c');
    PairFacts();
    TripleFacts();
    LongFacts();
    var f := NoTrees()[0 := Some(Short('c'))][1 := Some(Pair())];
    PrefixForest(NoTrees(), Short('a'), Short('b'), Short('c'), Pair());
    FirstLoopStarts(LONG, f);
    MergeBoth(f, 8, Short('c'), Pair(), Triple());
  }

  lemma EmptyForest(a: Option<Rep>, b: Option<Rep>)
    ensures ForestOk(NoTrees()) && ForestSize(NoTrees(), 0) == 0 && |NoTrees()| == MAX_DEPTH + 1
    ensures NoTrees()[0 := a][1 := b][0 := None][1 := None] == NoTrees() && forall i :: 0 <= i <= MAX_DEPTH ==> NoTrees()[i] == None
  {
    SkipEmpty(NoTrees(), MAX_DEPTH + 1);
  }

  function Tower(): Rep { Join(Triple(), LONG, true) }

  lemma TowerFacts()
    ensures JoinableOpt(Some(Triple()), Some(LONG)) && !Rebalances(Triple(), LONG)
    ensures ConcatAndSetBalanced(Some(Triple()), Some(LONG)) == Tower() && Depth(Tower()) == 3 && Size(Tower()) == 11
  {
    LongFacts();
    var p := Concat(Triple(), LONG);
    assert p == Join(Triple(), LONG, false);
    hide Fib;
  }

  const ROPE := Join(PREFIX, LONG, false)

  lemma RopeFacts()
    requires Shaped(PREFIX) && Size(PREFIX) == 3
    ensures Shaped(ROPE) && Size(ROPE) == 11 && !Balanced(ROPE) && ROPE.left == PREFIX && ROPE.right == LONG && 11 <= MAX_SIZE
    ensures Shaped(LONG) && Balanced(LONG) && IsBalanced(LONG)
  {
    hide Fib;
    LongFacts();
  }

  /** _S_add_to_forest on this rope, into the empty forest of _S_balance: when LONG, of depth 0, is added, the insertee
      is three levels deep, and slot 4 is left holding it. */
  lemma RunBreaksBoth()
    ensures Shaped(ROPE) && ForestOk(NoTrees()) && ForestSize(NoTrees(), 0) + Size(ROPE) <= MAX_SIZE
    ensures var g := AddToForest(ROPE, NoTrees());
      g == NoTrees()[4 := Some(Tower())] && Depth(Tower()) == 3 && !DepthsAreIndices(g)
    ensures Shaped(PREFIX) && ForestSize(NoTrees(), 0) + Size(PREFIX) <= MAX_SIZE
    ensures var f := AddToForest(PREFIX, NoTrees()); Addable(LONG, f) && MergeTinyPre(f, Size(LONG), 0, None)
    ensures var m := MergeTiny(AddToForest(PREFIX, NoTrees()), Size(LONG), 0, None);
      && JoinableOpt(m.tiny, Some(LONG)) && (m.tiny.Some? ==> !Rebalances(m.tiny.value, LONG))
      && Depth(ConcatAndSetBalanced(m.tiny, Some(LONG))) == 3 > Depth(LONG) + 1
  {
    hide Fib, ForestOk, ForestSize, AddLeafToForest, Rebalances, ConcatAndSetBalanced, JoinableOpt, Size, Shaped, Balanced;
    hide IsBalanced, AddToForest, MergeTiny, MergeTinyPre, PlacePre, Content, Depth, NoTrees, Triple, Tower, RopeTree.Place;
    LongMeetsPrefix();
    RopeFacts();
    LongFacts();
    TowerFacts();
    EmptyForest(None, None);
    var f := AddToForest(PREFIX, NoTrees());
    AddBranch(ROPE, NoTrees());
    AddLeafSteps(LONG, f);
    AddBalanced(LONG, f);
    PlaceStep(NoTrees(), Tower(), 4);
    WrongDepth(Tower());
  }

  lemma AddBalanced(r: Rep, f: seq<Option<Rep>>)
    requires Addable(r, f)
    ensures AddToForest(r, f) == AddLeafToForest(r, f)
  {
    hide Fib, AddLeafToForest, ForestOk, ForestSize, Shaped, IsBalanced;
  }

  lemma WrongDepth(x: Rep)
    requires Depth(x) == 3 && |NoTrees()| == MAX_DEPTH + 1
    ensures !DepthsAreIndices(NoTrees()[4 := Some(x)])
  {
    hide Depth;
    assert NoTrees()[4 := Some(x)][4] == Some(x);
  }
}
