/** Rope representations as values: the nodes of stl_rope.h and the functions of ropeimpl.h that build new
    nodes out of old ones. Reference counts are added in RopeHeap.dfy, iterators in RopeIterator.dfy. */
module RopeTree {
  import opened Options

  const MAX_DEPTH := 45
  const COPY_MAX := 23
  const REBALANCE_DEPTH := 20
  const REBALANCE_SIZE := 1000

  /** A char_producer is represented by the characters it produces. The base of a window is never a
      concatenation, and is not itself a window. */
  datatype Rep =
    | Leaf(data: seq<char>)
    | Producer(produced: seq<char>)
    | Window(base: Rep, start: nat, len: nat)
    | Join(left: Rep, right: Rep, balanced: bool)

  function Size(r: Rep): nat {
    match r
    case Leaf(data) => |data|
    case Producer(produced) => |produced|
    case Window(_, _, len) => len
    case Join(left, right, _) => Size(left) + Size(right)
  }

  function Depth(r: Rep): nat {
    match r
    case Join(left, right, _) => Max(Depth(left), Depth(right)) + 1
    case _ => 0
  }

  function Max(a: int, b: int): int { if a < b then b else a }

  function Min(a: int, b: int): int { if a < b then a else b }

  /** The flag _M_is_balanced: leaves, producers and windows are created with it set. */
  predicate Balanced(r: Rep) { r.Join? ==> r.balanced }

  // ---------- the table _S_min_len ----------

  function Fib(n: nat): nat { if n < 2 then n + 1 else Fib(n - 1) + Fib(n - 2) }

  /** Reading the table; the precondition is the array bound. */
  function MinLen(i: nat): (n: nat)
    requires i <= MAX_DEPTH
    ensures n == Fib(i)
  {
    Fib(i)
  }

  lemma {:induction false} FibMonotone(i: nat, j: nat)
    requires i <= j
    ensures 1 <= Fib(i) <= Fib(j)
    ensures i < j ==> Fib(i) < Fib(j)
    decreases j
  {
    if j >= 2 {
      if i < j { FibMonotone(i, j - 1); FibMonotone(0, j - 2); }
      else { FibMonotone(0, j - 1); FibMonotone(0, j - 2); }
    }
  }

  /** rope::max_size */
  const MAX_SIZE := 1836311902

  lemma FibJump(n: nat)
    ensures Fib(n + 11) == 55 * Fib(n) + 89 * Fib(n + 1)
    ensures Fib(n + 12) == 89 * Fib(n) + 144 * Fib(n + 1)
  {
    assert Fib(n + 3) == Fib(n) + 2 * Fib(n + 1);
    assert Fib(n + 5) == 3 * Fib(n) + 5 * Fib(n + 1);
    assert Fib(n + 7) == 8 * Fib(n) + 13 * Fib(n + 1);
    assert Fib(n + 9) == 21 * Fib(n) + 34 * Fib(n + 1);
  }

  /** MAX_SIZE is _S_min_len[44] - 1 ... */
  lemma TopBucket(n: nat)
    requires n == 0
    ensures Fib(n + MAX_DEPTH - 1) == MAX_SIZE + 1
  {
    FibJump(n);
    FibJump(n + 11);
    assert Fib(n + 22) == 46368 && Fib(n + 23) == 75025 by { hide Fib; }
    FibJump(n + 22);
    FibJump(n + 33);
    hide Fib;
  }

  /** ... so a tree of at most that size belongs to a bucket below 44. */
  lemma BucketBelowTop(i: nat, s: nat)
    requires Fib(i) <= s <= MAX_SIZE
    ensures i < MAX_DEPTH - 1
  {
    var zero: nat := 0;
    TopBucket(zero);
    if i >= MAX_DEPTH - 1 { FibMonotone(zero + MAX_DEPTH - 1, i); }
  }

  /** The size threshold of _S_tree_concat. */
  lemma LargeBucket(m: nat)
    requires m >= REBALANCE_DEPTH - 1
    ensures Fib(m) >= REBALANCE_SIZE
  {
    var four: nat := 4;
    FibJump(four);
    FibMonotone(four + 11, m);
  }

  // ---------- meaning and validity ----------

  function Content(r: Rep): seq<char> {
    match r
    case Leaf(data) => data
    case Producer(produced) => produced
    case Window(base, start, len) => if start + len <= |Content(base)| then Content(base)[start..start + len] else []
    case Join(left, right, _) => Content(left) + Content(right)
  }

  predicate Shaped(r: Rep) {
    match r
    case Leaf(data) => data != []
    case Producer(produced) => produced != []
    case Window(base, start, len) =>
      (base.Leaf? || base.Producer?) && Shaped(base) && 0 < len && start + len <= Size(base)
    case Join(left, right, balanced) =>
      Shaped(left) && Shaped(right) && (balanced ==> IsBalanced(r))
  }

  /** _S_is_balanced, with the table read in bounds. */
  predicate IsBalanced(r: Rep) { Depth(r) <= MAX_DEPTH && Fib(Depth(r)) <= Size(r) }

  /** _S_is_almost_balanced */
  predicate IsAlmostBalanced(r: Rep) { Depth(r) == 0 || (Depth(r) - 1 <= MAX_DEPTH && Fib(Depth(r) - 1) <= Size(r)) }

  /** _S_is_roughly_balanced */
  predicate IsRoughlyBalanced(r: Rep) { Depth(r) <= 1 || (Depth(r) - 2 <= MAX_DEPTH && Fib(Depth(r) - 2) <= Size(r)) }

  /** What every rope handle may hold: the path arrays of fetch and of the iterators rely on the depth. */
  predicate Valid(r: Rep) { Shaped(r) && Depth(r) <= MAX_DEPTH }

  predicate ValidOpt(o: Option<Rep>) { o.Some? ==> Valid(o.value) }

  function Chars(o: Option<Rep>): seq<char> { if o.Some? then Content(o.value) else [] }

  function SizeOpt(o: Option<Rep>): nat { if o.Some? then Size(o.value) else 0 }

  lemma {:induction false} SizeIsLength(r: Rep)
    requires Shaped(r)
    ensures |Content(r)| == Size(r) >= 1
  {
    match r
    case Join(left, right, _) => SizeIsLength(left); SizeIsLength(right);
    case Window(base, _, _) => SizeIsLength(base);
    case _ =>
  }

  // ---------- concatenation ----------

  /** The test of _S_tree_concat on the node it has just built. */
  predicate NeedsRebalance(l: Rep, r: Rep) {
    var node := Join(l, r, false);
    Depth(node) > REBALANCE_DEPTH && (Size(node) < REBALANCE_SIZE || Depth(node) > MAX_DEPTH)
  }

  /** The two nodes that _S_concat hands to _S_tree_concat, or the leaf it copies both arguments into. */
  datatype Plan = CopyLeaf(leaf: Rep) | BuildTree(l: Rep, r: Rep)

  function PlanConcat(l: Rep, r: Rep): Plan {
    if r.Leaf? && l.Leaf? && |r.data| + |l.data| <= COPY_MAX then CopyLeaf(Leaf(l.data + r.data))
    else if r.Leaf? && l.Join? && l.right.Leaf? && |l.right.data| + |r.data| <= COPY_MAX then
      BuildTree(l.left, Leaf(l.right.data + r.data))
    else BuildTree(l, r)
  }

  predicate Rebalances(l: Rep, r: Rep) {
    var p := PlanConcat(l, r);
    p.BuildTree? && NeedsRebalance(p.l, p.r)
  }

  predicate Joinable(l: Rep, r: Rep) { Valid(l) && Valid(r) && Size(l) + Size(r) <= MAX_SIZE }

  lemma Regroup(a: seq<char>, b: seq<char>, c: seq<char>)
    ensures (a + b) + c == a + (b + c)
  {
  }

  lemma PlanCopied(l: Rep, r: Rep)
    requires Joinable(l, r) && PlanConcat(l, r).CopyLeaf?
    ensures var leaf := PlanConcat(l, r).leaf;
      Valid(leaf) && Depth(leaf) == 0 && Size(leaf) == Size(l) + Size(r) && Content(leaf) == Content(l) + Content(r)
  {
  }

  lemma PlanTree(l: Rep, r: Rep)
    requires Joinable(l, r) && PlanConcat(l, r).BuildTree?
    ensures var BuildTree(x, y) := PlanConcat(l, r);
      && Joinable(x, y) && Size(x) + Size(y) == Size(l) + Size(r)
      && Max(Depth(x), Depth(y)) <= Max(Depth(l), Depth(r))
      && Content(x) + Content(y) == Content(l) + Content(r)
  {
    var p := PlanConcat(l, r);
    if p != BuildTree(l, r) { Regroup(Content(p.l), l.right.data, r.data); }
  }

  /** _S_tree_concat. It calls _S_balance, which calls it back: the termination measure says that the calls
      reached from _S_balance never rebalance again. */
  function TreeConcat(l: Rep, r: Rep): (res: Rep)
    requires Joinable(l, r)
    ensures Valid(res) && Size(res) == Size(l) + Size(r) && Content(res) == Content(l) + Content(r)
    ensures if NeedsRebalance(l, r) then IsRoughlyBalanced(res) else res == Join(l, r, false)
    decreases if NeedsRebalance(l, r) then 4 else 0, 0, 0
  {
    var node := Join(l, r, false);
    if Depth(node) > REBALANCE_DEPTH && (Size(node) < REBALANCE_SIZE || Depth(node) > MAX_DEPTH) then Balance(node)
    else node
  }

  /** _S_concat on two ropes that are not null. */
  function Concat(l: Rep, r: Rep): (res: Rep)
    requires Joinable(l, r)
    ensures Valid(res) && Size(res) == Size(l) + Size(r) && Content(res) == Content(l) + Content(r)
    ensures !Rebalances(l, r) ==> Depth(res) <= Max(Depth(l), Depth(r)) + 1
    decreases if Rebalances(l, r) then 4 else 0, 1, 0
  {
    if r.Leaf? && l.Leaf? && |r.data| + |l.data| <= COPY_MAX then
      PlanCopied(l, r); Leaf(l.data + r.data)
    else
      PlanTree(l, r);
      if r.Leaf? && l.Join? && l.right.Leaf? && |l.right.data| + |r.data| <= COPY_MAX then
        TreeConcat(l.left, Leaf(l.right.data + r.data))
      else
        TreeConcat(l, r)
  }

  predicate JoinableOpt(l: Option<Rep>, r: Option<Rep>) {
    ValidOpt(l) && ValidOpt(r) && SizeOpt(l) + SizeOpt(r) <= MAX_SIZE
  }

  /** _S_concat */
  function ConcatOpt(l: Option<Rep>, r: Option<Rep>): (res: Option<Rep>)
    requires JoinableOpt(l, r)
    ensures ValidOpt(res) && SizeOpt(res) == SizeOpt(l) + SizeOpt(r) && Chars(res) == Chars(l) + Chars(r)
    ensures res.None? <==> l.None? && r.None?
    decreases if l.Some? && r.Some? && Rebalances(l.value, r.value) then 4 else 0, 2, 0
  {
    if l.None? then r
    else if r.None? then l
    else Some(Concat(l.value, r.value))
  }

  // ---------- rebalancing ----------

  /** What a filled slot of the forest satisfies between insertions. Slots 44 and 45 are never filled by a rope
      of at most MAX_SIZE characters. */
  predicate SlotOk(e: Rep, i: nat) {
    && i < MAX_DEPTH - 1
    && Shaped(e)
    && Fib(i) <= Size(e) < Fib(i + 1)
    && Depth(e) <= i + 1
    && (IsBalanced(e) ==> Balanced(e))
  }

  predicate ForestOk(f: seq<Option<Rep>>) {
    |f| == MAX_DEPTH + 1 && forall i :: 0 <= i <= MAX_DEPTH && f[i].Some? ==> SlotOk(f[i].value, i)
  }

  predicate EmptyBelow(f: seq<Option<Rep>>, i: nat) {
    i <= |f| && forall j :: 0 <= j < i ==> f[j] == None
  }

  /** The concatenation of slots |f|-1, ..., i, and its length. */
  function ForestContent(f: seq<Option<Rep>>, i: nat): seq<char>
    decreases |f| - i
  {
    if i >= |f| then [] else ForestContent(f, i + 1) + Chars(f[i])
  }

  function ForestSize(f: seq<Option<Rep>>, i: nat): nat
    decreases |f| - i
  {
    if i >= |f| then 0 else ForestSize(f, i + 1) + SizeOpt(f[i])
  }

  lemma {:induction false} SkipEmpty(f: seq<Option<Rep>>, i: nat)
    requires EmptyBelow(f, i)
    ensures ForestContent(f, 0) == ForestContent(f, i) && ForestSize(f, 0) == ForestSize(f, i)
  {
    if i > 0 {
      SkipEmpty(f, i - 1);
      assert f[i - 1] == None;
    }
  }

  lemma {:induction false} ForestFrame(f: seq<Option<Rep>>, g: seq<Option<Rep>>, i: nat)
    requires |f| == |g| && forall j :: i <= j < |f| ==> f[j] == g[j]
    ensures ForestContent(f, i) == ForestContent(g, i) && ForestSize(f, i) == ForestSize(g, i)
    decreases |f| - i
  {
    if i < |f| { ForestFrame(f, g, i + 1); }
  }

  /** Emptying the lowest slot in use. */
  lemma TakeLowest(f: seq<Option<Rep>>, i: nat)
    requires i < |f| && EmptyBelow(f, i)
    ensures EmptyBelow(f[i := None], i + 1)
    ensures ForestContent(f, 0) == ForestContent(f[i := None], 0) + Chars(f[i])
    ensures ForestSize(f, 0) == ForestSize(f[i := None], 0) + SizeOpt(f[i])
  {
    SkipEmpty(f, i);
    SkipEmpty(f[i := None], i + 1);
    ForestFrame(f, f[i := None], i + 1);
  }

  lemma TakeLowestSize(f: seq<Option<Rep>>, i: nat)
    requires i < |f| && EmptyBelow(f, i)
    ensures ForestSize(f, 0) == ForestSize(f[i := None], 0) + SizeOpt(f[i])
  {
    TakeLowest(f, i);
  }

  /** ... and putting its characters in front of what follows. */
  lemma TakeLowestThen(f: seq<Option<Rep>>, i: nat, rest: seq<char>, whole: seq<char>)
    requires i < |f| && EmptyBelow(f, i) && whole == Chars(f[i]) + rest
    ensures EmptyBelow(f[i := None], i + 1) && ForestSize(f, 0) == ForestSize(f[i := None], 0) + SizeOpt(f[i])
    ensures ForestContent(f[i := None], 0) + whole == ForestContent(f, 0) + rest
  {
    TakeLowest(f, i);
    Regroup(ForestContent(f[i := None], 0), Chars(f[i]), rest);
  }

  /** The too-tiny prefixes merged so far, all of them from slots below i. */
  predicate TinyOk(tiny: Option<Rep>, i: nat) {
    tiny.Some? ==> i >= 1 && Valid(tiny.value) && Depth(tiny.value) <= i + 1 && IsRoughlyBalanced(tiny.value)
  }

  /** The tree on its way to slot i or above. */
  predicate InserteeOk(x: Rep, i: nat) {
    && Valid(x)
    && (IsBalanced(x) ==> Balanced(x))
    && ((Depth(x) <= i + 1 && Fib(i) <= Size(x)) || (Depth(x) <= i + 2 && Fib(i + 1) <= Size(x)))
  }

  /** Two trees this large for their depth are joined without rebalancing. */
  lemma NoRebalance(l: Rep, r: Rep, m: nat)
    requires Joinable(l, r) && m < MAX_DEPTH - 1
    requires Max(Depth(l), Depth(r)) <= m + 1 && Fib(m) <= Size(l) + Size(r)
    ensures !Rebalances(l, r)
  {
    if PlanConcat(l, r).BuildTree? {
      PlanTree(l, r);
      if m >= REBALANCE_DEPTH - 1 { LargeBucket(m); }
    }
  }

  /** _S_concat_and_set_balanced, where no rebalancing can be needed. */
  function ConcatAndSetBalanced(l: Option<Rep>, r: Option<Rep>): (res: Rep)
    requires JoinableOpt(l, r) && (l.Some? || r.Some?)
    requires l.Some? && r.Some? ==> !Rebalances(l.value, r.value)
    ensures Valid(res) && Size(res) == SizeOpt(l) + SizeOpt(r) && Content(res) == Chars(l) + Chars(r)
    ensures IsBalanced(res) ==> Balanced(res)
    ensures Depth(res) <= if l.None? then Depth(r.value) else if r.None? then Depth(l.value)
                          else Max(Depth(l.value), Depth(r.value)) + 1
    decreases 0, 3, 0
  {
    var c := ConcatOpt(l, r).value;
    if MinLen(Depth(c)) <= Size(c) && c.Join? then c.(balanced := true) else c
  }

  /** Joining slot i onto the tiny prefixes below it does not rebalance, and keeps them roughly balanced. */
  lemma SlotJoinsCalmly(e: Rep, tiny: Option<Rep>, i: nat)
    requires SlotOk(e, i) && TinyOk(tiny, i) && Size(e) + SizeOpt(tiny) <= MAX_SIZE
    ensures tiny.Some? ==> !Rebalances(e, tiny.value)
  {
    if tiny.Some? { NoRebalance(e, tiny.value, i); }
  }

  lemma MergedTinyOk(e: Rep, tiny: Option<Rep>, t: Rep, i: nat)
    requires SlotOk(e, i) && TinyOk(tiny, i) && Valid(t) && Size(t) == Size(e) + SizeOpt(tiny)
    requires Depth(t) <= if tiny.None? then Depth(e) else Max(Depth(e), Depth(tiny.value)) + 1
    ensures TinyOk(Some(t), i + 1)
  {
    if Depth(t) >= 2 { FibMonotone(Depth(t) - 2, i); }
  }

  /** One merge of the first loop of _S_add_leaf_to_forest. */
  function MergeSlot(e: Rep, i: nat, tiny: Option<Rep>): (t: Rep)
    requires SlotOk(e, i) && TinyOk(tiny, i) && Size(e) + SizeOpt(tiny) <= MAX_SIZE
    ensures TinyOk(Some(t), i + 1) && Size(t) == Size(e) + SizeOpt(tiny) && Content(t) == Content(e) + Chars(tiny)
    decreases 0, 4, 0
  {
    SlotJoinsCalmly(e, tiny, i);
    var t := ConcatAndSetBalanced(Some(e), tiny);
    MergedTinyOk(e, tiny, t, i); t
  }

  /** One step of the last loop of _S_balance. */
  function JoinSlot(e: Rep, i: nat, tail: Option<Rep>): (t: Rep)
    requires SlotOk(e, i) && TinyOk(tail, i) && Size(e) + SizeOpt(tail) <= MAX_SIZE
    ensures TinyOk(Some(t), i + 1) && Size(t) == Size(e) + SizeOpt(tail) && Content(t) == Content(e) + Chars(tail)
    decreases 0, 4, 0
  {
    SlotJoinsCalmly(e, tail, i);
    var t := ConcatOpt(Some(e), tail).value;
    assert tail.Some? ==> t == Concat(e, tail.value);
    MergedTinyOk(e, tail, t, i); t
  }

  lemma BucketBoundsDepth(r: Rep, k: nat)
    requires k < MAX_DEPTH && IsBalanced(r) && Size(r) < Fib(k + 1)
    ensures Depth(r) <= k
  {
    if Depth(r) > k { FibMonotone(k + 1, Depth(r)); }
  }

  /** The tree handed from the first loop to the second. */
  function Insertee(tiny: Option<Rep>, r: Rep, k: nat): (x: Rep)
    requires k < MAX_DEPTH - 1 && TinyOk(tiny, k) && Shaped(r) && Balanced(r) && IsBalanced(r)
    requires SizeOpt(tiny) + Size(r) <= MAX_SIZE && Fib(k) <= Size(r) < Fib(k + 1)
    ensures InserteeOk(x, k) && Size(x) == SizeOpt(tiny) + Size(r) && Content(x) == Chars(tiny) + Content(r)
    decreases 0, 4, 0
  {
    BucketBoundsDepth(r, k);
    InserteeJoinsCalmly(tiny, r, k);
    var x := ConcatAndSetBalanced(tiny, Some(r));
    InserteeIsOk(tiny, r, k, x); x
  }

  /** A prefix deep enough to make the tree deeper than k + 1 also makes it long enough for that. */
  lemma InserteeIsOk(tiny: Option<Rep>, r: Rep, k: nat, x: Rep)
    requires TinyOk(tiny, k) && Depth(r) <= k && Fib(k) <= Size(r) && k < MAX_DEPTH - 1
    requires Valid(x) && (IsBalanced(x) ==> Balanced(x)) && Size(x) == SizeOpt(tiny) + Size(r)
    requires Depth(x) <= if tiny.None? then Depth(r) else Max(Depth(tiny.value), Depth(r)) + 1
    ensures InserteeOk(x, k)
  {
    hide Shaped, Valid, Depth, Size, IsBalanced, Fib, Balanced;
    if tiny.Some? && Depth(tiny.value) == k + 1 { FibStep(k); }
  }

  lemma FibStep(k: nat)
    requires k >= 1
    ensures Fib(k + 1) == Fib(k) + Fib(k - 1)
  {
  }

  lemma InserteeJoinsCalmly(tiny: Option<Rep>, r: Rep, k: nat)
    requires k < MAX_DEPTH - 1 && TinyOk(tiny, k) && Valid(r) && Depth(r) <= k
    requires SizeOpt(tiny) + Size(r) <= MAX_SIZE && Fib(k) <= Size(r)
    ensures tiny.Some? ==> !Rebalances(tiny.value, r)
  {
    if tiny.Some? { NoRebalance(tiny.value, r, k); }
  }

  /** One merge of the second loop. */
  function Absorb(e: Rep, x: Rep, i: nat): (y: Rep)
    requires SlotOk(e, i) && InserteeOk(x, i) && Size(e) + Size(x) <= MAX_SIZE
    ensures Fib(i + 1) <= Size(y) == Size(e) + Size(x) && Content(y) == Content(e) + Content(x)
    ensures InserteeOk(y, i + 1)
    decreases 0, 4, 0
  {
    AbsorbsCalmly(e, x, i);
    var y := ConcatAndSetBalanced(Some(e), Some(x));
    AbsorbedOk(e, x, y, i); y
  }

  lemma AbsorbsCalmly(e: Rep, x: Rep, i: nat)
    requires SlotOk(e, i) && InserteeOk(x, i) && Size(e) + Size(x) <= MAX_SIZE
    ensures !Rebalances(e, x)
  {
    if Depth(x) <= i + 1 && Fib(i) <= Size(x) {
      NoRebalance(e, x, i);
    } else {
      BucketBelowTop(i + 1, Size(x));
      NoRebalance(e, x, i + 1);
    }
  }

  lemma AbsorbedOk(e: Rep, x: Rep, y: Rep, i: nat)
    requires SlotOk(e, i) && InserteeOk(x, i) && Valid(y) && (IsBalanced(y) ==> Balanced(y))
    requires Size(y) == Size(e) + Size(x) && Depth(y) <= Max(Depth(e), Depth(x)) + 1
    ensures Fib(i + 1) <= Size(y) && InserteeOk(y, i + 1)
  {
    FibMonotone(if i > 0 then i - 1 else 0, i);
  }

  /** What both loops of _S_add_leaf_to_forest maintain. */
  ghost predicate MergeTinyPre(f: seq<Option<Rep>>, s: nat, i: nat, tiny: Option<Rep>) {
    && ForestOk(f) && i < MAX_DEPTH - 1 && EmptyBelow(f, i) && TinyOk(tiny, i)
    && Fib(i) <= s <= MAX_SIZE && ForestSize(f, 0) + SizeOpt(tiny) <= MAX_SIZE
  }

  ghost predicate PlacePre(f: seq<Option<Rep>>, x: Rep, i: nat) {
    && ForestOk(f) && i < MAX_DEPTH - 1 && EmptyBelow(f, i) && InserteeOk(x, i) && Fib(i) <= Size(x)
    && ForestSize(f, 0) + Size(x) <= MAX_SIZE
  }

  /** What the last loop of _S_balance maintains. */
  ghost predicate JoinForestPre(f: seq<Option<Rep>>, i: nat, tail: Option<Rep>) {
    ForestOk(f) && i <= |f| && TinyOk(tail, i) && ForestSize(f, i) + SizeOpt(tail) <= MAX_SIZE
  }

  datatype Merged = Merged(forest: seq<Option<Rep>>, slot: nat, tiny: Option<Rep>)

  /** The first loop of _S_add_leaf_to_forest: the slots too small for a leaf of size s are merged into tiny. */
  function MergeTiny(f: seq<Option<Rep>>, s: nat, i: nat, tiny: Option<Rep>)
    : (m: Merged)
    requires MergeTinyPre(f, s, i, tiny)
    ensures ForestOk(m.forest) && EmptyBelow(m.forest, m.slot) && TinyOk(m.tiny, m.slot)
    ensures m.slot < MAX_DEPTH - 1 && Fib(m.slot) <= s < Fib(m.slot + 1)
    ensures ForestSize(m.forest, 0) + SizeOpt(m.tiny) == ForestSize(f, 0) + SizeOpt(tiny)
    ensures ForestContent(m.forest, 0) + Chars(m.tiny) == ForestContent(f, 0) + Chars(tiny)
    decreases 1, 0, MAX_DEPTH - i
  {
    hide Fib, Size, Depth, Content, Shaped, IsBalanced, IsRoughlyBalanced, ForestContent, ForestSize;
    if s >= MinLen(i + 1) then
      BucketBelowTop(i + 1, s);
      TakeLowestSize(f, i);
      var t := if f[i].Some? then Some(MergeSlot(f[i].value, i, tiny)) else tiny;
      TakeLowestThen(f, i, Chars(tiny), Chars(t));
      MergeTiny(f[i := None], s, i + 1, t)
    else
      Merged(f, i, tiny)
  }

  /** Filling the lowest slot, whatever it held. */
  lemma StoreLowest(f: seq<Option<Rep>>, y: Rep, i: nat)
    requires ForestOk(f) && i < MAX_DEPTH - 1 && EmptyBelow(f, i)
    requires (InserteeOk(y, i) || InserteeOk(y, i + 1)) && Fib(i) <= Size(y) < Fib(i + 1)
    ensures ForestOk(f[i := Some(y)])
    ensures ForestSize(f[i := Some(y)], 0) == ForestSize(f[i := None], 0) + Size(y)
    ensures ForestContent(f[i := Some(y)], 0) == ForestContent(f[i := None], 0) + Content(y)
  {
    FibMonotone(i + 1, i + 2);
    assert SlotOk(y, i);
    TakeLowest(f[i := Some(y)], i);
    assert f[i := Some(y)][i := None] == f[i := None];
  }

  /** The second loop: the tree moves up, absorbing the slots it meets. */
  function Place(f: seq<Option<Rep>>, x: Rep, i: nat): (g: seq<Option<Rep>>)
    requires PlacePre(f, x, i)
    ensures ForestOk(g) && ForestSize(g, 0) == ForestSize(f, 0) + Size(x)
    ensures ForestContent(g, 0) == ForestContent(f, 0) + Content(x)
    decreases 1, 0, MAX_DEPTH - i
  {
    hide Fib, Size, Depth, Content, Shaped, IsBalanced, IsRoughlyBalanced, ForestContent, ForestSize;
    TakeLowestSize(f, i);
    var y := if f[i].Some? then Absorb(f[i].value, x, i) else x;
    TakeLowestThen(f, i, Content(x), Content(y));
    if i == MAX_DEPTH || Size(y) < MinLen(i + 1) then
      StoreLowest(f, y, i);
      f[i := Some(y)]
    else
      BucketBelowTop(i + 1, Size(y));
      Place(f[i := None], y, i + 1)
  }

  /** _S_add_leaf_to_forest */
  function AddLeafToForest(r: Rep, f: seq<Option<Rep>>): (g: seq<Option<Rep>>)
    requires ForestOk(f) && Shaped(r) && Balanced(r) && IsBalanced(r) && ForestSize(f, 0) + Size(r) <= MAX_SIZE
    ensures ForestOk(g) && ForestSize(g, 0) == ForestSize(f, 0) + Size(r)
    ensures ForestContent(g, 0) == ForestContent(f, 0) + Content(r)
    decreases 1, 1, 0
  {
    SizeIsLength(r);
    FibMonotone(0, 0);
    assert EmptyBelow(f, 0) && TinyOk(None, 0) && Fib(0) <= Size(r);
    hide Fib, Size, Depth, Content, Shaped, IsBalanced, IsRoughlyBalanced, ForestContent, ForestSize;
    hide ForestOk, EmptyBelow, TinyOk, InserteeOk, Balanced;
    var m := MergeTiny(f, Size(r), 0, None);
    var x := Insertee(m.tiny, r, m.slot);
    Regroup(ForestContent(m.forest, 0), Chars(m.tiny), Content(r));
    assert ForestContent(f, 0) + Chars(None) == ForestContent(f, 0);
    Place(m.forest, x, m.slot)
  }

  /** _S_add_to_forest: the maximal balanced subtrees of r, from left to right. */
  function AddToForest(r: Rep, f: seq<Option<Rep>>): (g: seq<Option<Rep>>)
    requires ForestOk(f) && Shaped(r) && ForestSize(f, 0) + Size(r) <= MAX_SIZE
    ensures ForestOk(g) && ForestSize(g, 0) == ForestSize(f, 0) + Size(r)
    ensures ForestContent(g, 0) == ForestContent(f, 0) + Content(r)
    decreases 2, Depth(r), 0
  {
    if Balanced(r) then
      FlatIsBalanced(r);
      AddLeafToForest(r, f)
    else
      Regroup(ForestContent(f, 0), Content(r.left), Content(r.right));
      AddToForest(r.right, AddToForest(r.left, f))
  }

  lemma FlatIsBalanced(r: Rep)
    requires Shaped(r) && Balanced(r)
    ensures IsBalanced(r)
  {
    SizeIsLength(r);
  }

  /** The last loop of _S_balance: slots i, i+1, ..., 45 are joined onto the tail. */
  function JoinForest(f: seq<Option<Rep>>, i: nat, tail: Option<Rep>): (res: Option<Rep>)
    requires JoinForestPre(f, i, tail)
    ensures TinyOk(res, |f|) && SizeOpt(res) == ForestSize(f, i) + SizeOpt(tail)
    ensures Chars(res) == ForestContent(f, i) + Chars(tail)
    decreases 1, 0, |f| - i
  {
    hide Fib, Size, Depth, Content, Shaped, IsBalanced, IsRoughlyBalanced;
    if i == |f| then tail
    else
      Regroup(ForestContent(f, i + 1), Chars(f[i]), Chars(tail));
      var t := if f[i].Some? then Some(JoinSlot(f[i].value, i, tail)) else tail;
      JoinForest(f, i + 1, t)
  }

  function NoTrees(): seq<Option<Rep>> { seq(MAX_DEPTH + 1, _ => None) }

  /** _S_balance. The throw of its last test is never reached, as the result is valid. */
  function Balance(r: Rep): (res: Rep)
    requires Shaped(r) && Size(r) <= MAX_SIZE
    ensures Valid(res) && Size(res) == Size(r) && Content(res) == Content(r)
    ensures IsRoughlyBalanced(res)
    decreases 3, 0, 0
  {
    SkipEmpty(NoTrees(), MAX_DEPTH + 1);
    SizeIsLength(r);
    JoinForest(AddToForest(r, NoTrees()), 0, None).value
  }
}
