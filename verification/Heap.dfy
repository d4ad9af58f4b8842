/** Heaps in arrays: sifting, building, sorting, and partial_sort. */
module Heap {
  import opened Ordering
  import opened Ranges

  function Parent(i: nat): nat
    requires i > 0
  {
    (i - 1) / 2
  }

  /** No element from top on down is less than its children. */
  ghost predicate HeapFrom<T>(lt: Less<T>, h: seq<T>, top: nat) {
    forall i :: 1 <= i < |h| && Parent(i) >= top ==> !lt(h[Parent(i)], h[i])
  }

  ghost predicate IsHeap<T>(lt: Less<T>, h: seq<T>) { HeapFrom(lt, h, 0) }

  predicate Descends(p: nat, top: nat) { p == top || (p > top && Descends(Parent(p), top)) }

  /** A heap from top on, but for a hole at p, whose element does not matter: the hole's children would do in its
      place. */
  ghost predicate HoleAt<T>(lt: Less<T>, h: seq<T>, top: nat, p: nat) {
    && p < |h| && Descends(p, top)
    && (forall i :: 1 <= i < |h| && Parent(i) >= top && i != p && Parent(i) != p ==> !lt(h[Parent(i)], h[i]))
    && (p > top ==> forall i :: 1 <= i < |h| && Parent(i) == p ==> !lt(h[Parent(p)], h[i]))
  }

  /** The hole moves down to its greater child. */
  lemma HoleDown<T(!new)>(lt: Less<T>, h: seq<T>, top: nat, p: nat, c: nat)
    requires StrictWeak(lt) && HoleAt(lt, h, top, p) && 1 <= c < |h| && Parent(c) == p
    requires forall i :: 1 <= i < |h| && Parent(i) == p ==> !lt(h[c], h[i])
    ensures HoleAt(lt, h[p := h[c]], top, c)
  {
    var g := h[p := h[c]];
    assert Parent(c) >= top;
    forall i | 1 <= i < |g| && Parent(i) >= top && i != c && Parent(i) != c ensures !lt(g[Parent(i)], g[i]) {
      if i == p { assert p > top && !lt(h[Parent(p)], h[c]); }
    }
    forall i | 1 <= i < |g| && Parent(i) == c ensures !lt(g[Parent(c)], g[i]) {
      assert i != p && !lt(h[Parent(i)], h[i]);
    }
  }

  /** The hole may take x: its children are not greater. */
  ghost predicate ChildrenFit<T>(lt: Less<T>, h: seq<T>, p: nat, x: T) {
    forall i :: 1 <= i < |h| && Parent(i) == p ==> !lt(x, h[i])
  }

  /** The hole moves up to its parent, which x exceeds. */
  lemma HoleUp<T(!new)>(lt: Less<T>, h: seq<T>, top: nat, p: nat, x: T)
    requires StrictWeak(lt) && HoleAt(lt, h, top, p) && p > top && ChildrenFit(lt, h, p, x) && lt(h[Parent(p)], x)
    ensures HoleAt(lt, h[p := h[Parent(p)]], top, Parent(p)) && ChildrenFit(lt, h[p := h[Parent(p)]], Parent(p), x)
  {
    var q := Parent(p);
    var g := h[p := h[q]];
    DescendsOver(p, top);
    if q > top { DescendsOver(q, top); }
    forall i | 1 <= i < |g| && Parent(i) >= top && i != q && Parent(i) != q ensures !lt(g[Parent(i)], g[i]) {
      if Parent(i) == p { assert !lt(h[Parent(p)], h[i]); }
    }
    forall i | 1 <= i < |g| && Parent(i) == q ensures !lt(x, g[i]) && (q > top ==> !lt(g[Parent(q)], g[i])) {
      if i != p { assert !lt(h[q], h[i]); }
      if q > top { assert Parent(q) >= top && !lt(h[Parent(q)], h[q]); }
    }
  }

  /** The hole is filled. */
  lemma HoleFilled<T(!new)>(lt: Less<T>, h: seq<T>, top: nat, p: nat, x: T)
    requires HoleAt(lt, h, top, p) && ChildrenFit(lt, h, p, x) && (p > top ==> !lt(h[Parent(p)], x))
    ensures HeapFrom(lt, h[p := x], top)
  {
  }

  lemma {:induction false} DescendsOver(p: nat, top: nat)
    requires Descends(p, top) && p > top
    ensures Parent(p) >= top && Descends(Parent(p), top)
  {
  }

  lemma LeafFits<T>(lt: Less<T>, h: seq<T>, p: nat, x: T)
    requires 2 * p + 1 >= |h|
    ensures ChildrenFit(lt, h, p, x)
  {
  }

  lemma {:induction false} RootIsGreatest<T(!new)>(lt: Less<T>, h: seq<T>, i: nat)
    requires StrictWeak(lt) && IsHeap(lt, h) && i < |h|
    ensures !lt(h[0], h[i])
  {
    if i > 0 {
      RootIsGreatest(lt, h, Parent(i));
      assert !lt(h[Parent(i)], h[i]);
    }
  }

  // ---------- on arrays ----------

  method Put<T>(a: array<T>, ghost d: seq<T>, first: nat, ghost len: nat, p: nat, x: T)
    requires first + len <= a.Length && SameOutside(d, a[..], first, first + len) && p < len
    modifies a
    ensures SameOutside(d, a[..], first, first + len)
    ensures a[first..first + len] == old(a[first..first + len])[p := x]
  {
    WindowStore(d, a[..], first, len, p, x);
    Store(a, first + p, x);
  }

  lemma HoleDescends<T>(lt: Less<T>, h: seq<T>, top: nat, p: nat)
    requires HoleAt(lt, h, top, p)
    ensures Descends(p, top)
  {
  }

  lemma WindowStore<T>(d: seq<T>, t: seq<T>, first: nat, len: nat, p: nat, x: T)
    requires first + len <= |d| && SameOutside(d, t, first, first + len) && p < len
    ensures SameOutside(d, t[first + p := x], first, first + len)
    ensures t[first + p := x][first..first + len] == t[first..first + len][p := x]
  {
  }

  /** Moving an element into the hole and filling the place it leaves conserves what there is. */
  lemma MoveInto<T>(h: seq<T>, p: nat, q: nat, x: T)
    requires p < |h| && q < |h| && p != q
    ensures multiset(h[p := h[q]][q := x]) == multiset(h[p := x])
  {
    var g := h[p := x];
    assert h[p := h[q]][q := x] == g[p := g[q]][q := g[p]];
    SwapConserves(g, p, q);
  }

  /** h with x at p has the same elements as h0 with x at q. */
  ghost predicate SameElements<T>(h: seq<T>, p: nat, h0: seq<T>, q: nat, x: T) {
    p < |h| && q < |h0| && multiset(h[p := x]) == multiset(h0[q := x])
  }

  lemma MovedElement<T>(h: seq<T>, p: nat, c: nat, h0: seq<T>, q: nat, x: T)
    requires SameElements(h, p, h0, q, x) && c < |h| && p != c
    ensures SameElements(h[p := h[c]], c, h0, q, x)
  {
    MoveInto(h, p, c, x);
  }

  /** The hole at p, above which value still belongs, moves up. */
  method RiseTo<T(!new)>(lt: Less<T>, a: array<T>, ghost d: seq<T>, first: nat, ghost top: nat, ghost len: nat, p: nat, q: nat,
      ghost h0: seq<T>, ghost hole: nat, ghost value: T)
    requires StrictWeak(lt) && first + len <= a.Length && SameOutside(d, a[..], first, first + len) && p < len
    requires var h := a[first..first + len];
      && HoleAt(lt, h, top, p) && ChildrenFit(lt, h, p, value) && SameElements(h, p, h0, hole, value)
      && p > top && q == Parent(p) && lt(h[q], value)
    modifies a
    ensures SameOutside(d, a[..], first, first + len)
    ensures var h := a[first..first + len];
      HoleAt(lt, h, top, q) && ChildrenFit(lt, h, q, value) && SameElements(h, q, h0, hole, value)
  {
    hide HoleAt, ChildrenFit, SameOutside, SameElements;
    ghost var h := a[first..first + len];
    HoleUp(lt, h, top, p, value);
    MovedElement(h, p, q, h0, hole, value);
    Put(a, d, first, len, p, a[first + q]);
  }

  /** __push_heap: the hole moves up until value fits. */
  method PushHeap<T(!new)>(lt: Less<T>, a: array<T>, first: nat, hole: nat, top: nat, ghost len: nat, value: T)
    requires StrictWeak(lt) && hole < len && first + len <= a.Length
    requires HoleAt(lt, a[first..first + len], top, hole) && ChildrenFit(lt, a[first..first + len], hole, value)
    modifies a
    ensures SameOutside(old(a[..]), a[..], first, first + len) && HeapFrom(lt, a[first..first + len], top)
    ensures multiset(a[first..first + len]) == multiset(old(a[first..first + len])[hole := value])
  {
    hide HoleAt, ChildrenFit, HeapFrom, SameOutside, Descends;
    ghost var d, h0 := a[..], a[first..first + len];
    SameOutsideSelf(d, first, first + len);
    assert SameElements(h0, hole, h0, hole, value);
    var p := hole;
    HoleDescends(lt, h0, top, p);
    while p > top && lt(a[first + Parent(p)], value)
      invariant 0 <= p < len && Descends(p, top) && SameOutside(d, a[..], first, first + len)
      invariant HoleAt(lt, a[first..first + len], top, p) && ChildrenFit(lt, a[first..first + len], p, value)
      invariant SameElements(a[first..first + len], p, h0, hole, value)
      decreases p
    {
      hide SameElements;
      DescendsOver(p, top);
      RiseTo(lt, a, d, first, top, len, p, Parent(p), h0, hole, value);
      p := Parent(p);
    }
    ghost var h := a[first..first + len];
    if p > top {
      assert Parent(p) < p && h[Parent(p)] == a[first + Parent(p)];
      assert !lt(h[Parent(p)], value);
    }
    HoleFilled(lt, h, top, p, value);
    Put(a, d, first, len, p, value);
  }

  /** The hole at p sinks to its greater child c. */
  method SinkTo<T(!new)>(lt: Less<T>, a: array<T>, ghost d: seq<T>, first: nat, ghost hole: nat, ghost len: nat, p: nat, c: nat,
      ghost h0: seq<T>, ghost value: T)
    requires StrictWeak(lt) && first + len <= a.Length && SameOutside(d, a[..], first, first + len) && p < len
    requires var h := a[first..first + len];
      && HoleAt(lt, h, hole, p) && SameElements(h, p, h0, hole, value) && 1 <= c < len && Parent(c) == p
      && forall i :: 1 <= i < |h| && Parent(i) == p ==> !lt(h[c], h[i])
    modifies a
    ensures SameOutside(d, a[..], first, first + len)
    ensures HoleAt(lt, a[first..first + len], hole, c) && SameElements(a[first..first + len], c, h0, hole, value)
  {
    hide HoleAt, SameOutside, SameElements;
    ghost var h := a[first..first + len];
    HoleDown(lt, h, hole, p, c);
    MovedElement(h, p, c, h0, hole, value);
    Put(a, d, first, len, p, a[first + c]);
  }

  /** The hole sinks to a leaf. */
  method SiftDown<T(!new)>(lt: Less<T>, a: array<T>, first: nat, hole: nat, len: nat, ghost value: T) returns (p: nat)
    requires StrictWeak(lt) && hole < len && first + len <= a.Length && HeapFrom(lt, a[first..first + len], hole + 1)
    modifies a
    ensures SameOutside(old(a[..]), a[..], first, first + len) && p < len && len <= 2 * p + 1
    ensures HoleAt(lt, a[first..first + len], hole, p)
    ensures SameElements(a[first..first + len], p, old(a[first..first + len]), hole, value)
  {
    hide HoleAt, HeapFrom, SameOutside, Descends;
    ghost var d, h0 := a[..], a[first..first + len];
    SameOutsideSelf(d, first, first + len);
    HoleOpens(lt, h0, hole);
    p := hole;
    var second := 2 * hole + 2;
    assert SameElements(h0, hole, h0, hole, value);
    hide SameElements;
    while second < len
      invariant second == 2 * p + 2 && 0 <= p < len && SameOutside(d, a[..], first, first + len)
      invariant HoleAt(lt, a[first..first + len], hole, p)
      invariant SameElements(a[first..first + len], p, h0, hole, value)
      decreases len - p
    {
      ghost var h := a[first..first + len];
      if lt(a[first + second], a[first + (second - 1)]) { second := second - 1; }
      GreaterChild(lt, h, p, second);
      SinkTo(lt, a, d, first, hole, len, p, second, h0, value);
      p := second;
      second := 2 * (second + 1);
    }
    if second == len {
      ghost var h := a[first..first + len];
      OnlyChild(lt, h, p);
      SinkTo(lt, a, d, first, hole, len, p, second - 1, h0, value);
      p := second - 1;
    }
  }

  /** __adjust_heap: value rises from the leaf to which the hole has sunk. */
  method AdjustHeap<T(!new)>(lt: Less<T>, a: array<T>, first: nat, hole: nat, len: nat, value: T)
    requires StrictWeak(lt) && hole < len && first + len <= a.Length && HeapFrom(lt, a[first..first + len], hole + 1)
    modifies a
    ensures SameOutside(old(a[..]), a[..], first, first + len) && HeapFrom(lt, a[first..first + len], hole)
    ensures multiset(a[first..first + len]) == multiset(old(a[first..first + len])[hole := value])
  {
    hide HoleAt, ChildrenFit, HeapFrom, SameOutside, Descends;
    ghost var d := a[..];
    var p := SiftDown(lt, a, first, hole, len, value);
    ghost var t := a[..];
    LeafFits(lt, a[first..first + len], p, value);
    PushHeap(lt, a, first, p, hole, len, value);
    SameOutsideTransitive(d, t, a[..], first, first + len);
  }

  lemma HoleOpens<T>(lt: Less<T>, h: seq<T>, hole: nat)
    requires hole < |h| && HeapFrom(lt, h, hole + 1)
    ensures HoleAt(lt, h, hole, hole)
  {
  }

  lemma GreaterChild<T(!new)>(lt: Less<T>, h: seq<T>, p: nat, c: nat)
    requires StrictWeak(lt) && 2 * p + 2 < |h| && (c == 2 * p + 1 || c == 2 * p + 2)
    requires c == 2 * p + 1 <==> lt(h[2 * p + 2], h[2 * p + 1])
    ensures 1 <= c < |h| && Parent(c) == p
    ensures forall i :: 1 <= i < |h| && Parent(i) == p ==> !lt(h[c], h[i])
  {
    forall i | 1 <= i < |h| && Parent(i) == p ensures !lt(h[c], h[i]) { assert i == 2 * p + 1 || i == 2 * p + 2; }
  }

  lemma OnlyChild<T(!new)>(lt: Less<T>, h: seq<T>, p: nat)
    requires StrictWeak(lt) && 2 * p + 2 == |h|
    ensures Parent(2 * p + 1) == p
    ensures forall i :: 1 <= i < |h| && Parent(i) == p ==> !lt(h[2 * p + 1], h[i])
  {
    forall i | 1 <= i < |h| && Parent(i) == p ensures !lt(h[2 * p + 1], h[i]) { assert i == 2 * p + 1; }
  }

  // ---------- building and sorting ----------

  /** __make_heap */
  method MakeHeap<T(!new)>(lt: Less<T>, a: array<T>, first: nat, last: nat)
    requires StrictWeak(lt) && first <= last <= a.Length
    modifies a
    ensures SameOutside(old(a[..]), a[..], first, last) && IsHeap(lt, a[first..last])
    ensures multiset(a[first..last]) == multiset(old(a[first..last]))
  {
    hide HeapFrom, SameOutside;
    ghost var d := a[..];
    SameOutsideSelf(d, first, last);
    var len := last - first;
    LeavesAreHeaps(lt, a[first..last]);
    if len < 2 { return; }
    var parent := (len - 2) / 2;
    while true
      invariant 0 <= parent < len && SameOutside(d, a[..], first, last) && HeapFrom(lt, a[first..last], parent + 1)
      invariant multiset(a[first..last]) == multiset(d[first..last])
      decreases parent
    {
      ghost var t := a[..];
      assert t[first..last][parent := a[first + parent]] == t[first..last];
      AdjustHeap(lt, a, first, parent, len, a[first + parent]);
      SameOutsideTransitive(d, t, a[..], first, last);
      if parent == 0 { return; }
      parent := parent - 1;
    }
  }

  lemma LeavesAreHeaps<T>(lt: Less<T>, h: seq<T>)
    ensures |h| < 2 ==> IsHeap(lt, h)
    ensures |h| >= 2 ==> HeapFrom(lt, h, (|h| - 2) / 2 + 1)
  {
  }

  lemma HeapOfFewer<T>(lt: Less<T>, h: seq<T>, n: nat)
    requires IsHeap(lt, h) && n <= |h|
    ensures HeapFrom(lt, h[..n], 0) && HeapFrom(lt, h[..n], 1)
  {
  }

  /** __pop_heap: the greatest element goes to result, and value takes a place in the heap. */
  method PopHeap<T(!new)>(lt: Less<T>, a: array<T>, first: nat, len: nat, result: nat, value: T)
    requires StrictWeak(lt) && 0 < len && first + len <= result < a.Length && value == a[result]
    requires IsHeap(lt, a[first..first + len])
    modifies a
    ensures IsHeap(lt, a[first..first + len]) && a[result] == old(a[first])
    ensures SameOutside(old(a[..])[result := old(a[first])], a[..], first, first + len)
    ensures multiset(a[first..first + len]) == multiset(old(a[first..first + len])[0 := value])
  {
    hide HeapFrom, SameOutside;
    ghost var s := a[..];
    HeapOfFewer(lt, a[first..first + len], len);
    assert a[first..first + len][..len] == a[first..first + len];
    Store(a, result, a[first]);
    ghost var t := a[..];
    assert t[first..first + len] == s[first..first + len];
    AdjustHeap(lt, a, first, 0, len, value);
    SameOutsideAt(t, a[..], first, first + len, result);
  }

  lemma RootDominates<T(!new)>(lt: Less<T>, h: seq<T>)
    requires StrictWeak(lt) && IsHeap(lt, h) && h != []
    ensures Below(lt, h, [h[0]])
  {
    forall i | 0 <= i < |h| ensures !lt(h[0], h[i]) { RootIsGreatest(lt, h, i); }
  }

  lemma PoppedElements<T>(h: seq<T>, g: seq<T>)
    requires |h| >= 2 && multiset(g) == multiset(h[..|h| - 1][0 := h[|h| - 1]])
    ensures multiset(g + [h[0]]) == multiset(h) && |g| == |h| - 1 && forall x :: x in g ==> x in h
  {
    var n := |h| - 1;
    var k := h[..n][0 := h[n]];
    assert k == [h[n]] + h[1..n] && h == [h[0]] + h[1..n] + [h[n]];
    SameBag(g, k);
    forall x | x in g ensures x in h { assert x in k; }
  }

  /** The greatest element of the heap h in front of rest moves between the two. */
  lemma PopStep<T(!new)>(lt: Less<T>, h: seq<T>, rest: seq<T>, g: seq<T>)
    requires StrictWeak(lt) && IsHeap(lt, h) && |h| >= 2 && Sorted(lt, rest) && Below(lt, h, rest)
    requires multiset(g) == multiset(h[..|h| - 1][0 := h[|h| - 1]])
    ensures Sorted(lt, [h[0]] + rest) && Below(lt, g, [h[0]] + rest) && multiset(g + ([h[0]] + rest)) == multiset(h + rest)
  {
    PoppedElements(h, g);
    RootDominates(lt, h);
    BelowElements(lt, h, rest, [h[0]], rest);
    BelowElements(lt, h, rest, g, rest);
    BelowElements(lt, h, [h[0]], g, [h[0]]);
    BelowConcat(lt, [h[0]], rest, g);
    SortedConcat(lt, [h[0]], rest);
    assert g + ([h[0]] + rest) == (g + [h[0]]) + rest;
  }

  /** What the loop of sort_heap maintains. */
  ghost predicate SortingHeap<T>(lt: Less<T>, d: seq<T>, t: seq<T>, first: nat, l: nat, last: nat) {
    && first <= l <= last && SameOutside(d, t, first, last) && IsHeap(lt, t[first..l]) && Sorted(lt, t[l..last])
    && Below(lt, t[first..l], t[l..last]) && multiset(t[first..last]) == multiset(d[first..last])
  }

  lemma SortingStarts<T>(lt: Less<T>, d: seq<T>, first: nat, last: nat)
    requires first <= last <= |d| && IsHeap(lt, d[first..last])
    ensures SortingHeap(lt, d, d, first, last, last)
  {
    SameOutsideSelf(d, first, last);
  }

  /** How the array is laid out after one round. */
  lemma PoppedLayout<T>(d: seq<T>, t: seq<T>, u: seq<T>, first: nat, l: nat, last: nat)
    requires first + 1 < l <= last && SameOutside(d, t, first, last) && SameOutside(t[l - 1 := t[first]], u, first, l - 1)
    ensures |u| == |t| == |d| && last <= |d| && SameOutside(d, u, first, last)
    ensures u[l - 1..last] == [t[first..l][0]] + t[l..last] && u[first..last] == u[first..l - 1] + u[l - 1..last]
    ensures t[first..last] == t[first..l] + t[l..last]
    ensures t[first..l - 1] == t[first..l][..l - 1 - first] && t[l - 1] == t[first..l][l - 1 - first]
  {
    StoredLast(d, t, first, l, last);
    hide SameOutside;
    var t' := t[l - 1 := t[first]];
    SameOutsideWider(t', u, first, l - 1, first, last);
    SameOutsideTransitive(d, t', u, first, last);
    Behind(t', u, first, l - 1, last);
    StretchCut(u, first, l - 1, last);
    StretchCut(t, first, l, last);
  }

  lemma SortingGoesOn<T(!new)>(lt: Less<T>, d: seq<T>, t: seq<T>, u: seq<T>, first: nat, l: nat, last: nat)
    requires StrictWeak(lt) && SortingHeap(lt, d, t, first, l, last) && first + 1 < l
    requires SameOutside(t[l - 1 := t[first]], u, first, l - 1) && IsHeap(lt, u[first..l - 1])
    requires multiset(u[first..l - 1]) == multiset(t[first..l - 1][0 := t[l - 1]])
    ensures SortingHeap(lt, d, u, first, l - 1, last)
  {
    hide HeapFrom, Sorted, Below, SameOutside;
    PoppedLayout(d, t, u, first, l, last);
    PopStep(lt, t[first..l], t[l..last], u[first..l - 1]);
  }

  lemma StoredLast<T>(d: seq<T>, t: seq<T>, first: nat, l: nat, last: nat)
    requires SameOutside(d, t, first, last) && first < l <= last
    ensures |d| == |t| && last <= |t| && SameOutside(d, t[l - 1 := t[first]], first, last)
    ensures t[l - 1 := t[first]][l - 1..last] == [t[first]] + t[l..last]
  {
  }

  lemma SortingEnds<T>(lt: Less<T>, d: seq<T>, t: seq<T>, first: nat, l: nat, last: nat)
    requires SortingHeap(lt, d, t, first, l, last) && l <= first + 1
    ensures SameOutside(d, t, first, last) && Sorted(lt, t[first..last]) && multiset(t[first..last]) == multiset(d[first..last])
  {
    StretchCut(t, first, l, last);
    SortedConcat(lt, t[first..l], t[l..last]);
  }

  /** pop_heap */
  method PopLast<T(!new)>(lt: Less<T>, a: array<T>, first: nat, l: nat, ghost last: nat, ghost d: seq<T>)
    requires StrictWeak(lt) && first + 1 < l <= last && SortingHeap(lt, d, a[..], first, l, last) && last <= a.Length
    modifies a
    ensures SortingHeap(lt, d, a[..], first, l - 1, last)
  {
    hide SameOutside, HeapFrom, Sorted, Below;
    ghost var t := a[..];
    HeapOfFewer(lt, a[first..l], l - 1 - first);
    assert a[first..l][..l - 1 - first] == a[first..l - 1];
    PopHeap(lt, a, first, l - 1 - first, l - 1, a[l - 1]);
    SortingGoesOn(lt, d, t, a[..], first, l, last);
  }

  /** sort_heap */
  method SortHeap<T(!new)>(lt: Less<T>, a: array<T>, first: nat, last: nat)
    requires StrictWeak(lt) && first <= last <= a.Length && IsHeap(lt, a[first..last])
    modifies a
    ensures SameOutside(old(a[..]), a[..], first, last)
    ensures Sorted(lt, a[first..last]) && multiset(a[first..last]) == multiset(old(a[first..last]))
  {
    hide SortingHeap, SameOutside, HeapFrom, Sorted;
    ghost var d := a[..];
    SortingStarts(lt, d, first, last);
    var l := last;
    while l - first > 1
      invariant first <= l <= last && SortingHeap(lt, d, a[..], first, l, last)
    {
      PopLast(lt, a, first, l, last, d);
      l := l - 1;
    }
    SortingEnds(lt, d, a[..], first, l, last);
  }

  // ---------- partial_sort ----------

  /** What the loop of partial_sort maintains: nothing it has passed belongs into the heap. */
  ghost predicate Selecting<T>(lt: Less<T>, d: seq<T>, t: seq<T>, first: nat, middle: nat, i: nat, last: nat) {
    && first < middle <= i <= last && SameOutside(d, t, first, last) && IsHeap(lt, t[first..middle])
    && Below(lt, [t[first]], t[middle..i]) && multiset(t[first..last]) == multiset(d[first..last])
  }

  lemma SelectionStarts<T>(lt: Less<T>, d: seq<T>, t: seq<T>, first: nat, middle: nat, last: nat)
    requires first < middle <= last <= |d| && SameOutside(d, t, first, middle) && IsHeap(lt, t[first..middle])
    requires multiset(t[first..middle]) == multiset(d[first..middle])
    ensures Selecting(lt, d, t, first, middle, middle, last)
  {
    hide HeapFrom;
    Inner(d, t, first, middle, first, last);
    assert d[first..first] == [];
  }

  lemma SelectNothing<T>(lt: Less<T>, d: seq<T>, t: seq<T>, first: nat, middle: nat, i: nat, last: nat)
    requires Selecting(lt, d, t, first, middle, i, last) && i < last && !lt(t[i], t[first])
    ensures Selecting(lt, d, t, first, middle, i + 1, last)
  {
    hide HeapFrom;
    assert t[middle..i + 1] == t[middle..i] + [t[i]];
  }

  lemma SelectedLayout<T>(t: seq<T>, u: seq<T>, first: nat, middle: nat, i: nat, last: nat)
    requires first < middle <= i < last <= |t| && SameOutside(t[i := t[first]], u, first, middle)
    ensures |u| == |t| && SameOutside(t, u, first, last)
    ensures u[middle..i + 1] == t[middle..i] + [t[first]] && u[i + 1..last] == t[i + 1..last]
    ensures t[first..last] == t[first..middle] + t[middle..i] + [t[i]] + t[i + 1..last]
    ensures u[first..last] == u[first..middle] + t[middle..i] + [t[first]] + t[i + 1..last]
  {
    var t' := t[i := t[first]];
    SameOutsideWider(t', u, first, middle, first, last);
    Behind(t', u, first, middle, last);
    assert t'[middle..last] == t[middle..i] + [t[first]] + t[i + 1..last];
    assert u[middle..i + 1] == u[middle..last][..i + 1 - middle] && u[i + 1..last] == u[middle..last][i + 1 - middle..];
    assert u[first..last] == u[first..middle] + u[middle..last];
  }

  lemma TradedElements<T>(h: seq<T>, v: T, g: seq<T>, mid: seq<T>, back: seq<T>)
    requires h != [] && multiset(g) == multiset(h[0 := v])
    ensures multiset(g + mid + [h[0]] + back) == multiset(h + mid + [v] + back)
    ensures forall x :: x in g ==> x in h || x == v
  {
    assert h == [h[0]] + h[1..] && h[0 := v] == [v] + h[1..];
    SameBag(g, h[0 := v]);
    forall x | x in g ensures x in h || x == v { assert x in h[0 := v]; }
  }

  lemma SelectOne<T(!new)>(lt: Less<T>, d: seq<T>, t: seq<T>, u: seq<T>, first: nat, middle: nat, i: nat, last: nat)
    requires StrictWeak(lt) && Selecting(lt, d, t, first, middle, i, last) && i < last && lt(t[i], t[first])
    requires SameOutside(t[i := t[first]], u, first, middle) && IsHeap(lt, u[first..middle])
    requires multiset(u[first..middle]) == multiset(t[first..middle][0 := t[i]])
    ensures Selecting(lt, d, u, first, middle, i + 1, last)
  {
    SelectedLayout(t, u, first, middle, i, last);
    SameOutsideTransitive(d, t, u, first, last);
    hide SameOutside;
    var h, g := t[first..middle], u[first..middle];
    TradedElements(h, t[i], g, t[middle..i], t[i + 1..last]);
    RootDominates(lt, h);
    hide HeapFrom;
    assert u[first] == g[0] && g[0] in g && h[0] == t[first];
    var z, old' := u[middle..i + 1], t[middle..i];
    forall j | 0 <= j < |z| ensures !lt(z[j], u[first]) {
      AtMostRoot(lt, h, t[i], u[first]);
      if j < i - middle { assert z[j] == old'[j] && !lt(old'[j], [t[first]][0]); }
    }
  }

  lemma AtMostRoot<T(!new)>(lt: Less<T>, h: seq<T>, v: T, x: T)
    requires StrictWeak(lt) && h != [] && Below(lt, h, [h[0]]) && lt(v, h[0]) && (x in h || x == v)
    ensures !lt(h[0], x)
  {
    if x in h {
      var k :| 0 <= k < |h| && h[k] == x;
      assert !lt([h[0]][0], h[k]);
    }
  }

  lemma SelectionEnds<T>(lt: Less<T>, d: seq<T>, t: seq<T>, u: seq<T>, first: nat, middle: nat, last: nat)
    requires Selecting(lt, d, t, first, middle, last, last) && Below(lt, t[first..middle], [t[first]])
    requires SameOutside(t, u, first, middle) && Sorted(lt, u[first..middle])
    requires multiset(u[first..middle]) == multiset(t[first..middle])
    requires forall x, y, z :: !lt(y, x) && !lt(z, y) ==> !lt(z, x)
    ensures SameOutside(d, u, first, last) && multiset(u[first..last]) == multiset(d[first..last])
    ensures Below(lt, u[first..middle], u[middle..last])
  {
    Inner(t, u, first, middle, first, last);
    SameOutsideTransitive(d, t, u, first, last);
    Behind(t, u, first, middle, last);
    hide SameOutside, HeapFrom, Sorted;
    var h, rest := t[first..middle], t[middle..last];
    forall i, j | 0 <= i < |h| && 0 <= j < |rest| ensures !lt(rest[j], h[i]) {
      assert !lt([t[first]][0], h[i]) && !lt(rest[j], [t[first]][0]);
    }
    SameBag(h, u[first..middle]);
    BelowElements(lt, h, rest, u[first..middle], rest);
  }

  /** The loop of partial_sort over the elements behind the heap of the given size. */
  method SelectInto<T(!new)>(lt: Less<T>, a: array<T>, first: nat, size: nat, last: nat, ghost d: seq<T>)
    requires StrictWeak(lt) && last <= a.Length && size > 0 && Selecting(lt, d, a[..], first, first + size, first + size, last)
    modifies a
    ensures Selecting(lt, d, a[..], first, first + size, last, last)
  {
    hide SameOutside, HeapFrom, Selecting;
    ghost var middle := first + size;
    var i := first + size;
    SelectingFacts(lt, d, a[..], first, middle, i, last);
    while i < last
      invariant middle <= i <= last && Selecting(lt, d, a[..], first, middle, i, last)
    {
      ghost var t := a[..];
      SelectingFacts(lt, d, t, first, middle, i, last);
      if lt(a[i], a[first]) {
        PopHeap(lt, a, first, size, i, a[i]);
        SelectOne(lt, d, t, a[..], first, middle, i, last);
      } else {
        SelectNothing(lt, d, t, first, middle, i, last);
      }
      i := i + 1;
    }
  }

  /** partial_sort */
  method PartialSort<T(!new)>(lt: Less<T>, a: array<T>, first: nat, middle: nat, last: nat)
    requires StrictWeak(lt) && first <= middle <= last <= a.Length
    modifies a
    ensures SameOutside(old(a[..]), a[..], first, last) && multiset(a[first..last]) == multiset(old(a[first..last]))
    ensures Sorted(lt, a[first..middle]) && Below(lt, a[first..middle], a[middle..last])
  {
    hide SameOutside, HeapFrom, Selecting;
    ghost var d := a[..];
    SameOutsideSelf(d, first, last);
    if first == last { return; }
    MakeHeap(lt, a, first, middle);
    FirstHeap(lt, d, a[..], first, middle, last);
    if first == middle {
      // With an empty heap the loop starts with the comparison of the first element with itself, and goes on as
      // for a heap of one element.
      SelectInto(lt, a, first, 1, last, d);
      FinishOne(lt, d, a[..], first, last);
      return;
    }
    SelectInto(lt, a, first, middle - first, last, d);
    ghost var u := a[..];
    SelectingFacts(lt, d, u, first, middle, last, last);
    RootDominates(lt, u[first..middle]);
    SortHeap(lt, a, first, middle);
    SelectionEnds(lt, d, u, a[..], first, middle, last);
  }

  lemma FinishOne<T>(lt: Less<T>, d: seq<T>, u: seq<T>, first: nat, last: nat)
    requires Selecting(lt, d, u, first, first + 1, last, last)
    ensures SameOutside(d, u, first, last) && multiset(u[first..last]) == multiset(d[first..last])
  {
  }

  lemma OneOnly<T>(lt: Less<T>, u: seq<T>, first: nat)
    requires first < |u|
    ensures SameOutside(u, u, first, first + 1) && Sorted(lt, u[first..first + 1])
  {
  }

  lemma SelectingFacts<T>(lt: Less<T>, d: seq<T>, t: seq<T>, first: nat, middle: nat, i: nat, last: nat)
    requires Selecting(lt, d, t, first, middle, i, last)
    ensures first < middle <= i <= last <= |t| == |d| && IsHeap(lt, t[first..middle]) && t[first] == t[first..middle][0]
  {
    hide HeapFrom;
  }

  lemma FirstHeap<T>(lt: Less<T>, d: seq<T>, t: seq<T>, first: nat, middle: nat, last: nat)
    requires first <= middle <= last <= |d| && first < last && SameOutside(d, t, first, middle) && IsHeap(lt, t[first..middle])
    requires multiset(t[first..middle]) == multiset(d[first..middle])
    ensures var mid := if first == middle then first + 1 else middle; Selecting(lt, d, t, first, mid, mid, last)
  {
    if first == middle {
      NothingChanged(d, t, first);
      OneOnly(lt, t, first);
      SelectionStarts(lt, d, t, first, first + 1, last);
    } else {
      SelectionStarts(lt, d, t, first, middle, last);
    }
  }
}
