/** sort and nth_element: partitioning at medians of three, with insertion sort at the end. */
module Introsort {
  import opened Ordering
  import opened Ranges
  import opened Insertion
  import opened Partition
  import opened Heap
  import opened PowerOfTwo

  const THRESHOLD := 16

  // ---------- what the introsort loop leaves behind ----------

  /** s is divided into stretches that follow one another in order, each of them short or sorted. */
  ghost predicate Blocked<T>(lt: Less<T>, s: seq<T>)
    decreases |s|
  {
    |s| <= THRESHOLD || Sorted(lt, s)
    || exists k :: 0 < k < |s| && Below(lt, s[..k], s[k..]) && Blocked(lt, s[..k]) && Blocked(lt, s[k..])
  }

  lemma BlockedConcat<T>(lt: Less<T>, a: seq<T>, b: seq<T>)
    requires Blocked(lt, a) && Blocked(lt, b) && Below(lt, a, b) && a != [] && b != []
    ensures Blocked(lt, a + b)
  {
    var s, k := a + b, |a|;
    assert s[..k] == a && s[k..] == b;
  }

  /** The least element of a stretch. */
  lemma {:induction false} Least<T(!new)>(lt: Less<T>, s: seq<T>) returns (m: nat)
    requires StrictWeak(lt) && s != []
    ensures m < |s| && forall i :: 0 <= i < |s| ==> !lt(s[i], s[m])
  {
    if |s| == 1 {
      m := 0;
    } else {
      var n := |s| - 1;
      var k := Least(lt, s[..n]);
      m := if lt(s[n], s[k]) then n else k;
      forall i | 0 <= i < |s| ensures !lt(s[i], s[m]) {
        if i < n { assert !lt(s[..n][i], s[..n][k]); }
      }
    }
  }

  /** ... is among the first sixteen: this is what lets the last pass do without bounds checks. */
  lemma {:induction false} LeastIsEarly<T(!new)>(lt: Less<T>, s: seq<T>) returns (m: nat)
    requires StrictWeak(lt) && Blocked(lt, s) && s != []
    ensures m < |s| && m < THRESHOLD && forall i :: 0 <= i < |s| ==> !lt(s[i], s[m])
    decreases |s|
  {
    if |s| <= THRESHOLD {
      m := Least(lt, s);
    } else if Sorted(lt, s) {
      m := 0;
      forall i | 0 <= i < |s| ensures !lt(s[i], s[0]) { assert i == 0 || !lt(s[i], s[0]); }
    } else {
      var k :| 0 < k < |s| && Below(lt, s[..k], s[k..]) && Blocked(lt, s[..k]) && Blocked(lt, s[k..]);
      m := LeastIsEarly(lt, s[..k]);
      forall i | 0 <= i < |s| ensures !lt(s[i], s[m]) {
        if i < k { assert !lt(s[..k][i], s[..k][m]); } else { assert !lt(s[k..][i - k], s[..k][m]); }
      }
    }
  }

  // ---------- the loop ----------

  /** The stretch from first on has been partitioned and the part behind last is in blocks. */
  ghost predicate Introsorting<T>(lt: Less<T>, d: seq<T>, s: seq<T>, first: nat, last: nat, end: nat) {
    && first <= last <= end && SameOutside(d, s, first, end) && multiset(s[first..end]) == multiset(d[first..end])
    && Below(lt, s[first..last], s[last..end]) && (last == end || Blocked(lt, s[last..end]))
  }

  /** After a stretch inside has been rearranged. */
  lemma Rearranged<T>(lt: Less<T>, d: seq<T>, s: seq<T>, t: seq<T>, first: nat, lo: nat, hi: nat, end: nat)
    requires first <= lo <= hi <= end && SameOutside(d, s, first, end) && multiset(s[first..end]) == multiset(d[first..end])
    requires SameOutside(s, t, lo, hi) && multiset(t[lo..hi]) == multiset(s[lo..hi])
    ensures |t| == |s| && end <= |t| && SameOutside(d, t, first, end) && multiset(t[first..end]) == multiset(d[first..end])
    ensures t[first..lo] == s[first..lo] && t[hi..end] == s[hi..end]
  {
    Inner(s, t, lo, hi, first, end);
    SameOutsideTransitive(d, s, t, first, end);
    Behind(s, t, lo, hi, end);
    assert t[first..lo] == t[..lo][first..] && s[first..lo] == s[..lo][first..];
  }

  lemma PartitionKeeps<T>(lt: Less<T>, d: seq<T>, s: seq<T>, t: seq<T>, first: nat, cut: nat, last: nat, end: nat)
    requires Introsorting(lt, d, s, first, last, end) && first < cut < last
    requires SameOutside(s, t, first, last) && multiset(t[first..last]) == multiset(s[first..last])
    requires Below(lt, t[first..cut], t[cut..last])
    ensures Introsorting(lt, d, t, first, last, end)
    ensures t[last..end] == s[last..end] && Below(lt, t[first..cut], t[cut..end])
  {
    Rearranged(lt, d, s, t, first, first, last, end);
    hide SameOutside, Blocked;
    SameBag(s[first..last], t[first..last]);
    BelowElements(lt, s[first..last], s[last..end], t[first..last], s[last..end]);
    StretchCut(t, first, cut, last);
    StretchCut(t, cut, last, end);
    BelowConcat(lt, t[first..cut], t[cut..last], t[last..end]);
    BelowConcat(lt, t[cut..last], t[last..end], t[first..cut]);
  }

  lemma RightPartDone<T>(lt: Less<T>, d: seq<T>, t: seq<T>, u: seq<T>, first: nat, cut: nat, last: nat, end: nat)
    requires Introsorting(lt, d, t, first, last, end) && first < cut < last && Below(lt, t[first..cut], t[cut..end])
    requires SameOutside(t, u, cut, last) && multiset(u[cut..last]) == multiset(t[cut..last]) && Blocked(lt, u[cut..last])
    ensures Introsorting(lt, d, u, first, cut, end)
  {
    hide SameOutside, Blocked, Below;
    Rearranged(lt, d, t, u, first, cut, last, end);
    StretchCut(t, cut, last, end);
    StretchCut(u, cut, last, end);
    StretchCut(t, first, cut, last);
    BelowConcat(lt, t[first..cut], t[cut..last], t[last..end]);
    SameBag(t[cut..last], u[cut..last]);
    SameBag(t[cut..end], u[cut..end]);
    BelowElements(lt, t[first..cut], t[cut..end], u[first..cut], u[cut..end]);
    BelowElements(lt, t[cut..last], t[last..end], u[cut..last], u[last..end]);
    if last < end { BlockedConcat(lt, u[cut..last], u[last..end]); } else { assert u[cut..end] == u[cut..last]; }
  }

  lemma LoopStarts<T>(lt: Less<T>, d: seq<T>, first: nat, end: nat)
    requires first <= end <= |d|
    ensures Introsorting(lt, d, d, first, end, end)
  {
    SameOutsideSelf(d, first, end);
  }

  lemma LoopEnds<T>(lt: Less<T>, d: seq<T>, s: seq<T>, first: nat, last: nat, end: nat)
    requires Introsorting(lt, d, s, first, last, end) && Blocked(lt, s[first..last]) && first < last
    ensures SameOutside(d, s, first, end) && multiset(s[first..end]) == multiset(d[first..end]) && Blocked(lt, s[first..end])
  {
    StretchCut(s, first, last, end);
    if last < end { BlockedConcat(lt, s[first..last], s[last..end]); } else { assert s[first..end] == s[first..last]; }
  }

  /** Heap sort finishes a stretch that has been partitioned too often. */
  lemma HeapSortDone<T>(lt: Less<T>, d: seq<T>, s: seq<T>, t: seq<T>, first: nat, last: nat, end: nat)
    requires Introsorting(lt, d, s, first, last, end)
    requires SameOutside(s, t, first, last) && multiset(t[first..last]) == multiset(s[first..last]) && Sorted(lt, t[first..last])
    ensures Introsorting(lt, d, t, first, last, end) && Blocked(lt, t[first..last])
  {
    Rearranged(lt, d, s, t, first, first, last, end);
    hide SameOutside;
    SameBag(s[first..last], t[first..last]);
    BelowElements(lt, s[first..last], s[last..end], t[first..last], t[last..end]);
  }

  /** One partition, and the recursive call on its right part. */
  method SortRightPart<T(!new)>(lt: Less<T>, a: array<T>, first: nat, last: nat, depth: nat, ghost d: seq<T>, ghost end: nat)
    returns (cut: nat)
    requires StrictWeak(lt) && end <= a.Length && Introsorting(lt, d, a[..], first, last, end)
    requires first + THRESHOLD < last
    modifies a
    ensures first < cut < last && Introsorting(lt, d, a[..], first, cut, end)
    decreases last - first, 0
  {
    ghost var s := a[..];
    hide Introsorting, SameOutside, Blocked;
    Bounds(lt, d, s, first, last, end);
    cut := PartitionAtMedian(lt, a, first, last);
    ghost var t := a[..];
    PartitionKeeps(lt, d, s, t, first, cut, last, end);
    IntrosortLoop(lt, a, cut, last, depth);
    RightPartDone(lt, d, t, a[..], first, cut, last, end);
  }

  lemma Bounds<T>(lt: Less<T>, d: seq<T>, s: seq<T>, first: nat, last: nat, end: nat)
    requires Introsorting(lt, d, s, first, last, end)
    ensures first <= last <= end <= |s| == |d|
  {
  }

  /** __introsort_loop */
  method IntrosortLoop<T(!new)>(lt: Less<T>, a: array<T>, first: nat, end: nat, depthLimit: nat)
    requires StrictWeak(lt) && first < end <= a.Length
    modifies a
    ensures SameOutside(old(a[..]), a[..], first, end) && multiset(a[first..end]) == multiset(old(a[first..end]))
    ensures Blocked(lt, a[first..end])
    decreases end - first, 1
  {
    hide Introsorting, SameOutside;
    ghost var d := a[..];
    LoopStarts(lt, d, first, end);
    var last, depth := end, depthLimit;
    while last - first > THRESHOLD
      invariant first < last <= end && Introsorting(lt, d, a[..], first, last, end)
      decreases last - first
    {
      if depth == 0 {
        ghost var s := a[..];
        PartialSort(lt, a, first, last, last);
        HeapSortDone(lt, d, s, a[..], first, last, end);
        LoopEnds(lt, d, a[..], first, last, end);
        return;
      }
      depth := depth - 1;
      last := SortRightPart(lt, a, first, last, depth, d, end);
    }
    LoopEnds(lt, d, a[..], first, last, end);
  }

  // ---------- the last pass ----------

  /** The stretch from first to i is sorted, and its first element is the least of all. */
  ghost predicate Inserting<T>(lt: Less<T>, d: seq<T>, s: seq<T>, first: nat, i: nat, last: nat) {
    && first < i <= last && SameOutside(d, s, first, last) && multiset(s[first..last]) == multiset(d[first..last])
    && Sorted(lt, s[first..i]) && forall j :: first <= j < last ==> !lt(s[j], s[first])
  }

  lemma LeastInFront<T(!new)>(lt: Less<T>, d: seq<T>, first: nat, i: nat, last: nat) returns (x: T)
    requires StrictWeak(lt) && first < i <= last <= |d| && (i - first == THRESHOLD || i == last)
    requires Blocked(lt, d[first..last])
    ensures x in d[first..i] && forall j :: first <= j < last ==> !lt(d[j], x)
  {
    var w := d[first..last];
    var m := LeastIsEarly(lt, w);
    hide Blocked;
    x := w[m];
    assert x == d[first..i][m];
    forall j | first <= j < last ensures !lt(d[j], x) { assert d[j] == w[j - first]; }
  }

  /** Insertion sort of the first sixteen brings the least element to the front. */
  lemma FirstSorted<T(!new)>(lt: Less<T>, d: seq<T>, s: seq<T>, first: nat, i: nat, last: nat)
    requires StrictWeak(lt) && first < i <= last <= |d| && (i - first == THRESHOLD || i == last)
    requires Blocked(lt, d[first..last]) && SameOutside(d, s, first, i) && s[first..i] == StableSorted(lt, d[first..i])
    ensures Inserting(lt, d, s, first, i, last)
  {
    hide Blocked, StableSorted, SameClasses, SameOutside, Sorted;
    var x := LeastInFront(lt, d, first, i, last);
    StableSortedIsOne(lt, d[first..i]);
    StableSortedPermutes(lt, d[first..i]);
    SameOutsideSelf(d, first, last);
    Rearranged(lt, d, d, s, first, first, i, last);
    FrontIsLeast(lt, d, s, first, i, last, x);
  }

  lemma FrontIsLeast<T(!new)>(lt: Less<T>, d: seq<T>, s: seq<T>, first: nat, i: nat, last: nat, x: T)
    requires StrictWeak(lt) && first < i <= last <= |d| == |s| && s[i..last] == d[i..last]
    requires Sorted(lt, s[first..i]) && multiset(s[first..i]) == multiset(d[first..i])
    requires x in d[first..i] && forall j :: first <= j < last ==> !lt(d[j], x)
    ensures forall j :: first <= j < last ==> !lt(s[j], s[first])
  {
    var h := s[first..i];
    SameBag(d[first..i], h);
    var k :| 0 <= k < |h| && h[k] == x;
    assert !lt(x, h[0]) by { assert k == 0 || !lt(h[k], h[0]); }
    forall j | first <= j < last ensures !lt(s[j], s[first]) {
      if j < i {
        assert h[j - first] == s[j] && (j == first || !lt(h[j - first], h[0]));
      } else {
        assert s[j] == s[i..last][j - i] == d[j];
      }
    }
  }

  lemma InsertedNext<T(!new)>(lt: Less<T>, d: seq<T>, s: seq<T>, t: seq<T>, first: nat, i: nat, last: nat)
    requires StrictWeak(lt) && Inserting(lt, d, s, first, i, last) && i < last
    requires SameOutside(s, t, first, i + 1) && t[first..i + 1] == Insert(lt, s[first..i], s[i])
    ensures Inserting(lt, d, t, first, i + 1, last)
  {
    SameLength(s, t, first, i + 1);
    hide SameOutside, SameClasses, InsertionPoint;
    var h, g := s[first..i], t[first..i + 1];
    InsertStable(lt, h, s[i]);
    InsertPermutes(h, InsertionPoint(lt, h, s[i]), s[i]);
    assert s[first..i + 1] == h + [s[i]];
    Rearranged(lt, d, s, t, first, first, i + 1, last);
    LeastStays(lt, s, t, first, i, last);
  }

  lemma LeastStays<T(!new)>(lt: Less<T>, s: seq<T>, t: seq<T>, first: nat, i: nat, last: nat)
    requires StrictWeak(lt) && first < i < last <= |s| == |t| && forall j :: first <= j < last ==> !lt(s[j], s[first])
    requires multiset(t[first..i + 1]) == multiset(s[first..i + 1]) && Sorted(lt, t[first..i + 1]) && t[i + 1..last] == s[i + 1..last]
    ensures forall j :: first <= j < last ==> !lt(t[j], t[first])
  {
    assert s[first..i + 1][0] == s[first];
    FrontIsLeast(lt, s, t, first, i + 1, last, s[first]);
  }

  /** __unguarded_insertion_sort: the least element, already in front, stops every insertion. */
  method UnguardedInsertionSort<T(!new)>(lt: Less<T>, a: array<T>, ghost first: nat, from: nat, last: nat, ghost d: seq<T>)
    requires StrictWeak(lt) && last <= a.Length && Inserting(lt, d, a[..], first, from, last)
    modifies a
    ensures Inserting(lt, d, a[..], first, last, last)
  {
    var i := from;
    InsertingBounds(lt, d, a[..], first, from, last);
    hide Inserting, SameOutside, Insert;
    while i != last
      invariant first < i <= last && Inserting(lt, d, a[..], first, i, last)
      decreases last - i
    {
      ghost var s := a[..];
      InsertingBounds(lt, d, s, first, i, last);
      UnguardedLinearInsert(lt, a, i, a[i], first);
      InsertedNext(lt, d, s, a[..], first, i, last);
      i := i + 1;
    }
  }

  lemma InsertingBounds<T>(lt: Less<T>, d: seq<T>, s: seq<T>, first: nat, i: nat, last: nat)
    requires Inserting(lt, d, s, first, i, last)
    ensures first < i <= last <= |s| && (i < last ==> !lt(s[i], s[first]))
  {
  }

  /** __final_insertion_sort */
  method FinalInsertionSort<T(!new)>(lt: Less<T>, a: array<T>, first: nat, last: nat)
    requires StrictWeak(lt) && first < last <= a.Length && Blocked(lt, a[first..last])
    modifies a
    ensures SameOutside(old(a[..]), a[..], first, last) && multiset(a[first..last]) == multiset(old(a[first..last]))
    ensures Sorted(lt, a[first..last])
  {
    hide SameOutside, StableSorted, Blocked;
    ghost var d := a[..];
    if last - first > THRESHOLD {
      InsertionSort(lt, a, first, first + THRESHOLD);
      FirstSorted(lt, d, a[..], first, first + THRESHOLD, last);
      UnguardedInsertionSort(lt, a, first, first + THRESHOLD, last, d);
    } else {
      InsertionSort(lt, a, first, last);
      FirstSorted(lt, d, a[..], first, last, last);
    }
  }

  // ---------- sort ----------

  /** __lg */
  method Lg(n: nat) returns (k: nat)
    requires n > 0
    ensures Pow2(k) <= n < Pow2(k + 1)
  {
    k := 0;
    var m := n;
    while m != 1
      invariant m >= 1 && m * Pow2(k) <= n < (m + 1) * Pow2(k)
    {
      Halve(n, m, Pow2(k));
      m := m / 2;
      k := k + 1;
    }
  }

  lemma Halve(n: nat, m: nat, p: nat)
    requires m * p <= n < (m + 1) * p
    ensures (m / 2) * (2 * p) <= n < (m / 2 + 1) * (2 * p)
  {
    var h := m / 2;
    assert m == 2 * h || m == 2 * h + 1;
    assert h * (2 * p) == (2 * h) * p && (h + 1) * (2 * p) == (2 * h + 2) * p;
    if m == 2 * h + 1 { assert (2 * h + 1) * p == (2 * h) * p + p; } else { assert (2 * h + 2) * p == (2 * h + 1) * p + p; }
  }

  /** sort */
  method Sort<T(!new)>(lt: Less<T>, a: array<T>, first: nat, last: nat)
    requires StrictWeak(lt) && first <= last <= a.Length
    modifies a
    ensures SameOutside(old(a[..]), a[..], first, last) && multiset(a[first..last]) == multiset(old(a[first..last]))
    ensures Sorted(lt, a[first..last])
  {
    hide SameOutside, Blocked;
    ghost var d := a[..];
    SameOutsideSelf(d, first, last);
    if first != last {
      var depth := Lg(last - first);
      IntrosortLoop(lt, a, first, last, depth * 2);
      ghost var s := a[..];
      FinalInsertionSort(lt, a, first, last);
      SameOutsideTransitive(d, s, a[..], first, last);
    }
  }

  // ---------- nth_element ----------

  /** The part that still matters lies between first and last. */
  ghost predicate Narrowed<T>(lt: Less<T>, d: seq<T>, s: seq<T>, lo: nat, first: nat, last: nat, hi: nat) {
    && lo <= first <= last <= hi && SameOutside(d, s, lo, hi) && multiset(s[lo..hi]) == multiset(d[lo..hi])
    && Below(lt, s[lo..first], s[first..hi]) && Below(lt, s[lo..last], s[last..hi])
  }

  lemma NarrowedKeeps<T>(lt: Less<T>, d: seq<T>, s: seq<T>, t: seq<T>, lo: nat, first: nat, last: nat, hi: nat)
    requires Narrowed(lt, d, s, lo, first, last, hi)
    requires SameOutside(s, t, first, last) && multiset(t[first..last]) == multiset(s[first..last])
    ensures Narrowed(lt, d, t, lo, first, last, hi) && hi <= |t|
  {
    Rearranged(lt, d, s, t, lo, first, last, hi);
    hide SameOutside;
    StretchCut(s, first, last, hi);
    StretchCut(t, first, last, hi);
    StretchCut(s, lo, first, last);
    StretchCut(t, lo, first, last);
    SameBag(s[first..hi], t[first..hi]);
    SameBag(s[lo..last], t[lo..last]);
    BelowElements(lt, s[lo..first], s[first..hi], t[lo..first], t[first..hi]);
    BelowElements(lt, s[lo..last], s[last..hi], t[lo..last], t[last..hi]);
  }

  lemma Narrow<T>(lt: Less<T>, d: seq<T>, t: seq<T>, lo: nat, first: nat, cut: nat, last: nat, hi: nat)
    requires Narrowed(lt, d, t, lo, first, last, hi) && hi <= |t| && first < cut < last && Below(lt, t[first..cut], t[cut..last])
    ensures Narrowed(lt, d, t, lo, cut, last, hi) && Narrowed(lt, d, t, lo, first, cut, hi)
  {
    hide SameOutside;
    StretchCut(t, lo, first, cut);
    StretchCut(t, cut, last, hi);
    StretchCut(t, first, cut, hi);
    StretchCut(t, lo, cut, last);
    BelowConcat(lt, t[first..cut], t[cut..hi], t[lo..first]);
    BelowConcat(lt, t[lo..cut], t[cut..last], t[last..hi]);
    BelowConcat(lt, t[lo..first], t[first..cut], t[last..hi]);
    BelowConcat(lt, t[cut..last], t[last..hi], t[first..cut]);
    BelowConcat(lt, t[lo..first], t[first..cut], t[cut..hi]);
  }

  /** The nth element is where sorting would put it. */
  lemma NthInPlace<T>(lt: Less<T>, d: seq<T>, t: seq<T>, lo: nat, first: nat, nth: nat, last: nat, hi: nat)
    requires Narrowed(lt, d, t, lo, first, last, hi) && hi <= |t| && first <= nth < last && Sorted(lt, t[first..last])
    ensures Below(lt, t[lo..nth], [t[nth]]) && Below(lt, [t[nth]], t[nth + 1..hi])
  {
    forall i | 0 <= i < nth - lo ensures !lt(t[nth], t[lo..nth][i]) {
      if lo + i < first {
        assert t[lo..first][i] == t[lo + i] && t[first..hi][nth - first] == t[nth];
      } else {
        assert t[first..last][lo + i - first] == t[lo + i] && t[first..last][nth - first] == t[nth];
      }
    }
    var back := t[nth + 1..hi];
    forall j | 0 <= j < |back| ensures !lt(back[j], t[nth]) {
      if nth + 1 + j < last {
        assert t[first..last][nth + 1 + j - first] == t[nth + 1 + j] && t[first..last][nth - first] == t[nth];
      } else {
        assert t[last..hi][nth + 1 + j - last] == t[nth + 1 + j] && t[lo..last][nth - lo] == t[nth];
      }
    }
  }

  /** nth_element */
  method NthElement<T(!new)>(lt: Less<T>, a: array<T>, lo: nat, nth: nat, hi: nat)
    requires StrictWeak(lt) && lo <= nth <= hi <= a.Length
    modifies a
    ensures SameOutside(old(a[..]), a[..], lo, hi) && multiset(a[lo..hi]) == multiset(old(a[lo..hi]))
    ensures nth < hi ==> Below(lt, a[lo..nth], [a[nth]]) && Below(lt, [a[nth]], a[nth + 1..hi])
  {
    ghost var d := a[..];
    SameOutsideSelf(d, lo, hi);
    var first, last := lo, hi;
    assert Narrowed(lt, d, d, lo, first, last, hi);
    hide SameOutside, Narrowed, StableSorted, SameClasses;
    while last - first > 3
      invariant lo <= first <= last <= hi && Narrowed(lt, d, a[..], lo, first, last, hi)
      invariant first <= nth && (nth < last || last == hi)
      decreases last - first
    {
      ghost var s := a[..];
      var cut := PartitionAtMedian(lt, a, first, last);
      NarrowedKeeps(lt, d, s, a[..], lo, first, last, hi);
      Narrow(lt, d, a[..], lo, first, cut, last, hi);
      if cut <= nth { first := cut; } else { last := cut; }
    }
    ghost var s := a[..];
    InsertionSort(lt, a, first, last);
    StableSortedPermutes(lt, s[first..last]);
    StableSortedIsOne(lt, s[first..last]);
    NarrowedKeeps(lt, d, s, a[..], lo, first, last, hi);
    if nth < hi { NthInPlace(lt, d, a[..], lo, first, nth, last, hi); }
    NarrowedGives(lt, d, a[..], lo, first, last, hi);
  }

  lemma NarrowedGives<T>(lt: Less<T>, d: seq<T>, s: seq<T>, lo: nat, first: nat, last: nat, hi: nat)
    requires Narrowed(lt, d, s, lo, first, last, hi)
    ensures SameOutside(d, s, lo, hi) && multiset(s[lo..hi]) == multiset(d[lo..hi])
  {
  }
}
