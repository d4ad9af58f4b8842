/** Partitioning around a median of three, without bounds checks. */
module Partition {
  import opened Ordering
  import opened Ranges

  /** __median */
  function Median<T>(lt: Less<T>, a: T, b: T, c: T): T {
    if lt(a, b) then
      if lt(b, c) then b else if lt(a, c) then c else a
    else if lt(a, c) then a
    else if lt(b, c) then c
    else b
  }

  /** The median is one of the three, two of them do not precede it, and it does not precede two of them. */
  lemma MedianIsMiddle<T(!new)>(lt: Less<T>, a: T, b: T, c: T)
    requires StrictWeak(lt)
    ensures var m := Median(lt, a, b, c);
      && (m == a || m == b || m == c)
      && ((!lt(a, m) && !lt(b, m)) || (!lt(a, m) && !lt(c, m)) || (!lt(b, m) && !lt(c, m)))
      && ((!lt(m, a) && !lt(m, b)) || (!lt(m, a) && !lt(m, c)) || (!lt(m, b) && !lt(m, c)))
  {
  }

  /** What keeps both scans of a first round inside, and off the ends. */
  ghost predicate Guards<T>(lt: Less<T>, s: seq<T>, lo: nat, hi: nat, pivot: T) {
    && lo < hi <= |s|
    && (exists i :: lo <= i < hi - 1 && !lt(s[i], pivot))
    && (exists i :: lo < i < hi && !lt(pivot, s[i]))
  }

  lemma MedianGuards<T(!new)>(lt: Less<T>, s: seq<T>, lo: nat, hi: nat)
    requires StrictWeak(lt) && lo + 3 <= hi <= |s|
    ensures Guards(lt, s, lo, hi, Median(lt, s[lo], s[lo + (hi - lo) / 2], s[hi - 1]))
  {
    var mid := lo + (hi - lo) / 2;
    var m := Median(lt, s[lo], s[mid], s[hi - 1]);
    MedianIsMiddle(lt, s[lo], s[mid], s[hi - 1]);
    assert !lt(s[lo], m) || !lt(s[mid], m);
    assert !lt(m, s[mid]) || !lt(m, s[hi - 1]);
  }

  /** While the partition is at work: the front does not follow the pivot, the back does not precede it. */
  ghost predicate Partitioning<T>(lt: Less<T>, d: seq<T>, s: seq<T>, lo: nat, hi: nat, first: nat, last: nat, pivot: T) {
    && SameOutside(d, s, lo, hi) && multiset(s[lo..hi]) == multiset(d[lo..hi]) && lo <= first && last <= hi
    && (forall i :: lo <= i < first && i < hi ==> !lt(pivot, s[i]))
    && (forall i :: last <= i < hi ==> !lt(s[i], pivot))
  }

  lemma PartitioningBounds<T>(lt: Less<T>, d: seq<T>, s: seq<T>, lo: nat, hi: nat, first: nat, last: nat, pivot: T)
    requires Partitioning(lt, d, s, lo, hi, first, last, pivot)
    ensures lo <= first && last <= hi <= |s| == |d| && lo <= hi
  {
  }

  lemma SwapKeepsBag<T>(d: seq<T>, s: seq<T>, lo: nat, hi: nat, first: nat, last: nat)
    requires SameOutside(d, s, lo, hi) && lo <= first < last < hi <= |s| && multiset(s[lo..hi]) == multiset(d[lo..hi])
    ensures var t := s[first := s[last]][last := s[first]]; SameOutside(d, t, lo, hi) && multiset(t[lo..hi]) == multiset(d[lo..hi])
  {
    hide SameOutside;
    SwapInside(s, lo, hi, first, last);
    SameOutsideTransitive(d, s, s[first := s[last]][last := s[first]], lo, hi);
    SwapConserves(s[lo..hi], first - lo, last - lo);
  }

  lemma SwapKeepsSides<T>(lt: Less<T>, s: seq<T>, lo: nat, hi: nat, first: nat, last: nat, pivot: T)
    requires lo <= first < last < hi <= |s| && !lt(s[first], pivot) && !lt(pivot, s[last])
    requires forall i :: lo <= i < first && i < hi ==> !lt(pivot, s[i])
    requires forall i :: last + 1 <= i < hi ==> !lt(s[i], pivot)
    ensures var t := s[first := s[last]][last := s[first]];
      (forall i :: lo <= i < first + 1 && i < hi ==> !lt(pivot, t[i])) && forall i :: last <= i < hi ==> !lt(t[i], pivot)
  {
  }

  lemma SwapKeeps<T>(lt: Less<T>, d: seq<T>, s: seq<T>, lo: nat, hi: nat, first: nat, last: nat, pivot: T)
    requires Partitioning(lt, d, s, lo, hi, first, last + 1, pivot) && first < last < hi
    requires !lt(s[first], pivot) && !lt(pivot, s[last])
    ensures Partitioning(lt, d, s[first := s[last]][last := s[first]], lo, hi, first + 1, last, pivot)
  {
    PartitioningBounds(lt, d, s, lo, hi, first, last + 1, pivot);
    hide SameOutside;
    SwapKeepsBag(d, s, lo, hi, first, last);
    SwapKeepsSides(lt, s, lo, hi, first, last, pivot);
  }

  /** Both stretches around the cut are on their side of the pivot. */
  ghost predicate Parted<T>(lt: Less<T>, s: seq<T>, lo: nat, cut: nat, hi: nat, pivot: T) {
    && lo < cut < hi <= |s|
    && (forall i :: lo <= i < cut ==> !lt(pivot, s[i]))
    && (forall i :: cut <= i < hi ==> !lt(s[i], pivot))
  }

  lemma MoveUp<T(!new)>(lt: Less<T>, d: seq<T>, s: seq<T>, lo: nat, hi: nat, first: nat, last: nat, pivot: T)
    requires StrictWeak(lt) && Partitioning(lt, d, s, lo, hi, first, last, pivot) && first < |s| && lt(s[first], pivot)
    ensures Partitioning(lt, d, s, lo, hi, first + 1, last, pivot)
  {
  }

  lemma MoveDown<T(!new)>(lt: Less<T>, d: seq<T>, s: seq<T>, lo: nat, hi: nat, first: nat, last: nat, pivot: T)
    requires StrictWeak(lt) && Partitioning(lt, d, s, lo, hi, first, last + 1, pivot) && last < |s| && lt(pivot, s[last])
    ensures Partitioning(lt, d, s, lo, hi, first, last, pivot)
  {
  }

  lemma PartitionEnds<T>(lt: Less<T>, d: seq<T>, s: seq<T>, lo: nat, hi: nat, first: nat, last: nat, pivot: T)
    requires Partitioning(lt, d, s, lo, hi, first, last + 1, pivot) && lo < first < hi && last <= first && !lt(s[first], pivot)
    ensures SameOutside(d, s, lo, hi) && multiset(s[lo..hi]) == multiset(d[lo..hi]) && Parted(lt, s, lo, first, hi, pivot)
  {
  }

  /** The first inner loop; it stops at place stop at the latest. */
  method ScanUp<T(!new)>(lt: Less<T>, a: array<T>, from: nat, ghost last: nat, pivot: T, ghost stop: nat,
      ghost d: seq<T>, ghost lo: nat, ghost hi: nat) returns (first: nat)
    requires StrictWeak(lt) && from <= stop < a.Length && !lt(a[stop], pivot)
    requires Partitioning(lt, d, a[..], lo, hi, from, last, pivot)
    ensures from <= first <= stop && !lt(a[first], pivot) && Partitioning(lt, d, a[..], lo, hi, first, last, pivot)
  {
    hide Partitioning;
    first := from;
    while lt(a[first], pivot)
      invariant from <= first <= stop && Partitioning(lt, d, a[..], lo, hi, first, last, pivot)
      decreases stop - first
    {
      MoveUp(lt, d, a[..], lo, hi, first, last, pivot);
      first := first + 1;
    }
  }

  /** The second inner loop, with the decrement before it. */
  method ScanDown<T(!new)>(lt: Less<T>, a: array<T>, ghost first: nat, from: nat, pivot: T, ghost stop: nat,
      ghost d: seq<T>, ghost lo: nat, ghost hi: nat) returns (last: nat)
    requires StrictWeak(lt) && stop < from <= a.Length && !lt(pivot, a[stop])
    requires Partitioning(lt, d, a[..], lo, hi, first, from, pivot)
    ensures stop <= last < from && !lt(pivot, a[last]) && Partitioning(lt, d, a[..], lo, hi, first, last + 1, pivot)
  {
    hide Partitioning;
    last := from - 1;
    while lt(pivot, a[last])
      invariant stop <= last < from && Partitioning(lt, d, a[..], lo, hi, first, last + 1, pivot)
      decreases last - stop
    {
      MoveDown(lt, d, a[..], lo, hi, first, last, pivot);
      last := last - 1;
    }
  }

  lemma PartitionStarts<T>(lt: Less<T>, d: seq<T>, lo: nat, hi: nat, pivot: T)
    requires lo <= hi <= |d|
    ensures Partitioning(lt, d, d, lo, hi, lo, hi, pivot)
  {
    SameOutsideSelf(d, lo, hi);
  }

  lemma StopsBoth<T>(lt: Less<T>, d: seq<T>, lo: nat, hi: nat, pivot: T) returns (up: nat, down: nat)
    requires hi <= |d| && Guards(lt, d, lo, hi, pivot)
    ensures lo <= up < hi - 1 && !lt(d[up], pivot)
    ensures lo < down < hi && !lt(pivot, d[down])
  {
    up :| lo <= up < hi - 1 && !lt(d[up], pivot);
    down :| lo < down < hi && !lt(pivot, d[down]);
  }

  /** __unguarded_partition: neither scan leaves the stretch, and the cut is strictly inside. */
  method UnguardedPartition<T(!new)>(lt: Less<T>, a: array<T>, lo: nat, hi: nat, pivot: T) returns (first: nat)
    requires StrictWeak(lt) && hi <= a.Length && Guards(lt, a[..], lo, hi, pivot)
    modifies a
    ensures SameOutside(old(a[..]), a[..], lo, hi) && multiset(a[lo..hi]) == multiset(old(a[lo..hi]))
    ensures Parted(lt, a[..], lo, first, hi, pivot)
  {
    hide *;
    ghost var d := a[..];
    ghost var up, down := StopsBoth(lt, d, lo, hi, pivot);
    first := lo;
    var last := hi;
    PartitionStarts(lt, d, lo, hi, pivot);
    while true
      invariant lo <= first <= up < hi && !lt(a[up], pivot)
      invariant lo <= down < last <= hi && !lt(pivot, a[down]) && (first == lo ==> down > lo)
      invariant Partitioning(lt, d, a[..], lo, hi, first, last, pivot)
      decreases last
    {
      first := ScanUp(lt, a, first, last, pivot, up, d, lo, hi);
      last := ScanDown(lt, a, first, last, pivot, down, d, lo, hi);
      if !(first < last) {
        PartitionEnds(lt, d, a[..], lo, hi, first, last, pivot);
        return;
      }
      SwapKeeps(lt, d, a[..], lo, hi, first, last, pivot);
      Swap(a, first, last);
      up, down := last, first;
      first := first + 1;
    }
  }

  lemma PartedIsBelow<T(!new)>(lt: Less<T>, s: seq<T>, lo: nat, cut: nat, hi: nat, pivot: T)
    requires StrictWeak(lt) && Parted(lt, s, lo, cut, hi, pivot)
    ensures Below(lt, s[lo..cut], s[cut..hi])
  {
    forall i, j | 0 <= i < cut - lo && 0 <= j < hi - cut ensures !lt(s[cut..hi][j], s[lo..cut][i]) {
      assert !lt(pivot, s[lo + i]) && !lt(s[cut + j], pivot);
    }
  }

  /** The call of both sorting loops. */
  method PartitionAtMedian<T(!new)>(lt: Less<T>, a: array<T>, lo: nat, hi: nat) returns (cut: nat)
    requires StrictWeak(lt) && lo + 3 <= hi <= a.Length
    modifies a
    ensures SameOutside(old(a[..]), a[..], lo, hi) && multiset(a[lo..hi]) == multiset(old(a[lo..hi]))
    ensures lo < cut < hi && Below(lt, a[lo..cut], a[cut..hi])
  {
    hide SameOutside, Guards, Median;
    MedianGuards(lt, a[..], lo, hi);
    var pivot := Median(lt, a[lo], a[lo + (hi - lo) / 2], a[hi - 1]);
    cut := UnguardedPartition(lt, a, lo, hi, pivot);
    PartedIsBelow(lt, a[..], lo, cut, hi, pivot);
  }
}
