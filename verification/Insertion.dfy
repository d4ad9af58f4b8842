/** Binary search and insertion, on which the sorting algorithms rest. */
module Insertion {
  import opened Ordering
  import opened Ranges

  /** __lower_bound: the first place where val could go. */
  method LowerBound<T(!new)>(lt: Less<T>, a: array<T>, lo: nat, hi: nat, val: T) returns (first: nat)
    requires StrictWeak(lt) && lo <= hi <= a.Length && Sorted(lt, a[lo..hi])
    ensures lo <= first <= hi
    ensures forall i :: lo <= i < first ==> lt(a[i], val)
    ensures forall i :: first <= i < hi ==> !lt(a[i], val)
  {
    first := lo;
    var len := hi - lo;
    ghost var s := a[lo..hi];
    while len > 0
      invariant lo <= first <= first + len <= hi && a[lo..hi] == s
      invariant forall i :: lo <= i < first ==> lt(a[i], val)
      invariant forall i :: first + len <= i < hi ==> !lt(a[i], val)
    {
      var half := len / 2;
      var middle := first + half;
      assert a[middle] == s[middle - lo];
      if lt(a[middle], val) {
        forall i | lo <= i < middle ensures lt(a[i], val) {
          assert a[i] == s[i - lo] && !lt(s[middle - lo], s[i - lo]);
        }
        first := middle + 1;
        len := len - half - 1;
      } else {
        forall i | middle <= i < hi ensures !lt(a[i], val) {
          assert a[i] == s[i - lo] && (i == middle || !lt(s[i - lo], s[middle - lo]));
        }
        len := half;
      }
    }
  }

  /** __upper_bound: the last place where val could go. */
  method UpperBound<T(!new)>(lt: Less<T>, a: array<T>, lo: nat, hi: nat, val: T) returns (first: nat)
    requires StrictWeak(lt) && lo <= hi <= a.Length && Sorted(lt, a[lo..hi])
    ensures lo <= first <= hi
    ensures forall i :: lo <= i < first ==> !lt(val, a[i])
    ensures forall i :: first <= i < hi ==> lt(val, a[i])
  {
    first := lo;
    var len := hi - lo;
    ghost var s := a[lo..hi];
    while len > 0
      invariant lo <= first <= first + len <= hi && a[lo..hi] == s
      invariant forall i :: lo <= i < first ==> !lt(val, a[i])
      invariant forall i :: first + len <= i < hi ==> lt(val, a[i])
    {
      var half := len / 2;
      var middle := first + half;
      assert a[middle] == s[middle - lo];
      if lt(val, a[middle]) {
        forall i | middle <= i < hi ensures lt(val, a[i]) {
          assert a[i] == s[i - lo] && (i == middle || !lt(s[i - lo], s[middle - lo]));
        }
        len := half;
      } else {
        forall i | lo <= i <= middle ensures !lt(val, a[i]) {
          assert a[i] == s[i - lo] && (i == middle || !lt(s[middle - lo], s[i - lo]));
        }
        first := middle + 1;
        len := len - half - 1;
      }
    }
  }

  // ---------- insertion ----------

  function InsertAt<T>(s: seq<T>, k: nat, x: T): (t: seq<T>)
    requires k <= |s|
    ensures |t| == |s| + 1
  {
    s[..k] + [x] + s[k..]
  }

  lemma {:induction false} PointBelow<T>(lt: Less<T>, s: seq<T>, x: T, k: nat)
    requires k <= |s| && forall i :: k <= i < |s| ==> lt(x, s[i])
    ensures InsertionPoint(lt, s, x) == InsertionPoint(lt, s[..k], x)
  {
    if k < |s| {
      PointBelow(lt, s[..|s| - 1], x, k);
      assert s[..|s| - 1][..k] == s[..k];
    } else {
      assert s[..k] == s;
    }
  }

  lemma PointFound<T>(lt: Less<T>, s: seq<T>, x: T, k: nat)
    requires k <= |s| && (forall i :: k <= i < |s| ==> lt(x, s[i])) && (k > 0 ==> !lt(x, s[k - 1]))
    ensures InsertionPoint(lt, s, x) == k
  {
    PointBelow(lt, s, x, k);
  }

  /** The sorted stretch s after the elements from p on have moved up by one place, leaving a hole at p. */
  ghost predicate Shifted<T>(s: seq<T>, t: seq<T>, lo: nat, last: nat, p: nat) {
    && lo <= p <= last < |s| && |t| == |s|
    && forall i :: 0 <= i < |s| && i != p ==> t[i] == s[if p < i <= last then i - 1 else i]
  }

  lemma ShiftedAt<T>(s: seq<T>, t: seq<T>, lo: nat, last: nat, p: nat, i: nat)
    requires Shifted(s, t, lo, last, p) && i < |s| && i != p
    ensures t[i] == s[if p < i <= last then i - 1 else i]
  {
  }

  lemma Inserted<T>(lt: Less<T>, s: seq<T>, t: seq<T>, lo: nat, last: nat, p: nat, val: T)
    requires Shifted(s, t, lo, last, p) && t[p] == val
    requires (forall i :: p <= i < last ==> lt(val, s[i])) && (p > lo ==> !lt(val, s[p - 1]))
    ensures SameOutside(s, t, lo, last + 1) && t[lo..last + 1] == Insert(lt, s[lo..last], val)
  {
    hide SameOutside, Shifted, InsertionPoint;
    ShiftedOutside(s, t, lo, last, p);
    ShiftedStretch(s, t, lo, last, p);
    var u := s[lo..last];
    forall i | p - lo <= i < |u| ensures lt(val, u[i]) { assert u[i] == s[lo + i]; }
    assert p > lo ==> u[p - lo - 1] == s[p - 1];
    PointFound(lt, u, val, p - lo);
  }

  lemma ShiftedOutside<T>(s: seq<T>, t: seq<T>, lo: nat, last: nat, p: nat)
    requires Shifted(s, t, lo, last, p)
    ensures lo <= p <= last < |s| && |t| == |s| && SameOutside(s, t, lo, last + 1)
  {
    hide SameOutside, Shifted;
    ShiftedLength(s, t, lo, last, p);
    forall k | 0 <= k < |s| && !(lo <= k < last + 1) ensures t[k] == s[k] { ShiftedAt(s, t, lo, last, p, k); }
    SameOutsideFrom(s, t, lo, last + 1);
  }

  lemma ShiftedStretch<T>(s: seq<T>, t: seq<T>, lo: nat, last: nat, p: nat)
    requires Shifted(s, t, lo, last, p)
    ensures lo <= p <= last < |s| && |t| == |s| && t[lo..last + 1] == InsertAt(s[lo..last], p - lo, t[p])
  {
    hide Shifted;
    ShiftedLength(s, t, lo, last, p);
    var v, goal := t[lo..last + 1], InsertAt(s[lo..last], p - lo, t[p]);
    forall i | 0 <= i < |v| ensures v[i] == goal[i] {
      assert v[i] == t[lo + i];
      if lo + i != p { ShiftedAt(s, t, lo, last, p, lo + i); }
    }
  }

  lemma ShiftedLength<T>(s: seq<T>, t: seq<T>, lo: nat, last: nat, p: nat)
    requires Shifted(s, t, lo, last, p)
    ensures lo <= p <= last < |s| && |t| == |s|
  {
  }

  lemma HoleFilled<T>(s: seq<T>, t: seq<T>, lo: nat, last: nat, p: nat, val: T)
    requires Shifted(s, t, lo, last, p)
    ensures Shifted(s, t[p := val], lo, last, p)
  {
  }

  lemma ShiftMore<T>(s: seq<T>, t: seq<T>, lo: nat, last: nat, p: nat)
    requires Shifted(s, t, lo, last, p) && lo < p
    ensures t[p - 1] == s[p - 1] && Shifted(s, t[p := t[p - 1]], lo, last, p - 1)
  {
  }

  /** __unguarded_linear_insert: nothing but an element that val does not precede stops it, so there must be one. */
  method UnguardedLinearInsert<T(!new)>(lt: Less<T>, a: array<T>, last: nat, val: T, ghost lo: nat)
    requires lo < last < a.Length && val == a[last] && !lt(val, a[lo])
    modifies a
    ensures SameOutside(old(a[..]), a[..], lo, last + 1)
    ensures a[lo..last + 1] == Insert(lt, old(a[lo..last]), val)
  {
    hide Shifted, SameOutside, Insert;
    ghost var s := a[..];
    var hole: nat := last;
    var next: int := last;
    next := next - 1;
    NothingShifted(s, lo, last);
    while lt(val, a[next])
      invariant lo <= next == hole - 1 < last && Shifted(s, a[..], lo, last, hole)
      invariant forall i :: hole <= i < last ==> lt(val, s[i])
      decreases next
    {
      ghost var t := a[..];
      ShiftMore(s, t, lo, last, hole);
      a[hole] := a[next];
      assert a[..] == t[hole := t[next]];
      hole := next;
      next := next - 1;
    }
    ghost var t := a[..];
    ShiftMore(s, t, lo, last, hole);
    HoleFilled(s, t, lo, last, hole, val);
    a[hole] := val;
    assert a[..] == t[hole := val];
    Inserted(lt, s, a[..], lo, last, hole, val);
  }

  lemma NothingShifted<T>(s: seq<T>, lo: nat, last: nat)
    requires lo <= last < |s|
    ensures Shifted(s, s, lo, last, last)
  {
  }

  /** __linear_insert */
  method LinearInsert<T(!new)>(lt: Less<T>, a: array<T>, first: nat, last: nat)
    requires StrictWeak(lt) && first < last < a.Length && Sorted(lt, a[first..last])
    modifies a
    ensures SameOutside(old(a[..]), a[..], first, last + 1)
    ensures a[first..last + 1] == Insert(lt, old(a[first..last]), old(a[last]))
  {
    hide Sorted, SameOutside, Shifted, Insert;
    ghost var s := a[..];
    var val := a[last];
    if lt(val, a[first]) {
      AllFollow(lt, s, first, last, val);
      var at := CopyBackward(a, first, last, a, last + 1);
      ghost var t := a[..];
      MovedUp(s, t, first, last);
      HoleFilled(s, t, first, last, first, val);
      a[first] := val;
      assert a[..] == t[first := val];
      Inserted(lt, s, a[..], first, last, first, val);
    } else {
      UnguardedLinearInsert(lt, a, last, val, first);
    }
  }

  lemma AllFollow<T(!new)>(lt: Less<T>, s: seq<T>, first: nat, last: nat, val: T)
    requires StrictWeak(lt) && first < last <= |s| && Sorted(lt, s[first..last]) && lt(val, s[first])
    ensures forall i :: first <= i < last ==> lt(val, s[i])
  {
    var u := s[first..last];
    forall i | first <= i < last ensures lt(val, s[i]) { assert u[i - first] == s[i] && (i == first || !lt(u[i - first], u[0])); }
  }

  lemma MovedUp<T>(s: seq<T>, t: seq<T>, first: nat, last: nat)
    requires first < last < |s| && SameOutside(s, t, first + 1, last + 1) && t[first + 1..last + 1] == s[first..last]
    ensures Shifted(s, t, first, last, first)
  {
    forall i | 0 <= i < |s| && i != first ensures t[i] == s[if first < i <= last then i - 1 else i] {
      if first < i <= last { assert t[i] == t[first + 1..last + 1][i - first - 1]; }
      else { SameOutsideAt(s, t, first + 1, last + 1, i); }
    }
  }

  /** __insertion_sort is stable. */
  method InsertionSort<T(!new)>(lt: Less<T>, a: array<T>, first: nat, last: nat)
    requires StrictWeak(lt) && first <= last <= a.Length
    modifies a
    ensures SameOutside(old(a[..]), a[..], first, last)
    ensures a[first..last] == StableSorted(lt, old(a[first..last]))
  {
    hide SameOutside, StableSorted, Insert, SameClasses;
    ghost var s := a[..];
    SameOutsideSelf(s, first, last);
    EmptySorted(lt, s[first..first]);
    if first == last { return; }
    var i := first + 1;
    OneSorted(lt, s, first);
    while i != last
      invariant first < i <= last && SameOutside(s, a[..], first, i) && a[first..i] == StableSorted(lt, s[first..i])
    {
      ghost var t := a[..];
      StableSortedIsOne(lt, s[first..i]);
      hide Sorted;
      Grows(lt, s, t, first, i);
      LinearInsert(lt, a, first, i);
      SameOutsideWider(s, t, first, i, first, i + 1);
      SameOutsideTransitive(s, t, a[..], first, i + 1);
      i := i + 1;
    }
  }

  lemma EmptySorted<T>(lt: Less<T>, s: seq<T>)
    requires s == []
    ensures StableSorted(lt, s) == s
  {
  }

  lemma OneSorted<T>(lt: Less<T>, s: seq<T>, first: nat)
    requires first < |s|
    ensures s[first..first + 1] == StableSorted(lt, s[first..first + 1]) && SameOutside(s, s, first, first + 1)
  {
    assert s[first..first + 1] == [s[first]];
  }

  lemma Grows<T>(lt: Less<T>, s: seq<T>, t: seq<T>, first: nat, i: nat)
    requires first < i < |s| && SameOutside(s, t, first, i)
    ensures t[i] == s[i]
    ensures StableSorted(lt, s[first..i + 1]) == Insert(lt, StableSorted(lt, s[first..i]), s[i])
  {
    SameOutsideAt(s, t, first, i, i);
    assert s[first..i + 1][..i - first] == s[first..i];
  }
}
