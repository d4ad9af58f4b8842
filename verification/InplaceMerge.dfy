/** Merging two neighbouring stretches in place, with little room or none, and the stable sort that needs none: there
    is only one way to sort stably. */
module InplaceMerge {
  import opened Ordering
  import opened Ranges
  import opened Rotate
  import opened Insertion
  import opened Merging

  // ---------- merging by cutting and rotating ----------

  datatype Cut = Cut(first: nat, second: nat)

  /** The two stretches of s that meet at mid are sorted, and cut so that their parts can be merged separately. */
  ghost predicate Cuts<T>(lt: Less<T>, s: seq<T>, first: nat, mid: nat, last: nat, c: Cut) {
    && first <= c.first <= mid <= c.second <= last <= |s|
    && Sorted(lt, s[first..mid]) && Sorted(lt, s[mid..last])
    && CutOk(lt, s[first..c.first], s[c.first..mid], s[mid..c.second], s[c.second..last])
  }

  /** The cut that both merges without enough room choose. */
  method ChooseCut<T(!new)>(lt: Less<T>, a: array<T>, first: nat, mid: nat, last: nat) returns (c: Cut)
    requires StrictWeak(lt) && first < mid < last <= a.Length && mid - first + last - mid > 2
    requires Sorted(lt, a[first..mid]) && Sorted(lt, a[mid..last])
    ensures Cuts(lt, a[..], first, mid, last, c)
    ensures 0 < (c.first - first) + (c.second - mid) < last - first
  {
    hide Sorted, CutOk;
    var len1, len2 := mid - first, last - mid;
    var firstCut: nat, secondCut: nat;
    if len1 > len2 {
      firstCut := first + len1 / 2;
      secondCut := LowerBound(lt, a, mid, last, a[firstCut]);
      LowerCut(lt, a[..], first, mid, last, firstCut, secondCut);
    } else {
      secondCut := mid + len2 / 2;
      firstCut := UpperBound(lt, a, first, mid, a[secondCut]);
      UpperCut(lt, a[..], first, mid, last, firstCut, secondCut);
    }
    c := Cut(firstCut, secondCut);
  }

  lemma LowerCut<T(!new)>(lt: Less<T>, s: seq<T>, first: nat, mid: nat, last: nat, i: nat, j: nat)
    requires StrictWeak(lt) && first <= i < mid <= j <= last <= |s| && Sorted(lt, s[first..mid])
    requires forall q :: mid <= q < j ==> lt(s[q], s[i])
    requires forall q :: j <= q < last ==> !lt(s[q], s[i])
    ensures CutOk(lt, s[first..i], s[i..mid], s[mid..j], s[j..last])
  {
    StretchCut(s, first, i, mid);
    StretchCut(s, mid, j, last);
    var x, y := s[first..mid], s[mid..last];
    hide Sorted, CutOk;
    assert x[i - first] == s[i];
    forall q | 0 <= q < |y| ensures if q < j - mid then lt(y[q], s[i]) else !lt(y[q], s[i]) { assert y[q] == s[mid + q]; }
    CutAtA(lt, x, y, i - first, j - mid);
  }

  lemma UpperCut<T(!new)>(lt: Less<T>, s: seq<T>, first: nat, mid: nat, last: nat, i: nat, j: nat)
    requires StrictWeak(lt) && first <= i <= mid <= j < last <= |s| && Sorted(lt, s[mid..last])
    requires forall q :: first <= q < i ==> !lt(s[j], s[q])
    requires forall q :: i <= q < mid ==> lt(s[j], s[q])
    ensures CutOk(lt, s[first..i], s[i..mid], s[mid..j], s[j..last])
  {
    StretchCut(s, first, i, mid);
    StretchCut(s, mid, j, last);
    var x, y := s[first..mid], s[mid..last];
    hide Sorted, CutOk;
    assert y[j - mid] == s[j];
    forall q | 0 <= q < |x| ensures if q < i - first then !lt(s[j], x[q]) else lt(s[j], x[q]) { assert x[q] == s[first + q]; }
    CutAtB(lt, x, y, i - first, j - mid);
  }

  /** After the rotation the front parts are together, and so are the back parts. */
  lemma PartsTogether<T>(lt: Less<T>, s: seq<T>, t: seq<T>, first: nat, mid: nat, last: nat, c: Cut, newMid: nat)
    requires Cuts(lt, s, first, mid, last, c) && newMid == c.first + (c.second - mid)
    requires SameOutside(s, t, c.first, c.second) && t[c.first..c.second] == Rotated(s, c.first, mid, c.second)
    ensures first <= c.first <= newMid <= c.second <= last <= |t| == |s| && SameOutside(s, t, first, last)
    ensures t[first..c.first] == s[first..c.first] && t[c.first..newMid] == s[mid..c.second]
    ensures t[newMid..c.second] == s[c.first..mid] && t[c.second..last] == s[c.second..last]
    ensures t[first..newMid] == s[first..c.first] + s[mid..c.second]
    ensures t[newMid..last] == s[c.first..mid] + s[c.second..last]
  {
    hide CutOk, Sorted;
    Inner(s, t, c.first, c.second, first, last);
    Behind(s, t, c.first, c.second, last);
    assert t[first..c.first] == t[..c.first][first..] && s[first..c.first] == s[..c.first][first..];
    StretchCut(t, c.first, newMid, c.second);
    assert Rotated(s, c.first, mid, c.second)[..newMid - c.first] == s[mid..c.second];
    assert Rotated(s, c.first, mid, c.second)[newMid - c.first..] == s[c.first..mid];
    StretchCut(t, first, c.first, newMid);
    StretchCut(t, newMid, c.second, last);
  }

  lemma PartsSorted<T>(lt: Less<T>, s: seq<T>, first: nat, mid: nat, last: nat, c: Cut)
    requires Cuts(lt, s, first, mid, last, c)
    ensures Sorted(lt, s[first..c.first]) && Sorted(lt, s[c.first..mid])
    ensures Sorted(lt, s[mid..c.second]) && Sorted(lt, s[c.second..last])
  {
    StretchCut(s, first, c.first, mid);
    StretchCut(s, mid, c.second, last);
    SortedConcat(lt, s[first..c.first], s[c.first..mid]);
    SortedConcat(lt, s[mid..c.second], s[c.second..last]);
  }

  /** Merging the parts has merged the whole. */
  lemma PartsMerged<T(!new)>(lt: Less<T>, s: seq<T>, t: seq<T>, u: seq<T>, v: seq<T>,
      first: nat, mid: nat, last: nat, c: Cut, newMid: nat)
    requires StrictWeak(lt) && Cuts(lt, s, first, mid, last, c) && first <= newMid <= last
    requires SameOutside(s, t, first, last) && SameOutside(t, u, first, newMid) && SameOutside(u, v, newMid, last)
    requires StableSortOf(lt, s[first..c.first] + s[mid..c.second], u[first..newMid])
    requires StableSortOf(lt, s[c.first..mid] + s[c.second..last], v[newMid..last])
    ensures SameOutside(s, v, first, last) && StableSortOf(lt, s[first..last], v[first..last])
  {
    AppendStretch(t, u, v, first, newMid, last);
    SameOutsideTransitive(s, t, v, first, last);
    StretchCut(s, first, c.first, mid);
    StretchCut(s, mid, c.second, last);
    StretchCut(s, first, mid, last);
    hide SameOutside, Sorted, SameClasses;
    CutMerges(lt, s[first..c.first], s[c.first..mid], s[mid..c.second], s[c.second..last], u[first..newMid], v[newMid..last]);
  }

  lemma OneSideEmpty<T(!new)>(lt: Less<T>, s: seq<T>, first: nat, mid: nat, last: nat)
    requires first <= mid <= last <= |s| && (first == mid || mid == last)
    requires Sorted(lt, s[first..mid]) && Sorted(lt, s[mid..last])
    ensures StableSortOf(lt, s[first..last], s[first..last])
  {
  }

  lemma TwoElements<T(!new)>(lt: Less<T>, x: T, y: T)
    requires StrictWeak(lt)
    ensures StableSortOf(lt, [x, y], if lt(y, x) then [y, x] else [x, y])
  {
    if lt(y, x) {
      Exchange(lt, [x], [y]);
      assert [x] + [y] == [x, y] && [y] + [x] == [y, x];
    }
  }

  /** __merge_without_buffer */
  method MergeWithoutBuffer<T(!new)>(lt: Less<T>, a: array<T>, first: nat, mid: nat, last: nat)
    requires StrictWeak(lt) && first <= mid <= last <= a.Length
    requires Sorted(lt, a[first..mid]) && Sorted(lt, a[mid..last])
    modifies a
    ensures SameOutside(old(a[..]), a[..], first, last)
    ensures StableSortOf(lt, old(a[first..last]), a[first..last])
    decreases last - first
  {
    hide Sorted, SameOutside, SameClasses, Cuts, Rotated;
    ghost var s := a[..];
    SameOutsideSelf(s, first, last);
    if first == mid || mid == last {
      OneSideEmpty(lt, s, first, mid, last);
      return;
    }
    if last - first == 2 {
      TwoElements(lt, a[first], a[mid]);
      assert s[first..last] == [s[first], s[mid]];
      if lt(a[mid], a[first]) {
        SwapInside(s, first, last, first, mid);
        Swap(a, first, mid);
        assert a[first..last] == [s[mid], s[first]];
      }
      return;
    }
    var c := ChooseCut(lt, a, first, mid, last);
    CutInside(lt, s, first, mid, last, c);
    var newMid := RotateBidirectional(a, c.first, mid, c.second);
    ghost var t := a[..];
    PartsTogether(lt, s, t, first, mid, last, c, newMid);
    PartsSorted(lt, s, first, mid, last, c);
    MergeWithoutBuffer(lt, a, first, c.first, newMid);
    ghost var u := a[..];
    StaysBehind(t, u, first, newMid, c.second, last);
    MergeWithoutBuffer(lt, a, newMid, c.second, last);
    PartsMerged(lt, s, t, u, a[..], first, mid, last, c, newMid);
  }

  lemma CutInside<T>(lt: Less<T>, s: seq<T>, first: nat, mid: nat, last: nat, c: Cut)
    requires Cuts(lt, s, first, mid, last, c)
    ensures first <= c.first <= mid <= c.second <= last <= |s|
  {
  }

  lemma StaysBehind<T>(t: seq<T>, u: seq<T>, lo: nat, hi: nat, i: nat, j: nat)
    requires SameOutside(t, u, lo, hi) && hi <= i <= j <= |t|
    ensures |u| == |t| && u[hi..i] == t[hi..i] && u[i..j] == t[i..j] && u[hi..j] == t[hi..j]
  {
    SliceOfDrop(t, hi, hi, i);
    SliceOfDrop(u, hi, hi, i);
    SliceOfDrop(t, hi, i, j);
    SliceOfDrop(u, hi, i, j);
    SliceOfDrop(t, hi, hi, j);
    SliceOfDrop(u, hi, hi, j);
  }

  lemma SliceOfDrop<T>(s: seq<T>, lo: nat, i: nat, j: nat)
    requires lo <= i <= j <= |s|
    ensures s[i..j] == s[lo..][i - lo..j - lo]
  {
    Slices(s, lo, |s|, i, j);
    assert s[lo..|s|] == s[lo..];
  }

  // ---------- merging with a buffer ----------

  /** __rotate_adaptive */
  method RotateAdaptive<T>(a: array<T>, first: nat, mid: nat, last: nat, buf: array<T>, size: nat) returns (newMid: nat)
    requires first <= mid <= last <= a.Length && size <= buf.Length && buf != a
    modifies a, buf
    ensures SameOutside(old(a[..]), a[..], first, last) && a[first..last] == Rotated(old(a[..]), first, mid, last)
    ensures newMid == first + (last - mid)
  {
    hide SameOutside, Rotated;
    ghost var s := a[..];
    RotatedIs(s, first, mid, last);
    var len1, len2 := mid - first, last - mid;
    if len1 > len2 && len2 <= size {
      var bufEnd := Copy(a, mid, last, buf, 0);
      var p := CopyBackward(a, first, mid, a, last);
      ghost var t := a[..];
      newMid := Copy(buf, 0, bufEnd, a, first);
      Both(s, t, a[..], first, newMid, last, true);
    } else if len1 <= size {
      var bufEnd := Copy(a, first, mid, buf, 0);
      var p := Copy(a, mid, last, a, first);
      ghost var t := a[..];
      newMid := CopyBackward(buf, 0, bufEnd, a, last);
      Both(s, t, a[..], first, newMid, last, false);
    } else {
      newMid := RotateBidirectional(a, first, mid, last);
    }
  }

  lemma RotatedIs<T>(s: seq<T>, lo: nat, mid: nat, hi: nat)
    requires lo <= mid <= hi <= |s|
    ensures Rotated(s, lo, mid, hi) == s[mid..hi] + s[lo..mid]
  {
  }

  /** Writing the two parts of a stretch one after the other, in either order. */
  lemma Both<T>(s: seq<T>, t: seq<T>, u: seq<T>, lo: nat, i: nat, hi: nat, backFirst: bool)
    requires if backFirst then SameOutside(s, t, i, hi) && SameOutside(t, u, lo, i)
             else SameOutside(s, t, lo, i) && SameOutside(t, u, i, hi)
    ensures lo <= i <= hi <= |s| == |t| == |u| && SameOutside(s, u, lo, hi)
    ensures u[lo..hi] == if backFirst then u[lo..i] + t[i..hi] else t[lo..i] + u[i..hi]
  {
    if backFirst { PrependStretch(s, t, u, lo, i, hi); } else { AppendStretch(s, t, u, lo, i, hi); }
  }

  /** __merge_adaptive. A buffer of at least one element makes it come to an end. */
  method MergeAdaptive<T(!new)>(lt: Less<T>, a: array<T>, first: nat, mid: nat, last: nat, buf: array<T>, size: nat)
    requires StrictWeak(lt) && first <= mid <= last <= a.Length && 1 <= size <= buf.Length && buf != a
    requires Sorted(lt, a[first..mid]) && Sorted(lt, a[mid..last])
    modifies a, buf
    ensures SameOutside(old(a[..]), a[..], first, last)
    ensures StableSortOf(lt, old(a[first..last]), a[first..last])
    decreases last - first
  {
    hide Sorted, SameOutside, SameClasses, Cuts, Rotated;
    ghost var s := a[..];
    var len1, len2 := mid - first, last - mid;
    StretchCut(s, first, mid, last);
    if len1 <= len2 && len1 <= size {
      var bufEnd := Copy(a, first, mid, buf, 0);
      var end := Merge(lt, buf, 0, bufEnd, a, mid, last, a, first);
    } else if len2 <= size {
      var bufEnd := Copy(a, mid, last, buf, 0);
      MergeBackward(lt, a, first, mid, buf, 0, bufEnd, last);
    } else {
      var c := ChooseCut(lt, a, first, mid, last);
      CutInside(lt, s, first, mid, last, c);
      var newMid := RotateAdaptive(a, c.first, mid, c.second, buf, size);
      ghost var t := a[..];
      PartsTogether(lt, s, t, first, mid, last, c, newMid);
      PartsSorted(lt, s, first, mid, last, c);
      MergeAdaptive(lt, a, first, c.first, newMid, buf, size);
      ghost var u := a[..];
      StaysBehind(t, u, first, newMid, c.second, last);
      MergeAdaptive(lt, a, newMid, c.second, last, buf, size);
      PartsMerged(lt, s, t, u, a[..], first, mid, last, c, newMid);
    }
  }

  // ---------- sorting in place ----------

  /** Two halves sorted one after the other, and then merged. */
  lemma HalvesMerged<T(!new)>(lt: Less<T>, s: seq<T>, t: seq<T>, u: seq<T>, v: seq<T>, first: nat, mid: nat, last: nat)
    requires StrictWeak(lt) && first <= mid <= last <= |s|
    requires SameOutside(s, t, first, mid) && t[first..mid] == StableSorted(lt, s[first..mid])
    requires SameOutside(t, u, mid, last) && u[mid..last] == StableSorted(lt, t[mid..last])
    requires SameOutside(u, v, first, last) && StableSortOf(lt, u[first..last], v[first..last])
    ensures SameOutside(s, v, first, last) && v[first..last] == StableSorted(lt, s[first..last])
  {
    AppendStretch(s, t, u, first, mid, last);
    SameOutsideTransitive(s, u, v, first, last);
    Behind(s, t, first, mid, last);
    StretchCut(s, first, mid, last);
    hide SameOutside, StableSorted;
    StableSortedIsOne(lt, s[first..mid]);
    StableSortedIsOne(lt, s[mid..last]);
    SameClassesConcat(lt, s[first..mid], s[mid..last], t[first..mid], u[mid..last]);
    SameClassesTransitive(lt, s[first..last], u[first..last], v[first..last]);
    StableSortMeans(lt, s[first..last], v[first..last]);
  }

  lemma HalvesSorted<T(!new)>(lt: Less<T>, s: seq<T>, t: seq<T>, u: seq<T>, first: nat, mid: nat, last: nat)
    requires StrictWeak(lt) && first <= mid <= last <= |s|
    requires SameOutside(s, t, first, mid) && t[first..mid] == StableSorted(lt, s[first..mid])
    requires SameOutside(t, u, mid, last) && u[mid..last] == StableSorted(lt, t[mid..last])
    ensures |u| == |s| && Sorted(lt, u[first..mid]) && Sorted(lt, u[mid..last])
  {
    StableSortedIsOne(lt, s[first..mid]);
    StableSortedIsOne(lt, t[mid..last]);
    hide Sorted, SameClasses, StableSorted;
    assert u[first..mid] == u[..mid][first..] && t[first..mid] == t[..mid][first..];
  }

  /** __inplace_stable_sort */
  method InplaceStableSort<T(!new)>(lt: Less<T>, a: array<T>, first: nat, last: nat)
    requires StrictWeak(lt) && first <= last <= a.Length
    modifies a
    ensures SameOutside(old(a[..]), a[..], first, last) && a[first..last] == StableSorted(lt, old(a[first..last]))
    decreases last - first
  {
    hide Sorted, SameOutside, SameClasses, StableSorted;
    if last - first < 15 {
      InsertionSort(lt, a, first, last);
      return;
    }
    ghost var s := a[..];
    var mid := first + (last - first) / 2;
    InplaceStableSort(lt, a, first, mid);
    ghost var t := a[..];
    InplaceStableSort(lt, a, mid, last);
    ghost var u := a[..];
    HalvesSorted(lt, s, t, u, first, mid, last);
    MergeWithoutBuffer(lt, a, first, mid, last);
    HalvesMerged(lt, s, t, u, a[..], first, mid, last);
  }
}
