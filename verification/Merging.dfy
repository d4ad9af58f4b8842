/** Merging two sorted stretches stably: forwards, backwards, and without room. */
module Merging {
  import opened Ordering
  import opened Ranges

  // ---------- forwards ----------

  /** r holds what has been merged, and a[i..] and b[j..] are left. */
  ghost predicate Merging<T(!new)>(lt: Less<T>, a: seq<T>, b: seq<T>, i: nat, j: nat, r: seq<T>) {
    && i <= |a| && j <= |b| && Sorted(lt, r + a[i..]) && Sorted(lt, r + b[j..])
    && SameClasses(lt, a + b, r + a[i..] + b[j..])
  }

  lemma MergeStarts<T(!new)>(lt: Less<T>, a: seq<T>, b: seq<T>)
    requires Sorted(lt, a) && Sorted(lt, b)
    ensures Merging(lt, a, b, 0, 0, [])
  {
    assert [] + a[0..] == a && [] + b[0..] == b;
  }

  lemma SplitRest<T>(r: seq<T>, a: seq<T>, i: nat)
    requires i < |a|
    ensures r + a[i..] == r + [a[i]] + a[i + 1..]
  {
    assert a[i..] == [a[i]] + a[i + 1..];
  }

  /** Appending an element that precedes no element of r keeps everything in order. */
  lemma AppendLeast<T(!new)>(lt: Less<T>, r: seq<T>, x: T, rest: seq<T>)
    requires Sorted(lt, r + [x]) && Sorted(lt, r + rest) && Below(lt, [x], rest)
    ensures Sorted(lt, r + [x] + rest)
  {
    SortedConcat(lt, r, rest);
    SortedConcat(lt, r, [x]);
    BelowConcat(lt, r, [x], rest);
    SortedConcat(lt, r + [x], rest);
  }

  lemma SortedFront<T>(lt: Less<T>, r: seq<T>, a: seq<T>, i: nat)
    requires i < |a| && Sorted(lt, r + a[i..])
    ensures Sorted(lt, r + [a[i]] + a[i + 1..]) && Sorted(lt, r + [a[i]]) && Sorted(lt, a[i..])
  {
    SplitRest(r, a, i);
    SortedConcat(lt, r + [a[i]], a[i + 1..]);
    SortedConcat(lt, r, a[i..]);
  }

  /** The first element of a goes next unless b's precedes it ... */
  lemma TakeA<T(!new)>(lt: Less<T>, a: seq<T>, b: seq<T>, i: nat, j: nat, r: seq<T>)
    requires StrictWeak(lt) && Merging(lt, a, b, i, j, r) && i < |a| && j < |b| && !lt(b[j], a[i])
    ensures Merging(lt, a, b, i + 1, j, r + [a[i]])
  {
    SortedFront(lt, r, a, i);
    SortedFront(lt, r, b, j);
    HeadBelow(lt, a[i], b[j..]);
    AppendLeast(lt, r, a[i], b[j..]);
    SplitRest(r, a, i);
  }

  /** x is not after the head, so not after anything. */
  lemma HeadBelow<T(!new)>(lt: Less<T>, x: T, s: seq<T>)
    requires StrictWeak(lt) && Sorted(lt, s) && s != [] && !lt(s[0], x)
    ensures Below(lt, [x], s)
  {
    forall j | 0 <= j < |s| ensures !lt(s[j], x) { assert j == 0 || !lt(s[j], s[0]); }
  }

  lemma HeadStrictlyBelow<T(!new)>(lt: Less<T>, x: T, s: seq<T>)
    requires StrictWeak(lt) && Sorted(lt, s) && s != [] && lt(x, s[0])
    ensures StrictlyBelow(lt, [x], s)
  {
    forall j | 0 <= j < |s| ensures lt(x, s[j]) { assert j == 0 || !lt(s[j], s[0]); }
  }

  /** ... in which case that one overtakes all of a's. */
  lemma TakeB<T(!new)>(lt: Less<T>, a: seq<T>, b: seq<T>, i: nat, j: nat, r: seq<T>)
    requires StrictWeak(lt) && Merging(lt, a, b, i, j, r) && i < |a| && j < |b| && lt(b[j], a[i])
    ensures Merging(lt, a, b, i, j + 1, r + [b[j]])
  {
    SortedFront(lt, r, a, i);
    SortedFront(lt, r, b, j);
    HeadStrictlyBelow(lt, b[j], a[i..]);
    StrictIsApart(lt, a[i..], [b[j]]);
    AppendLeast(lt, r, b[j], a[i..]);
    ExchangeInside(lt, r, a[i..], [b[j]], b[j + 1..]);
    SplitRest(r + a[i..], b, j);
  }

  lemma RestOfA<T(!new)>(lt: Less<T>, a: seq<T>, b: seq<T>, i: nat, j: nat, r: seq<T>)
    requires Merging(lt, a, b, i, j, r) && j == |b|
    ensures StableSortOf(lt, a + b, r + a[i..])
  {
    assert r + a[i..] + b[j..] == r + a[i..];
  }

  lemma RestOfB<T(!new)>(lt: Less<T>, a: seq<T>, b: seq<T>, i: nat, j: nat, r: seq<T>)
    requires Merging(lt, a, b, i, j, r) && i == |a|
    ensures StableSortOf(lt, a + b, r + b[j..])
  {
    assert r + a[i..] + b[j..] == r + b[j..];
  }

  /** Writing one element behind what has been written, with the rest of the array as it was. */
  lemma WriteNext<T>(d: seq<T>, t: seq<T>, at: nat, end: nat, x: T, hi: nat)
    requires at <= end < hi <= |d| && SameOutside(d, t, at, end)
    ensures SameOutside(d, t[end := x], at, end + 1) && t[end := x][at..end + 1] == t[at..end] + [x]
  {
    assert t[end := x][..at] == t[..at] && t[end := x][end + 1..] == t[end..][1..] && d[end + 1..] == d[end..][1..];
  }

  /** merge, from two arrays onto a third or over the hindmost part of the second. */
  method Merge<T(!new)>(lt: Less<T>, x: array<T>, first1: nat, last1: nat, y: array<T>, first2: nat, last2: nat,
      dst: array<T>, at: nat) returns (end: nat)
    requires StrictWeak(lt) && first1 <= last1 <= x.Length && first2 <= last2 <= y.Length
    requires Sorted(lt, x[first1..last1]) && Sorted(lt, y[first2..last2])
    requires at + (last1 - first1) + (last2 - first2) <= dst.Length && dst != x
    requires dst == y ==> at + (last1 - first1) <= first2
    modifies dst
    ensures end == at + (last1 - first1) + (last2 - first2) && SameOutside(old(dst[..]), dst[..], at, end)
    ensures StableSortOf(lt, old(x[first1..last1] + y[first2..last2]), dst[at..end])
  {
    hide Merging, SameOutside, Sorted, SameClasses, StrictWeak, StableSortOf;
    ghost var d, a, b := dst[..], x[first1..last1], y[first2..last2];
    MergeStarts(lt, a, b);
    SameOutsideSelf(d, at, at);
    assert d[at..at] == [];
    var i, j := first1, first2;
    end := at;
    while i != last1 && j != last2
      invariant first1 <= i <= last1 && first2 <= j <= last2 && end == at + (i - first1) + (j - first2)
      invariant x[first1..last1] == a && y[j..last2] == b[j - first2..]
      invariant SameOutside(d, dst[..], at, end) && Merging(lt, a, b, i - first1, j - first2, dst[at..end])
      decreases last1 - i + last2 - j
    {
      ghost var t := dst[..];
      assert x[i] == a[i - first1] && y[j] == b[j - first2..][0] == b[j - first2];
      if lt(y[j], x[i]) {
        TakeB(lt, a, b, i - first1, j - first2, t[at..end]);
        WriteNext(d, t, at, end, y[j], |d|);
        AfterNext(y[..], j, last2, end, y[j]);
        Store(dst, end, y[j]);
        j := j + 1;
      } else {
        TakeA(lt, a, b, i - first1, j - first2, t[at..end]);
        WriteNext(d, t, at, end, x[i], |d|);
        Store(dst, end, x[i]);
        i := i + 1;
      }
      end := end + 1;
    }
    ghost var r := dst[at..end];
    if i == last1 { RestOfB(lt, a, b, i - first1, j - first2, r); } else { RestOfA(lt, a, b, i - first1, j - first2, r); }
    assert x[i..last1] == a[i - first1..];
    end := CopyRest(x, i, last1, y, j, last2, dst, at, end, d);
  }

  /** What is left of either input, once the other one is used up. */
  method CopyRest<T>(x: array<T>, i: nat, last1: nat, y: array<T>, j: nat, last2: nat, dst: array<T>, ghost at: nat,
      from: nat, ghost d: seq<T>) returns (end: nat)
    requires i <= last1 <= x.Length && j <= last2 <= y.Length && (i == last1 || j == last2)
    requires dst != x && (dst == y ==> from + (last1 - i) <= j) && from + (last1 - i) + (last2 - j) <= dst.Length
    requires SameOutside(d, dst[..], at, from)
    modifies dst
    ensures end == from + (last1 - i) + (last2 - j) && at <= from && SameOutside(d, dst[..], at, end)
    ensures dst[at..end] == old(dst[at..from]) + (if i == last1 then old(y[j..last2]) else old(x[i..last1]))
  {
    hide SameOutside;
    ghost var t := dst[..];
    var mid := Copy(x, i, last1, dst, from);
    ghost var u := dst[..];
    AppendStretch(d, t, u, at, from, mid);
    if i == last1 { NothingChanged(t, u, from); }
    end := Copy(y, j, last2, dst, mid);
    AppendStretch(d, u, dst[..], at, mid, end);
  }

  lemma AfterNext<T>(s: seq<T>, j: nat, last: nat, p: nat, v: T)
    requires j < last <= |s|
    ensures p < |s| && p <= j ==> s[p := v][j + 1..last] == s[j..last][1..]
    ensures s[j + 1..last] == s[j..last][1..]
  {
  }

  // ---------- backwards ----------

  /** a[..i] and b[..j] are left, and r holds what has been merged. */
  ghost predicate MergingBack<T(!new)>(lt: Less<T>, a: seq<T>, b: seq<T>, i: nat, j: nat, r: seq<T>) {
    && i <= |a| && j <= |b| && Sorted(lt, a[..i] + r) && Sorted(lt, b[..j] + r)
    && SameClasses(lt, a + b, a[..i] + b[..j] + r)
  }

  lemma MergeBackStarts<T(!new)>(lt: Less<T>, a: seq<T>, b: seq<T>)
    requires Sorted(lt, a) && Sorted(lt, b)
    ensures MergingBack(lt, a, b, |a|, |b|, [])
  {
    assert a[..|a|] + [] == a && b[..|b|] + [] == b && a[..|a|] + b[..|b|] + [] == a + b;
  }

  lemma SplitFront<T>(a: seq<T>, i: nat, r: seq<T>)
    requires i < |a|
    ensures a[..i + 1] + r == a[..i] + ([a[i]] + r)
  {
    assert a[..i + 1] == a[..i] + [a[i]];
  }

  lemma SortedBack<T>(lt: Less<T>, a: seq<T>, i: nat, r: seq<T>)
    requires i < |a| && Sorted(lt, a[..i + 1] + r)
    ensures Sorted(lt, a[..i] + ([a[i]] + r)) && Sorted(lt, [a[i]] + r) && Sorted(lt, a[..i + 1])
  {
    SplitFront(a, i, r);
    SortedConcat(lt, a[..i], [a[i]] + r);
    SortedConcat(lt, a[..i + 1], r);
  }

  lemma PrependGreatest<T(!new)>(lt: Less<T>, rest: seq<T>, x: T, r: seq<T>)
    requires Sorted(lt, [x] + r) && Sorted(lt, rest + r) && Below(lt, rest, [x])
    ensures Sorted(lt, rest + ([x] + r))
  {
    SortedConcat(lt, rest, r);
    SortedConcat(lt, [x], r);
    BelowConcat(lt, [x], r, rest);
    SortedConcat(lt, rest, [x] + r);
  }

  lemma LastAbove<T(!new)>(lt: Less<T>, s: seq<T>, x: T)
    requires StrictWeak(lt) && Sorted(lt, s) && s != [] && !lt(x, s[|s| - 1])
    ensures Below(lt, s, [x])
  {
    forall i | 0 <= i < |s| ensures !lt(x, s[i]) { assert i == |s| - 1 || !lt(s[|s| - 1], s[i]); }
  }

  lemma LastStrictlyAbove<T(!new)>(lt: Less<T>, s: seq<T>, x: T)
    requires StrictWeak(lt) && Sorted(lt, s) && s != [] && lt(s[|s| - 1], x)
    ensures StrictlyBelow(lt, s, [x])
  {
    forall i | 0 <= i < |s| ensures lt(s[i], x) { assert i == |s| - 1 || !lt(s[|s| - 1], s[i]); }
  }

  /** The last element of a goes in front of what has been merged if b's precedes it, overtaken by all of b's ... */
  lemma TakeLastA<T(!new)>(lt: Less<T>, a: seq<T>, b: seq<T>, i: nat, j: nat, r: seq<T>)
    requires StrictWeak(lt) && i < |a| && j < |b| && MergingBack(lt, a, b, i + 1, j + 1, r) && lt(b[j], a[i])
    ensures MergingBack(lt, a, b, i, j + 1, [a[i]] + r)
  {
    SortedBack(lt, a, i, r);
    SortedBack(lt, b, j, r);
    LastStrictlyAbove(lt, b[..j + 1], a[i]);
    StrictIsApart(lt, [a[i]], b[..j + 1]);
    PrependGreatest(lt, b[..j + 1], a[i], r);
    ExchangeInside(lt, a[..i], [a[i]], b[..j + 1], r);
    assert a[..i + 1] + b[..j + 1] + r == a[..i] + [a[i]] + b[..j + 1] + r;
    assert a[..i] + b[..j + 1] + [a[i]] + r == a[..i] + b[..j + 1] + ([a[i]] + r);
  }

  /** ... and otherwise b's does. */
  lemma TakeLastB<T(!new)>(lt: Less<T>, a: seq<T>, b: seq<T>, i: nat, j: nat, r: seq<T>)
    requires StrictWeak(lt) && i < |a| && j < |b| && MergingBack(lt, a, b, i + 1, j + 1, r) && !lt(b[j], a[i])
    ensures MergingBack(lt, a, b, i + 1, j, [b[j]] + r)
  {
    SortedBack(lt, a, i, r);
    SortedBack(lt, b, j, r);
    LastAbove(lt, a[..i + 1], b[j]);
    PrependGreatest(lt, a[..i + 1], b[j], r);
    assert a[..i + 1] + b[..j + 1] + r == a[..i + 1] + b[..j] + ([b[j]] + r);
  }

  lemma FrontOfA<T(!new)>(lt: Less<T>, a: seq<T>, b: seq<T>, i: nat, r: seq<T>)
    requires MergingBack(lt, a, b, i, 0, r)
    ensures StableSortOf(lt, a + b, a[..i] + r)
  {
    assert a[..i] + b[..0] + r == a[..i] + r;
  }

  lemma FrontOfB<T(!new)>(lt: Less<T>, a: seq<T>, b: seq<T>, j: nat, r: seq<T>)
    requires MergingBack(lt, a, b, 0, j, r)
    ensures StableSortOf(lt, a + b, b[..j] + r)
  {
    assert a[..0] + b[..j] + r == b[..j] + r;
  }

  /** Writing one element in front of what has been written. */
  lemma WriteBefore<T>(d: seq<T>, t: seq<T>, at: nat, end: nat, x: T)
    requires 0 < at <= end <= |d| && SameOutside(d, t, at, end)
    ensures SameOutside(d, t[at - 1 := x], at - 1, end) && t[at - 1 := x][at - 1..end] == [x] + t[at..end]
  {
    assert t[at - 1 := x][..at - 1] == t[..at][..at - 1] && d[..at - 1] == d[..at][..at - 1];
  }

  /** The end of __merge_backward: the rest of one input moves in front of what has been merged. */
  method CopyFront<T>(src: array<T>, from: nat, to: nat, a: array<T>, at: nat, ghost end: nat, ghost d: seq<T>)
    requires from <= to <= src.Length && at <= end <= a.Length && to - from <= at && (src == a ==> to <= at)
    requires SameOutside(d, a[..], at, end)
    modifies a
    ensures var low := at - (to - from);
      SameOutside(d, a[..], low, end) && a[low..end] == old(src[from..to] + a[at..end])
  {
    hide SameOutside;
    ghost var t := a[..];
    var low := CopyBackward(src, from, to, a, at);
    PrependStretch(d, t, a[..], low, at, end);
  }

  /** The array while i elements of x, still in place from first on, and j elements of y are left. */
  ghost predicate BackState<T(!new)>(lt: Less<T>, d: seq<T>, s: seq<T>, x: seq<T>, y: seq<T>, first: nat, end: nat, i: nat, j: nat) {
    && i <= |x| && j <= |y| && first + i + j <= end && SameOutside(d, s, first + i + j, end)
    && s[first..first + i] == x[..i] && MergingBack(lt, x, y, i, j, s[first + i + j..end])
  }

  lemma BackStarts<T(!new)>(lt: Less<T>, d: seq<T>, x: seq<T>, y: seq<T>, first: nat, end: nat)
    requires end == first + |x| + |y| <= |d| && d[first..first + |x|] == x && Sorted(lt, x) && Sorted(lt, y)
    ensures BackState(lt, d, d, x, y, first, end, |x|, |y|)
  {
    MergeBackStarts(lt, x, y);
    hide MergingBack;
    assert d[end..end] == [];
    assert x[..|x|] == x;
  }

  lemma BackA<T(!new)>(lt: Less<T>, d: seq<T>, s: seq<T>, x: seq<T>, y: seq<T>, first: nat, end: nat, i: nat, j: nat)
    requires StrictWeak(lt) && i < |x| && j < |y| && BackState(lt, d, s, x, y, first, end, i + 1, j + 1) && lt(y[j], x[i])
    ensures first + i + j + 1 < |s| && BackState(lt, d, s[first + i + j + 1 := x[i]], x, y, first, end, i, j + 1)
  {
    hide MergingBack, SameOutside;
    var at := first + (i + 1) + (j + 1);
    SameLength(d, s, at, end);
    TakeLastA(lt, x, y, i, j, s[at..end]);
    WriteBefore(d, s, at, end, x[i]);
    Untouched(s, first, first + i, at - 1, x[i]);
    assert x[..i + 1][..i] == x[..i];
  }

  lemma BackB<T(!new)>(lt: Less<T>, d: seq<T>, s: seq<T>, x: seq<T>, y: seq<T>, first: nat, end: nat, i: nat, j: nat)
    requires StrictWeak(lt) && i < |x| && j < |y| && BackState(lt, d, s, x, y, first, end, i + 1, j + 1) && !lt(y[j], x[i])
    ensures first + i + j + 1 < |s| && BackState(lt, d, s[first + i + j + 1 := y[j]], x, y, first, end, i + 1, j)
  {
    hide MergingBack, SameOutside;
    var at := first + (i + 1) + (j + 1);
    SameLength(d, s, at, end);
    TakeLastB(lt, x, y, i, j, s[at..end]);
    WriteBefore(d, s, at, end, y[j]);
    Untouched(s, first, first + i + 1, at - 1, y[j]);
  }

  lemma BackGives<T(!new)>(lt: Less<T>, d: seq<T>, s: seq<T>, x: seq<T>, y: seq<T>, first: nat, end: nat, i: nat, j: nat)
    requires BackState(lt, d, s, x, y, first, end, i, j)
    ensures i <= |x| && j <= |y| && first + i + j <= end <= |s| == |d| && SameOutside(d, s, first + i + j, end)
    ensures s[first..first + i] == x[..i]
    ensures i == 0 ==> StableSortOf(lt, x + y, y[..j] + s[first + j..end])
    ensures j == 0 ==> StableSortOf(lt, x + y, x[..i] + s[first + i..end])
  {
    if i == 0 { FrontOfB(lt, x, y, j, s[first + j..end]); }
    if j == 0 { FrontOfA(lt, x, y, i, s[first + i..end]); }
    hide MergingBack;
  }

  /** The first input is used up. */
  method FinishFromBuffer<T(!new)>(lt: Less<T>, a: array<T>, first1: nat, result: nat, buf: array<T>, first2: nat, j: nat,
      ghost d: seq<T>, ghost x: seq<T>, ghost y: seq<T>)
    requires a != buf && first2 + j <= buf.Length && j <= |y| && buf[first2..first2 + j] == y[..j]
    requires result <= a.Length && BackState(lt, d, a[..], x, y, first1, result, 0, j)
    modifies a
    ensures SameOutside(d, a[..], first1, result) && StableSortOf(lt, x + y, a[first1..result])
  {
    BackGives(lt, d, a[..], x, y, first1, result, 0, j);
    hide BackState, SameOutside, StableSortOf;
    CopyFront(buf, first2, first2 + j, a, first1 + j, result, d);
  }

  /** The second input is used up. */
  method FinishInPlace<T(!new)>(lt: Less<T>, a: array<T>, first1: nat, result: nat, i: nat,
      ghost d: seq<T>, ghost x: seq<T>, ghost y: seq<T>)
    requires result <= a.Length && BackState(lt, d, a[..], x, y, first1, result, i, 0)
    modifies a
    ensures SameOutside(d, a[..], first1, result) && StableSortOf(lt, x + y, a[first1..result])
  {
    BackGives(lt, d, a[..], x, y, first1, result, i, 0);
    hide BackState, SameOutside, StableSortOf;
    CopyFront(a, first1, first1 + i, a, first1 + i, result, d);
  }

  /** __merge_backward: a[first1..last1] and buf[first2..last2] onto the place up to result, which the former starts. */
  method MergeBackward<T(!new)>(lt: Less<T>, a: array<T>, first1: nat, last1: nat,
      buf: array<T>, first2: nat, last2: nat, result: nat)
    requires StrictWeak(lt) && a != buf && first1 <= last1 && first2 <= last2 <= buf.Length
    requires last1 + (last2 - first2) == result <= a.Length
    requires Sorted(lt, a[first1..last1]) && Sorted(lt, buf[first2..last2])
    modifies a
    ensures SameOutside(old(a[..]), a[..], first1, result)
    ensures StableSortOf(lt, old(a[first1..last1] + buf[first2..last2]), a[first1..result])
  {
    hide BackState, SameOutside, StableSortOf, Sorted, StrictWeak;
    ghost var d, x, y := a[..], a[first1..last1], buf[first2..last2];
    BackStarts(lt, d, x, y, first1, result);
    assert y[..|y|] == y && x[..|x|] == x;
    if first1 == last1 {
      FinishFromBuffer(lt, a, first1, result, buf, first2, last2 - first2, d, x, y);
      return;
    }
    if first2 == last2 {
      FinishInPlace(lt, a, first1, result, last1 - first1, d, x, y);
      return;
    }
    var p1: nat, p2: nat, res: nat := last1 - 1, last2 - 1, result;
    while true
      invariant first1 <= p1 < last1 && first2 <= p2 < last2 && res == p1 + 1 + (p2 + 1 - first2)
      invariant buf[first2..last2] == y[..|y|] && BackState(lt, d, a[..], x, y, first1, result, p1 - first1 + 1, p2 - first2 + 1)
      decreases p1 + p2
    {
      ghost var t, i: nat, j: nat := a[..], p1 - first1, p2 - first2;
      BackHeads(lt, d, t, x, y, first1, result, i, j, buf[..], first2);
      res := res - 1;
      if lt(buf[p2], a[p1]) {
        BackA(lt, d, t, x, y, first1, result, i, j);
        Store(a, res, a[p1]);
        if first1 == p1 {
          FinishFromBuffer(lt, a, first1, result, buf, first2, p2 + 1 - first2, d, x, y);
          return;
        }
        p1 := p1 - 1;
      } else {
        BackB(lt, d, t, x, y, first1, result, i, j);
        Store(a, res, buf[p2]);
        if first2 == p2 {
          FinishInPlace(lt, a, first1, result, p1 + 1 - first1, d, x, y);
          return;
        }
        p2 := p2 - 1;
      }
    }
  }

  lemma BackHeads<T(!new)>(lt: Less<T>, d: seq<T>, s: seq<T>, x: seq<T>, y: seq<T>, first: nat, end: nat, i: nat, j: nat,
      b: seq<T>, first2: nat)
    requires BackState(lt, d, s, x, y, first, end, i + 1, j + 1)
    requires first2 + |y| <= |b| && b[first2..first2 + |y|] == y
    ensures i < |x| && j < |y| && first + i + 1 + j + 1 <= end <= |s| == |d|
    ensures s[first + i] == x[i] && s[first..first + i + 1] == x[..i + 1] && b[first2 + j] == y[j]
    ensures s[first..first + i] == x[..i] && b[first2..first2 + j + 1] == y[..j + 1]
  {
    hide BackState, SameOutside, StableSortOf;
    BackGives(lt, d, s, x, y, first, end, i + 1, j + 1);
    Heads(s, x, first, i + 1, i);
    assert y[..|y|] == y;
    Heads(b, y, first2, |y|, j);
    assert s[first..first + i] == s[first..first + i + 1][..i];
  }

  lemma Heads<T>(s: seq<T>, x: seq<T>, first: nat, k: nat, i: nat)
    requires i < k <= |x| && first + k <= |s| && s[first..first + k] == x[..k]
    ensures s[first + i] == x[i] && s[first..first + i + 1] == x[..i + 1]
  {
    assert s[first..first + k][i] == s[first + i] && s[first..first + k][..i + 1] == s[first..first + i + 1];
  }

  lemma Untouched<T>(t: seq<T>, lo: nat, hi: nat, p: nat, v: T)
    requires lo <= hi <= p < |t|
    ensures t[p := v][lo..hi] == t[lo..hi]
    ensures hi < |t| ==> t[lo..hi] == t[lo..hi + 1][..hi - lo]
  {
  }

  // ---------- where to cut ----------

  /** Cutting two sorted stretches so that merging their front parts, and their back parts, merges them. */
  ghost predicate CutOk<T>(lt: Less<T>, a1: seq<T>, a2: seq<T>, b1: seq<T>, b2: seq<T>) {
    StrictlyBelow(lt, b1, a2) && Below(lt, a1, b2)
  }

  lemma CutMerges<T(!new)>(lt: Less<T>, a1: seq<T>, a2: seq<T>, b1: seq<T>, b2: seq<T>, x: seq<T>, y: seq<T>)
    requires StrictWeak(lt) && CutOk(lt, a1, a2, b1, b2) && Sorted(lt, a1 + a2) && Sorted(lt, b1 + b2)
    requires StableSortOf(lt, a1 + b1, x) && StableSortOf(lt, a2 + b2, y)
    ensures StableSortOf(lt, (a1 + a2) + (b1 + b2), x + y)
  {
    SortedConcat(lt, a1, a2);
    SortedConcat(lt, b1, b2);
    StrictIsApart(lt, a2, b1);
    BelowConcat(lt, a2, b2, a1);
    BelowConcat(lt, a2, b2, b1);
    BelowConcat(lt, a1, b1, a2 + b2);
    BelowClasses(lt, a1 + b1, a2 + b2, x, y);
    SortedConcat(lt, x, y);
    ExchangeInside(lt, a1, a2, b1, b2);
    SameClassesConcat(lt, a1 + b1, a2 + b2, x, y);
    assert a1 + a2 + b1 + b2 == (a1 + a2) + (b1 + b2) && a1 + b1 + a2 + b2 == (a1 + b1) + (a2 + b2);
    SameClassesTransitive(lt, (a1 + a2) + (b1 + b2), (a1 + b1) + (a2 + b2), x + y);
  }

  /** The cut of b at the lower bound of an element of a ... */
  lemma CutAtA<T(!new)>(lt: Less<T>, a: seq<T>, b: seq<T>, i: nat, j: nat)
    requires StrictWeak(lt) && Sorted(lt, a) && i < |a| && j <= |b|
    requires (forall q :: 0 <= q < j ==> lt(b[q], a[i])) && (forall q :: j <= q < |b| ==> !lt(b[q], a[i]))
    ensures CutOk(lt, a[..i], a[i..], b[..j], b[j..])
  {
    forall p, q | 0 <= p < |b[..j]| && 0 <= q < |a[i..]| ensures lt(b[..j][p], a[i..][q]) {
      assert lt(b[p], a[i]) && (q == 0 || !lt(a[i + q], a[i]));
    }
    forall p, q | 0 <= p < |a[..i]| && 0 <= q < |b[j..]| ensures !lt(b[j..][q], a[..i][p]) {
      assert !lt(b[j + q], a[i]) && !lt(a[i], a[p]);
    }
  }

  /** ... and the cut of a at the upper bound of an element of b. */
  lemma CutAtB<T(!new)>(lt: Less<T>, a: seq<T>, b: seq<T>, i: nat, j: nat)
    requires StrictWeak(lt) && Sorted(lt, b) && i <= |a| && j < |b|
    requires (forall q :: 0 <= q < i ==> !lt(b[j], a[q])) && (forall q :: i <= q < |a| ==> lt(b[j], a[q]))
    ensures CutOk(lt, a[..i], a[i..], b[..j], b[j..])
  {
    forall p, q | 0 <= p < |b[..j]| && 0 <= q < |a[i..]| ensures lt(b[..j][p], a[i..][q]) {
      assert lt(b[j], a[i + q]) && !lt(b[j], b[p]);
    }
    forall p, q | 0 <= p < |a[..i]| && 0 <= q < |b[j..]| ensures !lt(b[j..][q], a[..i][p]) {
      assert !lt(b[j], a[p]) && (q == 0 || !lt(b[j + q], b[j]));
    }
  }
}
