/** The bottom-up merge sort between an array and a buffer, and stable_sort on top of all its variants. */
module StableSort {
  import opened Ordering
  import opened Ranges
  import opened Insertion
  import opened Merging
  import opened InplaceMerge

  const CHUNK := 7

  // ---------- sorted chunks ----------

  /** s consists of sorted chunks of the given length, but that the last one may be shorter. */
  ghost predicate Chunked<T>(lt: Less<T>, s: seq<T>, step: nat)
    decreases |s|
  {
    step > 0 && if |s| <= step then Sorted(lt, s) else Sorted(lt, s[..step]) && Chunked(lt, s[step..], step)
  }

  /** ... and that none is shorter. */
  ghost predicate FullChunks<T>(lt: Less<T>, s: seq<T>, step: nat)
    decreases |s|
  {
    step > 0 && (s == [] || (|s| >= step && Sorted(lt, s[..step]) && FullChunks(lt, s[step..], step)))
  }

  lemma {:induction false} AddChunk<T>(lt: Less<T>, s: seq<T>, x: seq<T>, step: nat)
    requires FullChunks(lt, s, step) && |x| == step && Sorted(lt, x)
    ensures FullChunks(lt, s + x, step)
    decreases |s|
  {
    if s == [] {
      assert s + x == x && x[..step] == x && x[step..] == [];
    } else {
      AddChunk(lt, s[step..], x, step);
      assert (s + x)[..step] == s[..step] && (s + x)[step..] == s[step..] + x;
    }
  }

  lemma {:induction false} AddLast<T>(lt: Less<T>, s: seq<T>, x: seq<T>, step: nat)
    requires FullChunks(lt, s, step) && |x| <= step && Sorted(lt, x)
    ensures Chunked(lt, s + x, step)
    decreases |s|
  {
    if s == [] {
      assert s + x == x;
    } else {
      AddLast(lt, s[step..], x, step);
      assert (s + x)[..step] == s[..step] && (s + x)[step..] == s[step..] + x;
      if |s + x| == step { assert s + x == s[..step]; }
    }
  }

  /** The first two chunks, if they are full. */
  lemma TwoChunks<T>(lt: Less<T>, s: seq<T>, step: nat)
    requires Chunked(lt, s, step) && |s| >= 2 * step
    ensures Sorted(lt, s[..step]) && Sorted(lt, s[step..2 * step]) && Chunked(lt, s[2 * step..], step)
  {
    var rest := s[step..];
    assert rest[..step] == s[step..2 * step] && rest[step..] == s[2 * step..];
    if |rest| == step {
      assert rest[..step] == rest;
      assert s[2 * step..] == [];
    }
  }

  lemma LastChunks<T>(lt: Less<T>, s: seq<T>, step: nat)
    requires Chunked(lt, s, step) && |s| < 2 * step
    ensures var k := if |s| < step then |s| else step; Sorted(lt, s[..k]) && Sorted(lt, s[k..])
  {
    var k := if |s| < step then |s| else step;
    if |s| <= step { assert s[..k] == s && s[k..] == []; }
  }

  // ---------- the first pass ----------

  /** What has been done of a pass over s: the front is in full chunks, and nothing has been lost. */
  ghost predicate PassedSo<T(!new)>(lt: Less<T>, s: seq<T>, front: seq<T>, step: nat) {
    |front| <= |s| && FullChunks(lt, front, step) && SameClasses(lt, s[..|front|], front)
  }

  lemma PassOn<T(!new)>(lt: Less<T>, s: seq<T>, front: seq<T>, step: nat, chunk: seq<T>)
    requires PassedSo(lt, s, front, step) && |front| + step <= |s| && |chunk| == step
    requires StableSortOf(lt, s[|front|..|front| + step], chunk)
    ensures PassedSo(lt, s, front + chunk, step)
  {
    var n := |front|;
    AddChunk(lt, front, chunk, step);
    assert s[..n + step] == s[..n] + s[n..n + step];
    SameClassesConcat(lt, s[..n], s[n..n + step], front, chunk);
  }

  lemma PassEnds<T(!new)>(lt: Less<T>, s: seq<T>, front: seq<T>, step: nat, last: seq<T>)
    requires PassedSo(lt, s, front, step) && |s| - |front| <= step && |last| == |s| - |front|
    requires StableSortOf(lt, s[|front|..], last)
    ensures Chunked(lt, front + last, step) && SameClasses(lt, s, front + last)
  {
    var n := |front|;
    AddLast(lt, front, last, step);
    assert s == s[..n] + s[n..];
    SameClassesConcat(lt, s[..n], s[n..], front, last);
  }

  /** __chunk_insertion_sort */
  method ChunkInsertionSort<T(!new)>(lt: Less<T>, a: array<T>, first: nat, last: nat)
    requires StrictWeak(lt) && first <= last <= a.Length
    modifies a
    ensures SameOutside(old(a[..]), a[..], first, last)
    ensures Chunked(lt, a[first..last], CHUNK) && SameClasses(lt, old(a[first..last]), a[first..last])
  {
    hide SameOutside, PassedSo, Chunked, StableSorted, Sorted, SameClasses;
    ghost var d, s := a[..], a[first..last];
    SameOutsideSelf(d, first, first);
    var f := first;
    NothingPassed(lt, s, CHUNK);
    assert a[first..first] == [];
    while last - f >= CHUNK
      invariant first <= f <= last && SameOutside(d, a[..], first, f) && PassedSo(lt, s, a[first..f], CHUNK)
    {
      ghost var t := a[..];
      InsertionSort(lt, a, f, f + CHUNK);
      NextChunk(lt, d, s, t, a[..], first, f, f + CHUNK, last);
      PassOn(lt, s, t[first..f], CHUNK, a[f..f + CHUNK]);
      f := f + CHUNK;
    }
    ghost var t := a[..];
    InsertionSort(lt, a, f, last);
    NextChunk(lt, d, s, t, a[..], first, f, last, last);
    assert s[f - first..] == s[f - first..last - first];
    PassEnds(lt, s, t[first..f], CHUNK, a[f..last]);
  }

  lemma NothingPassed<T(!new)>(lt: Less<T>, s: seq<T>, step: nat)
    requires step > 0
    ensures PassedSo(lt, s, [], step)
  {
    assert s[..0] == [];
  }

  /** Sorting the stretch behind what a pass has done. */
  lemma NextChunk<T(!new)>(lt: Less<T>, d: seq<T>, s: seq<T>, t: seq<T>, u: seq<T>, first: nat, i: nat, j: nat, last: nat)
    requires StrictWeak(lt) && first <= i <= j <= last <= |d| && s == d[first..last]
    requires SameOutside(d, t, first, i) && SameOutside(t, u, i, j) && u[i..j] == StableSorted(lt, t[i..j])
    ensures SameOutside(d, u, first, j) && u[first..j] == t[first..i] + u[i..j]
    ensures s[i - first..j - first] == t[i..j] && StableSortOf(lt, s[i - first..j - first], u[i..j])
  {
    AppendStretch(d, t, u, first, i, j);
    Behind(d, t, first, i, j);
    Slices(d, first, last, i, j);
    StableSortedIsOne(lt, t[i..j]);
  }

  // ---------- the later passes ----------

  lemma DropSlice<T>(x: seq<T>, first: nat, last: nat, f: nat, i: nat, j: nat)
    requires first <= f <= i <= j <= last <= |x|
    ensures var rest := x[first..last][f - first..];
      |rest| == last - f && rest[i - f..j - f] == x[i..j]
  {
    Slices(x, first, last, f, last);
    assert x[first..last][f - first..] == x[f..last];
    Slices(x, f, last, i, j);
  }

  lemma PairBounds<T>(lt: Less<T>, x: seq<T>, first: nat, f: nat, last: nat, step: nat)
    requires first <= f <= last <= |x| && Chunked(lt, x[first..last][f - first..], step) && last - f >= 2 * step
    ensures step > 0 && Sorted(lt, x[f..f + step]) && Sorted(lt, x[f + step..f + 2 * step])
    ensures Chunked(lt, x[first..last][f + 2 * step - first..], step)
  {
    hide Sorted, Chunked;
    var rest := x[first..last][f - first..];
    ChunkLength(lt, rest, step);
    TwoChunks(lt, rest, step);
    DropSlice(x, first, last, f, f, f + step);
    DropSlice(x, first, last, f, f + step, f + 2 * step);
    DropTwice(x[first..last], f - first, 2 * step);
  }

  lemma DropTwice<T>(s: seq<T>, i: nat, j: nat)
    requires i + j <= |s|
    ensures s[i..][j..] == s[i + j..]
  {
  }

  lemma ChunkLength<T>(lt: Less<T>, s: seq<T>, step: nat)
    requires Chunked(lt, s, step)
    ensures step > 0
  {
  }

  lemma LastBounds<T>(lt: Less<T>, x: seq<T>, first: nat, f: nat, last: nat, step: nat)
    requires first <= f <= last <= |x| && Chunked(lt, x[first..last][f - first..], step) && last - f < 2 * step
    ensures var k := if last - f < step then last - f else step;
      Sorted(lt, x[f..f + k]) && Sorted(lt, x[f + k..last])
  {
    var rest := x[first..last][f - first..];
    var k := if last - f < step then last - f else step;
    LastChunks(lt, rest, step);
    hide Sorted, Chunked;
    DropSlice(x, first, last, f, f, f + k);
    DropSlice(x, first, last, f, f + k, last);
    assert rest[k..] == rest[k..last - f];
  }

  /** Merging two neighbouring chunks of x onto y, behind what the pass has done. */
  method MergePair<T(!new)>(lt: Less<T>, x: array<T>, ghost first: nat, ghost last: nat, f: nat, m: nat, g: nat,
      y: array<T>, ghost result: nat, r: nat, ghost d: seq<T>) returns (end: nat)
    requires StrictWeak(lt) && first <= f <= m <= g <= last <= x.Length && r + (g - f) <= y.Length && x != y
    requires Sorted(lt, x[f..m]) && Sorted(lt, x[m..g]) && SameOutside(d, y[..], result, r)
    modifies y
    ensures end == r + (g - f) && result <= r && SameOutside(d, y[..], result, end)
    ensures y[result..end] == old(y[result..r]) + y[r..end]
    ensures StableSortOf(lt, x[first..last][f - first..g - first], y[r..end])
  {
    hide SameOutside, Sorted, SameClasses;
    ghost var t := y[..];
    Slices(x[..], first, last, f, g);
    StretchCut(x[..], f, m, g);
    end := Merge(lt, x, f, m, x, m, g, y, r);
    AppendStretch(d, t, y[..], result, r, end);
  }

  /** __merge_sort_loop */
  method MergeSortLoop<T(!new)>(lt: Less<T>, x: array<T>, first: nat, last: nat, y: array<T>, result: nat, step: nat)
    requires StrictWeak(lt) && first <= last <= x.Length && result + (last - first) <= y.Length && x != y
    requires Chunked(lt, x[first..last], step)
    modifies y
    ensures var end := result + (last - first);
      && SameOutside(old(y[..]), y[..], result, end)
      && Chunked(lt, y[result..end], 2 * step) && SameClasses(lt, old(x[first..last]), y[result..end])
  {
    hide SameOutside, PassedSo, Chunked, Sorted, SameClasses;
    ghost var d, s := y[..], x[first..last];
    SameOutsideSelf(d, result, result);
    assert s[0..] == s && d[result..result] == [];
    ChunkLength(lt, s, step);
    NothingPassed(lt, s, 2 * step);
    var f, r := first, result;
    while last - f >= 2 * step
      invariant first <= f <= last && r - result == f - first && x[first..last] == s
      invariant SameOutside(d, y[..], result, r) && PassedSo(lt, s, y[result..r], 2 * step)
      invariant Chunked(lt, s[f - first..], step)
    {
      ghost var front := y[result..r];
      PairBounds(lt, x[..], first, f, last, step);
      var end := MergePair(lt, x, first, last, f, f + step, f + 2 * step, y, result, r, d);
      PassOn(lt, s, front, 2 * step, y[r..end]);
      r := end;
      f := f + 2 * step;
    }
    ghost var front := y[result..r];
    LastBounds(lt, x[..], first, f, last, step);
    var k := if last - f < step then last - f else step;
    var end := MergePair(lt, x, first, last, f, f + k, last, y, result, r, d);
    assert s[f - first..] == s[f - first..last - first];
    PassEnds(lt, s, front, 2 * step, y[r..end]);
  }

  lemma OneChunk<T>(lt: Less<T>, s: seq<T>, step: nat)
    requires Chunked(lt, s, step) && |s| <= step
    ensures Sorted(lt, s)
  {
  }

  lemma SameStretch<T>(s: seq<T>, t: seq<T>, u: seq<T>, lo: nat, hi: nat)
    requires SameOutside(s, t, lo, hi) && SameOutside(t, u, lo, hi)
    ensures SameOutside(s, u, lo, hi)
  {
  }

  /** __merge_sort_with_buffer: each round merges onto the buffer and back, doubling the chunks twice. */
  method MergeSortWithBuffer<T(!new)>(lt: Less<T>, a: array<T>, first: nat, last: nat, buf: array<T>)
    requires StrictWeak(lt) && first <= last <= a.Length && last - first <= buf.Length && buf != a
    modifies a, buf
    ensures SameOutside(old(a[..]), a[..], first, last) && a[first..last] == StableSorted(lt, old(a[first..last]))
  {
    hide SameOutside, Chunked, Sorted, SameClasses, StableSorted;
    ghost var d, s := a[..], a[first..last];
    var len := last - first;
    var step := CHUNK;
    ChunkInsertionSort(lt, a, first, last);
    while step < len
      invariant step > 0 && SameOutside(d, a[..], first, last)
      invariant Chunked(lt, a[first..last], step) && SameClasses(lt, s, a[first..last])
      decreases len - step
    {
      ghost var t := a[..];
      MergeSortLoop(lt, a, first, last, buf, 0, step);
      step := step * 2;
      SameClassesTransitive(lt, s, t[first..last], buf[0..len]);
      MergeSortLoop(lt, buf, 0, len, a, first, step);
      step := step * 2;
      SameClassesTransitive(lt, s, buf[0..len], a[first..last]);
      SameStretch(d, t, a[..], first, last);
    }
    OneChunk(lt, a[first..last], step);
    StableSortMeans(lt, s, a[first..last]);
  }

  /** __stable_sort_adaptive */
  method StableSortAdaptive<T(!new)>(lt: Less<T>, a: array<T>, first: nat, last: nat, buf: array<T>, size: nat)
    requires StrictWeak(lt) && first <= last <= a.Length && 1 <= size <= buf.Length && buf != a
    modifies a, buf
    ensures SameOutside(old(a[..]), a[..], first, last) && a[first..last] == StableSorted(lt, old(a[first..last]))
    decreases last - first
  {
    hide SameOutside, Sorted, SameClasses, StableSorted;
    ghost var s := a[..];
    var len := (last - first + 1) / 2;
    var mid := first + len;
    ghost var t;
    if len > size {
      StableSortAdaptive(lt, a, first, mid, buf, size);
      t := a[..];
      StableSortAdaptive(lt, a, mid, last, buf, size);
    } else {
      MergeSortWithBuffer(lt, a, first, mid, buf);
      t := a[..];
      MergeSortWithBuffer(lt, a, mid, last, buf);
    }
    ghost var u := a[..];
    HalvesSorted(lt, s, t, u, first, mid, last);
    MergeAdaptive(lt, a, first, mid, last, buf, size);
    HalvesMerged(lt, s, t, u, a[..], first, mid, last);
  }

  /** stable_sort. The temporary buffer may be missing, and may be smaller than asked for. */
  method Sort<T(!new)>(lt: Less<T>, a: array<T>, first: nat, last: nat, buf: array?<T>)
    requires StrictWeak(lt) && first <= last <= a.Length
    requires buf != null ==> buf != a && buf.Length >= 1
    modifies a, buf
    ensures SameOutside(old(a[..]), a[..], first, last) && a[first..last] == StableSorted(lt, old(a[first..last]))
  {
    if buf == null {
      InplaceStableSort(lt, a, first, last);
    } else {
      StableSortAdaptive(lt, a, first, last, buf, buf.Length);
    }
  }
}
