/** The three rotations of stl_algo.h: by forward swaps, by reversals, and along the cycles of the permutation.
    They leave the same sequence and return the same position. */
module Rotate {
  import opened Ranges

  /** The stretch from lo to hi after its part before middle has gone to the back. */
  function Rotated<T>(s: seq<T>, lo: nat, middle: nat, hi: nat): (r: seq<T>)
    requires lo <= middle <= hi <= |s|
    ensures |r| == hi - lo
  {
    s[middle..hi] + s[lo..middle]
  }

  // ---------- forward iterators ----------

  /** While the forward rotation is at work: what is still to be placed, from position first on, is the part behind
      first2, the part it has moved out of the way, and the part in front of middle. */
  ghost predicate StillToPlace<T>(s: seq<T>, lo: nat, first: nat, middle: nat, first2: nat, hi: nat, goal: seq<T>) {
    && lo <= first <= middle <= first2 <= hi <= |s| && |goal| == hi - lo
    && s[lo..first] == goal[..first - lo]
    && s[first2..hi] + s[middle..first2] + s[first..middle] == goal[first - lo..]
  }

  lemma SwapPlaces<T>(s: seq<T>, lo: nat, first: nat, middle: nat, first2: nat, hi: nat, goal: seq<T>)
    requires StillToPlace(s, lo, first, middle, first2, hi, goal) && first < middle && first2 < hi
    ensures StillToPlace(s[first := s[first2]][first2 := s[first]], lo, first + 1, middle, first2 + 1, hi, goal)
    ensures SameOutside(s, s[first := s[first2]][first2 := s[first]], lo, hi)
  {
    var t := s[first := s[first2]][first2 := s[first]];
    var rest := goal[first - lo..];
    assert rest[0] == s[first2] && rest[1..] == s[first2 + 1..hi] + s[middle..first2] + s[first..middle];
    assert goal[first + 1 - lo..] == rest[1..];
    assert t[lo..first + 1] == s[lo..first] + [s[first2]];
    assert goal[..first + 1 - lo] == goal[..first - lo] + [goal[first - lo]];
    assert t[middle..first2 + 1] == s[middle..first2] + [s[first]];
    assert s[first..middle] == [s[first]] + s[first + 1..middle];
    assert t[first + 1..middle] == s[first + 1..middle] && t[first2 + 1..hi] == s[first2 + 1..hi];
  }

  /** Once the front part is used up, the part moved out of the way takes its place. */
  lemma FrontUsedUp<T>(s: seq<T>, lo: nat, first: nat, middle: nat, first2: nat, hi: nat, goal: seq<T>)
    requires StillToPlace(s, lo, first, middle, first2, hi, goal) && first == middle
    ensures StillToPlace(s, lo, first, first2, first2, hi, goal)
  {
    assert s[first2..hi] + s[first..first2] + s[first..first] == s[first2..hi] + s[first2..first2] + s[first..first2];
  }

  /** Once the back part is used up, the rotation goes on with the part moved out of the way. */
  lemma BackUsedUp<T>(s: seq<T>, lo: nat, first: nat, middle: nat, first2: nat, hi: nat, goal: seq<T>)
    requires StillToPlace(s, lo, first, middle, first2, hi, goal) && first2 == hi
    ensures StillToPlace(s, lo, first, middle, middle, hi, goal)
  {
    assert s[hi..hi] + s[middle..hi] + s[first..middle] == s[middle..hi] + s[middle..middle] + s[first..middle];
  }

  method SwapStep<T>(a: array<T>, ghost s: seq<T>, ghost lo: nat, first: nat, ghost middle: nat, first2: nat,
      ghost hi: nat, ghost goal: seq<T>)
    requires SameOutside(s, a[..], lo, hi) && StillToPlace(a[..], lo, first, middle, first2, hi, goal)
    requires lo <= first < middle <= first2 < hi <= a.Length
    modifies a
    ensures SameOutside(s, a[..], lo, hi) && StillToPlace(a[..], lo, first + 1, middle, first2 + 1, hi, goal)
  {
    hide StillToPlace, SameOutside;
    ghost var t := a[..];
    SwapPlaces(t, lo, first, middle, first2, hi, goal);
    Swap(a, first, first2);
    SameOutsideTransitive(s, t, a[..], lo, hi);
  }

  /** __rotate for forward iterators. */
  method RotateForward<T>(a: array<T>, lo: nat, mid: nat, hi: nat) returns (newMiddle: nat)
    requires lo <= mid <= hi <= a.Length
    modifies a
    ensures SameOutside(old(a[..]), a[..], lo, hi) && a[lo..hi] == Rotated(old(a[..]), lo, mid, hi)
    ensures newMiddle == lo + (hi - mid)
  {
    hide StillToPlace, SameOutside;
    ghost var s, goal := a[..], Rotated(a[..], lo, mid, hi);
    SameOutsideSelf(s, lo, hi);
    if lo == mid { return hi; }
    if hi == mid { return lo; }
    var first: nat, middle: nat, first2: nat := lo, mid, mid;
    StartsWhole(s, lo, mid, hi);
    while first2 != hi
      invariant SameOutside(s, a[..], lo, hi) && StillToPlace(a[..], lo, first, middle, first2, hi, goal)
      invariant lo <= first < middle <= first2 <= hi && first - lo == first2 - mid
      decreases hi - first2
    {
      SwapStep(a, s, lo, first, middle, first2, hi, goal);
      first, first2 := first + 1, first2 + 1;
      ghost var t := a[..];
      if first == middle {
        FrontUsedUp(t, lo, first, middle, first2, hi, goal);
        middle := first2;
      }
    }
    newMiddle := first;
    BackUsedUp(a[..], lo, first, middle, first2, hi, goal);
    first2 := middle;
    while first2 != hi
      invariant SameOutside(s, a[..], lo, hi) && StillToPlace(a[..], lo, first, middle, first2, hi, goal)
      invariant lo <= first < middle <= first2 <= hi && (first2 == hi ==> middle == hi)
      decreases hi - first
    {
      SwapStep(a, s, lo, first, middle, first2, hi, goal);
      first, first2 := first + 1, first2 + 1;
      ghost var t := a[..];
      if first == middle {
        FrontUsedUp(t, lo, first, middle, first2, hi, goal);
        middle := first2;
      } else if first2 == hi {
        BackUsedUp(t, lo, first, middle, first2, hi, goal);
        first2 := middle;
      }
    }
    AllPlaced(a[..], lo, first, middle, first2, hi, goal);
  }

  lemma AllPlaced<T>(s: seq<T>, lo: nat, first: nat, middle: nat, first2: nat, hi: nat, goal: seq<T>)
    requires StillToPlace(s, lo, first, middle, first2, hi, goal) && middle == first2 == hi
    ensures s[lo..hi] == goal
  {
    assert s[lo..hi] == s[lo..first] + s[first..hi];
  }

  lemma StartsWhole<T>(s: seq<T>, lo: nat, mid: nat, hi: nat)
    requires lo <= mid <= hi <= |s|
    ensures StillToPlace(s, lo, lo, mid, mid, hi, Rotated(s, lo, mid, hi))
  {
    assert s[mid..hi] + s[mid..mid] + s[lo..mid] == Rotated(s, lo, mid, hi);
  }

  // ---------- bidirectional iterators ----------

  /** The reversed front x and the reversed back y, after k swaps between the two ends. */
  function Halfway<T>(x: seq<T>, y: seq<T>, k: nat): (t: seq<T>)
    requires k <= |x| && k <= |y|
    ensures |t| == |x| + |y|
  {
    y[..k] + Reversed(x[..|x| - k]) + Reversed(y[k..]) + x[|x| - k..]
  }

  lemma SwapEnds<T>(x: seq<T>, y: seq<T>, k: nat)
    requires k < |x| && k < |y|
    ensures var t := Halfway(x, y, k);
      Halfway(x, y, k + 1) == t[k := t[|t| - 1 - k]][|t| - 1 - k := t[k]]
  {
    var front, back := x[..|x| - k], y[k..];
    ReversedFirst(front);
    assert front[..|front| - 1] == x[..|x| - (k + 1)] && back[1..] == y[k + 1..];
    assert y[..k + 1] == y[..k] + [back[0]];
    assert x[|x| - (k + 1)..] == [front[|front| - 1]] + x[|x| - k..];
  }

  /** Reversing what is left in the middle completes the rotation. */
  lemma ReversalEnds<T>(x: seq<T>, y: seq<T>, k: nat)
    requires k <= |x| && k <= |y| && (k == |x| || k == |y|)
    ensures var t := Halfway(x, y, k);
      var n := |t| - k;
      t[..k] + Reversed(t[k..n]) + t[n..] == y + x
  {
    var t, n := Halfway(x, y, k), |x| + |y| - k;
    assert t[..k] == y[..k] && t[n..] == x[|x| - k..];
    if k == |x| {
      assert t[k..n] == Reversed(y[k..]);
      ReversedTwice(y[k..]);
    } else {
      assert t[k..n] == Reversed(x[..|x| - k]);
      ReversedTwice(x[..|x| - k]);
    }
  }

  method SwapEndsStep<T>(a: array<T>, ghost s: seq<T>, lo: nat, hi: nat, first: nat, last: nat, ghost x: seq<T>, ghost y: seq<T>)
    requires lo <= first < last <= hi <= a.Length && first - lo == hi - last && |x| + |y| == hi - lo
    requires SameOutside(s, a[..], lo, hi) && first - lo < |x| && first - lo < |y| && a[lo..hi] == Halfway(x, y, first - lo)
    modifies a
    ensures SameOutside(s, a[..], lo, hi) && a[lo..hi] == Halfway(x, y, first + 1 - lo)
  {
    hide SameOutside, Reversed, Halfway;
    ghost var t := a[..];
    SwapEnds(x, y, first - lo);
    SwapInside(t, lo, hi, first, last - 1);
    Swap(a, first, last - 1);
    SameOutsideTransitive(s, t, a[..], lo, hi);
  }

  /** The last reversal, of the stretch from first to last. */
  method CompleteRotation<T>(a: array<T>, ghost s: seq<T>, lo: nat, hi: nat, first: nat, last: nat, ghost x: seq<T>, ghost y: seq<T>)
    requires lo <= first <= last <= hi <= a.Length && first - lo == hi - last && |x| + |y| == hi - lo
    requires SameOutside(s, a[..], lo, hi) && first - lo <= |x| && first - lo <= |y| && a[lo..hi] == Halfway(x, y, first - lo)
    requires first - lo == |x| || first - lo == |y|
    modifies a
    ensures SameOutside(s, a[..], lo, hi) && a[lo..hi] == y + x
  {
    hide SameOutside, Reversed, Halfway;
    ghost var t := a[..];
    ReversalEnds(x, y, first - lo);
    Reverse(a, first, last);
    Inner(t, a[..], first, last, lo, hi);
    SameOutsideTransitive(s, t, a[..], lo, hi);
    Slices(t, lo, hi, lo, first);
    Slices(t, lo, hi, first, last);
    Slices(t, lo, hi, last, hi);
  }

  /** __rotate for bidirectional iterators, which rotate also chooses for random access. */
  method RotateBidirectional<T>(a: array<T>, lo: nat, mid: nat, hi: nat) returns (newMiddle: nat)
    requires lo <= mid <= hi <= a.Length
    modifies a
    ensures SameOutside(old(a[..]), a[..], lo, hi) && a[lo..hi] == Rotated(old(a[..]), lo, mid, hi)
    ensures newMiddle == lo + (hi - mid)
  {
    hide SameOutside, Reversed, Halfway;
    ghost var s := a[..];
    SameOutsideSelf(s, lo, hi);
    if lo == mid { return hi; }
    if hi == mid { return lo; }
    ReverseHalves(a, lo, mid, hi);
    ghost var x, y := s[lo..mid], s[mid..hi];
    var first, last := lo, hi;
    while first != mid && mid != last
      invariant SameOutside(s, a[..], lo, hi)
      invariant lo <= first <= mid <= last <= hi && first - lo == hi - last
      invariant a[lo..hi] == Halfway(x, y, first - lo)
      decreases last - first
    {
      SwapEndsStep(a, s, lo, hi, first, last, x, y);
      last := last - 1;
      first := first + 1;
    }
    if first == mid {
      CompleteRotation(a, s, lo, hi, mid, last, x, y);
      newMiddle := last;
    } else {
      CompleteRotation(a, s, lo, hi, first, mid, x, y);
      newMiddle := first;
    }
  }

  method ReverseHalves<T>(a: array<T>, lo: nat, mid: nat, hi: nat)
    requires lo <= mid <= hi <= a.Length
    modifies a
    ensures SameOutside(old(a[..]), a[..], lo, hi) && a[lo..hi] == Halfway(old(a[lo..mid]), old(a[mid..hi]), 0)
  {
    hide SameOutside, Reversed, Halfway;
    ghost var s := a[..];
    Reverse(a, lo, mid);
    ghost var t := a[..];
    Inner(s, t, lo, mid, lo, hi);
    Reverse(a, mid, hi);
    ghost var u := a[..];
    Inner(t, u, mid, hi, lo, hi);
    SameOutsideTransitive(s, t, u, lo, hi);
    Behind(s, t, lo, mid, hi);
    HalfwayStart(s[lo..mid], s[mid..hi]);
    assert t[lo..mid] + u[mid..hi] + t[hi..hi] == t[lo..mid] + u[mid..hi];
  }

  lemma HalfwayStart<T>(x: seq<T>, y: seq<T>)
    ensures Halfway(x, y, 0) == Reversed(x) + Reversed(y)
  {
    assert x[..|x|] == x && y[0..] == y;
  }
}
