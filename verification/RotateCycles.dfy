/** The rotation for random access: each cycle of the permutation is walked once, moving elements one by one. */
module RotateCycles {
  import opened Ranges
  import opened Cycles
  import opened Rotate

  /** The stretch s is being rotated in place, and t is what it has become: cycle i is done up to step m, where the
      element at hole has been taken out. */
  ghost predicate Turning<T>(w: Wheel, s: seq<T>, t: seq<T>, i: nat, m: nat, hole: nat) {
    && w.d > 0 && |s| == |t| == w.n
    && forall p: nat :: p < w.n && p != hole ==> t[p] == if Done(w, i, m, p) then s[(p + w.k) % w.n] else s[p]
  }

  /** ... between two cycles. */
  ghost predicate Turned<T>(w: Wheel, s: seq<T>, t: seq<T>, i: nat) {
    && w.d > 0 && |s| == |t| == w.n
    && forall p: nat :: p < w.n ==> t[p] == if p % w.d < i then s[(p + w.k) % w.n] else s[p]
  }

  lemma StartCycle<T>(w: Wheel, s: seq<T>, t: seq<T>, i: nat)
    requires WheelOk(w) && Turned(w, s, t, i) && i < w.d
    ensures i < w.n && t[i] == s[i] && Turning(w, s, t, i, 0, i) && Pos(w, i, 0) == i
  {
    hide WheelOk, Done, Pos;
    PosZero(w, i);
    forall p: nat | p < w.n ensures Done(w, i, 0, p) <==> p % w.d < i { NothingDone(w, i, p); }
  }

  lemma StepCycle<T>(w: Wheel, s: seq<T>, t: seq<T>, i: nat, m: nat, q: nat, q': nat)
    requires WheelOk(w) && Turning(w, s, t, i, m, q) && i < w.d && m + 1 < w.np
    requires q == Pos(w, i, m) && q' == (q + w.k) % w.n
    ensures q < w.n && q' < w.n && q' == Pos(w, i, m + 1) && Turning(w, s, t[q := t[q']], i, m + 1, q')
  {
    NextPos(w, i, m);
    NotYetDone(w, i, m);
    NotYetDone(w, i, m + 1);
    forall p: nat | p < w.n ensures Done(w, i, m + 1, p) <==> Done(w, i, m, p) || p == q { OneMoreDone(w, i, m, p); }
    hide WheelOk, Done, Pos;
  }

  lemma EndCycle<T>(w: Wheel, s: seq<T>, t: seq<T>, i: nat, m: nat, q: nat)
    requires WheelOk(w) && Turning(w, s, t, i, m, q) && i < w.d && m + 1 == w.np && q == Pos(w, i, m)
    ensures q < w.n && i < w.n && Turned(w, s, t[q := s[i]], i + 1)
  {
    NotYetDone(w, i, m);
    Positive(w);
    forall p: nat | p < w.n ensures p % w.d < i + 1 <==> Done(w, i, m, p) || p == q {
      OneMoreDone(w, i, m, p);
      CycleDone(w, i, p);
    }
    hide WheelOk, Done, Pos;
  }

  lemma AllTurned<T>(w: Wheel, s: seq<T>, t: seq<T>)
    requires WheelOk(w) && Turned(w, s, t, w.d)
    ensures 0 < w.k < w.n && t == s[w.k..] + s[..w.k]
  {
    Positive(w);
    forall p: nat | p < w.n ensures t[p] == (s[w.k..] + s[..w.k])[p] {
      assert t[p] == s[(p + w.k) % w.n];
      Wrap(w.n, w.k, p);
    }
  }

  lemma Wrap(n: nat, k: nat, p: nat)
    requires k < n && p < n
    ensures (p + k) % n == if p + k < n then p + k else p + k - n
  {
    if p + k < n { DivisionUnique(n, 0, p + k, p + k); } else { DivisionUnique(n, 1, p + k - n, p + k); }
  }

  // ---------- the way of the two inner loops ----------

  /** From place i, so many steps up by k and down by l have led to place q. */
  ghost predicate Way(w: Wheel, i: nat, up: nat, down: nat, q: nat) {
    q == i + up * w.k - down * w.l && q < w.n && up + down < w.np && q == Pos(w, i, up + down)
  }

  lemma Multiples(w: Wheel)
    requires WheelOk(w)
    ensures w.d <= w.k && w.d <= w.l && w.lp * w.k == w.kp * w.l && w.n == w.k + w.l
  {
    assert w.lp * (w.d * w.kp) == w.kp * (w.d * w.lp);
  }

  /** The cycle closes from place i + l and from no other. */
  lemma ClosesOnlyThere(w: Wheel, i: nat, m: nat, q: nat)
    requires WheelOk(w) && i < w.d && m < w.np && q == Pos(w, i, m)
    ensures q < w.n && (m + 1 == w.np <==> q == i + w.l)
  {
    NotYetDone(w, i, m);
    Multiples(w);
    Wrap(w.n, w.k, q);
    if q == i + w.l && m + 1 < w.np {
      NextPos(w, i, m);
      PosZero(w, i);
      IndexOfPos(w, i, m + 1);
      IndexOfPos(w, i, 0);
    }
    hide WheelOk, Pos;
  }

  lemma StepUp(w: Wheel, i: nat, up: nat, down: nat, q: nat)
    requires WheelOk(w) && i < w.d && Way(w, i, up, down, q) && q < w.l
    ensures up + down + 1 < w.np && q + w.k < w.n && (q + w.k) % w.n == q + w.k && Way(w, i, up + 1, down, q + w.k)
  {
    hide WheelOk, Pos;
    Multiples(w);
    ClosesOnlyThere(w, i, up + down, q);
    NextPos(w, i, up + down);
    Wrap(w.n, w.k, q);
    OneMore(up, w.k);
  }

  lemma StepDown(w: Wheel, i: nat, up: nat, down: nat, q: nat)
    requires WheelOk(w) && i < w.d && Way(w, i, up, down, q) && w.l <= q && q != i + w.l
    ensures up + down + 1 < w.np && (q + w.k) % w.n == q - w.l && Way(w, i, up, down + 1, q - w.l)
  {
    hide WheelOk, Pos;
    Multiples(w);
    ClosesOnlyThere(w, i, up + down, q);
    NextPos(w, i, up + down);
    Wrap(w.n, w.k, q);
    OneMore(down, w.l);
  }

  lemma OneMore(j: int, k: int)
    ensures (j + 1) * k == j * k + k
  {
  }

  /** Places of one cycle differ by multiples of d. */
  lemma BelowTurn(w: Wheel, i: nat, up: nat, down: nat, q: nat)
    requires WheelOk(w) && i < w.d && Way(w, i, up, down, q) && q < i + w.l
    ensures q < w.l
  {
    hide Pos;
    Residue(w.d, up, down, w.kp, w.lp);
    GapOfMultiples(w.d, up * w.kp - down * w.lp, w.lp);
  }

  lemma Residue(d: int, up: int, down: int, kp: int, lp: int)
    ensures up * (d * kp) - down * (d * lp) == d * (up * kp - down * lp)
  {
    assert up * (d * kp) == d * (up * kp) && down * (d * lp) == d * (down * lp);
  }

  lemma GapOfMultiples(d: int, a: int, b: int)
    requires d > 0 && d * a < d * b
    ensures d * a + d <= d * b
  {
    if b <= a { ProductMonotone(d, b, a); } else { ProductMonotone(d, a + 1, b); }
    assert d * (a + 1) == d * a + d;
  }

  /** The end of the loop that counts steps up, if k < l. */
  lemma ArriveUp(w: Wheel, i: nat, down: nat, q: nat)
    requires WheelOk(w) && i < w.d && w.k < w.l && Way(w, i, w.lp, down, q)
    ensures q == i + w.l && w.lp + down + 1 == w.np
  {
    Multiples(w);
    ClosesOnlyThere(w, i, w.lp + down, q);
    hide Pos;
    OnlyOne(w.kp, down, w.l, q - i);
  }

  lemma Difference(a: int, b: int, l: int)
    ensures a * l - b * l == l * (a - b)
  {
  }

  lemma OnlyOne(kp: int, down: int, l: nat, r: int)
    requires down < kp && r == kp * l - down * l && r < 2 * l
    ensures r == l
  {
    Difference(kp, down, l);
    OnlyOneTurn(l, kp - down, r);
  }

  lemma OnlyOneTurn(l: nat, t: int, r: int)
    requires t >= 1 && r == l * t && r < 2 * l
    ensures r == l
  {
    if t >= 2 { ProductMonotone(l, 2, t); }
  }

  /** The end of the loop that counts steps down, if k > l. */
  lemma ArriveDown(w: Wheel, i: nat, up: nat, q: nat)
    requires WheelOk(w) && i < w.d && w.l < w.k && Way(w, i, up, w.kp - 1, q)
    ensures q == i + w.l && up + w.kp == w.np
  {
    Multiples(w);
    ClosesOnlyThere(w, i, up + (w.kp - 1), q);
    GapOfMultiples(w.d, w.lp, w.kp);
    hide Pos;
    OneMore(w.kp - 1, w.l);
    if up < w.lp { FewerSteps(up, w.lp, w.k); }
  }

  lemma FewerSteps(up: int, lp: int, k: int)
    requires up < lp && k > 0
    ensures up * k <= lp * k - k
  {
    ProductMonotone(k, up + 1, lp);
    assert k * (up + 1) == k * up + k;
  }

  // ---------- the loops ----------

  /** Turning, on a stretch of an array. */
  ghost predicate TurningAt<T>(w: Wheel, s: seq<T>, t: seq<T>, lo: nat, i: nat, m: nat, hole: nat) {
    lo + w.n <= |s| && SameOutside(s, t, lo, lo + w.n) && Turning(w, s[lo..lo + w.n], t[lo..lo + w.n], i, m, hole)
  }

  ghost predicate TurnedAt<T>(w: Wheel, s: seq<T>, t: seq<T>, lo: nat, i: nat) {
    lo + w.n <= |s| && SameOutside(s, t, lo, lo + w.n) && Turned(w, s[lo..lo + w.n], t[lo..lo + w.n], i)
  }

  lemma StoreInside<T>(s: seq<T>, t: seq<T>, lo: nat, hi: nat, p: nat, v: T)
    requires SameOutside(s, t, lo, hi) && lo + p < hi
    ensures SameOutside(s, t[lo + p := v], lo, hi) && t[lo + p := v][lo..hi] == t[lo..hi][p := v]
  {
  }

  /** *p = *from: the element at place from of the stretch moves into the hole at place p. */
  method Move<T>(a: array<T>, ghost w: Wheel, ghost s: seq<T>, lo: nat, ghost i: nat, ghost m: nat, p: nat, from: nat)
    requires WheelOk(w) && i < w.d && m + 1 < w.np && p == Pos(w, i, m) && from == (p + w.k) % w.n
    requires TurningAt(w, s, a[..], lo, i, m, p)
    modifies a
    ensures p < w.n && from < w.n && TurningAt(w, s, a[..], lo, i, m + 1, from)
  {
    hide WheelOk, Pos, Turning, SameOutside;
    Positive(w);
    ghost var t, hi := a[..], lo + w.n;
    Length(s, t, lo, hi);
    StepCycle(w, s[lo..hi], t[lo..hi], i, m, p, from);
    StoreInside(s, t, lo, hi, p, t[lo + from]);
    a[lo + p] := a[lo + from];
    assert a[..] == t[lo + p := t[lo + from]];
  }

  lemma Length<T>(s: seq<T>, t: seq<T>, lo: nat, hi: nat)
    requires SameOutside(s, t, lo, hi)
    ensures |t| == |s| && lo <= hi <= |s|
  {
  }

  /** The inner loop if k < l. */
  method TurnUp<T>(a: array<T>, ghost w: Wheel, ghost s: seq<T>, lo: nat, i: nat, k: nat, l: nat, d: nat) returns (p: nat)
    requires WheelOk(w) && w.k == k && w.l == l && w.d == d && k < l && i < d && TurningAt(w, s, a[..], lo, i, 0, i)
    modifies a
    ensures p == i + l && p == Pos(w, i, w.np - 1) && TurningAt(w, s, a[..], lo, i, w.np - 1, p)
  {
    hide TurningAt, Way, Pos;
    WayStarts(w, i);
    var zero: nat := 0;
    DivisionUnique(d, w.lp, zero, l);
    p := i;
    ghost var down: nat := 0;
    var j: nat := 0;
    hide WheelOk;
    while j < l / d
      invariant 0 <= j <= l / d == w.lp && Way(w, i, j, down, p) && TurningAt(w, s, a[..], lo, i, j + down, p)
    {
      WayGives(w, i, j, down, p);
      NotThereUp(w, i, j, down, p);
      if p > i + l {
        StepDown(w, i, j, down, p);
        Move(a, w, s, lo, i, j + down, p, p - l);
        down := down + 1;
        p := p - l;
        WayGives(w, i, j, down, p);
      }
      BelowTurn(w, i, j, down, p);
      StepUp(w, i, j, down, p);
      Move(a, w, s, lo, i, j + down, p, p + k);
      p := p + k;
      j := j + 1;
    }
    ArriveUp(w, i, down, p);
    WayGives(w, i, j, down, p);
  }

  lemma WayStarts(w: Wheel, i: nat)
    requires WheelOk(w) && i < w.d
    ensures Way(w, i, 0, 0, i)
  {
    PosZero(w, i);
  }

  lemma WayGives(w: Wheel, i: nat, up: nat, down: nat, q: nat)
    requires Way(w, i, up, down, q)
    ensures q < w.n && up + down < w.np && q == Pos(w, i, up + down)
  {
  }

  lemma NotThereUp(w: Wheel, i: nat, up: nat, down: nat, q: nat)
    requires WheelOk(w) && Way(w, i, up, down, q) && up < w.lp
    ensures q != i + w.l && w.n == w.k + w.l
  {
    NotHomeUp(w, up, down);
    OneMore(down, w.l);
    hide Pos;
  }

  lemma NotThereDown(w: Wheel, i: nat, up: nat, down: nat, q: nat)
    requires WheelOk(w) && Way(w, i, up, down, q) && down + 1 < w.kp
    ensures q != i + w.l && w.n == w.k + w.l
  {
    NotHomeDown(w, down, up);
    OneMore(down, w.l);
    hide Pos;
  }

  /** The inner loop if k > l. */
  method TurnDown<T>(a: array<T>, ghost w: Wheel, ghost s: seq<T>, lo: nat, i: nat, k: nat, l: nat, d: nat) returns (p: nat)
    requires WheelOk(w) && w.k == k && w.l == l && w.d == d && l < k && i < d && TurningAt(w, s, a[..], lo, i, 0, i)
    modifies a
    ensures p == i + l && p == Pos(w, i, w.np - 1) && TurningAt(w, s, a[..], lo, i, w.np - 1, p)
  {
    hide TurningAt, Way, Pos;
    WayStarts(w, i);
    var zero: nat := 0;
    DivisionUnique(d, w.kp, zero, k);
    p := i;
    ghost var up: nat := 0;
    var j: nat := 0;
    hide WheelOk;
    while j < k / d - 1
      invariant 0 <= j <= k / d - 1 == w.kp - 1 && Way(w, i, up, j, p) && TurningAt(w, s, a[..], lo, i, up + j, p)
    {
      WayGives(w, i, up, j, p);
      NotThereDown(w, i, up, j, p);
      if p < l {
        StepUp(w, i, up, j, p);
        Move(a, w, s, lo, i, up + j, p, p + k);
        up := up + 1;
        p := p + k;
        WayGives(w, i, up, j, p);
        NotThereDown(w, i, up, j, p);
      }
      StepDown(w, i, up, j, p);
      Move(a, w, s, lo, i, up + j, p, p - l);
      p := p - l;
      j := j + 1;
    }
    ArriveDown(w, i, up, p);
    WayGives(w, i, up, j, p);
  }

  lemma CycleStarts<T>(w: Wheel, s: seq<T>, t: seq<T>, lo: nat, i: nat)
    requires WheelOk(w) && i < w.d && TurnedAt(w, s, t, lo, i)
    ensures lo + i < |t| == |s| && t[lo + i] == s[lo + i] && TurningAt(w, s, t, lo, i, 0, i)
  {
    var hi := lo + w.n;
    StartCycle(w, s[lo..hi], t[lo..hi], i);
    hide Turning, Turned, WheelOk;
    assert t[lo..hi][i] == s[lo..hi][i];
  }

  lemma CycleEnds<T>(w: Wheel, s: seq<T>, t: seq<T>, lo: nat, i: nat, p: nat)
    requires WheelOk(w) && i < w.d && TurningAt(w, s, t, lo, i, w.np - 1, p) && p == Pos(w, i, w.np - 1)
    ensures i < w.n && p < w.n && lo + i < |s| && lo + p < |t|
    ensures TurnedAt(w, s, t[lo + p := s[lo + i]], lo, i + 1)
  {
    hide Turning, Turned, Pos;
    var hi := lo + w.n;
    EndCycle(w, s[lo..hi], t[lo..hi], i, w.np - 1, p);
    hide WheelOk;
    StoreInside(s, t, lo, hi, p, s[lo + i]);
    assert s[lo..hi][i] == s[lo + i];
  }

  lemma CyclesStart<T>(w: Wheel, s: seq<T>, lo: nat)
    requires w.d > 0 && lo + w.n <= |s|
    ensures TurnedAt(w, s, s, lo, 0)
  {
  }

  /** One round of the outer loop: the cycle through place i. */
  method TurnCycle<T>(a: array<T>, ghost w: Wheel, ghost s: seq<T>, lo: nat, i: nat, k: nat, l: nat, d: nat)
    requires WheelOk(w) && w.k == k && w.l == l && w.d == d && k != l && i < d && TurnedAt(w, s, a[..], lo, i)
    modifies a
    ensures TurnedAt(w, s, a[..], lo, i + 1)
  {
    hide TurningAt, TurnedAt, WheelOk, Pos;
    CycleStarts(w, s, a[..], lo, i);
    var tmp := a[lo + i];
    var p: nat;
    if k < l {
      p := TurnUp(a, w, s, lo, i, k, l, d);
    } else {
      p := TurnDown(a, w, s, lo, i, k, l, d);
    }
    ghost var t := a[..];
    CycleEnds(w, s, t, lo, i, p);
    a[lo + p] := tmp;
    assert a[..] == t[lo + p := tmp];
  }

  lemma CyclesEnd<T>(w: Wheel, s: seq<T>, t: seq<T>, lo: nat, mid: nat, hi: nat)
    requires WheelOk(w) && lo + w.k == mid && lo + w.n == hi && TurnedAt(w, s, t, lo, w.d)
    ensures mid <= hi <= |s| && SameOutside(s, t, lo, hi) && t[lo..hi] == Rotated(s, lo, mid, hi)
  {
    AllTurned(w, s[lo..hi], t[lo..hi]);
    hide WheelOk, Turned;
    assert s[lo..hi][w.k..] == s[mid..hi] && s[lo..hi][..w.k] == s[lo..mid];
  }

  /** swap_ranges of two neighbouring stretches of equal length. */
  method SwapRanges<T>(a: array<T>, lo: nat, mid: nat, hi: nat)
    requires lo <= mid <= hi <= a.Length && mid - lo == hi - mid
    modifies a
    ensures SameOutside(old(a[..]), a[..], lo, hi) && a[lo..hi] == Rotated(old(a[..]), lo, mid, hi)
  {
    hide SameOutside, SwappedUpTo;
    ghost var s := a[..];
    var n := mid - lo;
    var k := 0;
    SwappedNone(s, lo, mid, n);
    while k < n
      invariant 0 <= k <= n && a.Length == |s|
      invariant SwappedUpTo(s, a[..], lo, mid, n, k)
    {
      SwappedOne(s, a[..], lo, mid, n, k);
      Swap(a, lo + k, mid + k);
      k := k + 1;
    }
    ghost var t := a[..];
    SwappedHalves(s, t, lo, mid, hi);
  }

  /** The first k elements of both stretches have changed places. */
  ghost predicate SwappedUpTo<T>(s: seq<T>, t: seq<T>, lo: nat, mid: nat, n: nat, k: nat)
    requires lo + n == mid && k <= n && mid + n <= |s|
  {
    && |t| == |s|
    && forall p :: 0 <= p < |s| ==> t[p] == s[if lo <= p < lo + k then p + n else if mid <= p < mid + k then p - n else p]
  }

  lemma SwappedNone<T>(s: seq<T>, lo: nat, mid: nat, n: nat)
    requires lo + n == mid && mid + n <= |s|
    ensures SwappedUpTo(s, s, lo, mid, n, 0)
  {
  }

  lemma SwappedOne<T>(s: seq<T>, t: seq<T>, lo: nat, mid: nat, n: nat, k: nat)
    requires lo + n == mid && k < n && mid + n <= |s| && SwappedUpTo(s, t, lo, mid, n, k)
    ensures |t| == |s| && SwappedUpTo(s, t[lo + k := t[mid + k]][mid + k := t[lo + k]], lo, mid, n, k + 1)
  {
    assert t[lo + k] == s[lo + k] && t[mid + k] == s[mid + k];
  }

  lemma SwappedHalves<T>(s: seq<T>, t: seq<T>, lo: nat, mid: nat, hi: nat)
    requires lo <= mid <= hi <= |s| && mid - lo == hi - mid && SwappedUpTo(s, t, lo, mid, mid - lo, mid - lo)
    ensures SameOutside(s, t, lo, hi) && t[lo..hi] == Rotated(s, lo, mid, hi)
  {
    SameOutsideFrom(s, t, lo, hi);
    assert t[lo..hi] == t[lo..mid] + t[mid..hi];
    forall p | 0 <= p < mid - lo ensures t[lo..mid][p] == s[mid..hi][p] && t[mid..hi][p] == s[lo..mid][p] {
      assert t[lo + p] == s[lo + p + (mid - lo)] && t[mid + p] == s[mid + p - (mid - lo)];
    }
  }

  /** __rotate for random access. */
  method RotateRandomAccess<T>(a: array<T>, lo: nat, mid: nat, hi: nat) returns (result: nat)
    requires lo <= mid <= hi <= a.Length
    modifies a
    ensures SameOutside(old(a[..]), a[..], lo, hi) && a[lo..hi] == Rotated(old(a[..]), lo, mid, hi)
    ensures result == lo + (hi - mid)
  {
    hide TurnedAt, SameOutside, Gcd;
    ghost var s := a[..];
    SameOutsideSelf(s, lo, hi);
    var n, k := hi - lo, mid - lo;
    var l := n - k;
    result := lo + (hi - mid);
    if k == 0 { return hi; }
    if k == l {
      SwapRanges(a, lo, mid, hi);
      return;
    }
    var d := ComputeGcd(n, k);
    if l == 0 {
      // Every element is a cycle of its own, and each round of the loop puts it back.
      return;
    }
    ghost var w := MakeWheel(n, k);
    hide WheelOk;
    PositiveGcd(w);
    CyclesStart(w, s, lo);
    var i: nat := 0;
    while i < d
      invariant 0 <= i <= d && TurnedAt(w, s, a[..], lo, i)
    {
      TurnCycle(a, w, s, lo, i, k, l, d);
      i := i + 1;
    }
    CyclesEnd(w, s, a[..], lo, mid, hi);
  }

  lemma PositiveGcd(w: Wheel)
    requires WheelOk(w)
    ensures w.d > 0 && w.l == w.n - w.k
  {
  }
}
