/** next_permutation and prev_permutation: steps in lexicographic order, among all arrangements of the same elements. */
module Permutation {
  import opened Ordering
  import opened Ranges

  // ---------- lexicographic order ----------

  /** s and t differ first at place k, where s has the lesser element. */
  ghost predicate LessAt<T>(lt: Less<T>, s: seq<T>, t: seq<T>, k: nat) {
    k < |s| && k < |t| && lt(s[k], t[k]) && forall i :: 0 <= i < k ==> Equiv(lt, s[i], t[i])
  }

  ghost predicate LexLess<T>(lt: Less<T>, s: seq<T>, t: seq<T>) { exists k: nat :: LessAt(lt, s, t, k) }

  /** How many elements of s are equivalent to x. */
  function Count<T>(lt: Less<T>, x: T, s: seq<T>): nat { |Class(lt, x, s)| }

  /** s and t have equally many elements of each kind. */
  ghost predicate SameCounts<T(!new)>(lt: Less<T>, s: seq<T>, t: seq<T>) {
    |s| == |t| && forall x :: Count(lt, x, s) == Count(lt, x, t)
  }

  lemma CountConcat<T>(lt: Less<T>, x: T, s: seq<T>, t: seq<T>)
    ensures Count(lt, x, s + t) == Count(lt, x, s) + Count(lt, x, t)
  {
    ClassConcat(lt, x, s, t);
  }

  lemma CountOne<T>(lt: Less<T>, x: T, y: T)
    ensures Count(lt, x, [y]) == if Equiv(lt, x, y) then 1 else 0
  {
    assert Class(lt, x, [y][..0]) == [];
  }

  lemma {:induction false} CountPointwise<T(!new)>(lt: Less<T>, x: T, s: seq<T>, t: seq<T>)
    requires StrictWeak(lt) && |s| == |t| && forall i :: 0 <= i < |s| ==> Equiv(lt, s[i], t[i])
    ensures Count(lt, x, s) == Count(lt, x, t)
  {
    if s != [] {
      var n := |s| - 1;
      CountPointwise(lt, x, s[..n], t[..n]);
      assert Equiv(lt, s[n], t[n]);
      assert Equiv(lt, x, s[n]) <==> Equiv(lt, x, t[n]);
    }
  }

  lemma CountNone<T>(lt: Less<T>, x: T, s: seq<T>)
    ensures Count(lt, x, s) == 0 <==> forall i :: 0 <= i < |s| ==> !Equiv(lt, x, s[i])
  {
    ClassEmpty(lt, x, s);
  }

  lemma FewerBehind<T(!new)>(lt: Less<T>, r: seq<T>, t: seq<T>, k: nat)
    requires StrictWeak(lt) && Sorted(lt, t) && LessAt(lt, r, t, k)
    ensures Count(lt, r[k], t) < Count(lt, r[k], r)
  {
    var x := r[k];
    assert r == r[..k] + [x] + r[k + 1..] && t == t[..k] + t[k..];
    CountConcat(lt, x, r[..k] + [x], r[k + 1..]);
    CountConcat(lt, x, r[..k], [x]);
    CountConcat(lt, x, t[..k], t[k..]);
    CountPointwise(lt, x, r[..k], t[..k]);
    CountOne(lt, x, x);
    CountNone(lt, x, t[k..]);
    forall i | 0 <= i < |t[k..]| ensures !Equiv(lt, x, t[k..][i]) { assert i == 0 || !lt(t[k + i], t[k]); }
  }

  /** No arrangement is less than the ascending one. */
  lemma AscendingIsLeast<T(!new)>(lt: Less<T>, r: seq<T>, t: seq<T>)
    requires StrictWeak(lt) && Sorted(lt, t) && SameCounts(lt, r, t)
    ensures !LexLess(lt, r, t)
  {
    if k: nat :| LessAt(lt, r, t, k) { FewerBehind(lt, r, t, k); }
  }

  // ---------- the other direction ----------

  function Flip<T>(lt: Less<T>): Less<T> { (x, y) => lt(y, x) }

  lemma FlipStrictWeak<T(!new)>(lt: Less<T>)
    requires StrictWeak(lt)
    ensures StrictWeak(Flip(lt))
  {
  }

  lemma {:induction false} FlipClass<T>(lt: Less<T>, x: T, s: seq<T>)
    ensures Class(Flip(lt), x, s) == Class(lt, x, s)
  {
    if s != [] { FlipClass(lt, x, s[..|s| - 1]); }
  }

  ghost predicate SortedDown<T>(lt: Less<T>, s: seq<T>) { forall i, j :: 0 <= i < j < |s| ==> !lt(s[i], s[j]) }

  lemma DownIsFlipped<T>(lt: Less<T>, s: seq<T>)
    ensures SortedDown(lt, s) <==> Sorted(Flip(lt), s)
  {
  }

  lemma ReversedOrder<T>(lt: Less<T>, s: seq<T>)
    ensures SortedDown(lt, s) ==> Sorted(lt, Reversed(s))
    ensures Sorted(lt, s) ==> SortedDown(lt, Reversed(s))
  {
    var r := Reversed(s);
    hide Reversed;
    forall i | 0 <= i < |s| ensures r[i] == s[|s| - 1 - i] { ReversedAt(s, i); }
  }

  /** No arrangement is greater than the descending one. */
  lemma DescendingIsGreatest<T(!new)>(lt: Less<T>, d: seq<T>, r: seq<T>)
    requires StrictWeak(lt) && SortedDown(lt, d) && SameCounts(lt, d, r)
    ensures !LexLess(lt, d, r)
  {
    if LexLess(lt, d, r) {
      var k: nat :| LessAt(lt, d, r, k);
      assert LessAt(Flip(lt), r, d, k);
      FlipStrictWeak(lt);
      DownIsFlipped(lt, d);
      forall x ensures Count(Flip(lt), x, r) == Count(Flip(lt), x, d) {
        FlipClass(lt, x, r);
        FlipClass(lt, x, d);
        assert Count(lt, x, d) == Count(lt, x, r);
      }
      AscendingIsLeast(Flip(lt), r, d);
    }
  }

  // ---------- the step ----------

  predicate Ascent<T>(lt: Less<T>, s: seq<T>, i: nat) { i + 1 < |s| && lt(s[i], s[i + 1]) }

  /** The last place below k that holds less than its right neighbour, or -1. */
  function Descent<T>(lt: Less<T>, s: seq<T>, k: nat): (i: int)
    requires k == 0 || k < |s|
    ensures -1 <= i < k
  {
    if k == 0 then -1 else if Ascent(lt, s, k - 1) then k - 1 else Descent(lt, s, k - 1)
  }

  /** The last place below k whose element x precedes; there is one at or behind place low. */
  function Partner<T>(lt: Less<T>, s: seq<T>, x: T, low: nat, k: nat): (j: nat)
    requires low < k <= |s| && lt(x, s[low])
    ensures low <= j < k && lt(x, s[j]) && forall i :: j < i < k ==> !lt(x, s[i])
  {
    if lt(x, s[k - 1]) then k - 1 else Partner(lt, s, x, low, k - 1)
  }

  datatype Step<T> = Step(found: bool, result: seq<T>)

  function Next<T>(lt: Less<T>, s: seq<T>): (r: Step<T>)
    ensures |r.result| == |s|
  {
    if |s| < 2 then Step(false, s) else
    var i := Descent(lt, s, |s| - 1);
    if i == -1 then Step(false, Reversed(s)) else
    DescentFound(lt, s, |s| - 1);
    Stepped(s, i, Partner(lt, s, s[i], i + 1, |s|))
  }

  /** Elements i and j swapped and what is behind i reversed. */
  function Stepped<T>(s: seq<T>, i: nat, j: nat): (r: Step<T>)
    requires i < j < |s|
    ensures r.found && |r.result| == |s|
  {
    var t := s[i := s[j]][j := s[i]];
    Step(true, t[..i + 1] + Reversed(t[i + 1..]))
  }

  lemma {:induction false} DescentFound<T>(lt: Less<T>, s: seq<T>, k: nat)
    requires k < |s|
    ensures var i := Descent(lt, s, k);
      && (i >= 0 ==> Ascent(lt, s, i))
      && forall p :: i < p < k ==> !Ascent(lt, s, p)
  {
    if k > 0 && !Ascent(lt, s, k - 1) { DescentFound(lt, s, k - 1); }
  }

  /** Behind the last ascent the elements descend. */
  lemma {:induction false} Descending<T(!new)>(lt: Less<T>, s: seq<T>, p: nat, q: nat)
    requires StrictWeak(lt) && p <= q < |s| && forall i :: p <= i < q ==> !Ascent(lt, s, i)
    ensures !lt(s[p], s[q])
  {
    if p < q {
      Descending(lt, s, p, q - 1);
      assert !Ascent(lt, s, q - 1);
    }
  }

  lemma DescendsFrom<T(!new)>(lt: Less<T>, s: seq<T>, i: nat)
    requires StrictWeak(lt) && i <= |s| && forall p :: i <= p < |s| - 1 ==> !Ascent(lt, s, p)
    ensures SortedDown(lt, s[i..])
  {
    hide Ascent, StrictWeak;
    var d := s[i..];
    forall p, q | 0 <= p < q < |d| ensures !lt(d[p], d[q]) {
      Descending(lt, s, i + p, i + q);
    }
  }

  lemma TailDescends<T(!new)>(lt: Less<T>, s: seq<T>)
    requires StrictWeak(lt) && s != []
    ensures var i := Descent(lt, s, |s| - 1); SortedDown(lt, s[i + 1..])
  {
    hide *;
    DescentFound(lt, s, |s| - 1);
    var i := Descent(lt, s, |s| - 1);
    DescendsFrom(lt, s, i + 1);
  }

  /** next_permutation */
  method NextPermutation<T(!new)>(lt: Less<T>, a: array<T>, first: nat, last: nat) returns (found: bool)
    requires first <= last <= a.Length
    modifies a
    ensures SameOutside(old(a[..]), a[..], first, last)
    ensures found == Next(lt, old(a[first..last])).found && a[first..last] == Next(lt, old(a[first..last])).result
  {
    hide SameOutside, Reversed, Descent;
    ghost var d, s := a[..], a[first..last];
    SameOutsideSelf(d, first, last);
    if first == last || first + 1 == last { return false; }
    var i := last - 1;
    while true
      invariant first < i < last && a[..] == d
      invariant Descent(lt, s, |s| - 1) == Descent(lt, s, i - first)
      decreases i
    {
      var ii := i;
      i := i - 1;
      DescentStep(lt, s, ii - first);
      assert s[i - first] == a[i] && s[ii - first] == a[ii];
      if lt(a[i], a[ii]) {
        SwapAndReverse(lt, a, first, i, last);
        return true;
      }
      if i == first {
        DescentStep(lt, s, 0);
        Reverse(a, first, last);
        return false;
      }
    }
  }

  lemma DescentStep<T>(lt: Less<T>, s: seq<T>, k: nat)
    requires k == 0 || k < |s|
    ensures Descent(lt, s, k) == if k == 0 then -1 else if lt(s[k - 1], s[k]) then k - 1 else Descent(lt, s, k - 1)
  {
  }

  method FindPartner<T>(lt: Less<T>, a: array<T>, i: nat, last: nat) returns (j: nat)
    requires i + 1 < last <= a.Length && lt(a[i], a[i + 1])
    ensures i < j < last && lt(a[i], a[j]) && forall q :: j < q < last ==> !lt(a[i], a[q])
  {
    j := last;
    j := j - 1;
    while !lt(a[i], a[j])
      invariant i < j < last && forall q :: j < q < last ==> !lt(a[i], a[q])
      decreases j
    {
      j := j - 1;
    }
  }

  lemma PartnerIs<T>(lt: Less<T>, s: seq<T>, x: T, low: nat, k: nat, j: nat)
    requires low < k <= |s| && lt(x, s[low]) && low <= j < k && lt(x, s[j]) && forall i :: j < i < k ==> !lt(x, s[i])
    ensures Partner(lt, s, x, low, k) == j
  {
    var p := Partner(lt, s, x, low, k);
    assert p == j || p < j || j < p;
  }

  lemma NextIs<T>(lt: Less<T>, s: seq<T>, i: nat, j: nat)
    requires i < j < |s| && Ascent(lt, s, i) && Descent(lt, s, |s| - 1) == i
    requires lt(s[i], s[j]) && forall q :: j < q < |s| ==> !lt(s[i], s[q])
    ensures Next(lt, s) == Stepped(s, i, j)
  {
    hide Descent, Reversed, Partner, Stepped;
    PartnerIs(lt, s, s[i], i + 1, |s|, j);
  }

  method SwapAndReverse<T>(lt: Less<T>, a: array<T>, first: nat, i: nat, last: nat)
    requires first <= i && i + 1 < last <= a.Length && lt(a[i], a[i + 1])
    requires Descent(lt, a[first..last], last - first - 1) == i - first
    modifies a
    ensures SameOutside(old(a[..]), a[..], first, last)
    ensures a[first..last] == Next(lt, old(a[first..last])).result && Next(lt, old(a[first..last])).found
  {
    hide SameOutside, Reversed, Descent, Next, Stepped;
    ghost var d, s := a[..], a[first..last];
    var j := FindPartner(lt, a, i, last);
    NextIs(lt, s, i - first, j - first);
    Swap(a, i, j);
    ghost var t := a[..];
    Reverse(a, i + 1, last);
    StepInside(d, t, a[..], first, i, j, last);
  }

  lemma StepInside<T>(d: seq<T>, t: seq<T>, u: seq<T>, first: nat, i: nat, j: nat, last: nat)
    requires first <= i < j < last <= |d| && t == d[i := d[j]][j := d[i]]
    requires SameOutside(t, u, i + 1, last) && u[i + 1..last] == Reversed(t[i + 1..last])
    ensures last <= |u| && SameOutside(d, u, first, last)
    ensures u[first..last] == Stepped(d[first..last], i - first, j - first).result
  {
    hide SameOutside, Reversed;
    SwapInside(d, first, last, i, j);
    ReversedTail(d, t, u, first, i + 1, last);
  }

  lemma ReversedTail<T>(d: seq<T>, t: seq<T>, u: seq<T>, first: nat, i: nat, last: nat)
    requires first <= i <= last && SameOutside(d, t, first, last) && SameOutside(t, u, i, last) && u[i..last] == Reversed(t[i..last])
    ensures last <= |t| == |u| && SameOutside(d, u, first, last)
    ensures u[first..last] == t[first..last][..i - first] + Reversed(t[first..last][i - first..])
  {
    hide Reversed;
    SameLength(d, t, first, last);
    Inner(t, u, i, last, first, last);
    SameOutsideTransitive(d, t, u, first, last);
    StretchCut(t, first, i, last);
  }

  // ---------- what the step means ----------

  /** d with x in place of y at m, where x goes behind all greater elements. */
  lemma TailWithX<T(!new)>(lt: Less<T>, d: seq<T>, m: nat, x: T)
    requires StrictWeak(lt) && SortedDown(lt, d) && m < |d| && lt(x, d[m]) && forall q :: m < q < |d| ==> !lt(x, d[q])
    ensures SortedDown(lt, d[m := x])
    ensures forall q :: 0 <= q < m ==> !lt(d[q], d[m])
    ensures lt(d[m := x][|d| - 1], d[m])
  {
    var e := d[m := x];
    forall p, q | 0 <= p < q < |e| ensures !lt(e[p], e[q]) { assert !lt(d[p], d[q]); }
  }

  /** The parts of s and of its successor. */
  lemma NextParts<T(!new)>(lt: Less<T>, s: seq<T>) returns (p: seq<T>, x: T, d: seq<T>, m: nat)
    requires StrictWeak(lt) && Next(lt, s).found
    ensures s == p + [x] + d && SortedDown(lt, d) && m < |d| && lt(x, d[m]) && forall q :: m < q < |d| ==> !lt(x, d[q])
    ensures Next(lt, s).result == p + [d[m]] + Reversed(d[m := x])
  {
    hide Descent, Reversed, Partner, StrictWeak;
    TailDescends(lt, s);
    DescentFound(lt, s, |s| - 1);
    var i := Descent(lt, s, |s| - 1);
    var j := Partner(lt, s, s[i], i + 1, |s|);
    var t := s[i := s[j]][j := s[i]];
    p, x, d, m := s[..i], s[i], s[i + 1..], j - (i + 1);
    assert t[..i + 1] == p + [d[m]] && t[i + 1..] == d[m := x];
  }

  lemma {:induction false} CountReversed<T>(lt: Less<T>, x: T, s: seq<T>)
    ensures Count(lt, x, Reversed(s)) == Count(lt, x, s)
  {
    if s != [] {
      CountReversed(lt, x, s[1..]);
      CountConcat(lt, x, Reversed(s[1..]), [s[0]]);
      CountConcat(lt, x, [s[0]], s[1..]);
      assert s == [s[0]] + s[1..];
    }
  }

  lemma CountTraded<T>(lt: Less<T>, v: T, x: T, d: seq<T>, m: nat)
    requires m < |d|
    ensures Count(lt, v, [x]) + Count(lt, v, d) == Count(lt, v, [d[m]]) + Count(lt, v, d[m := x])
  {
    hide Count;
    var a, y, b := d[..m], d[m], d[m + 1..];
    assert d == a + [y] + b && d[m := x] == a + [x] + b;
    CountConcat(lt, v, a + [y], b);
    CountConcat(lt, v, a, [y]);
    CountConcat(lt, v, a + [x], b);
    CountConcat(lt, v, a, [x]);
  }

  lemma CountThree<T>(lt: Less<T>, v: T, p: seq<T>, x: T, d: seq<T>)
    ensures Count(lt, v, p + [x] + d) == Count(lt, v, p) + Count(lt, v, [x]) + Count(lt, v, d)
  {
    hide Count;
    CountConcat(lt, v, p + [x], d);
    CountConcat(lt, v, p, [x]);
  }

  lemma SharesAtFirst<T>(lt: Less<T>, p: seq<T>, x: T, d: seq<T>, u: seq<T>, k: nat)
    requires LessAt(lt, p + [x] + d, u, k) || LessAt(lt, u, p + [x] + d, k)
    ensures forall i :: 0 <= i < |p| && i < k ==> Equiv(lt, p[i], u[i])
    ensures k < |p| ==> k < |u| && if LessAt(lt, p + [x] + d, u, k) then lt(p[k], u[k]) else lt(u[k], p[k])
  {
    var s := p + [x] + d;
    assert forall i :: 0 <= i < |p| ==> s[i] == p[i];
  }

  /** What lies between p + [x] + d and p + [y] + e agrees with p up to equivalence. */
  lemma BetweenSharesPrefix<T(!new)>(lt: Less<T>, p: seq<T>, x: T, d: seq<T>, y: T, e: seq<T>, u: seq<T>, k1: nat, k2: nat)
    requires StrictWeak(lt)
    requires LessAt(lt, p + [x] + d, u, k1) && LessAt(lt, u, p + [y] + e, k2)
    ensures k1 >= |p| && k2 >= |p| && forall i :: 0 <= i < |p| ==> Equiv(lt, u[i], p[i])
  {
    SharesAtFirst(lt, p, x, d, u, k1);
    SharesAtFirst(lt, p, y, e, u, k2);
  }

  lemma TailLess<T>(lt: Less<T>, p: seq<T>, x: T, d: seq<T>, u: seq<T>, k: nat)
    requires |u| == |p| + 1 + |d|
    ensures k > |p| && LessAt(lt, p + [x] + d, u, k) ==> Equiv(lt, x, u[|p|]) && LexLess(lt, d, u[|p| + 1..])
    ensures k > |p| && LessAt(lt, u, p + [x] + d, k) ==> Equiv(lt, u[|p|], x) && LexLess(lt, u[|p| + 1..], d)
  {
    var s, r := p + [x] + d, u[|p| + 1..];
    if k > |p| {
      var c: nat := k - |p| - 1;
      assert s[|p|] == x && forall i :: 0 <= i < |d| ==> s[|p| + 1 + i] == d[i] && u[|p| + 1 + i] == r[i];
      if LessAt(lt, s, u, k) { assert LessAt(lt, d, r, c); }
      if LessAt(lt, u, s, k) { assert LessAt(lt, r, d, c); }
    }
  }

  lemma SplitCount<T(!new)>(lt: Less<T>, p: seq<T>, x: T, d: seq<T>, u: seq<T>)
    requires StrictWeak(lt) && SameCounts(lt, p + [x] + d, u)
    requires forall i :: 0 <= i < |p| ==> Equiv(lt, u[i], p[i])
    ensures var w, v := u[|p|], u[|p| + 1..];
      forall z :: Count(lt, z, [x]) + Count(lt, z, d) == Count(lt, z, [w]) + Count(lt, z, v)
  {
    hide Count;
    var w, v := u[|p|], u[|p| + 1..];
    forall z ensures Count(lt, z, [x]) + Count(lt, z, d) == Count(lt, z, [w]) + Count(lt, z, v) {
      CountThree(lt, z, p, x, d);
      CountThree(lt, z, u[..|p|], w, v);
      CountPointwise(lt, z, u[..|p|], p);
      assert u == u[..|p|] + [w] + v;
      assert Count(lt, z, p + [x] + d) == Count(lt, z, u);
    }
  }

  lemma CountAlike<T(!new)>(lt: Less<T>, z: T, x: T, y: T)
    requires StrictWeak(lt) && Equiv(lt, x, y)
    ensures Count(lt, z, [x]) == Count(lt, z, [y])
  {
    CountPointwise(lt, z, [x], [y]);
  }

  /** Case 1: u agrees with s on p and x; its tail would exceed the descending one. */
  lemma NotAboveDescending<T(!new)>(lt: Less<T>, x: T, d: seq<T>, w: T, v: seq<T>)
    requires StrictWeak(lt) && SortedDown(lt, d) && |v| == |d| && Equiv(lt, x, w)
    requires forall z :: Count(lt, z, [x]) + Count(lt, z, d) == Count(lt, z, [w]) + Count(lt, z, v)
    ensures !LexLess(lt, d, v)
  {
    hide Count, LexLess;
    forall z ensures Count(lt, z, d) == Count(lt, z, v) { CountAlike(lt, z, x, w); }
    DescendingIsGreatest(lt, d, v);
  }

  /** Case 2: u agrees with t on p and y; its tail would be below the ascending one. */
  lemma NotBelowAscending<T(!new)>(lt: Less<T>, x: T, d: seq<T>, m: nat, w: T, v: seq<T>)
    requires StrictWeak(lt) && m < |d| && SortedDown(lt, d[m := x]) && |v| == |d| && Equiv(lt, w, d[m])
    requires forall z :: Count(lt, z, [x]) + Count(lt, z, d) == Count(lt, z, [w]) + Count(lt, z, v)
    ensures !LexLess(lt, v, Reversed(d[m := x]))
  {
    hide Count, LexLess, Reversed;
    var e := Reversed(d[m := x]);
    forall z ensures Count(lt, z, v) == Count(lt, z, e) {
      CountAlike(lt, z, w, d[m]);
      CountTraded(lt, z, x, d, m);
      CountReversed(lt, z, d[m := x]);
    }
    ReversedOrder(lt, d[m := x]);
    AscendingIsLeast(lt, v, e);
  }

  lemma SomewhereBehind<T(!new)>(lt: Less<T>, x: T, d: seq<T>, w: T, v: seq<T>) returns (q: nat)
    requires StrictWeak(lt) && !Equiv(lt, w, x)
    requires forall z :: Count(lt, z, [x]) + Count(lt, z, d) == Count(lt, z, [w]) + Count(lt, z, v)
    ensures q < |d| && Equiv(lt, w, d[q])
  {
    hide Count;
    CountOne(lt, w, x);
    CountOne(lt, w, w);
    CountNone(lt, w, d);
    assert Count(lt, w, [x]) + Count(lt, w, d) == Count(lt, w, [w]) + Count(lt, w, v);
    q :| 0 <= q < |d| && Equiv(lt, w, d[q]);
  }

  /** Case 3: no element behind x lies strictly between x and d[m]. */
  lemma NothingInBetween<T(!new)>(lt: Less<T>, x: T, d: seq<T>, m: nat, w: T, v: seq<T>)
    requires StrictWeak(lt) && SortedDown(lt, d) && m < |d| && lt(x, d[m]) && forall q :: m < q < |d| ==> !lt(x, d[q])
    requires forall z :: Count(lt, z, [x]) + Count(lt, z, d) == Count(lt, z, [w]) + Count(lt, z, v)
    ensures !(lt(x, w) && lt(w, d[m]))
  {
    if lt(x, w) && lt(w, d[m]) {
      var _ := SomewhereBehind(lt, x, d, w, v);
    }
  }

  /** The successor is greater, and no arrangement of the same elements lies strictly between the two. */
  lemma NothingBetween<T(!new)>(lt: Less<T>, s: seq<T>, u: seq<T>)
    requires StrictWeak(lt) && Next(lt, s).found && SameCounts(lt, s, u)
    ensures !(LexLess(lt, s, u) && LexLess(lt, u, Next(lt, s).result))
  {
    hide Next, Count, LessAt, Reversed, StrictWeak, Equiv;
    if LexLess(lt, s, u) && LexLess(lt, u, Next(lt, s).result) {
      var p, x, d, m := NextParts(lt, s);
      var e := Reversed(d[m := x]);
      var k1: nat :| LessAt(lt, s, u, k1);
      var k2: nat :| LessAt(lt, u, Next(lt, s).result, k2);
      BetweenSharesPrefix(lt, p, x, d, d[m], e, u, k1, k2);
      SplitCount(lt, p, x, d, u);
      TailWithX(lt, d, m, x);
      NothingAfterPrefix(lt, p, x, d, m, u, k1, k2);
    }
  }

  lemma AtPrefix<T>(lt: Less<T>, p: seq<T>, x: T, d: seq<T>, u: seq<T>)
    ensures LessAt(lt, p + [x] + d, u, |p|) ==> lt(x, u[|p|])
    ensures LessAt(lt, u, p + [x] + d, |p|) ==> lt(u[|p|], x)
  {
  }

  lemma NothingAfterPrefix<T(!new)>(lt: Less<T>, p: seq<T>, x: T, d: seq<T>, m: nat, u: seq<T>, k1: nat, k2: nat)
    requires StrictWeak(lt) && |u| == |p| + 1 + |d| && k1 >= |p| && k2 >= |p|
    requires SortedDown(lt, d) && m < |d| && lt(x, d[m]) && forall q :: m < q < |d| ==> !lt(x, d[q])
    requires SortedDown(lt, d[m := x])
    requires forall z :: Count(lt, z, [x]) + Count(lt, z, d) == Count(lt, z, [u[|p|]]) + Count(lt, z, u[|p| + 1..])
    ensures !(LessAt(lt, p + [x] + d, u, k1) && LessAt(lt, u, p + [d[m]] + Reversed(d[m := x]), k2))
  {
    hide Count, Reversed, LexLess, StrictWeak, SortedDown, LessAt;
    var w, v, e := u[|p|], u[|p| + 1..], Reversed(d[m := x]);
    if LessAt(lt, p + [x] + d, u, k1) && LessAt(lt, u, p + [d[m]] + e, k2) {
      TailLess(lt, p, x, d, u, k1);
      TailLess(lt, p, d[m], e, u, k2);
      AtPrefix(lt, p, x, d, u);
      AtPrefix(lt, p, d[m], e, u);
      NothingInBetween(lt, x, d, m, w, v);
      if k1 > |p| {
        NotAboveDescending(lt, x, d, w, v);
      } else if k2 > |p| {
        NotBelowAscending(lt, x, d, m, w, v);
      }
    }
  }

  lemma NextGreater<T(!new)>(lt: Less<T>, s: seq<T>)
    requires StrictWeak(lt) && Next(lt, s).found
    ensures LexLess(lt, s, Next(lt, s).result)
  {
    hide Next, Reversed;
    var p, x, d, m := NextParts(lt, s);
    var e := Reversed(d[m := x]);
    ghost var t := p + [d[m]] + e;
    assert s[|p|] == x && t[|p|] == d[m];
    assert LessAt(lt, s, t, |p|);
  }

  lemma ReversedShort<T>(s: seq<T>)
    requires |s| < 2
    ensures Reversed(s) == s
  {
  }

  lemma FoundUnlessDescending<T(!new)>(lt: Less<T>, s: seq<T>)
    requires StrictWeak(lt)
    ensures Next(lt, s).found <==> !SortedDown(lt, s)
    ensures !Next(lt, s).found ==> Next(lt, s).result == Reversed(s)
  {
    hide Reversed, Partner, Descent;
    if |s| < 2 {
      ReversedShort(s);
    } else {
      DescentFound(lt, s, |s| - 1);
      TailDescends(lt, s);
      assert s[0..] == s;
    }
  }

  /** No step is found exactly from the greatest arrangement; the result is then the least one. */
  lemma LastStepWrapsAround<T(!new)>(lt: Less<T>, s: seq<T>, u: seq<T>)
    requires StrictWeak(lt) && !Next(lt, s).found && SameCounts(lt, s, u)
    ensures !LexLess(lt, s, u)
    ensures Sorted(lt, Next(lt, s).result) && !LexLess(lt, u, Next(lt, s).result)
  {
    hide Reversed, Count, LexLess, Next;
    FoundUnlessDescending(lt, s);
    DescendingIsGreatest(lt, s, u);
    ReversedOrder(lt, s);
    var t := Reversed(s);
    forall x ensures Count(lt, x, u) == Count(lt, x, t) {
      CountReversed(lt, x, s);
      assert Count(lt, x, s) == Count(lt, x, u);
    }
    AscendingIsLeast(lt, u, t);
  }

  lemma {:induction false} DescentIs<T>(lt: Less<T>, s: seq<T>, i: nat, k: nat)
    requires i < k < |s| && Ascent(lt, s, i) && forall q :: i < q < k ==> !Ascent(lt, s, q)
    ensures Descent(lt, s, k) == i
  {
    if i < k - 1 { DescentIs(lt, s, i, k - 1); }
  }

  /** The step on p + [x] + d, where d descends and x precedes the elements of d up to place m. */
  lemma NextOfParts<T(!new)>(lt: Less<T>, p: seq<T>, x: T, d: seq<T>, m: nat)
    requires StrictWeak(lt) && SortedDown(lt, d) && m < |d| && lt(x, d[m]) && forall q :: m < q < |d| ==> !lt(x, d[q])
    ensures Next(lt, p + [x] + d) == Step(true, p + [d[m]] + Reversed(d[m := x]))
  {
    hide Descent, Reversed, Partner, Next;
    hide Stepped;
    var s := p + [x] + d;
    var i := |p|;
    assert s[i] == x && forall q :: 0 <= q < |d| ==> s[i + 1 + q] == d[q];
    assert m == 0 || !lt(d[0], d[m]);
    forall q | i < q < |s| - 1 ensures !Ascent(lt, s, q) { assert !lt(d[q - i - 1], d[q - i]); }
    DescentIs(lt, s, i, |s| - 1);
    NextIs(lt, s, i, i + 1 + m);
    SteppedParts(p, x, d, m);
  }

  lemma SteppedParts<T>(p: seq<T>, x: T, d: seq<T>, m: nat)
    requires m < |d|
    ensures Stepped(p + [x] + d, |p|, |p| + 1 + m) == Step(true, p + [d[m]] + Reversed(d[m := x]))
  {
    hide Reversed;
    var s, i := p + [x] + d, |p|;
    var t := s[i := s[i + 1 + m]][i + 1 + m := s[i]];
    assert t[..i + 1] == p + [d[m]] && t[i + 1..] == d[m := x];
  }

  lemma ReversedUpdate<T>(d: seq<T>, m: nat, x: T)
    requires m < |d|
    ensures Reversed(d[m := x]) == Reversed(d)[|d| - 1 - m := x]
  {
    hide Reversed;
    var u, r := d[m := x], Reversed(d)[|d| - 1 - m := x];
    forall k | 0 <= k < |d| ensures r[k] == u[|d| - 1 - k] { ReversedAt(d, k); }
    ReversedMeans(u, r);
  }

  /** The tail of the successor, seen from the other direction. */
  lemma TailFlipped<T(!new)>(lt: Less<T>, d: seq<T>, m: nat, x: T) returns (e: seq<T>, j: nat)
    requires StrictWeak(lt) && SortedDown(lt, d) && m < |d| && lt(x, d[m]) && forall q :: m < q < |d| ==> !lt(x, d[q])
    ensures e == Reversed(d[m := x]) && SortedDown(Flip(lt), e)
    ensures j < |d| == |e| && e[j] == x && forall q :: j < q < |d| ==> !Flip(lt)(d[m], e[q])
    ensures Reversed(e[j := d[m]]) == d
  {
    hide Reversed;
    var d' := d[m := x];
    e, j := Reversed(d'), |d| - 1 - m;
    TailWithX(lt, d, m, x);
    ReversedOrder(lt, d');
    forall q | 0 <= q < |d| ensures e[q] == d'[|d| - 1 - q] { ReversedAt(d', q); }
    ReversedUpdate(d', m, d[m]);
    assert d'[m := d[m]] == d;
    ReversedTwice(d);
  }

  /** prev_permutation, as the step of the flipped order, undoes next_permutation, wrapping around included. */
  lemma PrevUndoesNext<T(!new)>(lt: Less<T>, s: seq<T>)
    requires StrictWeak(lt)
    ensures Next(Flip(lt), Next(lt, s).result) == Step(Next(lt, s).found, s)
  {
    hide Reversed, Next, Flip, StrictWeak, SortedDown;
    FlipStrictWeak(lt);
    if Next(lt, s).found {
      var p, x, d, m := NextParts(lt, s);
      var e, j := TailFlipped(lt, d, m, x);
      FlipAt(lt, d[m], x);
      NextOfParts(Flip(lt), p, d[m], e, j);
    } else {
      FoundUnlessDescending(lt, s);
      FoundUnlessDescending(Flip(lt), Reversed(s));
      ReversedOrder(lt, s);
      FlippedDown(lt, Reversed(s));
      ReversedTwice(s);
    }
  }

  lemma FlipAt<T>(lt: Less<T>, x: T, y: T)
    ensures Flip(lt)(x, y) == lt(y, x)
  {
  }

  lemma FlippedDown<T>(lt: Less<T>, s: seq<T>)
    ensures SortedDown(Flip(lt), s) <==> Sorted(lt, s)
  {
  }

  /** The step only rearranges. */
  lemma NextPermutes<T(!new)>(lt: Less<T>, s: seq<T>)
    requires StrictWeak(lt)
    ensures multiset(Next(lt, s).result) == multiset(s)
  {
    hide Reversed, Next;
    if Next(lt, s).found {
      var p, x, d, m := NextParts(lt, s);
      ReversedPermutes(d[m := x]);
      TradedBag(p, x, d, m);
    } else {
      FoundUnlessDescending(lt, s);
      ReversedPermutes(s);
    }
  }

  lemma TradedBag<T>(p: seq<T>, x: T, d: seq<T>, m: nat)
    requires m < |d|
    ensures multiset(p + [x] + d) == multiset(p) + multiset{x} + multiset(d)
    ensures multiset(d[m := x]) + multiset{d[m]} == multiset(d) + multiset{x}
    ensures forall r: seq<T> :: multiset(r) == multiset(d[m := x]) ==> multiset(p + [d[m]] + r) == multiset(p + [x] + d)
  {
    assert d == d[..m] + [d[m]] + d[m + 1..];
    assert d[m := x] == d[..m] + [x] + d[m + 1..];
  }

  lemma {:induction false} ReversedPermutes<T>(s: seq<T>)
    ensures multiset(Reversed(s)) == multiset(s)
  {
    if s != [] {
      ReversedPermutes(s[1..]);
      assert s == [s[0]] + s[1..];
    }
  }

  // ---------- permutations proper ----------

  /** Rearranging leaves all counts as they are. */
  lemma {:induction false} BagCounts<T>(lt: Less<T>, x: T, s: seq<T>, u: seq<T>)
    requires multiset(s) == multiset(u)
    ensures |s| == |u| && Count(lt, x, s) == Count(lt, x, u)
    decreases |s|
  {
    hide Count;
    SameBag(u, s);
    if s != [] {
      var n := |s| - 1;
      assert s[n] in s;
      var k :| 0 <= k < |u| && u[k] == s[n];
      TakenOut(s, u, n, k);
      BagCounts(lt, x, s[..n], u[..k] + u[k + 1..]);
      CountThree(lt, x, u[..k], u[k], u[k + 1..]);
      CountConcat(lt, x, u[..k], u[k + 1..]);
      CountConcat(lt, x, s[..n], [s[n]]);
    } else {
      assert u == [];
    }
  }

  lemma TakenOut<T>(s: seq<T>, u: seq<T>, n: nat, k: nat)
    requires n + 1 == |s| && k < |u| && u[k] == s[n] && multiset(s) == multiset(u)
    ensures s == s[..n] + [s[n]] && u == u[..k] + [u[k]] + u[k + 1..] && multiset(s[..n]) == multiset(u[..k] + u[k + 1..])
  {
    assert s == s[..n] + [s[n]] && u == u[..k] + [u[k]] + u[k + 1..];
    assert multiset(u) == multiset(u[..k]) + multiset{u[k]} + multiset(u[k + 1..]);
    assert multiset(s) == multiset(s[..n]) + multiset{s[n]};
    assert multiset(u[..k] + u[k + 1..]) == multiset(u[..k]) + multiset(u[k + 1..]);
    forall y ensures multiset(s[..n])[y] == multiset(u[..k] + u[k + 1..])[y] { assert multiset(s)[y] == multiset(u)[y]; }
  }

  /** next_permutation: when it says true, it has gone to the next permutation in the order, skipping none ... */
  lemma NextIsSuccessor<T(!new)>(lt: Less<T>, s: seq<T>, u: seq<T>)
    requires StrictWeak(lt) && Next(lt, s).found && multiset(u) == multiset(s)
    ensures multiset(Next(lt, s).result) == multiset(s) && LexLess(lt, s, Next(lt, s).result)
    ensures !(LexLess(lt, s, u) && LexLess(lt, u, Next(lt, s).result))
  {
    hide Next, Count, LexLess;
    NextPermutes(lt, s);
    NextGreater(lt, s);
    SameBag(s, u);
    forall x ensures Count(lt, x, s) == Count(lt, x, u) { BagCounts(lt, x, s, u); }
    NothingBetween(lt, s, u);
  }

  /** ... and when it says false, there was no greater one, and it has gone to the least. */
  lemma NextWrapsAround<T(!new)>(lt: Less<T>, s: seq<T>, u: seq<T>)
    requires StrictWeak(lt) && !Next(lt, s).found && multiset(u) == multiset(s)
    ensures multiset(Next(lt, s).result) == multiset(s) && Sorted(lt, Next(lt, s).result)
    ensures !LexLess(lt, s, u) && !LexLess(lt, u, Next(lt, s).result)
  {
    hide Next, Count, LexLess;
    NextPermutes(lt, s);
    SameBag(s, u);
    forall x ensures Count(lt, x, s) == Count(lt, x, u) { BagCounts(lt, x, s, u); }
    LastStepWrapsAround(lt, s, u);
  }

  /** prev_permutation: the same loops with the comparison the other way round. */
  method PrevPermutation<T(!new)>(lt: Less<T>, a: array<T>, first: nat, last: nat) returns (found: bool)
    requires first <= last <= a.Length
    modifies a
    ensures SameOutside(old(a[..]), a[..], first, last)
    ensures found == Next(Flip(lt), old(a[first..last])).found && a[first..last] == Next(Flip(lt), old(a[first..last])).result
  {
    found := NextPermutation(Flip(lt), a, first, last);
  }

  /** One after the other they leave the array as it was. */
  method StepAndBack<T(!new)>(lt: Less<T>, a: array<T>, first: nat, last: nat)
    requires StrictWeak(lt) && first <= last <= a.Length
    modifies a
    ensures a[..] == old(a[..])
  {
    hide SameOutside, Next, Flip, StrictWeak;
    ghost var d, s := a[..], a[first..last];
    PrevUndoesNext(lt, s);
    var _ := NextPermutation(lt, a, first, last);
    ghost var t := a[..];
    var _ := PrevPermutation(lt, a, first, last);
    SameOutsideTransitive(d, t, a[..], first, last);
    Restored(d, a[..], first, last);
  }

  lemma Restored<T>(s: seq<T>, t: seq<T>, lo: nat, hi: nat)
    requires lo <= hi <= |s| && SameOutside(s, t, lo, hi) && hi <= |t| && t[lo..hi] == s[lo..hi]
    ensures t == s
  {
    SameLength(s, t, lo, hi);
    assert s == s[..lo] + s[lo..hi] + s[hi..] && t == t[..lo] + t[lo..hi] + t[hi..];
  }
}
