/** Stretches of arrays: moving, swapping and reversing them in place. */
module Ranges {

  /** s and t differ at most at lo, ..., hi - 1. */
  ghost predicate SameOutside<T>(s: seq<T>, t: seq<T>, lo: nat, hi: nat) {
    lo <= hi <= |s| && |t| == |s| && s[..lo] == t[..lo] && s[hi..] == t[hi..]
  }

  lemma SameOutsideSelf<T>(s: seq<T>, lo: nat, hi: nat)
    requires lo <= hi <= |s|
    ensures SameOutside(s, s, lo, hi)
  {
  }

  lemma SameOutsideFrom<T>(s: seq<T>, t: seq<T>, lo: nat, hi: nat)
    requires lo <= hi <= |s| && |t| == |s|
    requires forall k :: 0 <= k < |s| && !(lo <= k < hi) ==> t[k] == s[k]
    ensures SameOutside(s, t, lo, hi)
  {
  }

  lemma SameOutsideAt<T>(s: seq<T>, t: seq<T>, lo: nat, hi: nat, k: nat)
    requires SameOutside(s, t, lo, hi) && k < |s| && !(lo <= k < hi)
    ensures t[k] == s[k]
  {
    if k < lo { assert s[..lo][k] == t[..lo][k]; } else { assert s[hi..][k - hi] == t[hi..][k - hi]; }
  }

  lemma SameOutsideTransitive<T>(s: seq<T>, t: seq<T>, u: seq<T>, lo: nat, hi: nat)
    requires SameOutside(s, t, lo, hi) && SameOutside(t, u, lo, hi)
    ensures SameOutside(s, u, lo, hi)
  {
  }

  lemma SameOutsideWider<T>(s: seq<T>, t: seq<T>, lo: nat, hi: nat, lo': nat, hi': nat)
    requires SameOutside(s, t, lo, hi) && lo' <= lo && hi <= hi' <= |s|
    ensures SameOutside(s, t, lo', hi')
  {
    assert s[..lo'] == s[..lo][..lo'] && t[..lo'] == t[..lo][..lo'];
    assert s[hi'..] == s[hi..][hi' - hi..] && t[hi'..] == t[hi..][hi' - hi..];
  }

  lemma Slices<T>(s: seq<T>, lo: nat, hi: nat, i: nat, j: nat)
    requires lo <= i <= j <= hi <= |s|
    ensures s[lo..hi][i - lo..j - lo] == s[i..j]
  {
    var t := s[lo..hi][i - lo..j - lo];
    assert |t| == |s[i..j]|;
    forall k | 0 <= k < |t| ensures t[k] == s[i..j][k] { assert t[k] == s[lo..hi][i - lo + k]; }
  }

  /** What a stretch becomes when only a part of it changes. */
  lemma Inner<T>(s: seq<T>, t: seq<T>, lo: nat, hi: nat, lo': nat, hi': nat)
    requires SameOutside(s, t, lo, hi) && lo' <= lo && hi <= hi' <= |s|
    ensures SameOutside(s, t, lo', hi') && t[lo'..hi'] == s[lo'..lo] + t[lo..hi] + s[hi..hi']
    ensures s[lo'..hi'] == s[lo'..lo] + s[lo..hi] + s[hi..hi']
  {
    SameOutsideWider(s, t, lo, hi, lo', hi');
    assert s[lo'..lo] == s[..lo][lo'..] && t[lo'..lo] == t[..lo][lo'..];
    assert s[hi..hi'] == s[hi..][..hi' - hi] && t[hi..hi'] == t[hi..][..hi' - hi];
  }

  lemma Behind<T>(s: seq<T>, t: seq<T>, lo: nat, mid: nat, hi: nat)
    requires SameOutside(s, t, lo, mid) && mid <= hi <= |s|
    ensures t[mid..hi] == s[mid..hi]
  {
    assert t[mid..hi] == t[mid..][..hi - mid] && s[mid..hi] == s[mid..][..hi - mid];
  }

  lemma StretchCut<T>(s: seq<T>, lo: nat, i: nat, hi: nat)
    requires lo <= i <= hi <= |s|
    ensures s[lo..hi] == s[lo..i] + s[i..hi] && s[lo..hi][..i - lo] == s[lo..i] && s[lo..hi][i - lo..] == s[i..hi]
  {
  }

  /** Two neighbouring stretches change one after the other. */
  lemma AppendStretch<T>(d: seq<T>, t: seq<T>, u: seq<T>, at: nat, m: nat, e: nat)
    requires SameOutside(d, t, at, m) && SameOutside(t, u, m, e)
    ensures at <= m <= e <= |d| == |t| == |u| && SameOutside(d, u, at, e) && u[at..e] == t[at..m] + u[m..e]
  {
    assert u[..m] == t[..m];
    assert u[..at] == u[..m][..at] && t[..at] == t[..m][..at];
    assert u[at..m] == u[..m][at..] && t[at..m] == t[..m][at..];
    assert d[e..] == d[m..][e - m..] && t[e..] == t[m..][e - m..];
  }

  lemma PrependStretch<T>(d: seq<T>, t: seq<T>, u: seq<T>, at: nat, m: nat, e: nat)
    requires SameOutside(d, t, m, e) && SameOutside(t, u, at, m)
    ensures at <= m <= e <= |d| == |t| == |u| && SameOutside(d, u, at, e) && u[at..e] == u[at..m] + t[m..e]
  {
    assert u[m..] == t[m..];
    assert u[e..] == u[m..][e - m..] && t[e..] == t[m..][e - m..];
    assert u[m..e] == u[m..][..e - m] && t[m..e] == t[m..][..e - m];
    assert d[..at] == d[..m][..at] && t[..at] == t[..m][..at];
  }

  lemma NothingChanged<T>(t: seq<T>, u: seq<T>, at: nat)
    requires SameOutside(t, u, at, at)
    ensures t == u
  {
    assert t == t[..at] + t[at..] && u == u[..at] + u[at..];
  }

  lemma SwapConserves<T>(g: seq<T>, p: nat, q: nat)
    requires p < |g| && q < |g|
    ensures multiset(g[p := g[q]][q := g[p]]) == multiset(g)
  {
  }

  lemma SwapInside<T>(s: seq<T>, lo: nat, hi: nat, i: nat, j: nat)
    requires lo <= i < hi <= |s| && lo <= j < hi
    ensures var t := s[i := s[j]][j := s[i]];
      && SameOutside(s, t, lo, hi)
      && t[lo..hi] == s[lo..hi][i - lo := s[lo..hi][j - lo]][j - lo := s[lo..hi][i - lo]]
  {
  }

  lemma SameLength<T>(s: seq<T>, t: seq<T>, lo: nat, hi: nat)
    requires SameOutside(s, t, lo, hi)
    ensures lo <= hi <= |s| == |t|
  {
  }

  method Store<T>(a: array<T>, i: nat, v: T)
    requires i < a.Length
    modifies a
    ensures a[..] == old(a[..])[i := v]
  {
    a[i] := v;
  }

  /** iter_swap */
  method Swap<T>(a: array<T>, i: nat, j: nat)
    requires i < a.Length && j < a.Length
    modifies a
    ensures a[..] == old(a[..])[i := old(a[j])][j := old(a[i])]
  {
    a[i], a[j] := a[j], a[i];
  }

  function Reversed<T>(s: seq<T>): (r: seq<T>)
    ensures |r| == |s|
  {
    if s == [] then [] else Reversed(s[1..]) + [s[0]]
  }

  lemma {:induction false} ReversedAt<T>(s: seq<T>, k: nat)
    requires k < |s|
    ensures Reversed(s)[k] == s[|s| - 1 - k]
  {
    if k < |s| - 1 { ReversedAt(s[1..], k); }
  }

  lemma ReversedMeans<T>(s: seq<T>, t: seq<T>)
    requires |t| == |s| && forall k :: 0 <= k < |s| ==> t[k] == s[|s| - 1 - k]
    ensures t == Reversed(s)
  {
    forall k | 0 <= k < |s| ensures t[k] == Reversed(s)[k] { ReversedAt(s, k); }
  }

  lemma {:induction false} ReversedFirst<T>(s: seq<T>)
    requires s != []
    ensures Reversed(s) == [s[|s| - 1]] + Reversed(s[..|s| - 1])
  {
    if |s| > 1 {
      ReversedFirst(s[1..]);
      assert s[1..][..|s| - 2] == s[..|s| - 1][1..];
    }
  }

  lemma ReversedTwice<T>(s: seq<T>)
    ensures Reversed(Reversed(s)) == s
  {
    forall k | 0 <= k < |s| ensures Reversed(Reversed(s))[k] == s[k] {
      ReversedAt(Reversed(s), k);
      ReversedAt(s, |s| - 1 - k);
    }
  }

  lemma ReversedStretch<T>(s: seq<T>, t: seq<T>, lo: nat, hi: nat)
    requires lo <= hi <= |s| && |t| == |s|
    requires forall k :: 0 <= k < |s| ==> t[k] == s[if lo <= k < hi then lo + hi - 1 - k else k]
    ensures SameOutside(s, t, lo, hi) && t[lo..hi] == Reversed(s[lo..hi])
  {
    SameOutsideFrom(s, t, lo, hi);
    hide SameOutside;
    var x, y := s[lo..hi], t[lo..hi];
    forall k | 0 <= k < |x| ensures y[k] == x[|x| - 1 - k] { assert y[k] == t[lo + k] && x[|x| - 1 - k] == s[hi - 1 - k]; }
    ReversedMeans(x, y);
  }

  /** __reverse for bidirectional iterators. */
  method Reverse<T>(a: array<T>, lo: nat, hi: nat)
    requires lo <= hi <= a.Length
    modifies a
    ensures SameOutside(old(a[..]), a[..], lo, hi) && a[lo..hi] == Reversed(old(a[lo..hi]))
  {
    hide SameOutside, Reversed;
    ghost var s := a[..];
    var first, last := lo, hi;
    while true
      invariant lo <= first <= last <= hi && first - lo == hi - last
      invariant forall k :: 0 <= k < |s| ==>
        a[k] == s[if lo <= k < first || last <= k < hi then lo + hi - 1 - k else k]
      decreases last - first
    {
      if first == last { break; }
      last := last - 1;
      if first == last { break; }
      a[first], a[last] := a[last], a[first];
      first := first + 1;
    }
    ghost var t := a[..];
    ReversedStretch(s, t, lo, hi);
  }

  lemma Copied<T>(s: seq<T>, from: nat, to: nat, d: seq<T>, t: seq<T>, at: nat, end: nat)
    requires from <= to <= |s| && at <= end <= |d| && end - at == to - from && |t| == |d|
    requires forall i :: 0 <= i < |d| ==> t[i] == if at <= i < end then s[from + (i - at)] else d[i]
    ensures SameOutside(d, t, at, end) && t[at..end] == s[from..to]
  {
    SameOutsideFrom(d, t, at, end);
    hide SameOutside;
    forall k | 0 <= k < end - at ensures t[at..end][k] == s[from..to][k] { assert t[at + k] == s[from + (at + k - at)]; }
  }

  /** copy, onto another array or towards the front of the same one. */
  method Copy<T>(src: array<T>, from: nat, to: nat, dst: array<T>, at: nat) returns (end: nat)
    requires from <= to <= src.Length && at + (to - from) <= dst.Length && (src == dst ==> at <= from)
    modifies dst
    ensures end == at + (to - from)
    ensures SameOutside(old(dst[..]), dst[..], at, end) && dst[at..end] == old(src[from..to])
  {
    hide SameOutside;
    ghost var s, d := src[..], dst[..];
    var k: nat := from;
    end := at;
    while k < to
      invariant from <= k <= to && end == at + (k - from)
      invariant forall i :: 0 <= i < |d| ==> dst[i] == if at <= i < end then s[from + (i - at)] else d[i]
      invariant forall i :: k <= i < to ==> src[i] == s[i]
    {
      dst[end] := src[k];
      end := end + 1;
      k := k + 1;
    }
    ghost var t := dst[..];
    Copied(s, from, to, d, t, at, end);
  }

  /** copy_backward, onto another array or towards the back of the same one. */
  method CopyBackward<T>(src: array<T>, from: nat, to: nat, dst: array<T>, end: nat) returns (at: nat)
    requires from <= to <= src.Length && to - from <= end <= dst.Length && (src == dst ==> to <= end)
    modifies dst
    ensures at == end - (to - from)
    ensures SameOutside(old(dst[..]), dst[..], at, end) && dst[at..end] == old(src[from..to])
  {
    hide SameOutside;
    ghost var s, d := src[..], dst[..];
    var k: nat := to;
    at := end;
    while k > from
      invariant from <= k <= to && at == end - (to - k)
      invariant forall i :: 0 <= i < |d| ==> dst[i] == if at <= i < end then s[i + (to - end)] else d[i]
      invariant forall i :: from <= i < k ==> src[i] == s[i]
    {
      at := at - 1;
      k := k - 1;
      dst[at] := src[k];
    }
    ghost var t := dst[..];
    Copied(s, from, to, d, t, at, end);
  }

  /** What data holds at the places s. */
  function Pick<T>(data: seq<T>, s: seq<nat>): seq<T> {
    if data == [] then [] else seq(|s|, k requires 0 <= k < |s| => data[if s[k] < |data| then s[k] else 0])
  }

  lemma PickAt<T>(data: seq<T>, s: seq<nat>, i: nat)
    requires i < |s| && s[i] < |data|
    ensures |Pick(data, s)| == |s| && Pick(data, s)[i] == data[s[i]]
  {
  }

  lemma PickNothing<T>(data: seq<T>)
    ensures Pick(data, []) == []
  {
  }

  lemma PickLength<T>(data: seq<T>, s: seq<nat>)
    requires forall i :: 0 <= i < |s| ==> s[i] < |data|
    ensures |Pick(data, s)| == |s|
  {
    hide Pick;
    if s == [] { PickNothing(data); } else { PickAt(data, s, 0); }
  }

  lemma PickConcat<T>(data: seq<T>, c: seq<nat>, d: seq<nat>)
    requires forall i :: 0 <= i < |c| ==> c[i] < |data|
    requires forall i :: 0 <= i < |d| ==> d[i] < |data|
    ensures Pick(data, c + d) == Pick(data, c) + Pick(data, d)
  {
    hide Pick;
    PickLength(data, c);
    PickLength(data, d);
    PickLength(data, c + d);
    forall i | 0 <= i < |c + d| ensures Pick(data, c + d)[i] == (Pick(data, c) + Pick(data, d))[i] {
      PickAt(data, c + d, i);
      if i < |c| { PickAt(data, c, i); } else { PickAt(data, d, i - |c|); }
    }
  }
}
