/** The binary counter of list::sort: counter k holds nothing or 2^k nodes in order, earlier nodes in higher counters. */
module ListCounter {
  import opened Ordering
  import opened PowerOfTwo

  /** The counters k - 1 down to lo, in this order. */
  function Gather(c: seq<seq<nat>>, lo: nat, k: nat): seq<nat>
    requires k <= |c|
  {
    if k <= lo then [] else c[k - 1] + Gather(c, lo, k - 1)
  }

  lemma {:induction false} GatherSplit(c: seq<seq<nat>>, lo: nat, k: nat)
    requires lo < k <= |c|
    ensures Gather(c, lo, k) == Gather(c, lo + 1, k) + c[lo]
  {
    if lo + 1 < k {
      GatherSplit(c, lo, k - 1);
      assert c[k - 1] + (Gather(c, lo + 1, k - 1) + c[lo]) == (c[k - 1] + Gather(c, lo + 1, k - 1)) + c[lo];
    }
  }

  lemma {:induction false} GatherSame(c: seq<seq<nat>>, d: seq<seq<nat>>, lo: nat, k: nat)
    requires k <= |c| && k <= |d| && forall i :: lo <= i < k ==> c[i] == d[i]
    ensures Gather(c, lo, k) == Gather(d, lo, k)
  {
    if lo < k { GatherSame(c, d, lo, k - 1); }
  }

  lemma {:induction false} GatherNothing(c: seq<seq<nat>>, lo: nat, k: nat)
    requires k <= |c| && forall i :: lo <= i < k ==> c[i] == []
    ensures Gather(c, lo, k) == []
  {
    if lo < k { GatherNothing(c, lo, k - 1); }
  }

  /** Counters below low are empty, those up to fill hold nothing or 2^k in order, the others nothing. */
  ghost predicate Counters(ord: Less<nat>, c: seq<seq<nat>>, low: nat, fill: nat) {
    && |c| == 64 && low <= fill <= 64
    && (forall k :: 0 <= k < low ==> c[k] == [])
    && (forall k :: low <= k < fill ==> (c[k] == [] || |c[k]| == Pow2(k)) && Sorted(ord, c[k]))
    && (forall k :: fill <= k < 64 ==> c[k] == [])
  }

  /** Between rounds: the counters hold what has been taken from the list. */
  ghost predicate Counted(ord: Less<nat>, taken: seq<nat>, c: seq<seq<nat>>, fill: nat) {
    Counters(ord, c, 0, fill) && SameClasses(ord, taken, Gather(c, 0, fill))
  }

  /** Within a round: carry holds 2^low nodes that come behind those in the counters. */
  ghost predicate Carrying(ord: Less<nat>, taken: seq<nat>, c: seq<seq<nat>>, carry: seq<nat>, low: nat, fill: nat) {
    && Counters(ord, c, low, fill) && |carry| == Pow2(low) && Sorted(ord, carry)
    && SameClasses(ord, taken, Gather(c, low, fill) + carry)
  }

  lemma CarryStarts(ord: Less<nat>, taken: seq<nat>, c: seq<seq<nat>>, fill: nat, a: nat)
    requires Counted(ord, taken, c, fill)
    ensures Carrying(ord, taken + [a], c, [a], 0, fill)
  {
    SameClassesConcat(ord, taken, [a], Gather(c, 0, fill), [a]);
  }

  lemma CarryOn(ord: Less<nat>, taken: seq<nat>, c: seq<seq<nat>>, carry: seq<nat>, low: nat, fill: nat)
    requires StrictWeak(ord) && Carrying(ord, taken, c, carry, low, fill) && low < fill && c[low] != []
    ensures Carrying(ord, taken, c[low := []], StableSorted(ord, c[low] + carry), low + 1, fill)
  {
    hide StrictWeak, SameClasses, Sorted, StableSorted, Gather;
    var s := c[low] + carry;
    var t := StableSorted(ord, s);
    SortedIsStable(ord, s);
    GatherSplit(c, low, fill);
    GatherSame(c, c[low := []], low + 1, fill);
    SwapBack(ord, taken, Gather(c, low + 1, fill), c[low], carry, t);
  }

  lemma SortedIsStable(ord: Less<nat>, s: seq<nat>)
    requires StrictWeak(ord)
    ensures var t := StableSorted(ord, s); Sorted(ord, t) && SameClasses(ord, s, t) && |t| == |s|
  {
    hide StrictWeak;
    StableSortMeans(ord, s, StableSorted(ord, s));
  }

  lemma SwapBack(ord: Less<nat>, taken: seq<nat>, g: seq<nat>, u: seq<nat>, v: seq<nat>, t: seq<nat>)
    requires SameClasses(ord, taken, g + u + v) && SameClasses(ord, u + v, t)
    ensures SameClasses(ord, taken, g + t)
  {
    hide SameClasses;
    SameToItself(ord, g);
    SameClassesConcat(ord, g, u + v, g, t);
    assert g + u + v == g + (u + v);
    SameClassesTransitive(ord, taken, g + (u + v), g + t);
  }

  lemma SameToItself(ord: Less<nat>, s: seq<nat>)
    ensures SameClasses(ord, s, s)
  {
  }

  lemma SortedNothing(ord: Less<nat>)
    ensures Sorted(ord, [])
  {
  }

  lemma CarryEnds(ord: Less<nat>, taken: seq<nat>, c: seq<seq<nat>>, carry: seq<nat>, low: nat, fill: nat)
    requires Carrying(ord, taken, c, carry, low, fill) && low < 64 && (low == fill || c[low] == [])
    ensures |c| == 64 && c[low] == [] && Counted(ord, taken, c[low := carry], if low == fill then fill + 1 else fill)
  {
    hide SameClasses, Sorted, Gather;
    SortedNothing(ord);
    var d, top := c[low := carry], if low == fill then fill + 1 else fill;
    GatherDown(d, low, top);
    GatherSame(c, d, low + 1, top);
    if low < fill { GatherSplit(c, low, fill); } else { GatherNothing(c, low, fill); }
    if low == fill { GatherNothing(d, low + 1, top); }
    assert Gather(c, low, fill) + carry == Gather(d, 0, top);
  }

  lemma {:induction false} GatherDown(d: seq<seq<nat>>, low: nat, top: nat)
    requires low < top <= |d| && forall k :: 0 <= k < low ==> d[k] == []
    ensures Gather(d, 0, top) == Gather(d, low + 1, top) + d[low]
  {
    GatherSplit(d, low, top);
    GatherFrom(d, low, top);
  }

  lemma {:induction false} GatherFrom(d: seq<seq<nat>>, low: nat, top: nat)
    requires low <= top <= |d| && forall k :: 0 <= k < low ==> d[k] == []
    ensures Gather(d, 0, top) == Gather(d, low, top)
  {
    if low < top { GatherFrom(d, low, top - 1); } else { GatherNothing(d, 0, top); }
  }

  lemma SameClassesLength(ord: Less<nat>, s: seq<nat>, t: seq<nat>)
    requires StrictWeak(ord) && SameClasses(ord, s, t)
    ensures |s| == |t|
  {
    hide StrictWeak, SameClasses, StableSorted;
    var u := StableSorted(ord, t);
    StableSortMeans(ord, t, u);
    SameClassesTransitive(ord, s, t, u);
    StableSortMeans(ord, s, u);
  }

  /** 64 counters are enough for fewer than 2^64 nodes. */
  lemma CountersSuffice(ord: Less<nat>, taken: seq<nat>, c: seq<seq<nat>>, carry: seq<nat>, low: nat, fill: nat)
    requires StrictWeak(ord) && Carrying(ord, taken, c, carry, low, fill) && |taken| < Pow2(64)
    ensures low < 64
  {
    hide StrictWeak, SameClasses, Sorted;
    SameClassesLength(ord, taken, Gather(c, low, fill) + carry);
  }

  /** In the last loop: s has been gathered in counter k - 1 and those from k on. */
  ghost predicate Collected(ord: Less<nat>, s: seq<nat>, c: seq<seq<nat>>, k: nat, fill: nat) {
    && |c| == 64 && 1 <= k <= fill <= 64 && Sorted(ord, c[k - 1]) && SameClasses(ord, s, Gather(c, k, fill) + c[k - 1])
    && (forall l :: 0 <= l < k - 1 ==> c[l] == [])
    && (forall l :: k <= l < fill ==> Sorted(ord, c[l]))
    && (forall l :: fill <= l < 64 ==> c[l] == [])
  }

  lemma CollectStarts(ord: Less<nat>, s: seq<nat>, c: seq<seq<nat>>, fill: nat)
    requires StrictWeak(ord) && Counted(ord, s, c, fill) && s != []
    ensures Collected(ord, s, c, 1, fill)
  {
    hide StrictWeak, SameClasses, Sorted;
    SameClassesLength(ord, s, Gather(c, 0, fill));
    GatherSplit(c, 0, fill);
  }

  lemma CollectOne(ord: Less<nat>, s: seq<nat>, c: seq<seq<nat>>, k: nat, fill: nat)
    requires StrictWeak(ord) && Collected(ord, s, c, k, fill) && k < fill
    ensures Collected(ord, s, c[k := StableSorted(ord, c[k] + c[k - 1])][k - 1 := []], k + 1, fill)
  {
    hide StrictWeak, SameClasses, Sorted, StableSorted, Gather;
    var t := StableSorted(ord, c[k] + c[k - 1]);
    SortedIsStable(ord, c[k] + c[k - 1]);
    GatherSplit(c, k, fill);
    GatherSame(c, c[k := t][k - 1 := []], k + 1, fill);
    SwapBack(ord, s, Gather(c, k + 1, fill), c[k], c[k - 1], t);
  }

  lemma CollectEnds(ord: Less<nat>, s: seq<nat>, c: seq<seq<nat>>, fill: nat)
    requires StrictWeak(ord) && Collected(ord, s, c, fill, fill)
    ensures c[fill - 1] == StableSorted(ord, s) && forall l :: 0 <= l < 64 && l != fill - 1 ==> c[l] == []
  {
    hide StrictWeak, Sorted, SameClasses, StableSorted;
    assert Gather(c, fill, fill) + c[fill - 1] == c[fill - 1];
    StableSortMeans(ord, s, c[fill - 1]);
  }
}
