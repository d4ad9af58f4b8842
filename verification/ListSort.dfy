/** list::merge and list::sort: nodes are relinked, never copied. */
module ListSort {
  import opened Ordering
  import opened ListLinks
  import opened ListRings
  import opened ListMoves
  import opened ListStore
  import opened ListCounter
  import opened PowerOfTwo
  import opened Merging
  import opened Ranges

  lemma ByDataStrictWeak<T(!new)>(lt: Less<T>, data: seq<T>)
    requires StrictWeak(lt)
    ensures StrictWeak(ByData(lt, data))
  {
  }

  // ---------- merge ----------

  /** The one node first2 of list j goes before first1 in list i. */
  method TakeNode<T(!new)>(store: Lists<T>, i: nat, ghost k: nat, j: nat, first1: nat, first2: nat) returns (after: nat)
    requires store.Valid() && i < |store.rings| && j < |store.rings| && i != j
    requires 1 <= k <= |store.rings[i]| && 1 < |store.rings[j]|
    requires first1 == Place(store.rings[i], k) && first2 == store.rings[j][1]
    modifies store`next, store`prev, store`rings
    ensures store.Valid() && store.rings == Spliced(old(store.rings), i, k, j, 1, 2)
    ensures after == Place(store.rings[j], 1)
  {
    hide Whole, Transferred;
    ghost var m, rings := store.Memory(), store.rings;
    WholeAt(m, store.node, rings, i, k);
    WholeAt(m, store.node, rings, j, 1);
    WholeAt(m, store.node, rings, j, 2);
    SpliceMeans(m, store.node, rings, i, k, j, 1, 2);
    after := store.next[first2];
    SamePlaces(m, store.node, rings, i, k, j, 2);
    store.Transfer(first1, first2, after);
    store.rings := Spliced(rings, i, k, j, 1, 2);
    WholeNonempty(store.Memory(), store.node, store.rings);
  }

  /** Lists i and j while they are merged: s and x the sentinels, r merged, a and b left. */
  ghost predicate Halfway(rings0: seq<seq<nat>>, rings: seq<seq<nat>>, i: nat, j: nat, r: seq<nat>, a: seq<nat>, b: seq<nat>) {
    && i < |rings0| && j < |rings0| && i != j && rings0[i] != [] && rings0[j] != []
    && rings == rings0[i := [rings0[i][0]] + r + a][j := [rings0[j][0]] + b]
  }

  lemma HalfwayStarts(rings: seq<seq<nat>>, i: nat, j: nat)
    requires i < |rings| && j < |rings| && i != j && rings[i] != [] && rings[j] != []
    ensures Halfway(rings, rings, i, j, [], rings[i][1..], rings[j][1..])
  {
    assert [rings[i][0]] + [] + rings[i][1..] == rings[i] && [rings[j][0]] + rings[j][1..] == rings[j];
  }

  lemma HalfwayPlaces(rings0: seq<seq<nat>>, rings: seq<seq<nat>>, i: nat, j: nat, r: seq<nat>, a: seq<nat>, b: seq<nat>)
    requires Halfway(rings0, rings, i, j, r, a, b)
    ensures |rings| == |rings0| && |rings[i]| == 1 + |r| + |a| && |rings[j]| == 1 + |b|
    ensures rings[i][0] == rings0[i][0] && rings[j][0] == rings0[j][0]
    ensures a != [] ==> Place(rings[i], 1 + |r|) == rings[i][1 + |r|] == a[0]
    ensures b != [] ==> Place(rings[j], 1) == rings[j][1] == b[0]
  {
  }

  lemma HalfwayKeep(rings0: seq<seq<nat>>, rings: seq<seq<nat>>, i: nat, j: nat, r: seq<nat>, a: seq<nat>, b: seq<nat>)
    requires Halfway(rings0, rings, i, j, r, a, b) && a != []
    ensures Halfway(rings0, rings, i, j, r + [a[0]], a[1..], b)
  {
    assert [rings0[i][0]] + r + a == [rings0[i][0]] + (r + [a[0]]) + a[1..];
  }

  lemma HalfwayTake(rings0: seq<seq<nat>>, rings: seq<seq<nat>>, i: nat, j: nat, r: seq<nat>, a: seq<nat>, b: seq<nat>)
    requires Halfway(rings0, rings, i, j, r, a, b) && b != []
    ensures 1 + |r| <= |rings[i]| && 2 <= |rings[j]|
    ensures Halfway(rings0, Spliced(rings, i, 1 + |r|, j, 1, 2), i, j, r + [b[0]], a, b[1..])
  {
    var s, x := [rings0[i][0]], [rings0[j][0]];
    assert (s + r + a)[..1 + |r|] == s + r && (s + r + a)[1 + |r|..] == a;
    assert (x + b)[1..2] == [b[0]] && (x + b)[..1] == x && (x + b)[2..] == b[1..];
    assert s + r + [b[0]] + a == s + (r + [b[0]]) + a;
  }

  lemma HalfwayRest(rings0: seq<seq<nat>>, rings: seq<seq<nat>>, i: nat, j: nat, r: seq<nat>, b: seq<nat>)
    requires Halfway(rings0, rings, i, j, r, [], b)
    ensures 1 + |r| == |rings[i]| && 1 + |b| == |rings[j]|
    ensures Halfway(rings0, Spliced(rings, i, 1 + |r|, j, 1, 1 + |b|), i, j, r + b, [], [])
  {
    var s, x := [rings0[i][0]], [rings0[j][0]];
    var t, u := s + r + [], x + b;
    assert rings[i] == t && rings[j] == u;
    assert t[..1 + |r|] == s + r && t[1 + |r|..] == [] && u[1..1 + |b|] == b && u[..1] == x && u[1 + |b|..] == [];
    assert t[..1 + |r|] + u[1..1 + |b|] + t[1 + |r|..] == s + (r + b) + [] && u[..1] + u[1 + |b|..] == x + [];
  }

  lemma ClampIs<T>(lt: Less<T>, data: seq<T>, a: nat, b: nat)
    requires a < |data| && b < |data|
    ensures ByData(lt, data)(a, b) == lt(data[a], data[b])
  {
  }

  lemma RestSteps(a: seq<nat>, k: nat)
    requires k < |a|
    ensures a[k..][0] == a[k] && a[k..][1..] == a[k + 1..]
  {
  }

  /** The loop of merge: p nodes of a and q nodes of b have been merged to r. */
  ghost predicate Midway(ord: Less<nat>, rings0: seq<seq<nat>>, rings: seq<seq<nat>>, i: nat, j: nat,
      a: seq<nat>, b: seq<nat>, p: nat, q: nat, r: seq<nat>, first1: nat, first2: nat) {
    && |rings0| == |rings| && p <= |a| && q <= |b| && Merging.Merging(ord, a, b, p, q, r)
    && Halfway(rings0, rings, i, j, r, a[p..], b[q..]) && 1 + |r| <= |rings[i]| && 1 <= |rings[j]|
    && first1 == Place(rings[i], 1 + |r|) && first2 == Place(rings[j], 1)
  }

  lemma MidwayStarts(ord: Less<nat>, rings: seq<seq<nat>>, i: nat, j: nat)
    requires i < |rings| && j < |rings| && i != j && rings[i] != [] && rings[j] != []
    requires Sorted(ord, rings[i][1..]) && Sorted(ord, rings[j][1..])
    ensures Midway(ord, rings, rings, i, j, rings[i][1..], rings[j][1..], 0, 0, [], Place(rings[i], 1), Place(rings[j], 1))
  {
    HalfwayStarts(rings, i, j);
    MergeStarts(ord, rings[i][1..], rings[j][1..]);
  }

  lemma MidwayHeads(ord: Less<nat>, m: Links, node: seq<nat>, rings0: seq<seq<nat>>, rings: seq<seq<nat>>, i: nat, j: nat,
      a: seq<nat>, b: seq<nat>, p: nat, q: nat, r: seq<nat>, first1: nat, first2: nat)
    requires Midway(ord, rings0, rings, i, j, a, b, p, q, r, first1, first2) && Whole(m, node, rings)
    ensures |node| == |rings| && |m.next| == |m.prev| && first1 < |m.next| && first2 < |m.next|
    ensures first1 != node[i] <==> p < |a|
    ensures first2 != node[j] <==> q < |b|
    ensures p < |a| ==> first1 == a[p] && 1 + |r| < |rings[i]| && m.next[first1] == Place(rings[i], 2 + |r|)
    ensures q < |b| ==> first2 == b[q] == rings[j][1] && 1 < |rings[j]|
  {
    hide Whole, Merging.Merging;
    HalfwayPlaces(rings0, rings, i, j, r, a[p..], b[q..]);
    AtSentinel(m, node, rings, i, 1 + |r|);
    AtSentinel(m, node, rings, j, 1);
    WholeAt(m, node, rings, i, 1 + |r|);
    WholeAt(m, node, rings, j, 1);
  }

  lemma MidwayTake(ord: Less<nat>, rings0: seq<seq<nat>>, rings: seq<seq<nat>>, i: nat, j: nat,
      a: seq<nat>, b: seq<nat>, p: nat, q: nat, r: seq<nat>, first1: nat, first2: nat)
    requires Midway(ord, rings0, rings, i, j, a, b, p, q, r, first1, first2)
    requires StrictWeak(ord) && p < |a| && q < |b| && ord(b[q], a[p])
    ensures 1 + |r| <= |rings[i]| && 2 <= |rings[j]|
    ensures var after := Spliced(rings, i, 1 + |r|, j, 1, 2);
      |after[j]| >= 1 && Midway(ord, rings0, after, i, j, a, b, p, q + 1, r + [b[q]], first1, Place(after[j], 1))
  {
    hide Merging.Merging, Halfway, Spliced, StrictWeak;
    RestSteps(b, q);
    RestSteps(a, p);
    HalfwayTake(rings0, rings, i, j, r, a[p..], b[q..]);
    HalfwayPlaces(rings0, rings, i, j, r, a[p..], b[q..]);
    HalfwayPlaces(rings0, Spliced(rings, i, 1 + |r|, j, 1, 2), i, j, r + [b[q]], a[p..], b[q + 1..]);
    TakeB(ord, a, b, p, q, r);
  }

  lemma MidwayKeep(ord: Less<nat>, rings0: seq<seq<nat>>, rings: seq<seq<nat>>, i: nat, j: nat,
      a: seq<nat>, b: seq<nat>, p: nat, q: nat, r: seq<nat>, first1: nat, first2: nat)
    requires Midway(ord, rings0, rings, i, j, a, b, p, q, r, first1, first2)
    requires StrictWeak(ord) && p < |a| && q < |b| && !ord(b[q], a[p])
    ensures 2 + |r| <= |rings[i]|
    ensures Midway(ord, rings0, rings, i, j, a, b, p + 1, q, r + [a[p]], Place(rings[i], 2 + |r|), first2)
  {
    hide Merging.Merging, Halfway, StrictWeak;
    RestSteps(a, p);
    HalfwayKeep(rings0, rings, i, j, r, a[p..], b[q..]);
    HalfwayPlaces(rings0, rings, i, j, r, a[p..], b[q..]);
    TakeA(ord, a, b, p, q, r);
  }

  /** merge: list j's nodes go into list i, stably. */
  method MergeLists<T(!new)>(lt: Less<T>, store: Lists<T>, i: nat, j: nat)
    requires StrictWeak(lt) && store.Valid() && i < |store.rings| && j < |store.rings| && i != j
    requires Sorted(ByData(lt, store.data), store.Nodes(i)) && Sorted(ByData(lt, store.data), store.Nodes(j))
    modifies store`next, store`prev, store`rings
    ensures store.Valid()
    ensures Halfway(old(store.rings), store.rings, i, j,
      StableSorted(ByData(lt, store.data), old(store.Nodes(i)) + old(store.Nodes(j))), [], [])
  {
    hide Whole, Midway, Halfway, StableSorted, StrictWeak, Sorted, Spliced, ByData;
    ghost var ord, a, b := ByData(lt, store.data), store.Nodes(i), store.Nodes(j);
    ghost var rings0, p: nat, q: nat, r: seq<nat> := store.rings, 0, 0, [];
    ByDataStrictWeak(lt, store.data);
    MidwayStarts(ord, rings0, i, j);
    WholeAt(store.Memory(), store.node, rings0, i, 0);
    WholeAt(store.Memory(), store.node, rings0, j, 0);
    var last1, last2 := store.node[i], store.node[j];
    var first1: nat, first2: nat := store.next[last1], store.next[last2];
    MidwayHeads(ord, store.Memory(), store.node, rings0, store.rings, i, j, a, b, p, q, r, first1, first2);
    while first1 != last1 && first2 != last2
      invariant store.Valid() && Midway(ord, rings0, store.rings, i, j, a, b, p, q, r, first1, first2)
      invariant first1 < |store.next| && first2 < |store.next| && p <= |a| && q <= |b|
      invariant (first1 != last1 <==> p < |a|) && (first2 != last2 <==> q < |b|)
      decreases |a| - p + |b| - q
    {
      MidwayHeads(ord, store.Memory(), store.node, rings0, store.rings, i, j, a, b, p, q, r, first1, first2);
      ClampIs(lt, store.data, first2, first1);
      if lt(store.data[first2], store.data[first1]) {
        MidwayTake(ord, rings0, store.rings, i, j, a, b, p, q, r, first1, first2);
        MidwayPlace(ord, rings0, store.rings, i, j, a, b, p, q, r, first1, first2);
        first2 := TakeNode(store, i, 1 + |r|, j, first1, first2);
        r, q := r + [b[q]], q + 1;
      } else {
        MidwayKeep(ord, rings0, store.rings, i, j, a, b, p, q, r, first1, first2);
        first1 := store.next[first1];
        r, p := r + [a[p]], p + 1;
      }
      MidwayHeads(ord, store.Memory(), store.node, rings0, store.rings, i, j, a, b, p, q, r, first1, first2);
    }
    MidwayPlace(ord, rings0, store.rings, i, j, a, b, p, q, r, first1, first2);
    FinishMerge(lt, store, i, j, rings0, a, b, p, q, r, last1, first2, last2);
  }

  lemma MidwayPlace(ord: Less<nat>, rings0: seq<seq<nat>>, rings: seq<seq<nat>>, i: nat, j: nat,
      a: seq<nat>, b: seq<nat>, p: nat, q: nat, r: seq<nat>, first1: nat, first2: nat)
    requires Midway(ord, rings0, rings, i, j, a, b, p, q, r, first1, first2)
    ensures |rings| == |rings0| && i < |rings| && j < |rings| && 1 + |r| <= |rings[i]| && 1 <= |rings[j]|
    ensures first1 == Place(rings[i], 1 + |r|) && first2 == Place(rings[j], 1)
    ensures p <= |a| && q <= |b| && Merging.Merging(ord, a, b, p, q, r) && Halfway(rings0, rings, i, j, r, a[p..], b[q..])
  {
  }

  lemma AtSentinel(m: Links, node: seq<nat>, rings: seq<seq<nat>>, i: nat, k: nat)
    requires Whole(m, node, rings) && i < |rings| && 1 <= k <= |rings[i]|
    ensures |node| == |rings| && (Place(rings[i], k) == node[i] <==> k == |rings[i]|)
  {
    hide Whole;
    WholeAt(m, node, rings, i, 0);
    SamePlaces(m, node, rings, i, k, i, |rings[i]|);
  }

  /** What is left of list j, if anything, goes behind list i. */
  method FinishMerge<T(!new)>(lt: Less<T>, store: Lists<T>, i: nat, j: nat, ghost rings0: seq<seq<nat>>,
      ghost a: seq<nat>, ghost b: seq<nat>, ghost p: nat, ghost q: nat, ghost r: seq<nat>, last1: nat, first2: nat, last2: nat)
    requires StrictWeak(lt) && store.Valid() && i < |store.rings| && j < |store.rings| && i != j && p <= |a| && q <= |b|
    requires Merging.Merging(ByData(lt, store.data), a, b, p, q, r)
    requires Halfway(rings0, store.rings, i, j, r, a[p..], b[q..])
    requires p == |a| || q == |b|
    requires last1 == store.node[i] && last2 == store.node[j] && first2 == Place(store.rings[j], 1)
    modifies store`next, store`prev, store`rings
    ensures store.Valid()
    ensures Halfway(rings0, store.rings, i, j, StableSorted(ByData(lt, store.data), a + b), [], [])
  {
    hide Whole, Halfway, Merging.Merging, StableSorted, StrictWeak, Spliced, StableSortOf, ByData;
    ghost var m, rings, ord := store.Memory(), store.rings, ByData(lt, store.data);
    ByDataStrictWeak(lt, store.data);
    HalfwayPlaces(rings0, rings, i, j, r, a[p..], b[q..]);
    AtSentinel(m, store.node, rings, j, 1);
    if first2 != last2 {
      assert a[p..] == [];
      HalfwayRest(rings0, rings, i, j, r, b[q..]);
      RestOfB(ord, a, b, p, q, r);
      StableSortMeans(ord, a + b, r + b[q..]);
      SpliceRest(store, i, j, last1, first2, last2);
    } else {
      RestOfA(ord, a, b, p, q, r);
      StableSortMeans(ord, a + b, r + a[p..]);
      HalfwayAll(rings0, rings, i, j, r, a[p..]);
    }
  }

  method SpliceRest<T(!new)>(store: Lists<T>, i: nat, j: nat, last1: nat, first2: nat, last2: nat)
    requires store.Valid() && i < |store.rings| && j < |store.rings| && i != j && |store.rings[j]| > 1
    requires last1 == store.node[i] && last2 == store.node[j] && first2 == Place(store.rings[j], 1)
    modifies store`next, store`prev, store`rings
    ensures store.Valid()
    ensures store.rings == Spliced(old(store.rings), i, |old(store.rings)[i]|, j, 1, |old(store.rings)[j]|)
  {
    hide Whole, Spliced, Transferred;
    ghost var m, rings := store.Memory(), store.rings;
    WholeAt(m, store.node, rings, i, |rings[i]|);
    WholeAt(m, store.node, rings, j, 1);
    WholeAt(m, store.node, rings, j, |rings[j]|);
    SpliceMeans(m, store.node, rings, i, |rings[i]|, j, 1, |rings[j]|);
    SamePlaces(m, store.node, rings, i, |rings[i]|, j, |rings[j]|);
    store.Transfer(last1, first2, last2);
    store.rings := Spliced(rings, i, |rings[i]|, j, 1, |rings[j]|);
    WholeNonempty(store.Memory(), store.node, store.rings);
  }

  lemma HalfwayAll(rings0: seq<seq<nat>>, rings: seq<seq<nat>>, i: nat, j: nat, r: seq<nat>, a: seq<nat>)
    requires Halfway(rings0, rings, i, j, r, a, [])
    ensures Halfway(rings0, rings, i, j, r + a, [], [])
  {
    assert [rings0[i][0]] + r + a == [rings0[i][0]] + (r + a) + [];
  }

  // ---------- sort ----------

  function Tail(r: seq<nat>): seq<nat> { if r == [] then [] else r[1..] }

  /** All lists while list i is sorted: behind the old ones come the carry and the 64 counters. */
  ghost predicate Layout(rings0: seq<seq<nat>>, rings: seq<seq<nat>>, i: nat, rest: seq<nat>, carry: seq<nat>, c: seq<seq<nat>>) {
    var n := |rings0|;
    && i < n && |rings| == n + 65 && |c| == 64
    && (forall k :: 0 <= k < n && k != i ==> rings[k] == rings0[k])
    && Tail(rings[i]) == rest && Tail(rings[n]) == carry && (forall k :: 0 <= k < 64 ==> Tail(rings[n + 1 + k]) == c[k])
    && (forall k :: 0 <= k < n + 65 ==> rings[k] != [])
  }

  lemma LayoutMerge(rings0: seq<seq<nat>>, rings: seq<seq<nat>>, i: nat, rest: seq<nat>, carry: seq<nat>, c: seq<seq<nat>>,
      q: nat, rings': seq<seq<nat>>, t: seq<nat>)
    requires Layout(rings0, rings, i, rest, carry, c) && q < 64 && Halfway(rings, rings', |rings0| + 1 + q, |rings0|, t, [], [])
    ensures Layout(rings0, rings', i, rest, [], c[q := t])
  {
  }

  lemma LayoutMergeCounters(rings0: seq<seq<nat>>, rings: seq<seq<nat>>, i: nat, rest: seq<nat>, c: seq<seq<nat>>,
      k: nat, rings': seq<seq<nat>>, t: seq<nat>)
    requires Layout(rings0, rings, i, rest, [], c) && 1 <= k < 64
    requires Halfway(rings, rings', |rings0| + 1 + k, |rings0| + k, t, [], [])
    ensures Layout(rings0, rings', i, rest, [], c[k := t][k - 1 := []])
  {
  }

  lemma LayoutSwap(rings0: seq<seq<nat>>, rings: seq<seq<nat>>, i: nat, rest: seq<nat>, carry: seq<nat>, c: seq<seq<nat>>, q: nat)
    requires Layout(rings0, rings, i, rest, carry, c) && q < 64
    ensures var n, p := |rings0|, |rings0| + 1 + q;
      Layout(rings0, rings[n := rings[p]][p := rings[n]], i, rest, c[q], c[q := carry])
  {
  }

  lemma LayoutTake(rings0: seq<seq<nat>>, rings: seq<seq<nat>>, i: nat, rest: seq<nat>, c: seq<seq<nat>>)
    requires Layout(rings0, rings, i, rest, [], c) && rest != []
    ensures 1 <= |rings[|rings0|]| && 2 <= |rings[i]|
    ensures Layout(rings0, Spliced(rings, |rings0|, 1, i, 1, 2), i, rest[1..], [rest[0]], c)
  {
    var n := |rings0|;
    var r, x := rings[n], rings[i];
    assert r[..1] + x[1..2] + r[1..] == [r[0], x[1]] && x[..1] + x[2..] == [x[0]] + rest[1..];
  }

  lemma LayoutAt(rings0: seq<seq<nat>>, rings: seq<seq<nat>>, i: nat, rest: seq<nat>, carry: seq<nat>, c: seq<seq<nat>>)
    requires Layout(rings0, rings, i, rest, carry, c)
    ensures |rings| == |rings0| + 65 && i < |rings0| && |c| == 64
    ensures |rings[i]| == 1 + |rest| && |rings[|rings0|]| == 1 + |carry| && rings[|rings0|] != [] && rings[|rings0|][1..] == carry
    ensures forall q :: |rings0| + 1 <= q < |rings0| + 65 ==> rings[q] != [] && rings[q][1..] == c[q - |rings0| - 1]
  {
  }

  /** The first node of list i becomes the carry. */
  method TakeFirst<T(!new)>(store: Lists<T>, i: nat, n: nat, ghost rings0: seq<seq<nat>>, ghost rest: seq<nat>, ghost c: seq<seq<nat>>)
    requires store.Valid() && n == |rings0| && Layout(rings0, store.rings, i, rest, [], c) && rest != []
    modifies store`next, store`prev, store`rings
    ensures store.Valid() && Layout(rings0, store.rings, i, rest[1..], [rest[0]], c)
  {
    hide Whole, Layout, Spliced;
    LayoutAt(rings0, store.rings, i, rest, [], c);
    LayoutTake(rings0, store.rings, i, rest, c);
    WholeAt(store.Memory(), store.node, store.rings, i, 0);
    WholeAt(store.Memory(), store.node, store.rings, n, 0);
    WholeAt(store.Memory(), store.node, store.rings, i, 1);
    var first, position := store.next[store.node[i]], store.next[store.node[n]];
    var last := store.next[first];
    store.Splice(n, 1, position, i, 1, 2, first, last);
  }

  /** carry is merged into counter q, and the two change places. */
  method Carry<T(!new)>(lt: Less<T>, store: Lists<T>, i: nat, n: nat, q: nat, ghost rings0: seq<seq<nat>>,
      ghost rest: seq<nat>, ghost carry: seq<nat>, ghost c: seq<seq<nat>>)
    requires StrictWeak(lt) && store.Valid() && n == |rings0| && Layout(rings0, store.rings, i, rest, carry, c) && q < 64
    requires Sorted(ByData(lt, store.data), c[q]) && Sorted(ByData(lt, store.data), carry)
    modifies store`next, store`prev, store`node, store`rings
    ensures store.Valid() && |store.node| == old(|store.node|) && forall k :: 0 <= k < n ==> store.node[k] == old(store.node[k])
    ensures Layout(rings0, store.rings, i, rest, StableSorted(ByData(lt, store.data), c[q] + carry), c[q := []])
  {
    hide Whole, Layout, Halfway, Sorted, StableSorted, ByData, StrictWeak;
    LayoutAt(rings0, store.rings, i, rest, carry, c);
    WholeSizes(store.Memory(), store.node, store.rings);
    ghost var rings, t := store.rings, StableSorted(ByData(lt, store.data), c[q] + carry);
    MergeLists(lt, store, n + 1 + q, n);
    LayoutMerge(rings0, rings, i, rest, carry, c, q, store.rings, t);
    LayoutAt(rings0, store.rings, i, rest, [], c[q := t]);
    LayoutSwap(rings0, store.rings, i, rest, [], c[q := t], q);
    store.Swap(n, n + 1 + q);
    assert c[q := t][q := []] == c[q := []];
  }

  /** One round: the first node of list i goes through the counters. */
  method Round<T(!new)>(lt: Less<T>, store: Lists<T>, i: nat, n: nat, fill: nat, ghost rings0: seq<seq<nat>>,
      ghost s: seq<nat>, ghost done: nat, ghost c0: seq<seq<nat>>) returns (fill': nat, ghost c: seq<seq<nat>>)
    requires StrictWeak(lt) && store.Valid() && n == |rings0| && done < |s| < Pow2(64)
    requires Layout(rings0, store.rings, i, s[done..], [], c0) && Counted(ByData(lt, store.data), s[..done], c0, fill) && fill <= 64
    modifies store`next, store`prev, store`node, store`rings
    ensures store.Valid() && |store.node| == old(|store.node|) && forall k :: 0 <= k < n ==> store.node[k] == old(store.node[k])
    ensures Layout(rings0, store.rings, i, s[done + 1..], [], c) && Counted(ByData(lt, store.data), s[..done + 1], c, fill')
    ensures fill' <= 64
  {
    hide Whole, Layout, Sorted, StableSorted, ByData, StrictWeak, Counted, Carrying, Pow2;
    ghost var ord := ByData(lt, store.data);
    ByDataStrictWeak(lt, store.data);
    assert s[done..][1..] == s[done + 1..] && s[done..][0] == s[done] && s[..done + 1] == s[..done] + [s[done]];
    TakeFirst(store, i, n, rings0, s[done..], c0);
    CarryStarts(ord, s[..done], c0, fill, s[done]);
    c := c0;
    ghost var carry: seq<nat> := [s[done]];
    var q := 0;
    LayoutAt(rings0, store.rings, i, s[done + 1..], carry, c);
    WholeSizes(store.Memory(), store.node, store.rings);
    var more := q < fill;
    if more {
      var empty := store.Empty(n + 1 + q);
      more := !empty;
    }
    while more
      invariant store.Valid() && |store.node| == old(|store.node|) && forall k :: 0 <= k < n ==> store.node[k] == old(store.node[k])
      invariant q <= fill && Layout(rings0, store.rings, i, s[done + 1..], carry, c) && |c| == 64
      invariant Carrying(ord, s[..done + 1], c, carry, q, fill)
      invariant more <==> q < fill && c[q] != []
      decreases fill - q
    {
      CarryingSorted(ord, s[..done + 1], c, carry, q, fill);
      CarryOn(ord, s[..done + 1], c, carry, q, fill);
      Carry(lt, store, i, n, q, rings0, s[done + 1..], carry, c);
      carry, c := StableSorted(ord, c[q] + carry), c[q := []];
      q := q + 1;
      LayoutAt(rings0, store.rings, i, s[done + 1..], carry, c);
      more := q < fill;
      if more {
        var empty := store.Empty(n + 1 + q);
        more := !empty;
      }
    }
    CountersSuffice(ord, s[..done + 1], c, carry, q, fill);
    CarryEnds(ord, s[..done + 1], c, carry, q, fill);
    LayoutAt(rings0, store.rings, i, s[done + 1..], carry, c);
    LayoutSwap(rings0, store.rings, i, s[done + 1..], carry, c, q);
    WholeSizes(store.Memory(), store.node, store.rings);
    store.Swap(n, n + 1 + q);
    fill' := if q == fill then fill + 1 else fill;
    c := c[q := carry];
    CountedBounds(ord, s[..done + 1], c, fill');
  }

  lemma CarryingSorted(ord: Less<nat>, taken: seq<nat>, c: seq<seq<nat>>, carry: seq<nat>, q: nat, fill: nat)
    requires Carrying(ord, taken, c, carry, q, fill) && q < fill
    ensures fill <= 64 && |c| == 64 && Sorted(ord, carry) && Sorted(ord, c[q])
  {
  }

  lemma CountedBounds(ord: Less<nat>, taken: seq<nat>, c: seq<seq<nat>>, fill: nat)
    requires Counted(ord, taken, c, fill)
    ensures fill <= 64
  {
  }

  /** The carry and the 64 counters. */
  method MakeCounters<T(!new)>(store: Lists<T>, i: nat, junk: T) returns (n: nat)
    requires store.Valid() && i < |store.rings|
    modifies store
    ensures store.Valid() && n == old(|store.rings|) && |store.node| == |store.rings| == n + 65
    ensures Layout(old(store.rings), store.rings, i, Tail(old(store.rings)[i]), [], seq(64, _ => []))
    ensures store.node[..n] == old(store.node) && store.data == old(store.data) + seq(65, _ => junk)
  {
    hide Whole;
    WholeSizes(store.Memory(), store.node, store.rings);
    n := |store.node|;
    ghost var rings0, node0, data0 := store.rings, store.node, store.data;
    var k := 0;
    while k < 65
      invariant k <= 65 && store.Valid() && |store.rings| == n + k && store.rings[..n] == rings0 && n == |rings0|
      invariant |store.node| == n + k && store.node[..n] == node0
      invariant store.data == data0 + seq(k, _ => junk)
      invariant forall l :: n <= l < n + k ==> |store.rings[l]| == 1
    {
      var _ := store.NewList(junk);
      k := k + 1;
      assert seq(k, _ => junk) == seq(k - 1, _ => junk) + [junk];
    }
    assert forall l :: 0 <= l < n ==> store.rings[l] == store.rings[..n][l];
  }

  /** The counters, all empty, are destroyed. */
  method DropCounters<T(!new)>(store: Lists<T>, n: nat)
    requires store.Valid() && |store.rings| == n + 65 && forall l :: n <= l < n + 65 ==> |store.rings[l]| == 1
    modifies store`node, store`rings
    ensures store.Valid() && store.rings == old(store.rings)[..n] && |old(store.node)| == n + 65 && store.node == old(store.node)[..n]
  {
    hide Whole;
    WholeSizes(store.Memory(), store.node, store.rings);
    ghost var rings0, node0 := store.rings, store.node;
    var k := 65;
    while k > 0
      invariant 0 <= k <= 65 && store.Valid() && store.rings == rings0[..n + k] && store.node == node0[..n + k]
    {
      store.Drop();
      k := k - 1;
    }
  }

  /** All rounds. */
  method Distribute<T(!new)>(lt: Less<T>, store: Lists<T>, i: nat, n: nat, ghost rings0: seq<seq<nat>>, ghost s: seq<nat>)
    returns (fill: nat, ghost c: seq<seq<nat>>)
    requires StrictWeak(lt) && store.Valid() && n == |rings0| && |s| < Pow2(64)
    requires Layout(rings0, store.rings, i, s, [], seq(64, _ => []))
    modifies store`next, store`prev, store`node, store`rings
    ensures store.Valid() && |store.node| == old(|store.node|) && forall k :: 0 <= k < n ==> store.node[k] == old(store.node[k])
    ensures Layout(rings0, store.rings, i, [], [], c) && Counted(ByData(lt, store.data), s, c, fill)
  {
    hide Whole, Layout, ByData, StrictWeak, Counted, Pow2;
    WholeSizes(store.Memory(), store.node, store.rings);
    ghost var done := 0;
    fill := 0;
    c := seq(64, _ => []);
    NothingCounted(ByData(lt, store.data));
    assert s[0..] == s && s[..0] == [];
    LayoutAt(rings0, store.rings, i, s, [], c);
    var empty := store.Empty(i);
    while !empty
      invariant done <= |s| && (empty <==> done == |s|) && fill <= 64
      invariant store.Valid() && |store.node| == old(|store.node|) && forall k :: 0 <= k < n ==> store.node[k] == old(store.node[k])
      invariant Layout(rings0, store.rings, i, s[done..], [], c) && Counted(ByData(lt, store.data), s[..done], c, fill)
      decreases |s| - done
    {
      fill, c := Round(lt, store, i, n, fill, rings0, s, done, c);
      done := done + 1;
      LayoutAt(rings0, store.rings, i, s[done..], [], c);
      empty := store.Empty(i);
    }
    assert s[..|s|] == s && s[|s|..] == [];
  }

  lemma NothingCounted(ord: Less<nat>)
    ensures Counted(ord, [], seq(64, _ => []), 0)
  {
  }

  /** The last loop: counter by counter into the next. */
  method Collect<T(!new)>(lt: Less<T>, store: Lists<T>, i: nat, n: nat, fill: nat, ghost rings0: seq<seq<nat>>,
      ghost s: seq<nat>, ghost c0: seq<seq<nat>>) returns (ghost c: seq<seq<nat>>)
    requires StrictWeak(lt) && store.Valid() && n == |rings0| && s != []
    requires Layout(rings0, store.rings, i, [], [], c0) && Counted(ByData(lt, store.data), s, c0, fill)
    modifies store`next, store`prev, store`rings
    ensures store.Valid() && 1 <= fill <= 64 && Layout(rings0, store.rings, i, [], [], c) && |c| == 64
    ensures c[fill - 1] == StableSorted(ByData(lt, store.data), s) && forall l :: 0 <= l < 64 && l != fill - 1 ==> c[l] == []
  {
    hide Whole, Layout, ByData, StrictWeak, Counted, Collected, StableSorted, Halfway;
    ghost var ord := ByData(lt, store.data);
    ByDataStrictWeak(lt, store.data);
    c := c0;
    CollectStarts(ord, s, c, fill);
    CollectedBounds(ord, s, c, 1, fill);
    var k := 1;
    while k < fill
      invariant 1 <= k <= fill <= 64 && store.Valid() && Layout(rings0, store.rings, i, [], [], c) && Collected(ord, s, c, k, fill)
    {
      CollectedBounds(ord, s, c, k, fill);
      LayoutAt(rings0, store.rings, i, [], [], c);
      ghost var rings, t := store.rings, StableSorted(ord, c[k] + c[k - 1]);
      MergeLists(lt, store, n + 1 + k, n + k);
      LayoutMergeCounters(rings0, rings, i, [], c, k, store.rings, t);
      CollectOne(ord, s, c, k, fill);
      c := c[k := t][k - 1 := []];
      k := k + 1;
    }
    CollectedBounds(ord, s, c, fill, fill);
    CollectEnds(ord, s, c, fill);
  }

  lemma CollectedBounds(ord: Less<nat>, s: seq<nat>, c: seq<seq<nat>>, k: nat, fill: nat)
    requires Collected(ord, s, c, k, fill)
    ensures |c| == 64 && 1 <= k <= fill <= 64 && Sorted(ord, c[k - 1]) && (k < fill ==> Sorted(ord, c[k]))
  {
  }

  /** sort of a list with nodes. */
  method SortNodes<T(!new)>(lt: Less<T>, store: Lists<T>, i: nat, junk: T)
    requires StrictWeak(lt) && store.Valid() && i < |store.rings| && 1 < |store.rings[i]| <= Pow2(64)
    modifies store
    ensures store.Valid() && |store.node| == |store.rings| == old(|store.rings|) == old(|store.node|)
    ensures |old(store.data)| <= |store.data| && store.data[..|old(store.data)|] == old(store.data)
    ensures forall k :: 0 <= k < |store.rings| && k != i ==> store.rings[k] == old(store.rings)[k] && store.node[k] == old(store.node)[k]
    ensures store.Nodes(i) == StableSorted(ByData(lt, store.data), old(store.Nodes(i)))
  {
    hide Whole, ByData, StrictWeak, StableSorted, Layout, Counted, Pow2;
    ghost var rings0, s := store.rings, store.Nodes(i);
    var n := MakeCounters(store, i, junk);
    var fill, c0 := Distribute(lt, store, i, n, rings0, s);
    ghost var c := Collect(lt, store, i, n, fill, rings0, s, c0);
    LayoutAt(rings0, store.rings, i, [], [], c);
    LayoutFrame(rings0, store.rings, i, [], [], c);
    WholeSizes(store.Memory(), store.node, store.rings);
    store.Swap(i, n + fill);
    DropCounters(store, n);
  }

  lemma LayoutFrame(rings0: seq<seq<nat>>, rings: seq<seq<nat>>, i: nat, rest: seq<nat>, carry: seq<nat>, c: seq<seq<nat>>)
    requires Layout(rings0, rings, i, rest, carry, c)
    ensures |rings0| < |rings| && forall k :: 0 <= k < |rings0| && k != i ==> rings[k] == rings0[k]
  {
  }

  /** sort: the same nodes, relinked into the one stable order; no other list is touched. */
  method Sort<T(!new)>(lt: Less<T>, store: Lists<T>, i: nat, junk: T)
    requires StrictWeak(lt) && store.Valid() && i < |store.rings| && |store.rings[i]| <= Pow2(64)
    modifies store
    ensures store.Valid() && |store.node| == |store.rings| == old(|store.rings|) == old(|store.node|)
    ensures |old(store.data)| <= |store.data| && store.data[..|old(store.data)|] == old(store.data)
    ensures forall k :: 0 <= k < |store.rings| && k != i ==> store.rings[k] == old(store.rings)[k] && store.node[k] == old(store.node)[k]
    ensures store.Nodes(i) == StableSorted(ByData(lt, store.data), old(store.Nodes(i)))
    ensures store.Elements(i) == StableSorted(lt, old(store.Elements(i)))
  {
    hide Whole, ByData, StrictWeak, StableSorted, Layout, Pick, Pow2;
    ghost var data0, s := store.data, store.Nodes(i);
    NodesInMemory(store.Memory(), store.node, store.rings, i);
    WholeSizes(store.Memory(), store.node, store.rings);
    var several := Several(store, i);
    if several {
      SortNodes(lt, store, i, junk);
    } else {
      ByDataStrictWeak(lt, store.data);
      SortedShort(ByData(lt, store.data), s);
    }
    PickSorted(lt, store.data, s);
    PickPrefix(data0, store.data, s);
  }

  /** Whether the list has more than one node. */
  method Several<T(!new)>(store: Lists<T>, i: nat) returns (several: bool)
    requires store.Valid() && i < |store.rings|
    ensures several <==> |store.rings[i]| > 2
  {
    hide Whole;
    WholeAt(store.Memory(), store.node, store.rings, i, 0);
    WholeAt(store.Memory(), store.node, store.rings, i, 1);
    AtSentinel(store.Memory(), store.node, store.rings, i, 1);
    if |store.rings[i]| > 1 { AtSentinel(store.Memory(), store.node, store.rings, i, 2); }
    several := store.next[store.node[i]] != store.node[i];
    if several {
      several := store.next[store.next[store.node[i]]] != store.node[i];
    }
  }

  lemma NodesInMemory(m: Links, node: seq<nat>, rings: seq<seq<nat>>, i: nat)
    requires Whole(m, node, rings) && i < |rings| && rings[i] != []
    ensures forall k :: 0 <= k < |rings[i][1..]| ==> rings[i][1..][k] < |m.next|
  {
    hide Ring;
    assert Anchored(m, node[i], rings[i]);
    InMemory(m, rings[i]);
    forall k | 0 <= k < |rings[i]| - 1 ensures rings[i][1..][k] < |m.next| { assert rings[i][k + 1] in rings[i]; }
  }

  lemma Nowhere(s: seq<nat>, bound: nat)
    requires forall k :: 0 <= k < |s| ==> s[k] < bound
    ensures bound == 0 ==> s == []
  {
    assert s != [] ==> s[0] < bound;
  }

  lemma PickPrefix<T>(data: seq<T>, data': seq<T>, s: seq<nat>)
    requires |data| <= |data'| && data'[..|data|] == data
    requires forall k :: 0 <= k < |s| ==> s[k] < |data|
    ensures Pick(data', s) == Pick(data, s)
  {
    var p, p' := Pick(data, s), Pick(data', s);
    Nowhere(s, |data|);
    forall k | 0 <= k < |s| ensures p'[k] == p[k] { assert data'[..|data|][s[k]] == data'[s[k]]; }
  }

  lemma SortedShort(ord: Less<nat>, s: seq<nat>)
    requires StrictWeak(ord) && |s| <= 1
    ensures StableSorted(ord, s) == s
  {
    hide StrictWeak, StableSorted;
    SameToItself(ord, s);
    StableSortMeans(ord, s, s);
  }

  // ---------- what the lists hold afterwards ----------

  lemma {:induction false} PickInsertionPoint<T>(lt: Less<T>, data: seq<T>, s: seq<nat>, x: nat)
    requires forall k :: 0 <= k < |s| ==> s[k] < |data|
    requires x < |data|
    ensures InsertionPoint(ByData(lt, data), s, x) == InsertionPoint(lt, Pick(data, s), data[x])
  {
    if s != [] {
      hide Pick, ByData;
      var n := |s| - 1;
      PickInsertionPoint(lt, data, s[..n], x);
      PickFront(data, s);
      ClampIs(lt, data, x, s[n]);
    }
  }

  lemma PickInsert<T>(lt: Less<T>, data: seq<T>, s: seq<nat>, x: nat)
    requires forall k :: 0 <= k < |s| ==> s[k] < |data|
    requires x < |data|
    ensures Pick(data, Insert(ByData(lt, data), s, x)) == Insert(lt, Pick(data, s), data[x])
  {
    hide InsertionPoint, ByData, Pick;
    PickInsertionPoint(lt, data, s, x);
    var k := InsertionPoint(ByData(lt, data), s, x);
    assert s == s[..k] + s[k..];
    PickConcat(data, s[..k], s[k..]);
    PickLength(data, s[..k]);
    PickConcat(data, s[..k] + [x], s[k..]);
    PickConcat(data, s[..k], [x]);
    PickAt(data, [x], 0);
    assert Pick(data, [x]) == [data[x]];
  }

  lemma SortedInMemory(ord: Less<nat>, s: seq<nat>, bound: nat)
    requires forall k :: 0 <= k < |s| ==> s[k] < bound
    ensures var t: seq<nat> := StableSorted(ord, s); |t| == |s| && forall k :: 0 <= k < |t| ==> t[k] < bound
  {
    hide StableSorted;
    var t: seq<nat> := StableSorted(ord, s);
    StableSortedPermutes(ord, s);
    forall k | 0 <= k < |s| ensures t[k] < bound {
      SameBag(s, t);
      assert t[k] in s;
    }
  }

  /** Sorting the nodes by what they hold sorts what they hold. */
  lemma {:induction false} PickSorted<T>(lt: Less<T>, data: seq<T>, s: seq<nat>)
    requires forall k :: 0 <= k < |s| ==> s[k] < |data|
    ensures Pick(data, StableSorted(ByData(lt, data), s)) == StableSorted(lt, Pick(data, s))
  {
    hide *;
    if s != [] {
      var n := |s| - 1;
      PickSorted(lt, data, s[..n]);
      SortedInMemory(ByData(lt, data), s[..n], |data|);
      StableSortedStep(ByData(lt, data), s);
      var t: seq<nat> := StableSorted(ByData(lt, data), s[..n]);
      PickInsert(lt, data, t, s[n]);
      PickFront(data, s);
      StableSortedStep(lt, Pick(data, s));
    } else {
      NothingSorted(lt);
      NothingSorted(ByData(lt, data));
      PickNothing(data);
    }
  }

  lemma PickFront<T>(data: seq<T>, s: seq<nat>)
    requires s != [] && forall k :: 0 <= k < |s| ==> s[k] < |data|
    ensures var n, p := |s| - 1, Pick(data, s); |p| == |s| && p[..n] == Pick(data, s[..n]) && p[n] == data[s[n]]
  {
  }

  lemma NothingSorted<T>(lt: Less<T>)
    ensures StableSorted(lt, []) == []
  {
  }
}
