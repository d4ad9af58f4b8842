/** Moves within and between lists, by places; linking a node in and out; turning a ring round. */
module ListMoves {
  import opened Sequences
  import opened ListLinks
  import opened ListRings
  import Ranges

  // ---------- positions ----------

  /** The node at place k of a list, counting its sentinel as place 0 and as the end. */
  function Place(r: seq<nat>, k: nat): nat
    requires r != [] && k <= |r|
  {
    if k < |r| then r[k] else r[0]
  }

  lemma PlaceHeads(r: seq<nat>, k: nat)
    requires 1 <= k <= |r|
    ensures (r[k..] + r[..k])[0] == Place(r, k) && r == r[..k] + r[k..]
  {
  }

  lemma SamePlace(m: Links, r: seq<nat>, k: nat, l: nat)
    requires Ring(m, r) && 1 <= k <= |r| && 1 <= l <= |r| && Place(r, k) == Place(r, l)
    ensures k == l
  {
    hide Path;
  }

  /** The nodes at places lo, ..., hi - 1 of list j moved before place k of list i. */
  function Spliced(rings: seq<seq<nat>>, i: nat, k: nat, j: nat, lo: nat, hi: nat): (after: seq<seq<nat>>)
    requires i < |rings| && j < |rings| && lo <= hi <= |rings[j]| && k <= |rings[i]|
    ensures |after| == |rings|
  {
    var r, q := rings[i], rings[j];
    if i != j then rings[i := r[..k] + q[lo..hi] + r[k..]][j := q[..lo] + q[hi..]]
    else if k <= lo then rings[i := r[..k] + r[lo..hi] + r[k..lo] + r[hi..]]
    else if hi <= k then rings[i := r[..lo] + r[hi..k] + r[lo..hi] + r[k..]]
    else rings
  }

  lemma SplicedBetween(m: Links, node: seq<nat>, rings: seq<seq<nat>>, i: nat, k: nat, j: nat, lo: nat, hi: nat)
    requires Whole(m, node, rings) && i < |rings| && j < |rings| && i != j
    requires 1 <= k <= |rings[i]| && 1 <= lo < hi <= |rings[j]|
    ensures Whole(Transferred(m, Place(rings[i], k), rings[j][lo], Place(rings[j], hi)), node, Spliced(rings, i, k, j, lo, hi))
  {
    hide Whole, Transferred;
    var r, q := rings[i], rings[j];
    PlaceHeads(r, k);
    PlaceHeads(q, hi);
    assert q == q[..lo] + q[lo..hi] + q[hi..];
    assert (q[hi..] + q[..lo])[0] == Place(q, hi);
    MovedBetween(m, node, rings, i, j, r[..k], r[k..], q[..lo], q[lo..hi], q[hi..]);
  }

  /** a + seg + b + c is a ring; seg moves forward over b, or b and seg the other way round. */
  lemma MovedOver(m: Links, a: seq<nat>, seg: seq<nat>, b: seq<nat>, c: seq<nat>)
    requires a != [] && seg != [] && b != [] && Ring(m, a + seg + b + c)
    ensures Ring(Transferred(m, (c + a)[0], seg[0], b[0]), a + b + seg + c)
    ensures Ring(Transferred(m, seg[0], b[0], (c + a)[0]), a + b + seg + c)
  {
    hide Ring, Transferred;
    var e := c + a;
    assert a + seg + b + c == (a + seg) + (b + c);
    RingRotates(m, a + seg, b + c);
    assert (b + c) + (a + seg) == b + e + seg;
    MoveWithin(m, b, seg, e);
    var m' := Transferred(m, e[0], seg[0], b[0]);
    assert b + seg + e == (b + seg + c) + a;
    RingRotates(m', b + seg + c, a);
    assert a + (b + seg + c) == a + b + seg + c;
    RingRotates(m, a + seg + b, c);
    assert c + (a + seg + b) == e + seg + b;
    MoveWithin(m, e, b, seg);
    var m'' := Transferred(m, seg[0], b[0], e[0]);
    assert e + b + seg == c + (a + b + seg);
    RingRotates(m'', c, a + b + seg);
  }

  lemma RingWithin(m: Links, r: seq<nat>, k: nat, lo: nat, hi: nat)
    requires Ring(m, r) && 1 <= k <= |r| && 1 <= lo < hi <= |r| && (k < lo || hi < k)
    ensures var after := Spliced([r], 0, k, 0, lo, hi)[0];
      Ring(Transferred(m, Place(r, k), r[lo], Place(r, hi)), after) && after[0] == r[0] && forall a :: a in after ==> a in r
  {
    hide Ring, Transferred;
    if k < lo {
      var a, b, seg, c := r[..k], r[k..lo], r[lo..hi], r[hi..];
      assert r == a + b + seg + c;
      assert (c + a)[0] == Place(r, hi);
      MovedOver(m, a, b, seg, c);
    } else {
      var a, seg, b, c := r[..lo], r[lo..hi], r[hi..k], r[k..];
      assert r == a + seg + b + c;
      assert (c + a)[0] == Place(r, k);
      MovedOver(m, a, seg, b, c);
    }
  }

  lemma SplicedOne(rings: seq<seq<nat>>, i: nat, k: nat, lo: nat, hi: nat)
    requires i < |rings| && lo <= hi <= |rings[i]| && k <= |rings[i]|
    ensures Spliced(rings, i, k, i, lo, hi) == rings[i := Spliced([rings[i]], 0, k, 0, lo, hi)[0]]
  {
  }

  lemma SplicedWithin(m: Links, node: seq<nat>, rings: seq<seq<nat>>, i: nat, k: nat, lo: nat, hi: nat)
    requires Whole(m, node, rings) && i < |rings| && 1 <= k <= |rings[i]| && 1 <= lo < hi <= |rings[i]| && (k < lo || hi < k)
    ensures Whole(Transferred(m, Place(rings[i], k), rings[i][lo], Place(rings[i], hi)), node, Spliced(rings, i, k, i, lo, hi))
  {
    hide Ring, Transferred, Disjoint, Spliced;
    var r := rings[i];
    var pos, last := Place(r, k), Place(r, hi);
    var m' := Transferred(m, pos, r[lo], last);
    assert Anchored(m, node[i], r);
    RingWithin(m, r, k, lo, hi);
    SplicedOne(rings, i, k, lo, hi);
    forall l | 0 <= l < |rings| && l != i ensures Ring(m', rings[l]) {
      assert Anchored(m, node[l], rings[l]) && Disjoint(rings[l], r);
      WithinFrame(m, r, rings[l], pos, r[lo], last);
    }
    SameSizes(m, pos, r[lo], last);
    AfterOne(m, m', node, rings, i, Spliced([r], 0, k, 0, lo, hi)[0]);
  }

  lemma WithinFrame(m: Links, r: seq<nat>, s: seq<nat>, pos: nat, first: nat, last: nat)
    requires Ring(m, r) && Ring(m, s) && Disjoint(s, r) && pos in r && first in r && last in r
    ensures Ring(Transferred(m, pos, first, last), s)
  {
    hide Ring, Transferred, Disjoint;
    PrevIn(m, r, pos);
    PrevIn(m, r, first);
    PrevIn(m, r, last);
    MoveFrame(m, pos, first, last, s, r);
  }

  // ---------- reversing ----------

  /** In m' the nodes r[..k] have their links exchanged, and nothing else differs from m. */
  ghost predicate Turned(m: Links, m': Links, r: seq<nat>, k: nat) {
    && |m'.next| == |m.next| && |m'.prev| == |m.prev|
    && (forall i :: 0 <= i < k && i < |r| ==> At(m'.next, r[i]) == At(m.prev, r[i]) && At(m'.prev, r[i]) == At(m.next, r[i]))
    && (forall i :: k <= i < |r| ==> At(m'.next, r[i]) == At(m.next, r[i]) && At(m'.prev, r[i]) == At(m.prev, r[i]))
    && (forall a :: a !in r ==> At(m'.next, a) == At(m.next, a) && At(m'.prev, a) == At(m.prev, a))
  }

  lemma TurnOne(m: Links, m': Links, r: seq<nat>, k: nat)
    requires Ring(m, r) && |m.next| == |m.prev| && k < |r| && Turned(m, m', r, k)
    ensures var a := r[k]; Turned(m, Links(Put(m'.next, a, At(m'.prev, a)), Put(m'.prev, a, At(m'.next, a))), r, k + 1)
  {
    RingBounds(m, r, k);
    hide Path;
  }

  function Backwards(r: seq<nat>): (q: seq<nat>)
    requires r != []
    ensures |q| == |r| && q[0] == r[0]
  {
    [r[0]] + Ranges.Reversed(r[1..])
  }

  lemma BackwardsAt(r: seq<nat>, k: nat)
    requires 1 <= k < |r|
    ensures Backwards(r)[k] == r[|r| - k]
  {
    Ranges.ReversedAt(r[1..], k - 1);
  }

  lemma TurnedLinks(m: Links, m': Links, r: seq<nat>, k: nat)
    requires Ring(m, r) && Turned(m, m', r, |r|) && k + 1 < |r|
    ensures LinkAt(m', Backwards(r), k) && Link(m', Backwards(r)[|r| - 1], r[0])
  {
    hide Path, Distinct, Backwards;
    var x := |r| - k - 1;
    RingBounds(m, r, x);
    RingBounds(m, r, if k == 0 then 0 else |r| - k);
    RingBounds(m, r, 0);
    RingBounds(m, r, 1);
    BackwardsAt(r, k + 1);
    if k > 0 { BackwardsAt(r, k); }
    BackwardsAt(r, |r| - 1);
  }

  lemma TurnedRing(m: Links, m': Links, r: seq<nat>)
    requires Ring(m, r) && Turned(m, m', r, |r|)
    ensures Ring(m', Backwards(r)) && forall a :: a in Backwards(r) <==> a in r
  {
    hide Backwards;
    var q := Backwards(r);
    forall i | 1 <= i < |r| ensures q[i] == r[|r| - i] { BackwardsAt(r, i); }
    forall i | 0 <= i < |r| ensures r[i] in q { assert i == 0 || q[|r| - i] == r[i]; }
    forall i: nat | i + 1 < |r| ensures LinkAt(m', q, i) { TurnedLinks(m, m', r, i); }
    if |r| == 1 { RingBounds(m, r, 0); } else { TurnedLinks(m, m', r, 0); }
  }

  lemma TurnedFrame(m: Links, m': Links, r: seq<nat>, s: seq<nat>)
    requires Turned(m, m', r, |r|) && Ring(m, s) && Disjoint(s, r) && |m.next| == |m.prev|
    ensures Ring(m', s)
  {
    hide Ring;
    forall a | a in s && a < |m.next| ensures m'.next[a] == m.next[a] && m'.prev[a] == m.prev[a] {
      assert At(m'.next, a) == At(m.next, a) && At(m'.prev, a) == At(m.prev, a);
    }
    RingFrame(m, m', s);
  }

  lemma TurnedWhole(m: Links, m': Links, node: seq<nat>, rings: seq<seq<nat>>, i: nat)
    requires Whole(m, node, rings) && i < |rings| && rings[i] != [] && Turned(m, m', rings[i], |rings[i]|)
    ensures Whole(m', node, rings[i := Backwards(rings[i])])
  {
    hide Ring, Turned, Disjoint, Backwards;
    assert Anchored(m, node[i], rings[i]);
    TurnedRing(m, m', rings[i]);
    forall l | 0 <= l < |rings| && l != i ensures Ring(m', rings[l]) {
      assert Anchored(m, node[l], rings[l]) && Disjoint(rings[l], rings[i]);
      TurnedFrame(m, m', rings[i], rings[l]);
    }
    TurnedSizes(m, m', rings[i]);
    AfterOne(m, m', node, rings, i, Backwards(rings[i]));
  }

  lemma TurnedSizes(m: Links, m': Links, r: seq<nat>)
    requires Turned(m, m', r, |r|)
    ensures |m'.next| == |m.next| && |m'.prev| == |m.prev|
  {
  }

  lemma WholeInsert(m: Links, node: seq<nat>, rings: seq<seq<nat>>, i: nat, k: nat)
    requires Whole(m, node, rings) && i < |rings| && 1 <= k <= |rings[i]|
    ensures Whole(Inserted(m, Place(rings[i], k)), node, rings[i := rings[i][..k] + [|m.next|] + rings[i][k..]])
  {
    hide Ring, Inserted, Disjoint;
    var r := rings[i];
    var pos := Place(r, k);
    var m' := Inserted(m, pos);
    assert Anchored(m, node[i], r);
    PlaceHeads(r, k);
    InsertedRing(m, r[..k], r[k..]);
    forall l | 0 <= l < |rings| && l != i ensures Ring(m', rings[l]) {
      assert Anchored(m, node[l], rings[l]) && Disjoint(rings[l], r);
      InsertedFrame(m, pos, r, rings[l]);
    }
    InsertedSizes(m, pos);
    AfterOne(m, m', node, rings, i, r[..k] + [|m.next|] + r[k..]);
  }

  lemma InsertedSizes(m: Links, pos: nat)
    ensures |Inserted(m, pos).next| == |m.next| + 1 && |Inserted(m, pos).prev| == |m.prev| + 1
  {
  }

  lemma WholeErase(m: Links, node: seq<nat>, rings: seq<seq<nat>>, i: nat, k: nat)
    requires Whole(m, node, rings) && i < |rings| && 1 <= k < |rings[i]|
    ensures Whole(Erased(m, rings[i][k]), node, rings[i := rings[i][..k] + rings[i][k + 1..]])
  {
    hide Ring, Erased, Disjoint;
    var r := rings[i];
    var m' := Erased(m, r[k]);
    assert Anchored(m, node[i], r);
    assert r == r[..k] + [r[k]] + r[k + 1..];
    ErasedRing(m, r[..k], r[k], r[k + 1..]);
    forall l | 0 <= l < |rings| && l != i ensures Ring(m', rings[l]) {
      assert Anchored(m, node[l], rings[l]) && Disjoint(rings[l], r);
      ErasedFrame(m, r[k], r, rings[l]);
    }
    ErasedSizes(m, r[k]);
    AfterOne(m, m', node, rings, i, r[..k] + r[k + 1..]);
  }

  lemma ErasedSizes(m: Links, pos: nat)
    ensures |Erased(m, pos).next| == |m.next| && |Erased(m, pos).prev| == |m.prev|
  {
  }
}
