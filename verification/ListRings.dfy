/** Several lists in one memory of nodes: every one a ring of its own, before and after nodes move. */
module ListRings {
  import opened Sequences
  import opened ListLinks

  /** The ring r of a list, from its sentinel c. */
  ghost predicate Anchored(m: Links, c: nat, r: seq<nat>) { Ring(m, r) && r[0] == c }

  /** Every list object has its own ring. */
  ghost predicate Whole(m: Links, node: seq<nat>, rings: seq<seq<nat>>) {
    && |m.next| == |m.prev| && |node| == |rings|
    && (forall i :: 0 <= i < |rings| ==> Anchored(m, node[i], rings[i]))
    && (forall i, j :: 0 <= i < |rings| && 0 <= j < |rings| && i != j ==> Disjoint(rings[i], rings[j]))
  }

  lemma AfterMove(m: Links, m': Links, node: seq<nat>, rings: seq<seq<nat>>, i: nat, j: nat, r: seq<nat>, q: seq<nat>)
    requires Whole(m, node, rings) && i < |rings| && j < |rings| && i != j && |m'.next| == |m'.prev|
    requires Anchored(m', node[i], r) && Anchored(m', node[j], q) && Disjoint(r, q)
    requires forall a :: a in r || a in q ==> a in rings[i] || a in rings[j]
    requires forall k :: 0 <= k < |rings| && k != i && k != j ==> Ring(m', rings[k])
    ensures Whole(m', node, rings[i := r][j := q])
  {
    hide Ring;
    var after := rings[i := r][j := q];
    forall k, l | 0 <= k < |rings| && 0 <= l < |rings| && k != l ensures Disjoint(after[k], after[l]) {
      assert Disjoint(rings[k], rings[i]) || k == i;
      assert Disjoint(rings[k], rings[j]) || k == j;
      assert Disjoint(rings[l], rings[i]) || l == i;
      assert Disjoint(rings[l], rings[j]) || l == j;
      assert Disjoint(rings[k], rings[l]);
    }
  }

  lemma RingBounds(m: Links, r: seq<nat>, k: nat)
    requires Ring(m, r) && k < |r|
    ensures r[k] < |m.next| && r[k] < |m.prev|
    ensures m.next[r[k]] == r[if k + 1 < |r| then k + 1 else 0]
    ensures m.prev[r[k]] == r[if k > 0 then k - 1 else |r| - 1]
  {
    if k + 1 < |r| { assert LinkAt(m, r, k); }
    if k > 0 { assert LinkAt(m, r, k - 1); }
  }

  /** The other rings are out of reach of a move between rings i and j. */
  lemma OthersStay(m: Links, node: seq<nat>, rings: seq<seq<nat>>, i: nat, j: nat, pos: nat, first: nat, last: nat, k: nat)
    requires Whole(m, node, rings) && i < |rings| && j < |rings| && k < |rings| && k != i && k != j
    requires pos in rings[i] && first in rings[j] && last in rings[j]
    ensures Ring(Transferred(m, pos, first, last), rings[k])
  {
    hide Ring, Transferred, Disjoint;
    assert Anchored(m, node[i], rings[i]) && Anchored(m, node[j], rings[j]) && Anchored(m, node[k], rings[k]);
    assert Disjoint(rings[k], rings[i]) && Disjoint(rings[k], rings[j]);
    DisjointConcat(rings[k], rings[i], rings[j]);
    PrevIn(m, rings[i], pos);
    PrevIn(m, rings[j], first);
    PrevIn(m, rings[j], last);
    MoveFrame(m, pos, first, last, rings[k], rings[i] + rings[j]);
  }

  lemma PrevIn(m: Links, r: seq<nat>, a: nat)
    requires Ring(m, r) && a in r
    ensures At(m.prev, a) in r
  {
    hide Ring;
    var k :| 0 <= k < |r| && r[k] == a;
    RingBounds(m, r, k);
  }

  /** Moving seg from list j to list i, before what starts b there; y is what follows seg. */
  lemma MovedBetween(m: Links, node: seq<nat>, rings: seq<seq<nat>>, i: nat, j: nat,
      a: seq<nat>, b: seq<nat>, x: seq<nat>, seg: seq<nat>, y: seq<nat>)
    requires Whole(m, node, rings) && i < |rings| && j < |rings| && i != j
    requires a != [] && x != [] && seg != [] && rings[i] == a + b && rings[j] == x + seg + y
    ensures Whole(Transferred(m, (b + a)[0], seg[0], (y + x)[0]), node, rings[i := a + seg + b][j := x + y])
  {
    hide Ring, Transferred, Disjoint;
    var pos, last := (b + a)[0], (y + x)[0];
    var m' := Transferred(m, pos, seg[0], last);
    assert Anchored(m, node[i], rings[i]) && Anchored(m, node[j], rings[j]) && Disjoint(rings[i], rings[j]);
    MovedRings(m, a, b, x, seg, y);
    forall k | 0 <= k < |rings| && k != i && k != j ensures Ring(m', rings[k]) {
      Places(a, b, x, seg, y);
      OthersStay(m, node, rings, i, j, pos, seg[0], last, k);
    }
    assert (a + seg + b)[0] == (a + b)[0] && (x + y)[0] == (x + seg + y)[0];
    MembersKept(a, b, x, seg, y);
    SameSizes(m, pos, seg[0], last);
    AfterMove(m, m', node, rings, i, j, a + seg + b, x + y);
  }

  lemma SameSizes(m: Links, pos: nat, first: nat, last: nat)
    ensures |Transferred(m, pos, first, last).next| == |m.next| && |Transferred(m, pos, first, last).prev| == |m.prev|
  {
  }

  lemma Places(a: seq<nat>, b: seq<nat>, x: seq<nat>, seg: seq<nat>, y: seq<nat>)
    requires a != [] && x != [] && seg != []
    ensures (b + a)[0] in a + b && seg[0] in x + seg + y && (y + x)[0] in x + seg + y
  {
    assert (b + a)[0] == if b == [] then a[0] else b[0];
    assert (y + x)[0] == if y == [] then x[0] else y[0];
  }

  lemma MembersKept(a: seq<nat>, b: seq<nat>, x: seq<nat>, seg: seq<nat>, y: seq<nat>)
    requires Disjoint(a + b, x + seg + y) && Distinct(x + seg + y)
    ensures Disjoint(a + seg + b, x + y)
    ensures forall c :: c in a + seg + b || c in x + y ==> c in a + b || c in x + seg + y
  {
    hide Disjoint, Distinct;
    DistinctConcat(x + seg, y);
    DistinctConcat(x, seg);
    DisjointConcat(a + b, x + seg, y);
    DisjointConcat(a + b, x, seg);
    DisjointConcat(x, a, b);
    DisjointConcat(y, a, b);
    DisjointConcat(y, x, seg);
    DisjointSymmetric(x, seg);
    DisjointConcat(x, a + seg, b);
    DisjointConcat(x, a, seg);
    DisjointConcat(y, a + seg, b);
    DisjointConcat(y, a, seg);
    DisjointConcat(a + seg + b, x, y);
  }

  lemma MovedRings(m: Links, a: seq<nat>, b: seq<nat>, x: seq<nat>, seg: seq<nat>, y: seq<nat>)
    requires a != [] && x != [] && seg != [] && Ring(m, a + b) && Ring(m, x + seg + y) && Disjoint(a + b, x + seg + y)
    ensures var m' := Transferred(m, (b + a)[0], seg[0], (y + x)[0]);
      Ring(m', a + seg + b) && Ring(m', x + y) && Distinct(x + seg + y)
  {
    hide Ring, Transferred, Disjoint;
    var u, v := y + x, b + a;
    var m' := Transferred(m, v[0], seg[0], u[0]);
    RingRotates(m, a, b);
    RingRotates(m, x + seg, y);
    assert y + (x + seg) == u + seg;
    assert Distinct(x + seg + y) by { RingDistinct(m, x + seg + y); }
    RotatedDisjoint(a, b, x, seg, y);
    MoveBetween(m, u, seg, v);
    RingRotates(m', y, x);
    assert v + seg == b + (a + seg);
    RingRotates(m', b, a + seg);
  }

  lemma RingDistinct(m: Links, r: seq<nat>)
    requires Ring(m, r)
    ensures Distinct(r)
  {
  }

  lemma RotatedDisjoint(a: seq<nat>, b: seq<nat>, x: seq<nat>, seg: seq<nat>, y: seq<nat>)
    requires Disjoint(a + b, x + seg + y)
    ensures Disjoint(y + x + seg, b + a)
  {
    assert forall c :: c in b + a <==> c in a + b;
    assert forall c :: c in y + x + seg <==> c in x + seg + y;
  }

  // ---------- changes to one list ----------

  lemma AfterOne(m: Links, m': Links, node: seq<nat>, rings: seq<seq<nat>>, i: nat, r: seq<nat>)
    requires Whole(m, node, rings) && i < |rings| && |m'.next| == |m'.prev| && Anchored(m', node[i], r)
    requires forall a :: a in r ==> a in rings[i] || a >= |m.next|
    requires forall k :: 0 <= k < |rings| && k != i ==> Ring(m', rings[k])
    ensures Whole(m', node, rings[i := r])
  {
    hide Ring;
    var after := rings[i := r];
    forall k | 0 <= k < |rings| && k != i ensures Disjoint(r, rings[k]) && Disjoint(rings[k], r) {
      assert Disjoint(rings[i], rings[k]) && Anchored(m, node[k], rings[k]);
      InMemory(m, rings[k]);
    }
  }

  lemma InMemory(m: Links, r: seq<nat>)
    requires Ring(m, r)
    ensures forall a :: a in r ==> a < |m.next|
  {
    hide Ring;
    forall a | a in r ensures a < |m.next| {
      var k :| 0 <= k < |r| && r[k] == a;
      RingBounds(m, r, k);
    }
  }

  /** insert: a new node before pos. */
  function Inserted(m: Links, pos: nat): Links {
    var tmp := |m.next|;
    Links(Put(m.next + [pos], At(m.prev, pos), tmp), Put(m.prev + [At(m.prev, pos)], pos, tmp))
  }

  lemma InsertedRing(m: Links, a: seq<nat>, b: seq<nat>)
    requires a != [] && Ring(m, a + b) && |m.next| == |m.prev|
    ensures Ring(Inserted(m, (b + a)[0]), a + [|m.next|] + b)
  {
    hide Ring, Inserted, Distinct, Path, Link;
    var v, tmp := b + a, |m.next|;
    var m' := Inserted(m, v[0]);
    RingRotates(m, a, b);
    RingParts(m, v);
    InMemory(m, v);
    InsertedPath(m, v);
    CloseRing(m', v, [tmp]);
    assert v + [tmp] == b + (a + [tmp]);
    RingRotates(m', b, a + [tmp]);
  }

  lemma RingParts(m: Links, v: seq<nat>)
    requires Ring(m, v)
    ensures Distinct(v) && Path(m, v) && Link(m, v[|v| - 1], v[0])
  {
  }

  lemma InsertedPath(m: Links, v: seq<nat>)
    requires v != [] && Path(m, v) && Distinct(v) && Link(m, v[|v| - 1], v[0]) && |m.next| == |m.prev|
    requires forall c :: c in v ==> c < |m.next|
    ensures var m', tmp := Inserted(m, v[0]), |m.next|;
      && Path(m', v) && Path(m', [tmp]) && Link(m', v[|v| - 1], tmp) && Link(m', tmp, v[0])
      && Distinct([tmp]) && Disjoint(v, [tmp])
  {
    hide Path;
    PathFrame(m, Inserted(m, v[0]), v);
    PathOne(Inserted(m, v[0]), |m.next|);
  }

  lemma PathOne(m: Links, a: nat)
    ensures Path(m, [a])
  {
  }

  lemma InsertedFrame(m: Links, pos: nat, r: seq<nat>, s: seq<nat>)
    requires Ring(m, r) && Ring(m, s) && pos in r && Disjoint(s, r) && |m.next| == |m.prev|
    ensures Ring(Inserted(m, pos), s)
  {
    hide Ring;
    PrevIn(m, r, pos);
    InMemory(m, s);
    RingFrame(m, Inserted(m, pos), s);
  }

  /** erase: the node pos is linked out. */
  function Erased(m: Links, pos: nat): Links {
    var n, p := At(m.next, pos), At(m.prev, pos);
    Links(Put(m.next, p, n), Put(m.prev, n, p))
  }

  lemma ErasedRing(m: Links, x: seq<nat>, e: nat, y: seq<nat>)
    requires x != [] && Ring(m, x + [e] + y)
    ensures Ring(Erased(m, e), x + y)
  {
    hide Ring, Erased, Distinct, Path, Link;
    var u := y + x;
    RingRotates(m, x + [e], y);
    assert y + (x + [e]) == u + [e];
    CutRing(m, u, [e]);
    ErasedPath(m, u, e);
    CloseOne(Erased(m, e), u);
    RingRotates(Erased(m, e), y, x);
  }

  lemma CloseOne(m: Links, u: seq<nat>)
    requires u != [] && Path(m, u) && Distinct(u) && Link(m, u[|u| - 1], u[0])
    ensures Ring(m, u)
  {
  }

  lemma ErasedPath(m: Links, u: seq<nat>, e: nat)
    requires u != [] && Path(m, u) && Distinct(u) && Disjoint(u, [e]) && Link(m, u[|u| - 1], e) && Link(m, e, u[0])
    ensures Path(Erased(m, e), u) && Link(Erased(m, e), u[|u| - 1], u[0])
  {
    hide Path;
    PathFrame(m, Erased(m, e), u);
  }

  lemma ErasedFrame(m: Links, pos: nat, r: seq<nat>, s: seq<nat>)
    requires Ring(m, r) && Ring(m, s) && pos in r && Disjoint(s, r)
    ensures Ring(Erased(m, pos), s)
  {
    hide Ring;
    PrevIn(m, r, pos);
    NextIn(m, r, pos);
    RingFrame(m, Erased(m, pos), s);
  }

  lemma NextIn(m: Links, r: seq<nat>, a: nat)
    requires Ring(m, r) && a in r
    ensures At(m.next, a) in r
  {
    hide Ring;
    var k :| 0 <= k < |r| && r[k] == a;
    RingBounds(m, r, k);
  }
}
