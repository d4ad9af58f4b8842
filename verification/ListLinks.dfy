/** Circular doubly linked lists as rings of nodes in a memory of next and prev fields. */
module ListLinks {
  import opened Sequences

  /** The next and prev fields of all nodes; a node is its index. */
  datatype Links = Links(next: seq<nat>, prev: seq<nat>)

  ghost predicate Link(m: Links, a: nat, b: nat) {
    a < |m.next| && b < |m.prev| && m.next[a] == b && m.prev[b] == a
  }

  ghost predicate LinkAt(m: Links, s: seq<nat>, i: nat) { i + 1 < |s| && Link(m, s[i], s[i + 1]) }

  ghost predicate Path(m: Links, s: seq<nat>) { forall i: nat :: i + 1 < |s| ==> LinkAt(m, s, i) }

  ghost predicate Disjoint(s: seq<nat>, t: seq<nat>) { forall a :: a in s ==> a !in t }

  /** The nodes of s, no two the same, are linked in a circle. */
  ghost predicate Ring(m: Links, s: seq<nat>) {
    s != [] && Distinct(s) && Path(m, s) && Link(m, s[|s| - 1], s[0])
  }

  lemma DistinctConcat(s: seq<nat>, t: seq<nat>)
    ensures Distinct(s + t) <==> Distinct(s) && Distinct(t) && Disjoint(s, t)
  {
    var u := s + t;
    if Distinct(u) {
      forall i, j | 0 <= i < j < |s| ensures s[i] != s[j] { assert u[i] != u[j]; }
      forall i, j | 0 <= i < j < |t| ensures t[i] != t[j] { assert u[|s| + i] != u[|s| + j]; }
      forall a | a in s ensures a !in t {
        var i :| 0 <= i < |s| && s[i] == a;
        forall j | 0 <= j < |t| ensures t[j] != a { assert u[i] != u[|s| + j]; }
      }
    }
    if Distinct(s) && Distinct(t) && Disjoint(s, t) {
      forall i, j | 0 <= i < j < |u| ensures u[i] != u[j] {
        if i < |s| <= j { assert u[i] in s && u[j] in t; }
      }
    }
  }

  lemma DistinctRotates(s: seq<nat>, t: seq<nat>)
    ensures Distinct(s + t) <==> Distinct(t + s)
  {
    hide Distinct;
    DistinctConcat(s, t);
    DistinctConcat(t, s);
  }

  lemma PathConcat(m: Links, s: seq<nat>, t: seq<nat>)
    requires s != [] && t != []
    ensures Path(m, s + t) <==> Path(m, s) && Path(m, t) && Link(m, s[|s| - 1], t[0])
  {
    hide Link;
    var u := s + t;
    if Path(m, u) {
      forall i: nat | i + 1 < |s| ensures LinkAt(m, s, i) { assert LinkAt(m, u, i); }
      forall i: nat | i + 1 < |t| ensures LinkAt(m, t, i) { assert LinkAt(m, u, |s| + i); }
      assert LinkAt(m, u, |s| - 1);
    }
    if Path(m, s) && Path(m, t) && Link(m, s[|s| - 1], t[0]) {
      forall i: nat | i + 1 < |u| ensures LinkAt(m, u, i) {
        if i + 1 < |s| { assert LinkAt(m, s, i); }
        if i >= |s| { assert LinkAt(m, t, i - |s|); }
      }
    }
  }

  /** A ring has no beginning. */
  lemma RingRotates(m: Links, s: seq<nat>, t: seq<nat>)
    requires Ring(m, s + t)
    ensures Ring(m, t + s)
  {
    hide Path, Link, Distinct;
    if s != [] && t != [] {
      PathConcat(m, s, t);
      PathConcat(m, t, s);
      DistinctRotates(s, t);
    } else {
      assert s + t == t + s;
    }
  }

  lemma PathFrame(m: Links, m': Links, s: seq<nat>)
    requires Path(m, s) && |m'.next| >= |m.next| && |m'.prev| >= |m.prev|
    requires forall i :: 0 <= i < |s| - 1 && s[i] < |m.next| ==> m'.next[s[i]] == m.next[s[i]]
    requires forall i :: 1 <= i < |s| && s[i] < |m.prev| ==> m'.prev[s[i]] == m.prev[s[i]]
    ensures Path(m', s)
  {
    forall i: nat | i + 1 < |s| ensures LinkAt(m', s, i) { assert LinkAt(m, s, i); }
  }

  /** Rings without changed nodes stay rings. */
  lemma RingFrame(m: Links, m': Links, s: seq<nat>)
    requires Ring(m, s) && |m'.next| >= |m.next| && |m'.prev| >= |m.prev|
    requires forall a :: a in s && a < |m.next| ==> m'.next[a] == m.next[a]
    requires forall a :: a in s && a < |m.prev| ==> m'.prev[a] == m.prev[a]
    ensures Ring(m', s)
  {
    hide Distinct, Path;
    PathFrame(m, m', s);
  }

  // ---------- moving a piece ----------

  function At(s: seq<nat>, i: nat): nat { if i < |s| then s[i] else 0 }

  function Put(s: seq<nat>, i: nat, x: nat): (t: seq<nat>)
    ensures |t| == |s|
  {
    if i < |s| then s[i := x] else s
  }

  /** What transfer leaves: [first, last) before pos. */
  function Transferred(m: Links, pos: nat, first: nat, last: nat): Links {
    Links(
      Put(Put(Put(m.next, At(m.prev, last), pos), At(m.prev, first), last), At(m.prev, pos), first),
      Put(Put(Put(m.prev, pos, At(m.prev, last)), last, At(m.prev, first)), first, At(m.prev, pos)))
  }

  /** The nodes z, w, y before last, first and pos. */
  ghost predicate Before(m: Links, pos: nat, first: nat, last: nat, z: nat, w: nat, y: nat) {
    && pos < |m.prev| && first < |m.prev| && last < |m.prev| && z < |m.next| && w < |m.next| && y < |m.next|
    && m.prev[last] == z && m.prev[first] == w && m.prev[pos] == y
    && pos != first && pos != last && first != last && z != w && z != y && w != y
  }

  lemma ThreeLinks(m: Links, pos: nat, first: nat, last: nat, z: nat, w: nat, y: nat)
    requires Before(m, pos, first, last, z, w, y)
    ensures var m' := Transferred(m, pos, first, last);
      && |m'.next| == |m.next| && |m'.prev| == |m.prev|
      && Link(m', z, pos) && Link(m', w, last) && Link(m', y, first)
      && (forall a :: 0 <= a < |m.next| && a != z && a != w && a != y ==> m'.next[a] == m.next[a])
      && (forall a :: 0 <= a < |m.prev| && a != pos && a != first && a != last ==> m'.prev[a] == m.prev[a])
  {
  }

  /** A piece that starts and ends where links change keeps its inner links. */
  lemma PieceStays(m: Links, m': Links, s: seq<nat>, t: seq<nat>, pos: nat, first: nat, last: nat, z: nat, w: nat, y: nat)
    requires s != [] && Path(m, s) && Distinct(s) && Disjoint(s, t) && |m'.next| == |m.next| && |m'.prev| == |m.prev|
    requires forall a :: 0 <= a < |m.next| && a != z && a != w && a != y ==> m'.next[a] == m.next[a]
    requires forall a :: 0 <= a < |m.prev| && a != pos && a != first && a != last ==> m'.prev[a] == m.prev[a]
    requires (z == s[|s| - 1] || z in t) && (w == s[|s| - 1] || w in t) && (y == s[|s| - 1] || y in t)
    requires (pos == s[0] || pos in t) && (first == s[0] || first in t) && (last == s[0] || last in t)
    ensures Path(m', s)
  {
    hide Path, Link;
    assert forall i :: 0 <= i < |s| ==> s[i] !in t;
    PathFrame(m, m', s);
  }

  /** The pieces u, seg and v, which transfer joins anew. */
  ghost predicate Pieces(m: Links, u: seq<nat>, seg: seq<nat>, v: seq<nat>) {
    && u != [] && seg != [] && v != [] && Path(m, u) && Path(m, seg) && Path(m, v)
    && Distinct(u) && Distinct(seg) && Distinct(v) && Disjoint(u, seg) && Disjoint(u, v) && Disjoint(seg, v)
  }

  lemma DisjointAll(u: seq<nat>, seg: seq<nat>, v: seq<nat>)
    requires Disjoint(u, seg) && Disjoint(u, v) && Disjoint(seg, v)
    ensures Disjoint(u, seg + v) && Disjoint(seg, u + v) && Disjoint(v, u + seg)
  {
  }

  lemma InPiece(s: seq<nat>, t: seq<nat>)
    requires s != []
    ensures s[0] in s + t && s[|s| - 1] in s + t && s[0] in t + s && s[|s| - 1] in t + s
  {
    assert (s + t)[0] == s[0] && (s + t)[|s| - 1] == s[|s| - 1];
    assert (t + s)[|t|] == s[0] && (t + s)[|t + s| - 1] == s[|s| - 1];
  }

  lemma PiecesStay(m: Links, u: seq<nat>, seg: seq<nat>, v: seq<nat>, z: nat, w: nat, y: nat)
    requires Pieces(m, u, seg, v) && Before(m, v[0], seg[0], u[0], z, w, y)
    requires {z, w, y} == {u[|u| - 1], seg[|seg| - 1], v[|v| - 1]}
    ensures var m' := Transferred(m, v[0], seg[0], u[0]); Path(m', u) && Path(m', seg) && Path(m', v)
  {
    hide Path, Link, Transferred, Distinct, Disjoint;
    var m' := Transferred(m, v[0], seg[0], u[0]);
    ThreeLinks(m, v[0], seg[0], u[0], z, w, y);
    DisjointAll(u, seg, v);
    assert z in {u[|u| - 1], seg[|seg| - 1], v[|v| - 1]} && w in {u[|u| - 1], seg[|seg| - 1], v[|v| - 1]};
    assert y in {u[|u| - 1], seg[|seg| - 1], v[|v| - 1]};
    InPiece(u, seg);
    InPiece(u, v);
    InPiece(seg, u);
    InPiece(seg, v);
    InPiece(v, u);
    InPiece(v, seg);
    PieceStays(m, m', u, seg + v, v[0], seg[0], u[0], z, w, y);
    PieceStays(m, m', seg, u + v, v[0], seg[0], u[0], z, w, y);
    PieceStays(m, m', v, u + seg, v[0], seg[0], u[0], z, w, y);
  }

  lemma CutRing(m: Links, s: seq<nat>, t: seq<nat>)
    requires Ring(m, s + t) && s != [] && t != []
    ensures Path(m, s) && Path(m, t) && Distinct(s) && Distinct(t) && Disjoint(s, t)
    ensures Link(m, s[|s| - 1], t[0]) && Link(m, t[|t| - 1], s[0])
  {
    hide Path, Link, Distinct, Disjoint;
    PathConcat(m, s, t);
    DistinctConcat(s, t);
  }

  lemma CloseRing(m: Links, s: seq<nat>, t: seq<nat>)
    requires s != [] && t != [] && Path(m, s) && Path(m, t) && Distinct(s) && Distinct(t) && Disjoint(s, t)
    requires Link(m, s[|s| - 1], t[0]) && Link(m, t[|t| - 1], s[0])
    ensures Ring(m, s + t)
  {
    hide Path, Link, Distinct, Disjoint;
    PathConcat(m, s, t);
    DistinctConcat(s, t);
  }

  lemma DisjointConcat(s: seq<nat>, t: seq<nat>, u: seq<nat>)
    ensures Disjoint(s, t + u) <==> Disjoint(s, t) && Disjoint(s, u)
    ensures Disjoint(t + u, s) <==> Disjoint(t, s) && Disjoint(u, s)
  {
    assert forall a :: a in t + u <==> a in t || a in u;
  }

  lemma DisjointSymmetric(s: seq<nat>, t: seq<nat>)
    ensures Disjoint(s, t) <==> Disjoint(t, s)
  {
  }

  /** From ring u + seg to ring v: seg leaves the one and comes last in the other. */
  lemma MoveBetween(m: Links, u: seq<nat>, seg: seq<nat>, v: seq<nat>)
    requires u != [] && seg != [] && v != [] && Ring(m, u + seg) && Ring(m, v) && Disjoint(u + seg, v)
    ensures var m' := Transferred(m, v[0], seg[0], u[0]); Ring(m', u) && Ring(m', v + seg)
  {
    hide Path, Link, Transferred, Distinct, Disjoint;
    var m' := Transferred(m, v[0], seg[0], u[0]);
    CutRing(m, u, seg);
    DisjointConcat(v, u, seg);
    DisjointSymmetric(seg, v);
    DisjointSymmetric(u, v);
    var z, w, y := seg[|seg| - 1], u[|u| - 1], v[|v| - 1];
    EndsBefore(m, u, seg, v, z, w, y);
    PiecesStay(m, u, seg, v, z, w, y);
    ThreeLinks(m, v[0], seg[0], u[0], z, w, y);
    DisjointSymmetric(v, seg);
    CloseRing(m', v, seg);
  }

  lemma EndsBefore(m: Links, u: seq<nat>, seg: seq<nat>, v: seq<nat>, z: nat, w: nat, y: nat)
    requires Pieces(m, u, seg, v)
    requires (z, w, y) == (seg[|seg| - 1], u[|u| - 1], v[|v| - 1]) || (z, w, y) == (seg[|seg| - 1], v[|v| - 1], u[|u| - 1])
    requires Link(m, z, u[0]) && Link(m, w, seg[0]) && Link(m, y, v[0])
    ensures Before(m, v[0], seg[0], u[0], z, w, y)
  {
    hide Path, Distinct;
    InPiece(u, seg);
    InPiece(u, v);
    InPiece(seg, u);
    InPiece(seg, v);
  }

  /** Within a ring: the pieces u and seg change places around v. */
  lemma MoveWithin(m: Links, u: seq<nat>, seg: seq<nat>, v: seq<nat>)
    requires u != [] && seg != [] && v != [] && Ring(m, u + v + seg)
    ensures Ring(Transferred(m, v[0], seg[0], u[0]), u + seg + v)
  {
    hide Path, Link, Transferred, Distinct, Disjoint;
    var m' := Transferred(m, v[0], seg[0], u[0]);
    CutRing(m, u + v, seg);
    PathConcat(m, u, v);
    DistinctConcat(u, v);
    DisjointConcat(seg, u, v);
    DisjointSymmetric(u, seg);
    DisjointSymmetric(v, seg);
    var z, w, y := seg[|seg| - 1], v[|v| - 1], u[|u| - 1];
    assert (u + v)[0] == u[0] && (u + v)[|u + v| - 1] == w;
    EndsBefore(m, u, seg, v, z, w, y);
    PiecesStay(m, u, seg, v, z, w, y);
    ThreeLinks(m, v[0], seg[0], u[0], z, w, y);
    CloseParts(m', u, seg, v);
  }

  lemma CloseParts(m: Links, u: seq<nat>, seg: seq<nat>, v: seq<nat>)
    requires Pieces(m, u, seg, v)
    requires Link(m, u[|u| - 1], seg[0]) && Link(m, seg[|seg| - 1], v[0]) && Link(m, v[|v| - 1], u[0])
    ensures Ring(m, u + seg + v)
  {
    hide Path, Link, Distinct, Disjoint;
    PathConcat(m, u, seg);
    DisjointConcat(v, u, seg);
    DistinctConcat(u, seg);
    assert (u + seg)[0] == u[0] && (u + seg)[|u + seg| - 1] == seg[|seg| - 1];
    CloseRing(m, u + seg, v);
  }

  /** A ring with none of the nodes of the move is as it was. */
  lemma MoveFrame(m: Links, pos: nat, first: nat, last: nat, s: seq<nat>, t: seq<nat>)
    requires Ring(m, s) && Disjoint(s, t) && pos in t && first in t && last in t
    requires At(m.prev, pos) in t && At(m.prev, first) in t && At(m.prev, last) in t
    ensures Ring(Transferred(m, pos, first, last), s)
  {
    hide Ring;
    RingFrame(m, Transferred(m, pos, first, last), s);
  }
}
