/** List objects over one memory of nodes, changed in place. */
module ListStore {
  import opened Ordering
  import opened ListLinks
  import opened ListRings
  import opened ListMoves
  import opened Merging
  import opened Ranges

  /** The order of nodes is the order of what they hold. */
  function ByData<T>(lt: Less<T>, data: seq<T>): Less<nat> {
    (a: nat, b: nat) => data != [] && lt(data[if a < |data| then a else 0], data[if b < |data| then b else 0])
  }

  class Lists<T(!new)> {
    var next: seq<nat>
    var prev: seq<nat>
    var data: seq<T>
    /** The sentinel of every list object. */
    var node: seq<nat>
    ghost var rings: seq<seq<nat>>

    ghost function Memory(): Links
      reads this
    {
      Links(next, prev)
    }

    ghost predicate Valid()
      reads this
    {
      Whole(Memory(), node, rings) && |data| == |next| && forall i :: 0 <= i < |rings| ==> rings[i] != []
    }

    /** The nodes of a list in order, and what they hold. */
    ghost function Nodes(i: nat): seq<nat>
      requires i < |rings| && rings[i] != []
      reads this
    {
      rings[i][1..]
    }

    ghost function Elements(i: nat): seq<T>
      requires i < |rings| && rings[i] != []
      reads this
    {
      Pick(data, Nodes(i))
    }

    constructor ()
      ensures Valid() && node == [] && rings == []
    {
      next, prev, data, node, rings := [], [], [], [], [];
    }

    /** An empty list; the sentinel's element is never set, junk stands for whatever is there. */
    method NewList(junk: T) returns (i: nat)
      requires Valid()
      modifies this
      ensures Valid() && i == old(|rings|) && rings == old(rings) + [[old(|next|)]] && node == old(node) + [old(|next|)]
      ensures data == old(data) + [junk] && |next| == old(|next|) + 1
    {
      hide Whole;
      WholeSizes(Memory(), node, rings);
      i := |node|;
      var c := |next|;
      WholeNew(Memory(), node, rings);
      next, prev, data, node, rings := next + [c], prev + [c], data + [junk], node + [c], rings + [[c]];
    }

    /** transfer: [first, last) moves before pos. */
    method Transfer(pos: nat, first: nat, last: nat)
      requires pos < |prev| && first < |prev| && last < |prev| && |next| == |prev|
      requires prev[pos] < |next| && prev[first] < |next| && prev[last] < |next| && pos != first
      modifies this`next, this`prev
      ensures |next| == old(|next|) && |prev| == old(|prev|)
      ensures Memory() == if pos == last then old(Memory()) else Transferred(old(Memory()), pos, first, last)
    {
      if pos != last {
        next := next[prev[last] := pos];
        next := next[prev[first] := last];
        next := next[prev[pos] := first];
        var tmp := prev[pos];
        prev := prev[pos := prev[last]];
        prev := prev[last := prev[first]];
        prev := prev[first := tmp];
      }
    }

    /** insert */
    method Insert(i: nat, ghost k: nat, position: nat, x: T) returns (tmp: nat)
      requires Valid() && i < |rings| && 1 <= k <= |rings[i]| && position == Place(rings[i], k)
      modifies this`next, this`prev, this`data, this`rings
      ensures Valid() && tmp == old(|next|) && data == old(data) + [x]
      ensures rings == old(rings)[i := old(rings[i])[..k] + [tmp] + old(rings[i])[k..]]
    {
      hide Whole;
      ghost var m := Memory();
      WholeAt(m, node, rings, i, k);
      WholeInsert(m, node, rings, i, k);
      tmp := |next|;
      next, prev, data := next + [position], prev + [prev[position]], data + [x];
      next := next[prev[position] := tmp];
      prev := prev[position := tmp];
      assert Memory() == Inserted(m, position);
      rings := rings[i := rings[i][..k] + [tmp] + rings[i][k..]];
    }

    /** erase of one node; gives the node behind it. */
    method Erase(i: nat, ghost k: nat, position: nat) returns (behind: nat)
      requires Valid() && i < |rings| && 1 <= k < |rings[i]| && position == rings[i][k]
      modifies this`next, this`prev, this`rings
      ensures Valid() && rings == old(rings)[i := old(rings[i])[..k] + old(rings[i])[k + 1..]]
      ensures behind == Place(rings[i], k)
    {
      hide Whole;
      ghost var m := Memory();
      WholeAt(m, node, rings, i, k);
      WholeErase(m, node, rings, i, k);
      var nextNode, prevNode := next[position], prev[position];
      next := next[prevNode := nextNode];
      prev := prev[nextNode := prevNode];
      assert Memory() == Erased(m, position);
      rings := rings[i := rings[i][..k] + rings[i][k + 1..]];
      behind := nextNode;
    }

    /** splice of a range of list j before place k of list i; both may be the same list. */
    method Splice(i: nat, ghost k: nat, position: nat, j: nat, ghost lo: nat, ghost hi: nat, first: nat, last: nat)
      requires Valid() && i < |rings| && j < |rings| && 1 <= k <= |rings[i]| && 1 <= lo <= hi <= |rings[j]|
      requires i == j ==> k < lo || hi <= k
      requires position == Place(rings[i], k) && first == Place(rings[j], lo) && last == Place(rings[j], hi)
      modifies this`next, this`prev, this`rings
      ensures Valid() && rings == Spliced(old(rings), i, k, j, lo, hi)
    {
      hide Whole, Transferred, Spliced;
      ghost var m := Memory();
      WholeAt(m, node, rings, i, k);
      WholeAt(m, node, rings, j, lo);
      WholeAt(m, node, rings, j, hi);
      SpliceMeans(m, node, rings, i, k, j, lo, hi);
      if first != last {
        Transfer(position, first, last);
      }
      rings := Spliced(rings, i, k, j, lo, hi);
      WholeNonempty(Memory(), node, rings);
    }

    /** reverse */
    method Reverse(i: nat)
      requires Valid() && i < |rings|
      modifies this`next, this`prev, this`rings
      ensures Valid() && rings == old(rings)[i := Backwards(old(rings[i]))]
    {
      hide Whole, Turned, Ring, Backwards;
      ghost var m, r, k := Memory(), rings[i], 0;
      WholeAt(m, node, rings, i, 0);
      TurnStarts(m, r);
      var p := node[i];
      var tmp := p;
      while true
        invariant rings == old(rings) && k < |r| && tmp == r[k] && Turned(m, Memory(), r, k)
        decreases |r| - k
      {
        TurnOne(m, Memory(), r, k);
        TurnedBounds(m, Memory(), r, k, k);
        next, prev := next[tmp := prev[tmp]], prev[tmp := next[tmp]];
        TurnedBounds(m, Memory(), r, k, k + 1);
        tmp := prev[tmp];
        k := k + 1;
        if tmp == p { break; }
      }
      TurnedSizes(m, Memory(), r);
      TurnedWhole(m, Memory(), node, rings, i);
      rings := rings[i := Backwards(rings[i])];
      WholeNonempty(Memory(), node, rings);
    }

    /** swap: two list objects exchange their rings. */
    method Swap(i: nat, j: nat)
      requires Valid() && i < |rings| && j < |rings|
      modifies this`node, this`rings
      ensures Valid() && rings == old(rings)[i := old(rings[j])][j := old(rings[i])]
      ensures node == old(node)[i := old(node[j])][j := old(node[i])]
    {
      hide Whole;
      WholeSizes(Memory(), node, rings);
      WholeSwap(Memory(), node, rings, i, j);
      node := node[i := node[j]][j := node[i]];
      rings := rings[i := rings[j]][j := rings[i]];
    }

    /** The destructor of the last list object, when it holds nothing: its sentinel goes. */
    method Drop()
      requires Valid() && rings != [] && |rings[|rings| - 1]| == 1
      modifies this`node, this`rings
      ensures Valid() && rings == old(rings)[..|old(rings)| - 1] && node == old(node)[..|old(rings)| - 1]
    {
      hide Whole;
      WholeSizes(Memory(), node, rings);
      WholeFront(Memory(), node, rings);
      node := node[..|node| - 1];
      rings := rings[..|rings| - 1];
    }

    method Empty(i: nat) returns (empty: bool)
      requires Valid() && i < |rings|
      ensures empty <==> |rings[i]| == 1
    {
      hide Whole;
      WholeAt(Memory(), node, rings, i, 0);
      SamePlaces(Memory(), node, rings, i, 1, i, |rings[i]|);
      empty := next[node[i]] == node[i];
    }
  }

  lemma WholeNew(m: Links, node: seq<nat>, rings: seq<seq<nat>>)
    requires Whole(m, node, rings)
    ensures var c := |m.next|; Whole(Links(m.next + [c], m.prev + [c]), node + [c], rings + [[c]])
  {
    hide Ring, Disjoint;
    var c := |m.next|;
    var m' := Links(m.next + [c], m.prev + [c]);
    var after := rings + [[c]];
    CloseOne(m', [c]);
    forall i | 0 <= i < |rings| ensures Ring(m', rings[i]) && Disjoint(rings[i], [c]) && Disjoint([c], rings[i]) {
      assert Anchored(m, node[i], rings[i]);
      InMemory(m, rings[i]);
      RingFrame(m, m', rings[i]);
      DisjointOne(rings[i], c);
    }
    forall i | 0 <= i < |after| ensures Anchored(m', (node + [c])[i], after[i]) {
      assert i < |rings| ==> Anchored(m, node[i], rings[i]);
    }
    forall i, j | 0 <= i < |after| && 0 <= j < |after| && i != j ensures Disjoint(after[i], after[j]) {
      assert i < |rings| && j < |rings| ==> Disjoint(rings[i], rings[j]);
    }
  }

  lemma DisjointOne(r: seq<nat>, c: nat)
    requires forall a :: a in r ==> a < c
    ensures Disjoint(r, [c]) && Disjoint([c], r)
  {
  }

  lemma WholeSizes(m: Links, node: seq<nat>, rings: seq<seq<nat>>)
    requires Whole(m, node, rings)
    ensures |node| == |rings| && |m.next| == |m.prev|
  {
  }

  /** The node at a place and its neighbours, within bounds. */
  lemma WholeAt(m: Links, node: seq<nat>, rings: seq<seq<nat>>, i: nat, k: nat)
    requires Whole(m, node, rings) && i < |rings| && k <= |rings[i]|
    ensures |node| == |rings| && |m.next| == |m.prev| && Ring(m, rings[i]) && rings[i][0] == node[i]
    ensures var a := Place(rings[i], k); a < |m.prev| && m.prev[a] < |m.next| && m.next[a] < |m.prev|
    ensures k > 0 ==> m.prev[Place(rings[i], k)] == rings[i][k - 1]
    ensures k < |rings[i]| ==> m.next[rings[i][k]] == Place(rings[i], k + 1)
  {
    hide Ring, Disjoint;
    assert Anchored(m, node[i], rings[i]);
    var r := rings[i];
    RingNonempty(m, r);
    var l := if k < |r| then k else 0;
    RingBounds(m, r, l);
    RingBounds(m, r, if l + 1 < |r| then l + 1 else 0);
    RingBounds(m, r, if l > 0 then l - 1 else |r| - 1);
  }

  lemma SpliceMeans(m: Links, node: seq<nat>, rings: seq<seq<nat>>, i: nat, k: nat, j: nat, lo: nat, hi: nat)
    requires Whole(m, node, rings) && i < |rings| && j < |rings| && 1 <= k <= |rings[i]| && 1 <= lo <= hi <= |rings[j]|
    requires i == j ==> k < lo || hi <= k
    ensures var pos, first, last := Place(rings[i], k), Place(rings[j], lo), Place(rings[j], hi);
      Whole(if first == last || pos == last then m else Transferred(m, pos, first, last), node, Spliced(rings, i, k, j, lo, hi))
    ensures lo < hi ==> Place(rings[j], lo) != Place(rings[j], hi) && Place(rings[i], k) != Place(rings[j], lo)
    ensures lo == hi ==> Place(rings[j], lo) == Place(rings[j], hi)
  {
    hide Whole, Transferred;
    WholeAt(m, node, rings, i, k);
    WholeAt(m, node, rings, j, lo);
    if lo < hi {
      SamePlaces(m, node, rings, i, k, j, lo);
      SamePlaces(m, node, rings, i, k, j, hi);
      SamePlaces(m, node, rings, j, lo, j, hi);
      if i != j {
        SplicedBetween(m, node, rings, i, k, j, lo, hi);
      } else if k != hi {
        SplicedWithin(m, node, rings, i, k, lo, hi);
      } else {
        SplicedToSelf(rings, i, lo, hi);
      }
    } else {
      SplicedNothing(rings, i, k, j, lo);
    }
  }

  lemma SamePlaces(m: Links, node: seq<nat>, rings: seq<seq<nat>>, i: nat, k: nat, j: nat, l: nat)
    requires Whole(m, node, rings) && i < |rings| && j < |rings| && 1 <= k <= |rings[i]| && 1 <= l <= |rings[j]|
    ensures Place(rings[i], k) == Place(rings[j], l) <==> i == j && k == l
  {
    hide Ring;
    assert Anchored(m, node[i], rings[i]) && Anchored(m, node[j], rings[j]);
    if i == j {
      if Place(rings[i], k) == Place(rings[j], l) { SamePlace(m, rings[i], k, l); }
    } else {
      assert Disjoint(rings[i], rings[j]);
      RingNonempty(m, rings[i]);
      RingNonempty(m, rings[j]);
      assert Place(rings[i], k) in rings[i] && Place(rings[j], l) in rings[j];
    }
  }

  lemma SplicedToSelf(rings: seq<seq<nat>>, i: nat, lo: nat, hi: nat)
    requires i < |rings| && lo < hi <= |rings[i]|
    ensures Spliced(rings, i, hi, i, lo, hi) == rings
  {
    var r := rings[i];
    assert r == r[..lo] + r[hi..hi] + r[lo..hi] + r[hi..];
  }

  lemma SplicedNothing(rings: seq<seq<nat>>, i: nat, k: nat, j: nat, lo: nat)
    requires i < |rings| && j < |rings| && k <= |rings[i]| && lo <= |rings[j]|
    ensures Spliced(rings, i, k, j, lo, lo) == rings
  {
    var r, q := rings[i], rings[j];
    assert q[..lo] + q[lo..] == q && r[..k] + q[lo..lo] + r[k..] == r;
    if i == j && k <= lo { assert r == r[..k] + r[lo..lo] + r[k..lo] + r[lo..]; }
    if i == j && lo <= k { assert r == r[..lo] + r[lo..k] + r[lo..lo] + r[k..]; }
  }

  lemma TurnStarts(m: Links, r: seq<nat>)
    ensures Turned(m, m, r, 0)
  {
  }

  lemma TurnedBounds(m: Links, m': Links, r: seq<nat>, k: nat, l: nat)
    requires Ring(m, r) && |m.next| == |m.prev| && Turned(m, m', r, l) && k < |r|
    ensures r[k] < |m'.next| && r[k] < |m'.prev|
    ensures k < l ==> m'.prev[r[k]] == Place(r, k + 1)
    ensures Place(r, k + 1) == r[0] <==> k + 1 == |r|
  {
    RingBounds(m, r, k);
  }

  lemma RingNonempty(m: Links, r: seq<nat>)
    requires Ring(m, r)
    ensures r != []
  {
  }

  lemma WholeNonempty(m: Links, node: seq<nat>, rings: seq<seq<nat>>)
    requires Whole(m, node, rings)
    ensures forall i :: 0 <= i < |rings| ==> rings[i] != []
  {
  }

  lemma WholeSwap(m: Links, node: seq<nat>, rings: seq<seq<nat>>, i: nat, j: nat)
    requires Whole(m, node, rings) && i < |rings| && j < |rings|
    ensures Whole(m, node[i := node[j]][j := node[i]], rings[i := rings[j]][j := rings[i]])
  {
    hide Ring, Disjoint;
    var n, r := node[i := node[j]][j := node[i]], rings[i := rings[j]][j := rings[i]];
    forall k | 0 <= k < |r| ensures Anchored(m, n[k], r[k]) {
      assert Anchored(m, node[k], rings[k]) && Anchored(m, node[i], rings[i]) && Anchored(m, node[j], rings[j]);
    }
    forall k, l | 0 <= k < |r| && 0 <= l < |r| && k != l ensures Disjoint(r[k], r[l]) {
      var k', l' := if k == i then j else if k == j then i else k, if l == i then j else if l == j then i else l;
      assert Disjoint(rings[k'], rings[l']);
    }
  }

  lemma WholeFront(m: Links, node: seq<nat>, rings: seq<seq<nat>>)
    requires Whole(m, node, rings) && rings != []
    ensures Whole(m, node[..|rings| - 1], rings[..|rings| - 1])
  {
    hide Ring, Disjoint;
    forall k | 0 <= k < |rings| - 1 ensures Anchored(m, node[k], rings[k]) { }
  }
}
