/** The memory of a hash table: nodes with values, and the buckets that are chains of them. */
module HashMemory {
  import opened Ranges
  import opened HashChains

  /** home says which bucket a node is in, or -1; chains are the nodes of the buckets in order. */
  datatype Mem<V> = Mem(next: seq<int>, home: seq<int>, val: seq<V>, heads: seq<int>, chains: seq<seq<nat>>)

  ghost predicate Ok<V>(m: Mem<V>) { Chains(m.next, m.home, m.heads, m.chains) && |m.val| == |m.next| }

  /** The buckets' values. */
  function View<V>(val: seq<V>, cs: seq<seq<nat>>): (t: seq<seq<V>>)
    ensures |t| == |cs|
  {
    seq(|cs|, b requires 0 <= b < |cs| => Pick(val, cs[b]))
  }

  function Values<V>(m: Mem<V>): (t: seq<seq<V>>)
    ensures |t| == |m.chains|
  {
    View(m.val, m.chains)
  }

  lemma ViewUpdate<V>(val: seq<V>, cs: seq<seq<nat>>, b: nat, c: seq<nat>)
    requires b < |cs|
    ensures View(val, cs[b := c]) == View(val, cs)[b := Pick(val, c)] && View(val, cs)[b] == Pick(val, cs[b])
  {
    hide Pick;
  }

  /** Node i of bucket b. */
  lemma NodeAt<V>(m: Mem<V>, b: nat, i: nat)
    requires Ok(m) && b < |m.chains| && i < |m.chains[b]|
    ensures var a := m.chains[b][i];
      && |m.home| == |m.next| == |m.val| && a < |m.next| && m.next[a] == Head(m.chains[b], i + 1) && m.home[a] == b
      && |Values(m)[b]| == |m.chains[b]| && Values(m)[b][i] == m.val[a]
  {
    hide Pick;
    ChainAt(m.next, m.home, m.heads, m.chains, b, i);
    PickAt(m.val, m.chains[b], i);
  }

  lemma BucketAt<V>(m: Mem<V>, b: nat)
    requires Ok(m) && b < |m.chains|
    ensures |m.heads| == |m.chains| && m.heads[b] == Head(m.chains[b], 0) && |Values(m)[b]| == |m.chains[b]|
    ensures forall i :: 0 <= i < |m.chains[b]| ==> m.chains[b][i] < |m.val|
  {
    hide Pick;
    assert Chain(m.next, m.home, m.heads[b], m.chains[b], b);
    InMemory(m.next, m.home, m.heads, m.chains);
    PickLength(m.val, m.chains[b]);
  }

  // ---------- one change ----------

  /** A new node for x, in no bucket. */
  function Fresh<V>(m: Mem<V>, x: V): Mem<V> { Mem(m.next + [-1], m.home + [-1], m.val + [x], m.heads, m.chains) }

  lemma FreshOk<V>(m: Mem<V>, x: V)
    requires Ok(m)
    ensures var m' := Fresh(m, x); Ok(m') && Values(m') == Values(m) && m'.home[|m.val|] == -1 && m'.val[|m.val|] == x
  {
    hide Chain, Pick;
    Grow(m.next, m.home, m.heads, m.chains);
    forall b | 0 <= b < |m.chains| ensures Pick(m.val + [x], m.chains[b]) == Pick(m.val, m.chains[b]) {
      BucketAt(m, b);
      PickGrown(m.val, x, m.chains[b]);
    }
  }

  lemma PickGrown<V>(val: seq<V>, x: V, c: seq<nat>)
    requires forall i :: 0 <= i < |c| ==> c[i] < |val|
    ensures Pick(val + [x], c) == Pick(val, c)
  {
    hide Pick;
    PickLength(val, c);
    PickLength(val + [x], c);
    forall i | 0 <= i < |c| ensures Pick(val + [x], c)[i] == Pick(val, c)[i] {
      PickAt(val, c, i);
      PickAt(val + [x], c, i);
    }
  }

  /** Node a in front of bucket b. */
  function Pushed<V>(m: Mem<V>, b: nat, a: nat): Mem<V>
    requires b < |m.heads| && b < |m.chains| && a < |m.next| && a < |m.home|
  {
    Mem(m.next[a := m.heads[b]], m.home[a := b], m.val, m.heads[b := a], m.chains[b := [a] + m.chains[b]])
  }

  lemma PushedOk<V>(m: Mem<V>, b: nat, a: nat)
    requires Ok(m) && b < |m.chains| && a < |m.next| && m.home[a] == -1
    ensures |m.heads| == |m.chains| && |m.home| == |m.next| && Ok(Pushed(m, b, a)) && Values(Pushed(m, b, a)) == Values(m)[b := [m.val[a]] + Values(m)[b]]
  {
    hide Chain, Pick;
    BucketAt(m, b);
    PushFront(m.next, m.home, m.heads, m.chains, b, a);
    PickConcat(m.val, [a], m.chains[b]);
    PickAt(m.val, [a], 0);
    ViewUpdate(m.val, m.chains, b, [a] + m.chains[b]);
    assert Pick(m.val, [a]) == [m.val[a]];
  }

  /** The first node of bucket b taken out. */
  function Popped<V>(m: Mem<V>, b: nat): Mem<V>
    requires b < |m.heads| && b < |m.chains| && m.chains[b] != [] && m.chains[b][0] < |m.next| && m.chains[b][0] < |m.home|
  {
    var a := m.chains[b][0];
    Mem(m.next, m.home[a := -1], m.val, m.heads[b := m.next[a]], m.chains[b := m.chains[b][1..]])
  }

  lemma PoppedOk<V>(m: Mem<V>, b: nat)
    requires Ok(m) && b < |m.chains| && m.chains[b] != []
    ensures var a := m.chains[b][0];
      && |m.heads| == |m.chains| && |m.home| == |m.next| && a < |m.next| && Values(m)[b] != []
      && Ok(Popped(m, b)) && Values(Popped(m, b)) == Values(m)[b := Values(m)[b][1..]]
  {
    hide Chain, Pick;
    BucketAt(m, b);
    NodeAt(m, b, 0);
    var c := m.chains[b];
    PopFront(m.next, m.home, m.heads, m.chains, b);
    assert c == c[..1] + c[1..];
    PickConcat(m.val, c[..1], c[1..]);
    PickLength(m.val, c[..1]);
    ViewUpdate(m.val, m.chains, b, c[1..]);
  }

  /** Node a behind node i of bucket b. */
  function Inserted<V>(m: Mem<V>, b: nat, i: nat, a: nat): Mem<V>
    requires b < |m.chains| && i < |m.chains[b]| && m.chains[b][i] < |m.next| && a < |m.next| && a < |m.home|
  {
    var c := m.chains[b];
    Mem(m.next[a := m.next[c[i]]][c[i] := a], m.home[a := b], m.val, m.heads, m.chains[b := c[..i + 1] + [a] + c[i + 1..]])
  }

  lemma InsertedOk<V>(m: Mem<V>, b: nat, i: nat, a: nat)
    requires Ok(m) && b < |m.chains| && i < |m.chains[b]| && a < |m.next| && m.home[a] == -1
    ensures |m.home| == |m.next| && m.chains[b][i] < |m.next| && |Values(m)[b]| == |m.chains[b]| && Ok(Inserted(m, b, i, a))
    ensures var v := Values(m)[b]; Values(Inserted(m, b, i, a)) == Values(m)[b := v[..i + 1] + [m.val[a]] + v[i + 1..]]
  {
    hide Chain, Pick;
    BucketAt(m, b);
    NodeAt(m, b, i);
    var c := m.chains[b];
    InsertAfter(m.next, m.home, m.heads, m.chains, b, i, a);
    PickCut(m.val, c, i + 1);
    PickConcat(m.val, c[..i + 1] + [a], c[i + 1..]);
    PickConcat(m.val, c[..i + 1], [a]);
    PickAt(m.val, [a], 0);
    assert Pick(m.val, [a]) == [m.val[a]];
    ViewUpdate(m.val, m.chains, b, c[..i + 1] + [a] + c[i + 1..]);
  }

  lemma PickCut<V>(val: seq<V>, c: seq<nat>, i: nat)
    requires i <= |c| && forall k :: 0 <= k < |c| ==> c[k] < |val|
    ensures |Pick(val, c)| == |c| && Pick(val, c[..i]) == Pick(val, c)[..i] && Pick(val, c[i..]) == Pick(val, c)[i..]
  {
    hide Pick;
    assert c == c[..i] + c[i..];
    PickConcat(val, c[..i], c[i..]);
    PickLength(val, c[..i]);
    PickLength(val, c);
  }

  /** The node behind node i of bucket b taken out. */
  function Removed<V>(m: Mem<V>, b: nat, i: nat): Mem<V>
    requires b < |m.chains| && i + 1 < |m.chains[b]| && m.chains[b][i] < |m.next|
    requires m.chains[b][i + 1] < |m.next| && m.chains[b][i + 1] < |m.home|
  {
    var c := m.chains[b];
    Mem(m.next[c[i] := m.next[c[i + 1]]], m.home[c[i + 1] := -1], m.val, m.heads, m.chains[b := c[..i + 1] + c[i + 2..]])
  }

  lemma RemovedOk<V>(m: Mem<V>, b: nat, i: nat)
    requires Ok(m) && b < |m.chains| && i + 1 < |m.chains[b]|
    ensures |m.home| == |m.next| && m.chains[b][i] < |m.next| && m.chains[b][i + 1] < |m.next|
    ensures |Values(m)[b]| == |m.chains[b]| && Ok(Removed(m, b, i))
    ensures var v := Values(m)[b]; Values(Removed(m, b, i)) == Values(m)[b := v[..i + 1] + v[i + 2..]]
  {
    hide Chain, Pick;
    BucketAt(m, b);
    NodeAt(m, b, i);
    NodeAt(m, b, i + 1);
    var c := m.chains[b];
    RemoveAfter(m.next, m.home, m.heads, m.chains, b, i);
    PickCut(m.val, c, i + 1);
    PickCut(m.val, c, i + 2);
    PickConcat(m.val, c[..i + 1], c[i + 2..]);
    ViewUpdate(m.val, m.chains, b, c[..i + 1] + c[i + 2..]);
  }

  // ---------- two vectors of buckets ----------

  /** The second vector's buckets, empty, behind the first's. */
  function Widened<V>(m: Mem<V>, n: nat): Mem<V> {
    Mem(m.next, m.home, m.val, m.heads + seq(n, _ => -1), m.chains + seq(n, _ => []))
  }

  lemma WidenedOk<V>(m: Mem<V>, n: nat)
    requires Ok(m)
    ensures Ok(Widened(m, n)) && Values(Widened(m, n)) == Values(m) + seq(n, _ => [])
  {
    hide Chain, Pick;
    MoreChains(m.next, m.home, m.heads, m.chains, n);
    PickNothing(m.val);
  }

  /** The first vector is given up. */
  function Narrowed<V>(m: Mem<V>, from: nat): Mem<V>
    requires from <= |m.heads| && from <= |m.chains|
  {
    Mem(m.next, Rehomed(m.home, from), m.val, m.heads[from..], m.chains[from..])
  }

  lemma NarrowedOk<V>(m: Mem<V>, from: nat)
    requires Ok(m) && from <= |m.chains|
    ensures |m.heads| == |m.chains| && Ok(Narrowed(m, from)) && Values(Narrowed(m, from)) == Values(m)[from..]
  {
    hide Chain, Pick;
    DropChains(m.next, m.home, m.heads, m.chains, from);
  }
}
