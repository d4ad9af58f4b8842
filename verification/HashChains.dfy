/** The buckets of a hash table as chains of nodes in one memory; no node is -1. */
module HashChains {
  import opened Sequences
  import opened ListLinks

  function Head(c: seq<nat>, i: nat): int { if i < |c| then c[i] else -1 }

  /** Node i of chain c points to the next; home says which chain a node is in, or -1. */
  ghost predicate Linked(next: seq<int>, home: seq<int>, c: seq<nat>, b: nat, i: nat) {
    i < |c| && c[i] < |next| && c[i] < |home| && next[c[i]] == Head(c, i + 1) && home[c[i]] == b
  }

  ghost predicate Chain(next: seq<int>, home: seq<int>, head: int, c: seq<nat>, b: nat) {
    head == Head(c, 0) && Distinct(c) && forall i: nat :: i < |c| ==> Linked(next, home, c, b, i)
  }

  ghost predicate Chains(next: seq<int>, home: seq<int>, heads: seq<int>, cs: seq<seq<nat>>) {
    && |heads| == |cs| && |home| == |next|
    && forall b :: 0 <= b < |cs| ==> Chain(next, home, heads[b], cs[b], b)
  }

  lemma ChainFrame(next: seq<int>, home: seq<int>, next': seq<int>, home': seq<int>, head: int, c: seq<nat>, b: nat)
    requires Chain(next, home, head, c, b) && |next'| >= |next| && |home'| >= |home|
    requires forall a :: 0 <= a < |next| && a in c ==> next'[a] == next[a]
    requires forall a :: 0 <= a < |home| && a in c ==> home'[a] == home[a]
    ensures Chain(next', home', head, c, b)
  {
    forall i: nat | i < |c| ensures Linked(next', home', c, b, i) { assert Linked(next, home, c, b, i); }
  }

  /** A node is in the chain that is its home, and in no other. */
  lemma HomeOf(next: seq<int>, home: seq<int>, heads: seq<int>, cs: seq<seq<nat>>, b: nat, a: nat)
    requires Chains(next, home, heads, cs) && b < |cs| && a in cs[b]
    ensures a < |home| && a < |next| && home[a] == b
  {
    assert Chain(next, home, heads[b], cs[b], b);
    var i: nat :| i < |cs[b]| && cs[b][i] == a;
    assert Linked(next, home, cs[b], b, i);
  }

  /** The chains other than b, when only nodes at home in b, or in none, have changed. */
  lemma OthersStay(next: seq<int>, home: seq<int>, next': seq<int>, home': seq<int>, heads: seq<int>, cs: seq<seq<nat>>, b: nat, k: nat)
    requires Chains(next, home, heads, cs) && b < |cs| && k < |cs| && k != b && |next'| == |home'| >= |next|
    requires forall a :: 0 <= a < |next| && home[a] != b && home[a] != -1 ==> next'[a] == next[a] && home'[a] == home[a]
    ensures Chain(next', home', heads[k], cs[k], k)
  {
    hide Chain;
    assert Chain(next, home, heads[k], cs[k], k);
    forall a | a in cs[k] && 0 <= a < |next| ensures next'[a] == next[a] && home'[a] == home[a] { HomeOf(next, home, heads, cs, k, a); }
    ChainFrame(next, home, next', home', heads[k], cs[k], k);
  }

  lemma OneChanged(next: seq<int>, home: seq<int>, next': seq<int>, home': seq<int>, heads: seq<int>, cs: seq<seq<nat>>, b: nat, head: int, c: seq<nat>)
    requires Chains(next, home, heads, cs) && b < |cs| && |next'| == |home'| >= |next|
    requires forall a :: 0 <= a < |next| && home[a] != b && home[a] != -1 ==> next'[a] == next[a] && home'[a] == home[a]
    requires Chain(next', home', head, c, b)
    ensures Chains(next', home', heads[b := head], cs[b := c])
  {
    hide Chain;
    forall k | 0 <= k < |cs| && k != b ensures Chain(next', home', heads[k], cs[k], k) {
      OthersStay(next, home, next', home', heads, cs, b, k);
    }
  }

  lemma ChainAt(next: seq<int>, home: seq<int>, heads: seq<int>, cs: seq<seq<nat>>, b: nat, i: nat)
    requires Chains(next, home, heads, cs) && b < |cs| && i < |cs[b]|
    ensures |heads| == |cs| && |home| == |next| && heads[b] == Head(cs[b], 0)
    ensures cs[b][i] < |next| && next[cs[b][i]] == Head(cs[b], i + 1) && home[cs[b][i]] == b
  {
    assert Chain(next, home, heads[b], cs[b], b);
    assert Linked(next, home, cs[b], b, i);
  }

  /** Node a, in no chain, goes to the front of chain b. */
  lemma PushFront(next: seq<int>, home: seq<int>, heads: seq<int>, cs: seq<seq<nat>>, b: nat, a: nat)
    requires Chains(next, home, heads, cs) && b < |cs| && a < |next| && home[a] == -1
    ensures Chains(next[a := heads[b]], home[a := b], heads[b := a], cs[b := [a] + cs[b]])
  {
    var next', home', c := next[a := heads[b]], home[a := b], [a] + cs[b];
    hide Chains;
    PushedChain(next, home, heads, cs, b, a);
    OneChanged(next, home, next', home', heads, cs, b, a, c);
  }

  lemma NotIn(next: seq<int>, home: seq<int>, heads: seq<int>, cs: seq<seq<nat>>, b: nat, a: nat)
    requires Chains(next, home, heads, cs) && b < |cs| && a < |home| && home[a] == -1
    ensures a !in cs[b]
  {
    if a in cs[b] { HomeOf(next, home, heads, cs, b, a); }
  }

  lemma PushedChain(next: seq<int>, home: seq<int>, heads: seq<int>, cs: seq<seq<nat>>, b: nat, a: nat)
    requires Chains(next, home, heads, cs) && b < |cs| && a < |next| && home[a] == -1
    ensures Chain(next[a := heads[b]], home[a := b], a, [a] + cs[b], b)
  {
    var next', home', c := next[a := heads[b]], home[a := b], [a] + cs[b];
    NotIn(next, home, heads, cs, b, a);
    assert Chain(next, home, heads[b], cs[b], b);
    DistinctConcat([a], cs[b]);
    forall i: nat | i < |c| ensures Linked(next', home', c, b, i) {
      if i > 0 { assert Linked(next, home, cs[b], b, i - 1); }
    }
  }

  /** The first node of chain b leaves. */
  lemma PopFront(next: seq<int>, home: seq<int>, heads: seq<int>, cs: seq<seq<nat>>, b: nat)
    requires Chains(next, home, heads, cs) && b < |cs| && cs[b] != []
    ensures var a := cs[b][0]; a < |next| && Chains(next, home[a := -1], heads[b := next[a]], cs[b := cs[b][1..]])
  {
    var a, c := cs[b][0], cs[b][1..];
    ChainAt(next, home, heads, cs, b, 0);
    PoppedChain(next, home, heads[b], cs[b], b) by { assert Chain(next, home, heads[b], cs[b], b); }
    OneChanged(next, home, next, home[a := -1], heads, cs, b, next[a], c);
  }

  lemma PoppedChain(next: seq<int>, home: seq<int>, head: int, c: seq<nat>, b: nat)
    requires Chain(next, home, head, c, b) && c != [] && c[0] < |next| && c[0] < |home|
    ensures Chain(next, home[c[0] := -1], next[c[0]], c[1..], b)
  {
    var home', d := home[c[0] := -1], c[1..];
    assert Linked(next, home, c, b, 0);
    forall i: nat | i < |d| ensures Linked(next, home', d, b, i) { assert Linked(next, home, c, b, i + 1); }
  }

  /** Node a, in no chain, goes behind node i of chain b. */
  lemma InsertAfter(next: seq<int>, home: seq<int>, heads: seq<int>, cs: seq<seq<nat>>, b: nat, i: nat, a: nat)
    requires Chains(next, home, heads, cs) && b < |cs| && i < |cs[b]| && a < |next| && home[a] == -1
    ensures var c := cs[b]; c[i] < |next| && Chains(next[a := next[c[i]]][c[i] := a], home[a := b], heads, cs[b := c[..i + 1] + [a] + c[i + 1..]])
  {
    var c := cs[b];
    ChainAt(next, home, heads, cs, b, i);
    NotIn(next, home, heads, cs, b, a);
    assert Chain(next, home, heads[b], c, b);
    InsertedChain(next, home, heads[b], c, b, i, a);
    OneChanged(next, home, next[a := next[c[i]]][c[i] := a], home[a := b], heads, cs, b, heads[b], c[..i + 1] + [a] + c[i + 1..]);
    assert heads[b := heads[b]] == heads;
  }

  lemma InsertedChain(next: seq<int>, home: seq<int>, head: int, c: seq<nat>, b: nat, i: nat, a: nat)
    requires Chain(next, home, head, c, b) && i < |c| && c[i] < |next| && a < |next| && a < |home| && a !in c
    ensures Chain(next[a := next[c[i]]][c[i] := a], home[a := b], head, c[..i + 1] + [a] + c[i + 1..], b)
  {
    var next', home', d := next[a := next[c[i]]][c[i] := a], home[a := b], c[..i + 1] + [a] + c[i + 1..];
    InsertedDistinct(c, i + 1, a);
    forall j: nat | j < |d| ensures Linked(next', home', d, b, j) {
      if j <= i { assert Linked(next, home, c, b, j); }
      if j == i + 1 { assert Linked(next, home, c, b, i); }
      if j > i + 1 { assert Linked(next, home, c, b, j - 1); }
    }
  }

  lemma InsertedDistinct(c: seq<nat>, i: nat, a: nat)
    requires Distinct(c) && i <= |c| && a !in c
    ensures Distinct(c[..i] + [a] + c[i..])
  {
  }

  /** The node behind node i of chain b leaves. */
  lemma RemoveAfter(next: seq<int>, home: seq<int>, heads: seq<int>, cs: seq<seq<nat>>, b: nat, i: nat)
    requires Chains(next, home, heads, cs) && b < |cs| && i + 1 < |cs[b]|
    ensures var c := cs[b];
      && c[i] < |next| && c[i + 1] < |next|
      && Chains(next[c[i] := next[c[i + 1]]], home[c[i + 1] := -1], heads, cs[b := c[..i + 1] + c[i + 2..]])
  {
    var c := cs[b];
    ChainAt(next, home, heads, cs, b, i);
    ChainAt(next, home, heads, cs, b, i + 1);
    assert Chain(next, home, heads[b], c, b);
    RemovedChain(next, home, heads[b], c, b, i);
    OneChanged(next, home, next[c[i] := next[c[i + 1]]], home[c[i + 1] := -1], heads, cs, b, heads[b], c[..i + 1] + c[i + 2..]);
    assert heads[b := heads[b]] == heads;
  }

  lemma RemovedChain(next: seq<int>, home: seq<int>, head: int, c: seq<nat>, b: nat, i: nat)
    requires Chain(next, home, head, c, b) && i + 1 < |c| && c[i] < |next| && c[i + 1] < |next| && c[i + 1] < |home|
    ensures Chain(next[c[i] := next[c[i + 1]]], home[c[i + 1] := -1], head, c[..i + 1] + c[i + 2..], b)
  {
    var next', home', d := next[c[i] := next[c[i + 1]]], home[c[i + 1] := -1], c[..i + 1] + c[i + 2..];
    assert Linked(next, home, c, b, i + 1);
    forall j: nat | j < |d| ensures Linked(next', home', d, b, j) {
      if j <= i { assert Linked(next, home, c, b, j); } else { assert Linked(next, home, c, b, j + 1); }
    }
  }

  /** More memory. */
  lemma Grow(next: seq<int>, home: seq<int>, heads: seq<int>, cs: seq<seq<nat>>)
    requires Chains(next, home, heads, cs)
    ensures Chains(next + [-1], home + [-1], heads, cs)
  {
    hide Chain;
    forall b | 0 <= b < |cs| ensures Chain(next + [-1], home + [-1], heads[b], cs[b], b) {
      assert Chain(next, home, heads[b], cs[b], b);
      ChainFrame(next, home, next + [-1], home + [-1], heads[b], cs[b], b);
    }
  }

  /** More chains, all empty. */
  lemma MoreChains(next: seq<int>, home: seq<int>, heads: seq<int>, cs: seq<seq<nat>>, n: nat)
    requires Chains(next, home, heads, cs)
    ensures Chains(next, home, heads + seq(n, _ => -1), cs + seq(n, _ => []))
  {
  }

  function Rehomed(home: seq<int>, from: nat): seq<int> {
    seq(|home|, a requires 0 <= a < |home| => if home[a] >= from then home[a] - from else -1)
  }

  lemma RehomedChain(next: seq<int>, home: seq<int>, head: int, c: seq<nat>, b: nat, from: nat)
    requires Chain(next, home, head, c, b) && from <= b
    ensures Chain(next, Rehomed(home, from), head, c, b - from)
  {
    var home', d: nat := Rehomed(home, from), b - from;
    forall i: nat | i < |c| ensures Linked(next, home', c, d, i) { assert Linked(next, home, c, b, i); }
  }

  /** The first chains, all empty, are dropped. */
  lemma DropChains(next: seq<int>, home: seq<int>, heads: seq<int>, cs: seq<seq<nat>>, from: nat)
    requires Chains(next, home, heads, cs) && from <= |cs|
    ensures |heads| == |cs| && Chains(next, Rehomed(home, from), heads[from..], cs[from..])
  {
    hide Chain;
    forall b | 0 <= b < |cs| - from ensures Chain(next, Rehomed(home, from), heads[from..][b], cs[from..][b], b) {
      assert Chain(next, home, heads[b + from], cs[b + from], b + from);
      RehomedChain(next, home, heads[b + from], cs[b + from], b + from, from);
    }
  }

  lemma InMemory(next: seq<int>, home: seq<int>, heads: seq<int>, cs: seq<seq<nat>>)
    requires Chains(next, home, heads, cs)
    ensures forall b, i :: 0 <= b < |cs| && 0 <= i < |cs[b]| ==> cs[b][i] < |next|
  {
    forall b, i | 0 <= b < |cs| && 0 <= i < |cs[b]| ensures cs[b][i] < |next| { ChainAt(next, home, heads, cs, b, i); }
  }
}
