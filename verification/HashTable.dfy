/** hashtable: a vector of buckets over nodes that are linked in place. */
module HashTable {
  import opened Ranges
  import opened HashSpec
  import opened HashChains
  import opened HashMemory
  import opened HashOrder

  // ---------- the table of primes ----------

  const PRIMES: seq<nat> := [
    53, 97, 193, 389, 769, 1543, 3079, 6151, 12289, 24593, 49157, 98317, 196613, 393241, 786433, 1572869, 3145739, 6291469,
    12582917, 25165843, 50331653, 100663319, 201326611, 402653189, 805306457, 1610612741, 3221225473, 4294967291]

  /** __stl_next_prime: the first entry not below n, or the last. */
  function NextPrime(n: nat): (p: nat)
    ensures p > 0 && p in PRIMES && (n <= 4294967291 ==> n <= p) && (n > 4294967291 ==> p == 4294967291)
    ensures forall q :: q in PRIMES && n <= q ==> p <= q
  {
    Lookup(n, 0)
  }

  function Lookup(n: nat, i: nat): (p: nat)
    requires i < 28 && forall k :: 0 <= k < i ==> PRIMES[k] < n
    ensures p > 0 && p in PRIMES && (n <= PRIMES[27] ==> n <= p) && (n > PRIMES[27] ==> p == PRIMES[27])
    ensures forall k :: 0 <= k < 28 && n <= PRIMES[k] ==> p <= PRIMES[k]
    decreases 28 - i
  {
    PrimesAscend(i);
    if i == 27 || n <= PRIMES[i] then PRIMES[i] else Lookup(n, i + 1)
  }

  lemma PrimesAscend(i: nat)
    requires i < 28
    ensures forall k :: i <= k < 28 ==> PRIMES[i] <= PRIMES[k]
  {
  }

  // ---------- the table ----------

  /** The buckets when hint elements are expected: more of them only where there are fewer than that. */
  function Resized<V, K>(f: Keys<V, K>, t: seq<seq<V>>, hint: nat): seq<seq<V>> {
    if hint > |t| && NextPrime(hint) > |t| then Rehashed(f, Flat(t), NextPrime(hint)) else t
  }

  /** Between calls: every value is in the bucket of its key, equal keys are neighbours, and the count is right. */
  ghost predicate Sound<V(!new), K(!new)>(f: Keys<V, K>, m: Mem<V>, n: nat) {
    Lawful(f) && Ok(m) && Proper(f, Values(m)) && n == |Flat(Values(m))|
  }

  lemma SoundSizes<V(!new), K(!new)>(f: Keys<V, K>, m: Mem<V>, n: nat)
    requires Sound(f, m, n)
    ensures |m.heads| == |m.chains| > 0 && |m.val| == |m.next| && Ok(m) && Lawful(f) && Proper(f, Values(m)) && n == |Flat(Values(m))|
  {
  }

  class Table<V(!new), K(!new)> {
    var f: Keys<V, K>
    var buckets: seq<int>
    var next: seq<int>
    var val: seq<V>
    var numElements: nat
    ghost var home: seq<int>
    ghost var chains: seq<seq<nat>>

    ghost function Memory(): Mem<V>
      reads this
    {
      Mem(next, home, val, buckets, chains)
    }

    /** The buckets' values. */
    ghost function Contents(): seq<seq<V>>
      reads this
    {
      Values(Memory())
    }

    ghost predicate Valid()
      reads this
    {
      Sound(f, Memory(), numElements)
    }

    constructor (f: Keys<V, K>, n: nat)
      requires Lawful(f)
      ensures Valid() && this.f == f && Contents() == seq(NextPrime(n), _ => [])
    {
      hide NextPrime, Sound, Values;
      this.f := f;
      buckets, next, val, numElements := seq(NextPrime(n), _ => -1), [], [], 0;
      home, chains := [], seq(NextPrime(n), _ => []);
      new;
      EmptySound(f, Memory(), NextPrime(n));
    }

    /** A node for x, in no bucket yet. */
    method NewNode(x: V) returns (a: nat)
      modifies this`next, this`val, this`home
      ensures a == old(|val|) && Memory() == Fresh(old(Memory()), x)
    {
      a := |val|;
      next, val, home := next + [-1], val + [x], home + [-1];
    }

    /** The loop of find and of both insertions: the first node of the bucket with the key. */
    method Search(b: nat, k: K) returns (cur: int, ghost i: nat)
      requires Valid() && b < |chains|
      ensures i == Find(f, Contents()[b], k) <= |chains[b]| && cur == Head(chains[b], i) && cur < |val|
    {
      hide Sound, Ok, Values;
      SoundSizes(f, Memory(), numElements);
      BucketAt(Memory(), b);
      cur, i := buckets[b], 0;
      ghost var v := Contents()[b];
      if cur != -1 { NodeAt(Memory(), b, 0); }
      while cur != -1 && !f.equals(f.key(val[cur]), k)
        invariant i <= |v| == |chains[b]| && cur == Head(chains[b], i) && -1 <= cur < |val|
        invariant cur != -1 ==> v[i] == val[cur]
        invariant forall j :: 0 <= j < i ==> !f.equals(f.key(v[j]), k)
        decreases |v| - i
      {
        NodeAt(Memory(), b, i);
        cur, i := next[cur], i + 1;
        if cur != -1 { NodeAt(Memory(), b, i); }
      }
      FindAt(f, v, k, i);
    }

    /** Which bucket a key belongs to. */
    function Bucket(k: K): (b: nat)
      requires |buckets| > 0
      reads this
      ensures b < |buckets|
    {
      f.hash(k) % |buckets|
    }

    /** insert_unique_noresize */
    method InsertUniqueNoresize(x: V) returns (node: nat, inserted: bool)
      requires Valid()
      modifies this`buckets, this`next, this`val, this`numElements, this`home, this`chains
      ensures Valid() && |old(Contents())| > 0
      ensures var b := BucketOf(f, x, |old(Contents())|); Contents() == old(Contents())[b := PutUnique(f, old(Contents())[b], x)]
      ensures
        var b, s := BucketOf(f, x, |old(Contents())|), Flat(old(Contents())); var p, i := |Flat(old(Contents())[..b])|, Find(f, s, f.key(x));
        p <= |s| && Flat(Contents()) == if i < |s| then s else PutAt(s, p, x)
      ensures node < |val| && if inserted then val[node] == x else Same(f, val[node], x)
      ensures inserted <==> Contents() != old(Contents())
    {
      hide Sound, Ok, Find, Flat;
      SoundSizes(f, Memory(), numElements);
      ghost var m := Memory();
      PutOrder(f, Values(m), x);
      var n := Bucket(f.key(x));
      var first := buckets[n];
      var cur, i := Search(n, f.key(x));
      BucketAt(m, n);
      if cur != -1 {
        NodeAt(m, n, i);
        assert Contents()[n := Contents()[n]] == Contents();
        return cur, false;
      }
      node := NewNode(x);
      PutNode(x, n, node, first, m);
      inserted := true;
    }

    /** The node goes to the front of its bucket. */
    method PutNode(x: V, n: nat, node: nat, first: int, ghost m: Mem<V>)
      requires Sound(f, m, numElements) && Memory() == Fresh(m, x) && node == |m.val| && n < |buckets| && first == buckets[n]
      requires n < |Values(m)| && n == BucketOf(f, x, |Values(m)|) && Find(f, Values(m)[n], f.key(x)) == |Values(m)[n]|
      modifies this`buckets, this`next, this`numElements, this`home, this`chains
      ensures Valid() && Contents() == Values(m)[n := [x] + Values(m)[n]] && Contents() != Values(m)
    {
      hide Sound, Ok, Values, Find;
      SoundSizes(f, m, numElements);
      FreshOk(m, x);
      PushedOk(Fresh(m, x), n, node);
      SoundPut(f, m, numElements, x, Pushed(Fresh(m, x), n, node));
      next := next[node := first];
      buckets := buckets[n := node];
      home, chains := home[node := n], chains[n := [node] + chains[n]];
      assert Memory() == Pushed(Fresh(m, x), n, node);
      numElements := numElements + 1;
    }

    /** insert_equal_noresize */
    method InsertEqualNoresize(x: V) returns (node: nat)
      requires Valid()
      modifies this`buckets, this`next, this`val, this`numElements, this`home, this`chains
      ensures Valid() && |old(Contents())| > 0
      ensures var b := BucketOf(f, x, |old(Contents())|); Contents() == old(Contents())[b := PutEqual(f, old(Contents())[b], x)]
      ensures
        var b, s := BucketOf(f, x, |old(Contents())|), Flat(old(Contents())); var p, i := |Flat(old(Contents())[..b])|, Find(f, s, f.key(x));
        p <= |s| && Flat(Contents()) == if i < |s| then PutAt(s, i + 1, x) else PutAt(s, p, x)
      ensures node < |val| && val[node] == x
    {
      hide Sound, Ok, Find, Flat;
      SoundSizes(f, Memory(), numElements);
      ghost var m := Memory();
      PutOrder(f, Values(m), x);
      var n := Bucket(f.key(x));
      var first := buckets[n];
      var cur, i := Search(n, f.key(x));
      BucketAt(m, n);
      node := NewNode(x);
      if cur != -1 {
        LinkBehind(x, n, i, cur, node, m);
      } else {
        PutNode(x, n, node, first, m);
      }
    }

    /** The node goes behind node cur of its bucket, which has the same key. */
    method LinkBehind(x: V, n: nat, ghost i: nat, cur: nat, node: nat, ghost m: Mem<V>)
      requires Sound(f, m, numElements) && Memory() == Fresh(m, x) && node == |m.val|
      requires n < |m.chains| && i < |m.chains[n]| && cur == m.chains[n][i]
      requires n == BucketOf(f, x, |Values(m)|) && i == Find(f, Values(m)[n], f.key(x)) < |Values(m)[n]|
      modifies this`next, this`numElements, this`home, this`chains
      ensures Valid() && Contents() == Values(m)[n := PutEqual(f, Values(m)[n], x)]
    {
      hide Sound, Ok, Values, Find;
      SoundSizes(f, m, numElements);
      FreshOk(m, x);
      InsertedOk(Fresh(m, x), n, i, node);
      ghost var m' := Inserted(Fresh(m, x), n, i, node);
      SoundInsert(f, m, numElements, x, m');
      NodeAt(Fresh(m, x), n, i);
      next := next[node := next[cur]];
      next := next[cur := node];
      home := home[node := n];
      chains := chains[n := chains[n][..i + 1] + [node] + chains[n][i + 1..]];
      assert Memory() == m';
      numElements := numElements + 1;
    }

    /** find */
    method FindNode(k: K) returns (cur: int, ghost b: nat, ghost i: nat)
      requires Valid()
      ensures b < |chains| && b == f.hash(k) % |chains| && i == Find(f, Contents()[b], k) <= |chains[b]| && cur == Head(chains[b], i)
      ensures
        if cur == -1 then forall j :: 0 <= j < |Flat(Contents())| ==> !f.equals(f.key(Flat(Contents())[j]), k)
        else 0 <= cur < |val| && f.equals(f.key(val[cur]), k)
    {
      hide Sound, Ok, Values, Flat, RunEnd, Proper, Lawful;
      SoundSizes(f, Memory(), numElements);
      b := Bucket(k);
      cur, i := Search(Bucket(k), k);
      BucketAt(Memory(), b);
      if i < |chains[b]| {
        NodeAt(Memory(), b, i);
      } else {
        RangePlaces(f, Memory(), k, b);
      }
    }

    // ---------- resize ----------

    /** The first node of bucket n of the old vector goes to the front of its bucket in the new one. */
    method MoveNode(n: nat, tmp: seq<int>, first: nat, ghost mid: Mem<V>) returns (tmp': seq<int>)
      requires Ok(mid) && Mem(next, home, val, buckets + tmp, chains) == mid && |tmp| > 0
      requires n < |buckets| && |mid.chains| == |mid.heads| && mid.chains[n] != [] && first == mid.chains[n][0] < |val|
      modifies this`buckets, this`next, this`home, this`chains
      ensures |buckets| == old(|buckets|) && |tmp'| == |tmp| && Ok(Mem(next, home, val, buckets + tmp', chains))
      ensures |chains| == |mid.chains|
      ensures var b := old(|buckets|) + BucketOf(f, val[first], |tmp|);
        && Values(mid)[n] != []
        && Values(Mem(next, home, val, buckets + tmp', chains))
             == Values(mid)[n := Values(mid)[n][1..]][b := [val[first]] + Values(mid)[b]]
    {
      hide Ok, Values, BucketOf;
      PoppedOk(mid, n);
      NodeAt(mid, n, 0);
      ghost var out := Popped(mid, n);
      var newBucket := BucketOf(f, val[first], |tmp|);
      ghost var b := |buckets| + newBucket;
      PushedOk(out, b, first);
      buckets := buckets[n := next[first]];
      next := next[first := tmp[newBucket]];
      tmp' := tmp[newBucket := first];
      home := home[first := -1][first := b];
      chains := out.chains[b := [first] + out.chains[b]];
      assert buckets + tmp' == out.heads[b := first];
      assert Mem(next, home, val, buckets + tmp', chains) == Pushed(out, b, first);
    }

    /** resize */
    method Resize(hint: nat)
      requires Valid()
      modifies this`buckets, this`next, this`home, this`chains
      ensures Valid()
      ensures Contents() == Resized(f, old(Contents()), hint)
    {
      hide Sound, Ok, Values, NextPrime;
      SoundSizes(f, Memory(), numElements);
      var oldN := |buckets|;
      if hint > oldN {
        var n := NextPrime(hint);
        if n > oldN {
          Rehash(n);
        }
      }
    }

    /** All nodes into n new buckets. */
    method Rehash(n: nat)
      requires Valid() && n > 0
      modifies this`buckets, this`next, this`home, this`chains
      ensures Valid() && Contents() == Rehashed(f, Flat(old(Contents())), n)
    {
      hide Sound, Ok, Values, Rehashed, Flat;
      SoundSizes(f, Memory(), numElements);
      ghost var t0, oldN := Contents(), |buckets|;
      ghost var count := numElements;
      WidenedOk(Memory(), n);
      var tmp: seq<int> := seq(n, _ => -1);
      chains := chains + seq(n, _ => []);
      RehashingStarts(f, t0, n);
      var bucket := 0;
      while bucket < |buckets|
        invariant bucket <= |buckets| == oldN == |t0| && |tmp| == n && |chains| == oldN + n
        invariant Ok(Mem(next, home, val, buckets + tmp, chains))
        invariant Rehashing(f, t0, n, bucket, 0, Values(Mem(next, home, val, buckets + tmp, chains)))
      {
        tmp := MoveBucket(bucket, tmp, t0);
        bucket := bucket + 1;
      }
      ghost var mid := Mem(next, home, val, buckets + tmp, chains);
      RehashingEnds(f, t0, n, Values(mid));
      NarrowedOk(mid, oldN);
      buckets, home, chains := tmp, Rehomed(home, oldN), chains[oldN..];
      assert Memory() == Narrowed(mid, oldN);
      SoundRehashed(f, t0, n, Memory(), count);
    }

    /** One round of the outer loop. */
    method MoveBucket(bucket: nat, tmp0: seq<int>, ghost t0: seq<seq<V>>) returns (tmp: seq<int>)
      requires bucket < |buckets| == |t0| && |tmp0| > 0 && |chains| == |buckets| + |tmp0|
      requires Ok(Mem(next, home, val, buckets + tmp0, chains))
      requires Rehashing(f, t0, |tmp0|, bucket, 0, Values(Mem(next, home, val, buckets + tmp0, chains)))
      modifies this`buckets, this`next, this`home, this`chains
      ensures |buckets| == |t0| && |tmp| == |tmp0| && |chains| == |buckets| + |tmp|
      ensures Ok(Mem(next, home, val, buckets + tmp, chains))
      ensures Rehashing(f, t0, |tmp|, bucket + 1, 0, Values(Mem(next, home, val, buckets + tmp, chains)))
    {
      hide Ok, Values, Rehashing, BucketOf;
      tmp := tmp0;
      ghost var i: nat := 0;
      ghost var mid := Mem(next, home, val, buckets + tmp, chains);
      BucketAt(mid, bucket);
      RehashingLeft(f, t0, |tmp|, bucket, i, Values(mid));
      var first := buckets[bucket];
      while first != -1
        invariant |buckets| == |t0| && |tmp| == |tmp0| && |chains| == |buckets| + |tmp| && i <= |t0[bucket]|
        invariant mid == Mem(next, home, val, buckets + tmp, chains) && Ok(mid)
        invariant Rehashing(f, t0, |tmp|, bucket, i, Values(mid)) && Values(mid)[bucket] == t0[bucket][i..]
        invariant first == Head(chains[bucket], 0) && |chains[bucket]| == |t0[bucket]| - i
        decreases |t0[bucket]| - i
      {
        NodeAt(mid, bucket, 0);
        ghost var x := val[first];
        ghost var before := Values(mid);
        tmp := MoveNode(bucket, tmp, first, mid);
        mid := Mem(next, home, val, buckets + tmp, chains);
        RehashingOn(f, t0, |tmp|, bucket, i, before, Values(mid));
        i := i + 1;
        BucketAt(mid, bucket);
        RehashingLeft(f, t0, |tmp|, bucket, i, Values(mid));
        first := buckets[bucket];
      }
      RehashingNext(f, t0, |tmp|, bucket, Values(mid));
    }

    /** resize, as seen by what the table holds. */
    method Expect(hint: nat)
      requires Valid()
      modifies this`buckets, this`next, this`home, this`chains
      ensures Valid() && multiset(Flat(Contents())) == multiset(Flat(old(Contents())))
      ensures Contents() == Resized(f, old(Contents()), hint)
    {
      hide Sound, Ok, Values, Flat, Rehashed, NextPrime;
      ghost var t0 := Contents();
      Resize(hint);
      ResizedBag(f, t0, Contents(), NextPrime(hint));
    }

    /** insert_unique: a value whose key is there already is not added. */
    method InsertUnique(x: V) returns (node: nat, inserted: bool)
      requires Valid()
      modifies this`buckets, this`next, this`val, this`numElements, this`home, this`chains
      ensures Valid() && node < |val| && if inserted then val[node] == x else Same(f, val[node], x)
      ensures inserted <==> forall y :: y in Flat(old(Contents())) ==> !Same(f, y, x)
      ensures multiset(Flat(Contents())) == multiset(Flat(old(Contents()))) + if inserted then multiset{x} else multiset{}
      ensures var t := Resized(f, old(Contents()), old(numElements) + 1); var b := if |t| > 0 then BucketOf(f, x, |t|) else 0;
        b < |t| && Contents() == t[b := PutUnique(f, t[b], x)]
    {
      hide Resized;
      hide Sound, Ok, Values, Flat, PutUnique, Lawful, Proper;
      ghost var t0 := Contents();
      Expect(numElements + 1);
      SoundSizes(f, Memory(), numElements);
      ghost var t := Contents();
      node, inserted := InsertUniqueNoresize(x);
      UniquePut(f, t, x);
      SameElements(Flat(t0), Flat(t));
    }

    /** insert_equal */
    method InsertEqual(x: V) returns (node: nat)
      requires Valid()
      modifies this`buckets, this`next, this`val, this`numElements, this`home, this`chains
      ensures Valid() && node < |val| && val[node] == x
      ensures multiset(Flat(Contents())) == multiset(Flat(old(Contents()))) + multiset{x}
      ensures var t := Resized(f, old(Contents()), old(numElements) + 1); var b := if |t| > 0 then BucketOf(f, x, |t|) else 0;
        b < |t| && Contents() == t[b := PutEqual(f, t[b], x)]
    {
      hide Resized;
      hide Sound, Ok, Values, Flat, PutEqual, Lawful, Proper;
      Expect(numElements + 1);
      SoundSizes(f, Memory(), numElements);
      ghost var t := Contents();
      node := InsertEqualNoresize(x);
      EqualPut(f, t, x);
    }

    // ---------- ranges of equal keys ----------

    /** count: as many as the whole table has. */
    method Count(k: K) returns (result: nat)
      requires Valid()
      ensures result == |Keep(HasKey(f, k), Flat(Contents()))|
    {
      hide Sound, Ok, Values, Keep, Flat;
      SoundSizes(f, Memory(), numElements);
      var n := Bucket(k);
      ghost var v, i, test := Contents()[n], 0, HasKey(f, k);
      BucketAt(Memory(), n);
      var cur := buckets[n];
      result := 0;
      KeepNothing(test, v);
      while cur != -1
        invariant i <= |v| == |chains[n]| && cur == Head(chains[n], i) && result == |Keep(test, v[..i])|
        decreases |v| - i
      {
        NodeAt(Memory(), n, i);
        KeepOne(test, v, i);
        if f.equals(f.key(val[cur]), k) { result := result + 1; }
        cur, i := next[cur], i + 1;
      }
      assert v[..|v|] == v;
      KeepBucket(f, Contents(), k, n);
    }

    /** The scan for the next bucket that is not empty. */
    method NextBucket(m0: nat) returns (cur: int)
      requires Valid() && m0 <= |chains|
      ensures cur == Head(Flat(chains), |Flat(chains[..m0])|)
    {
      hide Sound, Ok, Values, Flat;
      SoundSizes(f, Memory(), numElements);
      var m := m0;
      while m < |buckets| && buckets[m] == -1
        invariant m0 <= m <= |buckets| && forall b :: m0 <= b < m ==> chains[b] == []
      {
        BucketAt(Memory(), m);
        m := m + 1;
      }
      FlatAll(chains, m0, m);
      if m < |buckets| {
        BucketAt(Memory(), m);
        FlatPlace(chains, m, 0);
        return buckets[m];
      }
      assert chains[..|chains|] == chains;
      cur := -1;
    }

    /** equal_range: from the p-th to before the q-th element of the iteration, exactly those with the key. */
    method EqualRange(k: K) returns (first: int, last: int, ghost p: nat, ghost q: nat)
      requires Valid()
      ensures p <= q <= |Flat(Contents())| == |Flat(chains)| && first == Head(Flat(chains), p) && last == Head(Flat(chains), q)
      ensures forall j :: 0 <= j < |Flat(Contents())| ==> (f.equals(f.key(Flat(Contents())[j]), k) <==> p <= j < q)
      ensures first == -1 ==> last == -1 && forall j :: 0 <= j < |Flat(Contents())| ==> !f.equals(f.key(Flat(Contents())[j]), k)
    {
      hide Sound, Ok, Values, Flat, Find, RunEnd, Proper, Lawful;
      SoundSizes(f, Memory(), numElements);
      var n := Bucket(k);
      ghost var i;
      first, i := Search(n, k);
      BucketAt(Memory(), n);
      RangePlaces(f, Memory(), k, n);
      ghost var e := RunEnd(f, Contents()[n], k, i);
      if first == -1 {
        p, q := |Flat(chains)|, |Flat(chains)|;
        last := -1;
        return;
      }
      last, e := Run(n, i, first, k);
      p, q := |Flat(chains[..n])| + i, |Flat(chains[..n])| + e;
      FlatPlace(chains, n, i);
      FlatSplit(chains, n);
      if last == -1 {
        last := NextBucket(n + 1);
      } else {
        FlatPlace(chains, n, e);
      }
    }

    /** The second loop of equal_range: the first node behind cur without the key, or none in this bucket. */
    method Run(n: nat, ghost i: nat, first: nat, k: K) returns (cur: int, ghost e: nat)
      requires Valid() && n < |chains| && i == Find(f, Contents()[n], k) < |chains[n]| && first == chains[n][i]
      ensures e == RunEnd(f, Contents()[n], k, i) <= |chains[n]| && cur == Head(chains[n], e)
    {
      hide Sound, Ok, Values, Find, RunEnd;
      SoundSizes(f, Memory(), numElements);
      ghost var v := Contents()[n];
      NodeAt(Memory(), n, i);
      RunStep(f, v, k, i);
      cur, e := next[first], i + 1;
      if cur != -1 { NodeAt(Memory(), n, e); }
      while cur != -1 && f.equals(f.key(val[cur]), k)
        invariant e <= |v| == |chains[n]| && cur == Head(chains[n], e) && -1 <= cur < |val|
        invariant cur != -1 ==> v[e] == val[cur]
        invariant RunEnd(f, v, k, i) == RunEnd(f, v, k, e)
        decreases |v| - e
      {
        NodeAt(Memory(), n, e);
        RunStep(f, v, k, e);
        cur, e := next[cur], e + 1;
        if cur != -1 { NodeAt(Memory(), n, e); }
      }
      RunStep(f, v, k, e);
    }

    // ---------- iteration ----------

    /** begin */
    method Begin() returns (cur: int)
      requires Valid()
      ensures cur == Head(Flat(chains), 0)
    {
      hide Sound, Ok, Values, Flat;
      FlatNone(chains);
      cur := NextBucket(0);
    }

    /** operator++ of an iterator at place p of the order. */
    method Next(node: nat, ghost p: nat) returns (cur: int)
      requires Valid() && p < |Flat(chains)| && node == Flat(chains)[p]
      ensures cur == Head(Flat(chains), p + 1)
    {
      hide Sound, Ok, Values, Flat;
      SoundSizes(f, Memory(), numElements);
      ghost var b, i := PlaceIn(chains, p);
      NodeAt(Memory(), b, i);
      BucketOfNode(f, Memory(), b, i);
      FlatSplit(chains, b);
      cur := next[node];
      if cur == -1 {
        cur := NextBucket(Bucket(f.key(val[node])) + 1);
      } else {
        FlatPlace(chains, b, i + 1);
      }
    }

    // ---------- erasing ----------

    /** The node behind cur is unlinked and deleted. */
    method DropBehind(n: nat, ghost i: nat, cur: nat, following: nat) returns (after: int)
      requires Ok(Memory()) && n < |chains| && i + 1 < |chains[n]| && cur == chains[n][i] && following == chains[n][i + 1]
      requires numElements > 0
      modifies this`next, this`numElements, this`home, this`chains
      ensures Ok(Memory()) && numElements == old(numElements) - 1 && |chains| == old(|chains|)
      ensures |old(chains)[n]| == |old(Contents())[n]|
      ensures chains == old(chains)[n := old(chains)[n][..i + 1] + old(chains)[n][i + 2..]] && after == Head(chains[n], i + 1)
      ensures var v := old(Contents())[n]; Contents() == old(Contents())[n := v[..i + 1] + v[i + 2..]]
    {
      hide Ok, Values;
      RemovedOk(Memory(), n, i);
      NodeAt(Memory(), n, i);
      NodeAt(Memory(), n, i + 1);
      ghost var m := Removed(Memory(), n, i);
      next := next[cur := next[following]];
      after := next[cur];
      numElements := numElements - 1;
      home, chains := home[following := -1], chains[n := chains[n][..i + 1] + chains[n][i + 2..]];
      assert Memory() == m;
    }

    /** The first node of a bucket is unlinked and deleted. */
    method DropFront(n: nat, first: nat)
      requires Ok(Memory()) && n < |chains| && chains[n] != [] && first == chains[n][0] && numElements > 0
      modifies this`buckets, this`numElements, this`home, this`chains
      ensures Ok(Memory()) && numElements == old(numElements) - 1 && |buckets| == |chains| == old(|chains|)
      ensures old(Contents())[n] != [] && chains == old(chains)[n := old(chains)[n][1..]]
      ensures Contents() == old(Contents())[n := old(Contents())[n][1..]]
    {
      hide Ok, Values;
      PoppedOk(Memory(), n);
      ghost var m := Popped(Memory(), n);
      buckets := buckets[n := next[first]];
      numElements := numElements - 1;
      home, chains := home[first := -1], chains[n := chains[n][1..]];
      assert Memory() == m;
    }

    /** erase of a key: the first node is judged last. */
    method EraseKey(k: K) returns (erased: nat)
      requires Valid()
      modifies this`buckets, this`next, this`numElements, this`home, this`chains
      ensures Valid() && |old(Contents())| > 0
      ensures var b := f.hash(k) % |old(Contents())|; Contents() == old(Contents())[b := Without(f, old(Contents())[b], k)]
      ensures Flat(Contents()) == Keep(NotKey(f, k), Flat(old(Contents())))
      ensures erased == |Flat(old(Contents()))| - |Flat(Contents())|
    {
      hide Sound, Ok, Values, Flat, Without, Proper, Lawful;
      SoundSizes(f, Memory(), numElements);
      WithoutOrder(f, Contents(), k, f.hash(k) % |Contents()|);
      ghost var t, count := Contents(), numElements;
      var n := Bucket(k);
      ghost var v := t[n];
      var first := buckets[n];
      BucketAt(Memory(), n);
      FlatSplit(t, n);
      erased := 0;
      NothingWithout(f, t, n, k);
      if first != -1 {
        erased := EraseBehind(n, first, k);
        LastJudged(f, v, k);
        NodeAt(Memory(), n, 0);
        if f.equals(f.key(val[first]), k) {
          DropFront(n, first);
          erased := erased + 1;
        }
      }
      SoundErased(f, t, Memory(), n, k, numElements, count, erased);
    }

    /** The loop of erase: behind the first node, every node with the key goes. */
    method EraseBehind(n: nat, first: nat, k: K) returns (erased: nat)
      requires Ok(Memory()) && n < |chains| && chains[n] != [] && first == chains[n][0] && numElements >= |Contents()[n]|
      modifies this`next, this`numElements, this`home, this`chains
      ensures Ok(Memory()) && |chains| == old(|chains|) && chains[n] != [] && chains[n][0] == first && |old(Contents())[n]| > 0
      ensures var v := old(Contents())[n]; Contents() == old(Contents())[n := [v[0]] + Without(f, v[1..], k)]
      ensures var v := old(Contents())[n];
        numElements == old(numElements) - erased && erased + |Without(f, v[1..], k)| + 1 == |v|
    {
      hide Ok, Values, Without, Erasing;
      ghost var t, i: nat, p: nat := Contents(), 0, 1;
      BucketAt(Memory(), n);
      ghost var v := t[n];
      NodeAt(Memory(), n, 0);
      erased := 0;
      var cur := first;
      var following := next[cur];
      ErasingStarts(f, t, n, k);
      while following != -1
        invariant Ok(Memory()) && |chains| == |t| && 1 <= p <= |v| && numElements == old(numElements) - erased
        invariant Erasing(f, t, n, k, p, i, Contents()) && erased + i + 1 == p
        invariant chains[n] != [] && chains[n][0] == first && |chains[n]| == |v| - erased
        invariant i < |chains[n]| && cur == chains[n][i] && following == Head(chains[n], i + 1)
        decreases |v| - p
      {
        NodeAt(Memory(), n, i);
        NodeAt(Memory(), n, i + 1);
        ErasingOn(f, t, n, k, p, i, Contents());
        if f.equals(f.key(val[following]), k) {
          following := DropBehind(n, i, cur, following);
          erased := erased + 1;
        } else {
          cur, i := following, i + 1;
          following := next[cur];
        }
        p := p + 1;
      }
      BucketAt(Memory(), n);
      ErasingEnds(f, t, n, k, p, i, Contents());
    }

    /** _M_erase_bucket up to node hi: the nodes before it go, one after the other from the front. */
    method EraseFront(n: nat, ghost hi: nat, last: int)
      requires Ok(Memory()) && n < |chains| && hi <= |chains[n]| && last == Head(chains[n], hi) && numElements >= hi
      modifies this`buckets, this`numElements, this`home, this`chains
      ensures Ok(Memory()) && numElements == old(numElements) - hi && hi <= |old(Contents())[n]|
      ensures Contents() == old(Contents())[n := old(Contents())[n][hi..]]
      ensures |chains| == old(|chains|) && forall b :: 0 <= b < |chains| && b != n ==> chains[b] == old(chains)[b]
    {
      hide Ok, Values;
      ghost var t, cs, i: nat := Contents(), chains, 0;
      BucketAt(Memory(), n);
      CutStarts(t, cs, n);
      var cur := buckets[n];
      while cur != last
        invariant Ok(Memory()) && |chains| == |cs| && i <= hi && numElements == old(numElements) - i
        invariant chains == cs[n := cs[n][i..]] && Contents() == t[n := t[n][i..]] && cur == Head(cs[n], i)
        decreases hi - i
      {
        assert i < hi;
        DropFront(n, cur);
        CutOn(t, cs, n, i);
        i := i + 1;
        BucketAt(Memory(), n);
        cur := buckets[n];
      }
      OnlyOnce(old(Memory()), n, i, hi);
    }

    /** _M_erase_bucket: the nodes lo, ..., hi - 1 of a bucket go. */
    method EraseBucket(n: nat, ghost lo: nat, ghost hi: nat, first: nat, last: int)
      requires Valid() && n < |chains| && lo < |chains[n]| && lo <= hi <= |chains[n]| && first == chains[n][lo] && last == Head(chains[n], hi)
      modifies this`buckets, this`next, this`numElements, this`home, this`chains
      ensures Valid() && |chains| == old(|chains|) && forall b :: 0 <= b < |chains| && b != n ==> chains[b] == old(chains)[b]
      ensures hi <= |old(Contents())[n]| && Contents() == old(Contents())[n := old(Contents())[n][..lo] + old(Contents())[n][hi..]]
    {
      hide Sound, Ok, Values, Flat, Proper, Lawful;
      SoundSizes(f, Memory(), numElements);
      ghost var m := Memory();
      BucketAt(m, n);
      CutLength(m, n, lo, hi, numElements);
      if buckets[n] == first {
        OnlyOnce(m, n, 0, lo);
        assert Contents()[n][..0] + Contents()[n][hi..] == Contents()[n][hi..];
        EraseFront(n, hi, last);
      } else {
        EraseInner(n, lo, hi, first, last);
      }
      SoundCut(f, m, Memory(), n, lo, hi, numElements);
    }

    /** Its other branch: the node before first is found, and what follows it goes up to last. */
    method EraseInner(n: nat, ghost lo: nat, ghost hi: nat, first: nat, last: int)
      requires Ok(Memory()) && n < |chains| && 0 < lo < |chains[n]| && lo <= hi <= |chains[n]| && numElements >= hi - lo
      requires first == chains[n][lo] && last == Head(chains[n], hi)
      modifies this`next, this`numElements, this`home, this`chains
      ensures Ok(Memory()) && numElements == old(numElements) - (hi - lo) && hi <= |old(Contents())[n]|
      ensures |chains| == old(|chains|) && forall b :: 0 <= b < |chains| && b != n ==> chains[b] == old(chains)[b]
      ensures Contents() == old(Contents())[n := old(Contents())[n][..lo] + old(Contents())[n][hi..]]
    {
      hide Ok, Values;
      ghost var t, cs, m := Contents(), chains, Memory();
      BucketAt(m, n);
      NodeAt(m, n, 0);
      var cur := buckets[n];
      var following := next[cur];
      ghost var i: nat := 0;
      while following != first
        invariant Memory() == m && numElements == old(numElements) && i < lo && cur == chains[n][i] && following == Head(chains[n], i + 1)
        decreases lo - i
      {
        assert i + 1 != lo;
        NodeAt(m, n, i + 1);
        cur, i := following, i + 1;
        following := next[cur];
      }
      OnlyOnce(m, n, i + 1, lo);
      ghost var g: nat := lo;
      InnerStarts(t, cs, n, lo);
      while following != last
        invariant Ok(Memory()) && |chains| == |cs| && lo <= g <= hi && numElements == old(numElements) - (g - lo)
        invariant chains == cs[n := cs[n][..lo] + cs[n][g..]] && Contents() == t[n := t[n][..lo] + t[n][g..]]
        invariant cur == cs[n][lo - 1] && following == Head(cs[n], g)
        decreases hi - g
      {
        assert g < hi;
        following := DropBehind(n, lo - 1, cur, following);
        InnerOn(t, cs, n, lo, g);
        g := g + 1;
      }
      OnlyOnce(m, n, g, hi);
    }

    /** _M_erase_bucket from the front, between calls. */
    method EraseUpTo(n: nat, ghost hi: nat, last: int)
      requires Valid() && n < |chains| && hi <= |chains[n]| && last == Head(chains[n], hi)
      modifies this`buckets, this`numElements, this`home, this`chains
      ensures Valid() && |chains| == old(|chains|) && forall b :: 0 <= b < |chains| && b != n ==> chains[b] == old(chains)[b]
      ensures |old(chains)[n]| == |old(Contents())[n]| && Contents() == old(Contents())[n := old(Contents())[n][hi..]]
    {
      hide Sound, Ok, Values, Flat, Proper, Lawful;
      SoundSizes(f, Memory(), numElements);
      ghost var m := Memory();
      BucketAt(m, n);
      CutLength(m, n, 0, hi, numElements);
      assert Contents()[n][..0] + Contents()[n][hi..] == Contents()[n][hi..];
      EraseFront(n, hi, last);
      SoundCut(f, m, Memory(), n, 0, hi, numElements);
    }

    /** erase of the nodes from place p to before place q of the order. */
    method EraseRange(first: int, last: int, ghost p: nat, ghost q: nat)
      requires Valid() && p <= q <= |Flat(chains)| && first == Head(Flat(chains), p) && last == Head(Flat(chains), q)
      modifies this`buckets, this`next, this`numElements, this`home, this`chains
      ensures Valid() && q <= |Flat(old(Contents()))|
      ensures Flat(Contents()) == Flat(old(Contents()))[..p] + Flat(old(Contents()))[q..]
    {
      hide Sound, Ok, Values, Flat, Proper, Lawful;
      SoundSizes(f, Memory(), numElements);
      ghost var t0, cs := Contents(), chains;
      SamePlace(Memory(), p, q);
      if first == last {
        assert Flat(t0)[..p] + Flat(t0)[p..] == Flat(t0);
        return;
      }
      ghost var b, i, c, j := RangeEnds(f, Memory(), p, q);
      var fBucket := Bucket(f.key(val[first]));
      var lBucket := |buckets|;
      if last != -1 { lBucket := Bucket(f.key(val[last])); }
      if fBucket == lBucket {
        EraseBucket(fBucket, i, j, first, last);
        FlatCut(t0, b, i, j);
      } else {
        EraseSeveral(fBucket, i, lBucket, j, first, last, p);
      }
    }

    /** The last branch of erase: the end of one bucket, all between, and the front of the other. */
    method EraseSeveral(fBucket: nat, ghost i: nat, lBucket: nat, ghost j: nat, first: nat, last: int, ghost p: nat)
      requires Valid() && fBucket < lBucket <= |chains| == |buckets| && i < |chains[fBucket]| && first == chains[fBucket][i]
      requires p == |Flat(Contents()[..fBucket])| + i
      requires if lBucket < |chains| then j <= |chains[lBucket]| && last == Head(chains[lBucket], j) else j == 0
      modifies this`buckets, this`next, this`numElements, this`home, this`chains
      ensures Valid() && lBucket <= |old(Contents())| && p <= |Flat(old(Contents()))|
      ensures var t, q := old(Contents()), |Flat(old(Contents())[..lBucket])| + j;
        q <= |Flat(t)| && Flat(Contents()) == Flat(t)[..p] + Flat(t)[q..]
    {
      hide Sound, Ok, Values, Flat, Proper, Lawful, RangeCut;
      ghost var t0, cs := Contents(), chains;
      SoundSizes(f, Memory(), numElements);
      BucketAt(Memory(), fBucket);
      EraseBucket(fBucket, i, |chains[fBucket]|, first, -1);
      FirstCut(t0, Contents(), fBucket, i);
      var n := fBucket + 1;
      while n < lBucket
        invariant Valid() && fBucket < n <= lBucket && |chains| == |cs|
        invariant RangeCut(t0, Contents(), p, n) && forall k :: n <= k < |chains| ==> chains[k] == cs[k]
      {
        ghost var t := Contents();
        EraseUpTo(n, |chains[n]|, -1);
        RangeCutOn(t0, t, Contents(), p, n);
        n := n + 1;
      }
      ghost var t := Contents();
      SoundSizes(f, Memory(), numElements);
      if lBucket != |buckets| {
        BucketAt(Memory(), lBucket);
        EraseUpTo(lBucket, j, last);
      }
      RangeCutEnds(t0, t, Contents(), p, lBucket, j);
    }

    /** erase of the node an iterator stands on; b and i say where it is. */
    method EraseNode(p: nat, ghost b: nat, ghost i: nat)
      requires Valid() && b < |chains| && i < |chains[b]| && p == chains[b][i]
      modifies this`buckets, this`next, this`numElements, this`home, this`chains
      ensures Valid() && i < |old(Contents())[b]|
      ensures Contents() == old(Contents())[b := old(Contents())[b][..i] + old(Contents())[b][i + 1..]]
    {
      hide Sound, Ok, Values, Flat, Proper, Lawful;
      SoundSizes(f, Memory(), numElements);
      ghost var m := Memory();
      BucketAt(m, b);
      NodeAt(m, b, i);
      BucketOfNode(f, m, b, i);
      CutLength(m, b, i, i + 1, numElements);
      var n := Bucket(f.key(val[p]));
      var cur := buckets[n];
      if cur == p {
        OnlyOnce(m, n, 0, i);
        assert Contents()[n][..0] + Contents()[n][1..] == Contents()[n][1..];
        DropFront(n, cur);
      } else {
        NodeAt(m, n, 0);
        var following := next[cur];
        ghost var g: nat := 0;
        while following != p
          invariant Memory() == m && numElements == old(numElements) && g < i && cur == chains[n][g] && following == Head(chains[n], g + 1)
          decreases i - g
        {
          assert g + 1 != i;
          NodeAt(m, n, g + 1);
          cur, g := following, g + 1;
          following := next[cur];
        }
        OnlyOnce(m, n, g + 1, i);
        var _ := DropBehind(n, g, cur, following);
      }
      SoundCut(f, m, Memory(), n, i, i + 1, numElements);
    }

    /** clear */
    method Clear()
      requires Valid()
      modifies this`buckets, this`numElements, this`home, this`chains
      ensures Valid() && Contents() == seq(|old(Contents())|, _ => []) && numElements == 0
    {
      hide Sound, Ok, Values, Flat, Proper;
      SoundSizes(f, Memory(), numElements);
      ghost var t0 := Contents();
      var i := 0;
      while i < |buckets|
        invariant Valid() && i <= |buckets| == |chains| == |t0| && |Contents()| == |t0|
        invariant forall b :: 0 <= b < i ==> Contents()[b] == []
      {
        ghost var t := Contents();
        EraseUpTo(i, |chains[i]|, -1);
        SoundSizes(f, Memory(), numElements);
        assert Contents()[i] == t[i][|t[i]|..] == [];
        i := i + 1;
      }
      FlatEmpty(Contents());
      SoundSizes(f, Memory(), numElements);
    }

    /** _M_copy_from, into a table that holds nothing. */
    method CopyFrom(ht: Table<V, K>)
      requires Lawful(f) && f == ht.f && ht.Valid() && ht != this && |next| == |val| && |Flat(chains)| == 0
      modifies this`buckets, this`next, this`val, this`numElements, this`home, this`chains
      ensures Valid() && Contents() == ht.Contents() && numElements == ht.numElements
    {
      hide Sound, Ok, Values, Flat, Proper;
      SoundSizes(ht.f, ht.Memory(), ht.numElements);
      var n := |ht.buckets|;
      buckets := seq(n, _ => -1);
      home, chains := seq(|next|, _ => -1), seq(n, _ => []);
      BlankOk(Memory(), n);
      var i := 0;
      ghost var t := ht.Contents();
      while i < n
        invariant i <= n == |t| == |chains| && Ok(Memory()) && Contents() == t[..i] + seq(n - i, _ => [])
      {
        BucketAt(Memory(), i);
        CopyBucket(ht, i);
        CopiedMore(t, n, i);
        i := i + 1;
      }
      assert t[..n] + seq(0, _ => []) == t;
      numElements := ht.numElements;
      SoundCopy(f, Memory(), ht.Memory(), numElements);
    }

    /** One bucket of it: the copies are linked one behind the other. */
    method CopyBucket(ht: Table<V, K>, i: nat)
      requires ht.Valid() && ht != this && Ok(Memory()) && i < |chains| == |ht.chains| && chains[i] == []
      modifies this`buckets, this`next, this`val, this`home, this`chains
      ensures Ok(Memory()) && |chains| == old(|chains|) && |old(Contents())| == |chains|
      ensures Contents() == old(Contents())[i := ht.Contents()[i]]
    {
      hide Sound, Ok, Values, Flat, Proper;
      SoundSizes(ht.f, ht.Memory(), ht.numElements);
      ghost var t, v := Contents(), ht.Contents()[i];
      BucketAt(ht.Memory(), i);
      BucketAt(Memory(), i);
      var cur := ht.buckets[i];
      if cur != -1 {
        NodeAt(ht.Memory(), i, 0);
        ghost var m := Memory();
        var copy := NewNode(ht.val[cur]);
        LinkFirst(i, copy, m, v);
        var following := ht.next[cur];
        ghost var j: nat := 0;
        while following != -1
          invariant Ok(Memory()) && |chains| == |t| && j < |v| == |ht.chains[i]| && following == Head(ht.chains[i], j + 1)
          invariant Contents() == t[i := v[..j + 1]] && |chains[i]| == j + 1 && copy == chains[i][j]
          decreases |v| - j
        {
          NodeAt(ht.Memory(), i, j + 1);
          m := Memory();
          var node := NewNode(ht.val[following]);
          LinkLast(i, j, copy, node, m, t, v);
          copy, j := node, j + 1;
          following := ht.next[following];
        }
        assert v[..|v|] == v;
      } else {
        assert v == [] && t[i] == [];
        assert t[i := []] == t;
      }
    }

    /** The first copy of a bucket. */
    method LinkFirst(i: nat, copy: nat, ghost m: Mem<V>, ghost v: seq<V>)
      requires Ok(m) && v != [] && Memory() == Fresh(m, v[0]) && copy == |m.val| && i < |m.chains| && m.chains[i] == []
      modifies this`buckets, this`next, this`home, this`chains
      ensures Ok(Memory()) && chains == m.chains[i := [copy]] && Contents() == Values(m)[i := v[..1]]
    {
      hide Ok, Values;
      FreshOk(m, v[0]);
      BucketAt(m, i);
      BucketAt(Memory(), i);
      MemSizes(m);
      PushedOk(Memory(), i, copy);
      ghost var m' := Pushed(Memory(), i, copy);
      assert Values(m)[i] == [] && [v[0]] + [] == v[..1] && [copy] + [] == [copy];
      buckets := buckets[i := copy];
      home, chains := home[copy := i], chains[i := [copy]];
      assert next[copy := -1] == next;
      assert Memory() == m';
    }

    /** Every further copy. */
    method LinkLast(i: nat, ghost j: nat, copy: nat, node: nat, ghost m: Mem<V>, ghost t: seq<seq<V>>, ghost v: seq<V>)
      requires Ok(m) && j + 1 < |v| && Memory() == Fresh(m, v[j + 1]) && node == |m.val| && i < |m.chains| == |t|
      requires |m.chains[i]| == j + 1 && copy == m.chains[i][j] && Values(m) == t[i := v[..j + 1]]
      modifies this`next, this`home, this`chains
      ensures Ok(Memory()) && chains == m.chains[i := m.chains[i] + [node]] && Contents() == t[i := v[..j + 2]]
    {
      hide Ok, Values;
      FreshOk(m, v[j + 1]);
      MemSizes(m);
      NodeAt(m, i, j);
      NodeAt(Memory(), i, j);
      InsertedOk(Memory(), i, j, node);
      ghost var m' := Inserted(Memory(), i, j, node);
      assert v[..j + 1][..j + 1] + [v[j + 1]] + v[..j + 1][j + 1..] == v[..j + 2];
      next := next[copy := node];
      home := home[node := i];
      assert chains[i][..j + 1] + [node] + chains[i][j + 1..] == chains[i] + [node];
      chains := chains[i := chains[i] + [node]];
      assert m'.next == next;
      assert Memory() == m';
    }

    /** operator= */
    method Assign(ht: Table<V, K>)
      requires Valid() && ht.Valid()
      modifies this
      ensures Valid() && Contents() == old(ht.Contents()) && f == ht.f
    {
      hide Sound, Ok, Values, Proper;
      if ht != this {
        Clear();
        NothingLeft(f, Memory(), numElements);
        SoundSizes(f, Memory(), numElements);
        SoundSizes(ht.f, ht.Memory(), ht.numElements);
        f := ht.f;
        CopyFrom(ht);
      }
    }
  }

  lemma EmptyOk<V>(m: Mem<V>, n: nat)
    requires m.next == m.home == [] && m.val == [] && m.heads == seq(n, _ => -1) && m.chains == seq(n, _ => [])
    ensures Ok(m) && Values(m) == seq(n, _ => [])
  {
  }

  lemma EmptySound<V(!new), K(!new)>(f: Keys<V, K>, m: Mem<V>, n: nat)
    requires Lawful(f) && n > 0
    requires m.next == m.home == [] && m.val == [] && m.heads == seq(n, _ => -1) && m.chains == seq(n, _ => [])
    ensures Sound(f, m, 0) && Values(m) == seq(n, _ => [])
  {
    hide Ok, Values, Lawful;
    EmptyOk(m, n);
    FlatEmpty(Values(m));
  }

  /** x has gone to the front of its bucket, which had no such key. */
  lemma SoundPut<V(!new), K(!new)>(f: Keys<V, K>, m: Mem<V>, n: nat, x: V, m': Mem<V>)
    requires Sound(f, m, n) && Ok(m') && |Values(m)| > 0
    requires var b := BucketOf(f, x, |Values(m)|);
      Find(f, Values(m)[b], f.key(x)) == |Values(m)[b]| && Values(m') == Values(m)[b := [x] + Values(m)[b]]
    ensures Sound(f, m', n + 1) && Values(m') != Values(m)
  {
    hide Ok, Values, Find, Flat, Proper, Lawful;
    var t, b := Values(m), BucketOf(f, x, |Values(m)|);
    PutProper(f, t, x);
    FlatLength(t, b, [x] + t[b]);
  }

  lemma SoundInsert<V(!new), K(!new)>(f: Keys<V, K>, m: Mem<V>, n: nat, x: V, m': Mem<V>)
    requires Sound(f, m, n) && Ok(m') && |Values(m)| > 0
    requires var b := BucketOf(f, x, |Values(m)|);
      Values(m') == Values(m)[b := PutEqual(f, Values(m)[b], x)]
    ensures Sound(f, m', n + 1)
  {
    hide Ok, Values, Find, Flat, Proper, Lawful;
    var t, b := Values(m), BucketOf(f, x, |Values(m)|);
    PutProper(f, t, x);
    FlatLength(t, b, PutEqual(f, t[b], x));
  }

  // ---------- resizing, step by step ----------

  /** The buckets before bucket are empty, i values of bucket and all before have moved behind. */
  ghost predicate Rehashing<V(!new), K(!new)>(f: Keys<V, K>, t0: seq<seq<V>>, n: nat, bucket: nat, i: nat, t: seq<seq<V>>) {
    && n > 0 && |t| == |t0| + n && bucket <= |t0| && (if bucket < |t0| then i <= |t0[bucket]| else i == 0)
    && (forall b :: 0 <= b < bucket ==> t[b] == [])
    && (bucket < |t0| ==> t[bucket] == t0[bucket][i..])
    && (forall b :: bucket < b < |t0| ==> t[b] == t0[b])
    && t[|t0|..] == Rehashed(f, Flat(t0[..bucket]) + (if bucket < |t0| then t0[bucket][..i] else []), n)
  }

  lemma RehashingStarts<V(!new), K(!new)>(f: Keys<V, K>, t0: seq<seq<V>>, n: nat)
    requires n > 0 && |t0| > 0
    ensures Rehashing(f, t0, n, 0, 0, t0 + seq(n, _ => []))
  {
    hide Rehashed;
    RehashedNothing(f, n);
    assert Flat(t0[..0]) + t0[0][..0] == [];
    assert (t0 + seq(n, _ => []))[|t0|..] == seq(n, _ => []);
  }

  lemma RehashingLeft<V(!new), K(!new)>(f: Keys<V, K>, t0: seq<seq<V>>, n: nat, bucket: nat, i: nat, t: seq<seq<V>>)
    requires Rehashing(f, t0, n, bucket, i, t) && bucket < |t0|
    ensures |t| == |t0| + n && i <= |t0[bucket]| && t[bucket] == t0[bucket][i..]
  {
  }

  lemma RehashingOn<V(!new), K(!new)>(f: Keys<V, K>, t0: seq<seq<V>>, n: nat, bucket: nat, i: nat, t: seq<seq<V>>, t': seq<seq<V>>)
    requires Rehashing(f, t0, n, bucket, i, t) && bucket < |t0| && i < |t0[bucket]|
    requires var x := t0[bucket][i]; var b := |t0| + BucketOf(f, x, n);
      t' == t[bucket := t[bucket][1..]][b := [x] + t[b]]
    ensures Rehashing(f, t0, n, bucket, i + 1, t')
  {
    hide Rehashed, Flat;
    var x, s := t0[bucket][i], Flat(t0[..bucket]) + t0[bucket][..i];
    RehashedStep(f, s, x, n);
    assert s + [x] == Flat(t0[..bucket]) + t0[bucket][..i + 1];
    assert t'[|t0|..] == t[|t0|..][BucketOf(f, x, n) := [x] + t[|t0|..][BucketOf(f, x, n)]];
  }

  lemma RehashingNext<V(!new), K(!new)>(f: Keys<V, K>, t0: seq<seq<V>>, n: nat, bucket: nat, t: seq<seq<V>>)
    requires bucket < |t0| && Rehashing(f, t0, n, bucket, |t0[bucket]|, t)
    ensures Rehashing(f, t0, n, bucket + 1, 0, t)
  {
    hide Rehashed, Flat;
    FlatSplit(t0, bucket);
    assert t0[bucket][..|t0[bucket]|] == t0[bucket];
    if bucket + 1 < |t0| { assert Flat(t0[..bucket + 1]) + t0[bucket + 1][..0] == Flat(t0[..bucket + 1]); }
    assert Flat(t0[..bucket + 1]) + [] == Flat(t0[..bucket + 1]);
  }

  lemma RehashingEnds<V(!new), K(!new)>(f: Keys<V, K>, t0: seq<seq<V>>, n: nat, t: seq<seq<V>>)
    requires Rehashing(f, t0, n, |t0|, 0, t)
    ensures |t| == |t0| + n && t[|t0|..] == Rehashed(f, Flat(t0), n)
  {
    hide Rehashed, Flat;
    assert t0[..|t0|] == t0 && Flat(t0) + [] == Flat(t0);
  }

  lemma SoundRehashed<V(!new), K(!new)>(f: Keys<V, K>, t0: seq<seq<V>>, n: nat, m: Mem<V>, count: nat)
    requires Lawful(f) && Proper(f, t0) && n > 0 && Ok(m) && Values(m) == Rehashed(f, Flat(t0), n) && count == |Flat(t0)|
    ensures Sound(f, m, count)
  {
    hide Lawful, Proper, Ok, Rehashed, Flat, Values;
    RehashedProper(f, t0, n);
    RehashedPermutes(f, Flat(t0), n);
    SameSize(Flat(Values(m)), Flat(t0));
  }

  lemma SameSize<V>(s: seq<V>, t: seq<V>)
    requires multiset(s) == multiset(t)
    ensures |s| == |t|
  {
    assert |multiset(s)| == |multiset(t)|;
  }

  // ---------- places in the order of iteration ----------

  lemma FlatPlace(cs: seq<seq<nat>>, b: nat, i: nat)
    requires b < |cs| && i < |cs[b]|
    ensures var p := |Flat(cs[..b])| + i; p < |Flat(cs)| && Flat(cs)[p] == cs[b][i]
  {
    FlatSplit(cs, b);
    var p := |Flat(cs[..b])|;
    assert Flat(cs)[p..p + |cs[b]|][i] == Flat(cs)[p + i];
  }

  lemma FlatNone(cs: seq<seq<nat>>)
    ensures |Flat(cs[..0])| == 0
  {
  }

  lemma {:induction false} FlatSizes<V>(val: seq<V>, cs: seq<seq<nat>>)
    requires forall b :: 0 <= b < |cs| ==> |View(val, cs)[b]| == |cs[b]|
    ensures |Flat(View(val, cs))| == |Flat(cs)|
  {
    if cs != [] {
      hide Pick;
      var n := |cs| - 1;
      ViewFront(val, cs, n);
      FlatSizes(val, cs[..n]);
    }
  }

  lemma FlatSizesOf<V>(m: Mem<V>, n: nat)
    requires Ok(m) && n <= |m.chains|
    ensures |Flat(Values(m))| == |Flat(m.chains)| && |Flat(Values(m)[..n])| == |Flat(m.chains[..n])|
  {
    hide Ok, Pick, Flat;
    var cs, t := m.chains[..n], View(m.val, m.chains);
    forall b | 0 <= b < |m.chains| ensures |t[b]| == |m.chains[b]| { BucketAt(m, b); }
    FlatSizes(m.val, m.chains);
    ViewFront(m.val, m.chains, n);
    forall b | 0 <= b < n ensures |View(m.val, cs)[b]| == |cs[b]| { assert View(m.val, cs)[b] == t[b]; }
    FlatSizes(m.val, cs);
  }

  /** The run found in its bucket, at its places in the order. */
  lemma RangePlaces<V(!new), K(!new)>(f: Keys<V, K>, m: Mem<V>, k: K, b: nat)
    requires Ok(m) && Lawful(f) && Proper(f, Values(m)) && b == f.hash(k) % |m.chains|
    ensures |Flat(Values(m))| == |Flat(m.chains)|
    ensures var p, i := |Flat(m.chains[..b])|, Find(f, Values(m)[b], k); var e := RunEnd(f, Values(m)[b], k, i);
      && i <= e <= |Values(m)[b]| && p + e <= |Flat(m.chains)|
      && (i == |Values(m)[b]| ==> e == i)
      && forall j :: 0 <= j < |Flat(Values(m))| ==> (f.equals(f.key(Flat(Values(m))[j]), k) <==> p + i <= j < p + e)
  {
    hide Ok, Values, Flat, Find, RunEnd, Grouped, Lawful;
    FlatSizesOf(m, b);
    FlatSplit(Values(m), b);
    RangeIsAll(f, Values(m), k, b);
    NoRun(f, Values(m)[b], k);
  }

  lemma ViewFront<V>(val: seq<V>, cs: seq<seq<nat>>, n: nat)
    requires n <= |cs|
    ensures View(val, cs[..n]) == View(val, cs)[..n]
  {
    hide Pick;
  }

  lemma BucketOfNode<V(!new), K(!new)>(f: Keys<V, K>, m: Mem<V>, b: nat, i: nat)
    requires Ok(m) && Proper(f, Values(m)) && b < |m.chains| && i < |m.chains[b]| && m.chains[b][i] < |m.val|
    ensures BucketOf(f, m.val[m.chains[b][i]], |m.chains|) == b
  {
    hide Grouped;
    NodeAt(m, b, i);
  }

  lemma RunStep<V, K>(f: Keys<V, K>, s: seq<V>, k: K, i: nat)
    requires i <= |s|
    ensures RunEnd(f, s, k, i) == if i < |s| && f.equals(f.key(s[i]), k) then RunEnd(f, s, k, i + 1) else i
  {
  }

  lemma NoRun<V, K>(f: Keys<V, K>, s: seq<V>, k: K)
    ensures RunEnd(f, s, k, |s|) == |s|
  {
  }

  lemma KeepNothing<V>(test: V -> bool, s: seq<V>)
    ensures Keep(test, s[..0]) == []
  {
  }

  lemma KeepOne<V>(test: V -> bool, s: seq<V>, i: nat)
    requires i < |s|
    ensures Keep(test, s[..i + 1]) == Keep(test, s[..i]) + if test(s[i]) then [s[i]] else []
  {
    assert s[..i + 1][..i] == s[..i];
  }

  /** All values with the key are in its bucket. */
  lemma KeepBucket<V(!new), K(!new)>(f: Keys<V, K>, t: seq<seq<V>>, k: K, b: nat)
    requires Lawful(f) && Proper(f, t) && b == f.hash(k) % |t|
    ensures Keep(HasKey(f, k), Flat(t)) == Keep(HasKey(f, k), t[b])
  {
    hide Keep, Flat, Lawful, Grouped;
    KeepFlat(f, t, k, b, |t|);
    assert t[..|t|] == t;
  }

  lemma OtherBucket<V(!new), K(!new)>(f: Keys<V, K>, t: seq<seq<V>>, k: K, c: nat)
    requires Lawful(f) && Placed(f, t) && c < |t| && c != f.hash(k) % |t|
    ensures Keep(HasKey(f, k), t[c]) == []
  {
    hide Keep, Lawful;
    var s := t[c];
    forall i | 0 <= i < |s| ensures !HasKey(f, k)(s[i]) {
      assert BucketOf(f, t[c][i], |t|) == c;
      HashesAlike(f, s[i], k);
    }
    KeepNone(HasKey(f, k), s);
  }

  lemma {:induction false} KeepFlat<V(!new), K(!new)>(f: Keys<V, K>, t: seq<seq<V>>, k: K, b: nat, n: nat)
    requires Lawful(f) && Placed(f, t) && b == f.hash(k) % |t| && n <= |t|
    ensures Keep(HasKey(f, k), Flat(t[..n])) == if b < n then Keep(HasKey(f, k), t[b]) else []
  {
    if n > 0 {
      hide Keep, Lawful;
      var test := HasKey(f, k);
      KeepFlat(f, t, k, b, n - 1);
      assert t[..n][..n - 1] == t[..n - 1];
      KeepConcat(test, Flat(t[..n - 1]), t[n - 1]);
      if n - 1 != b {
        OtherBucket(f, t, k, n - 1);
      }
    } else {
      KeepNone(HasKey(f, k), Flat(t[..0]));
    }
  }

  lemma {:induction false} KeepNone<V>(test: V -> bool, s: seq<V>)
    requires forall i :: 0 <= i < |s| ==> !test(s[i])
    ensures Keep(test, s) == []
  {
    if s != [] { KeepNone(test, s[..|s| - 1]); }
  }

  // ---------- what the insertions add ----------

  lemma ResizedBag<V(!new), K(!new)>(f: Keys<V, K>, t0: seq<seq<V>>, t: seq<seq<V>>, n: nat)
    requires n > 0 && (t == t0 || t == Rehashed(f, Flat(t0), n))
    ensures multiset(Flat(t)) == multiset(Flat(t0))
  {
    hide Flat, Rehashed;
    RehashedPermutes(f, Flat(t0), n);
  }

  lemma SameElements<V>(s: seq<V>, t: seq<V>)
    requires multiset(s) == multiset(t)
    ensures forall x :: x in s <==> x in t
  {
    forall x ensures x in s <==> x in t { assert x in multiset(s) <==> x in multiset(t); }
  }

  lemma EqualPut<V(!new), K(!new)>(f: Keys<V, K>, t: seq<seq<V>>, x: V)
    requires Lawful(f) && Proper(f, t)
    ensures var b := BucketOf(f, x, |t|);
      multiset(Flat(t[b := PutEqual(f, t[b], x)])) == multiset(Flat(t)) + multiset{x}
  {
    hide Flat, Lawful, Grouped, PutEqual;
    var b := BucketOf(f, x, |t|);
    PutGrouped(f, t[b], x);
    FlatPermutes(t, b, PutEqual(f, t[b], x));
    Recount(multiset(Flat(t[b := PutEqual(f, t[b], x)])), multiset(t[b]), multiset(Flat(t)), multiset{x});
  }

  lemma Recount<V>(a: multiset<V>, b: multiset<V>, c: multiset<V>, d: multiset<V>)
    requires a + b == c + (b + d)
    ensures a == c + d
  {
    forall y ensures a[y] == (c + d)[y] { assert (a + b)[y] == (c + (b + d))[y]; }
  }

  lemma UniquePut<V(!new), K(!new)>(f: Keys<V, K>, t: seq<seq<V>>, x: V)
    requires Lawful(f) && Proper(f, t)
    ensures var b := BucketOf(f, x, |t|);
      var t', absent := t[b := PutUnique(f, t[b], x)], forall y :: y in Flat(t) ==> !Same(f, y, x);
      && (t' != t <==> absent) && multiset(Flat(t')) == multiset(Flat(t)) + if absent then multiset{x} else multiset{}
  {
    hide Flat, Lawful, Grouped;
    var b := BucketOf(f, x, |t|);
    FoundAnywhere(f, t, x);
    if Find(f, t[b], f.key(x)) == |t[b]| {
      FrontPermutes(t, b, x);
      assert |t[b := [x] + t[b]][b]| != |t[b]|;
    } else {
      assert t[b := t[b]] == t;
    }
  }

  lemma FoundAnywhere<V(!new), K(!new)>(f: Keys<V, K>, t: seq<seq<V>>, x: V)
    requires Lawful(f) && Proper(f, t)
    ensures var b := BucketOf(f, x, |t|);
      Find(f, t[b], f.key(x)) == |t[b]| <==> forall y :: y in Flat(t) ==> !Same(f, y, x)
  {
    hide Flat, Grouped;
    var b := BucketOf(f, x, |t|);
    if Find(f, t[b], f.key(x)) == |t[b]| {
      forall y | y in Flat(t) ensures !Same(f, y, x) {
        FlatMember(t, y);
        var c :| 0 <= c < |t| && y in t[c];
        var i :| 0 <= i < |t[c]| && t[c][i] == y;
        assert BucketOf(f, t[c][i], |t|) == c;
        SameBucket(f, y, x, |t|);
      }
    } else {
      var y := t[b][Find(f, t[b], f.key(x))];
      FlatMember(t, y);
      assert y in t[b];
    }
  }

  // ---------- erasing, step by step ----------

  /** Of bucket n, the values 1, ..., p - 1 have been judged and i of them have stayed. */
  ghost predicate Erasing<V(!new), K(!new)>(f: Keys<V, K>, t: seq<seq<V>>, n: nat, k: K, p: nat, i: nat, t': seq<seq<V>>) {
    && n < |t| && 1 <= p <= |t[n]| && i == |Without(f, t[n][1..p], k)|
    && t' == t[n := [t[n][0]] + Without(f, t[n][1..p], k) + t[n][p..]]
  }

  lemma ErasingStarts<V(!new), K(!new)>(f: Keys<V, K>, t: seq<seq<V>>, n: nat, k: K)
    requires n < |t| && t[n] != []
    ensures Erasing(f, t, n, k, 1, 0, t)
  {
    var v := t[n];
    assert v[1..1] == [] && [v[0]] + [] + v[1..] == v;
  }

  lemma WithoutMiddle<V>(a: seq<V>, x: V, z: seq<V>)
    ensures var u := a + ([x] + z); u[..|a|] == a && u[|a| + 1..] == z
  {
  }

  lemma ErasingOn<V(!new), K(!new)>(f: Keys<V, K>, t: seq<seq<V>>, n: nat, k: K, p: nat, i: nat, t': seq<seq<V>>)
    requires Erasing(f, t, n, k, p, i, t') && i + 1 < |t'[n]|
    ensures p < |t[n]| && t'[n][i + 1] == t[n][p] && |t'| == |t|
    ensures var u := t'[n];
      if f.equals(f.key(t[n][p]), k) then Erasing(f, t, n, k, p + 1, i, t'[n := u[..i + 1] + u[i + 2..]])
      else Erasing(f, t, n, k, p + 1, i + 1, t')
  {
    hide Keep;
    var v, u := t[n], t'[n];
    var w := Without(f, v[1..p], k);
    assert v[1..p + 1] == v[1..p] + [v[p]];
    WithoutOne(f, v[1..p], v[p], k);
    assert v[p..] == [v[p]] + v[p + 1..];
    if f.equals(f.key(v[p]), k) {
      assert u == ([v[0]] + w) + ([v[p]] + v[p + 1..]) && w + [] == w;
      WithoutMiddle([v[0]] + w, v[p], v[p + 1..]);
      assert t'[n := u[..i + 1] + u[i + 2..]] == t[n := [v[0]] + w + v[p + 1..]];
    } else {
      assert [v[0]] + w + ([v[p]] + v[p + 1..]) == [v[0]] + (w + [v[p]]) + v[p + 1..];
    }
  }

  lemma WithoutOne<V, K>(f: Keys<V, K>, s: seq<V>, x: V, k: K)
    ensures Without(f, s + [x], k) == Without(f, s, k) + if f.equals(f.key(x), k) then [] else [x]
  {
    assert (s + [x])[..|s|] == s;
  }

  lemma ErasingEnds<V(!new), K(!new)>(f: Keys<V, K>, t: seq<seq<V>>, n: nat, k: K, p: nat, i: nat, t': seq<seq<V>>)
    requires Erasing(f, t, n, k, p, i, t') && |t'[n]| == i + 1
    ensures p == |t[n]| && t' == t[n := [t[n][0]] + Without(f, t[n][1..], k)] && i == |Without(f, t[n][1..], k)|
  {
    hide Keep;
    var v := t[n];
    assert v[1..|v|] == v[1..] && v[|v|..] == [];
    assert [v[0]] + Without(f, v[1..], k) + [] == [v[0]] + Without(f, v[1..], k);
  }

  lemma NothingWithout<V, K>(f: Keys<V, K>, t: seq<seq<V>>, n: nat, k: K)
    requires n < |t|
    ensures t[n] == [] ==> t[n := Without(f, t[n], k)] == t
  {
  }

  lemma LastJudged<V, K>(f: Keys<V, K>, v: seq<V>, k: K)
    requires v != []
    ensures Without(f, v, k) == if f.equals(f.key(v[0]), k) then Without(f, v[1..], k) else [v[0]] + Without(f, v[1..], k)
    ensures |Without(f, v[1..], k)| < |v|
    ensures ([v[0]] + Without(f, v[1..], k))[1..] == Without(f, v[1..], k)
  {
    var test := NotKey(f, k);
    assert v == [v[0]] + v[1..];
    KeepConcat(test, [v[0]], v[1..]);
    assert [v[0]][..0] == [];
  }

  lemma SoundErased<V(!new), K(!new)>(f: Keys<V, K>, t: seq<seq<V>>, m: Mem<V>, n: nat, k: K, left: nat, count: nat, erased: nat)
    requires Lawful(f) && Proper(f, t) && Ok(m) && n < |t| && Values(m) == t[n := Without(f, t[n], k)]
    requires count == |Flat(t)| && left == count - erased && erased == |t[n]| - |Without(f, t[n], k)|
    ensures Sound(f, m, left) && erased == |Flat(t)| - |Flat(Values(m))|
  {
    hide Lawful, Proper, Ok, Flat, Without, Values;
    WithoutProper(f, t, n, k);
    FlatLength(t, n, Without(f, t[n], k));
  }

  lemma CutStarts<V>(t: seq<seq<V>>, cs: seq<seq<nat>>, n: nat)
    requires n < |t| && n < |cs|
    ensures t[n := t[n][0..]] == t && cs[n := cs[n][0..]] == cs
  {
    assert t[n][0..] == t[n] && cs[n][0..] == cs[n];
  }

  lemma CutOn<V>(t: seq<seq<V>>, cs: seq<seq<nat>>, n: nat, i: nat)
    requires n < |t| && n < |cs| && i < |t[n]| && i < |cs[n]|
    ensures t[n := t[n][i..]][n := t[n][i..][1..]] == t[n := t[n][i + 1..]]
    ensures cs[n := cs[n][i..]][n := cs[n][i..][1..]] == cs[n := cs[n][i + 1..]]
  {
    assert t[n][i..][1..] == t[n][i + 1..] && cs[n][i..][1..] == cs[n][i + 1..];
  }

  /** No node stands twice in a bucket. */
  lemma OnlyOnce<V>(m: Mem<V>, n: nat, i: nat, hi: nat)
    requires Ok(m) && n < |m.chains| && i <= |m.chains[n]| && hi <= |m.chains[n]| && Head(m.chains[n], i) == Head(m.chains[n], hi)
    ensures i == hi
  {
    assert Chain(m.next, m.home, m.heads[n], m.chains[n], n);
  }

  lemma CutLength<V>(m: Mem<V>, n: nat, lo: nat, hi: nat, count: nat)
    requires Ok(m) && n < |m.chains| && lo <= hi <= |m.chains[n]| && count == |Flat(Values(m))|
    ensures hi <= |Values(m)[n]| && count >= hi
  {
    hide Ok, Values;
    BucketAt(m, n);
    FlatSplit(Values(m), n);
  }

  lemma SoundCut<V(!new), K(!new)>(f: Keys<V, K>, m: Mem<V>, m': Mem<V>, n: nat, lo: nat, hi: nat, left: int)
    requires Sound(f, m, |Flat(Values(m))|) && Ok(m') && n < |Values(m)| && lo <= hi <= |Values(m)[n]|
    requires Values(m') == Values(m)[n := Values(m)[n][..lo] + Values(m)[n][hi..]] && left == |Flat(Values(m))| - (hi - lo)
    ensures left >= 0 && Sound(f, m', left)
  {
    hide Lawful, Proper, Ok, Flat, Values;
    CutProper(f, Values(m), n, lo, hi);
    FlatLength(Values(m), n, Values(m)[n][..lo] + Values(m)[n][hi..]);
  }

  lemma InnerStarts<V>(t: seq<seq<V>>, cs: seq<seq<nat>>, n: nat, lo: nat)
    requires n < |t| && n < |cs| && lo <= |t[n]| && lo <= |cs[n]|
    ensures t[n := t[n][..lo] + t[n][lo..]] == t && cs[n := cs[n][..lo] + cs[n][lo..]] == cs
  {
    assert t[n][..lo] + t[n][lo..] == t[n] && cs[n][..lo] + cs[n][lo..] == cs[n];
  }

  lemma InnerOn<V>(t: seq<seq<V>>, cs: seq<seq<nat>>, n: nat, lo: nat, g: nat)
    requires n < |t| && n < |cs| && 0 < lo <= g < |t[n]| == |cs[n]|
    ensures var v := t[n][..lo] + t[n][g..]; t[n := v][n := v[..lo] + v[lo + 1..]] == t[n := t[n][..lo] + t[n][g + 1..]]
    ensures var c := cs[n][..lo] + cs[n][g..];
      cs[n := c][n := c[..lo] + c[lo + 1..]] == cs[n := cs[n][..lo] + cs[n][g + 1..]] && Head(c[..lo] + c[lo + 1..], lo) == Head(cs[n], g + 1)
  {
    var v, c := t[n][..lo] + t[n][g..], cs[n][..lo] + cs[n][g..];
    assert v[..lo] == t[n][..lo] && v[lo + 1..] == t[n][g + 1..];
    assert c[..lo] == cs[n][..lo] && c[lo + 1..] == cs[n][g + 1..];
  }

  // ---------- ranges over several buckets ----------

  /** Different places hold different nodes, and the end is no node. */
  lemma SamePlace<V>(m: Mem<V>, p: nat, q: nat)
    requires Ok(m) && p <= q <= |Flat(m.chains)|
    ensures Head(Flat(m.chains), p) == Head(Flat(m.chains), q) <==> p == q
    ensures |Flat(Values(m))| == |Flat(m.chains)|
  {
    hide Ok, Values, Flat;
    FlatSizesOf(m, 0);
    if p < q < |Flat(m.chains)| && Flat(m.chains)[p] == Flat(m.chains)[q] {
      var b, i := PlaceIn(m.chains, p);
      var c, j := PlaceIn(m.chains, q);
      NodeAt(m, b, i);
      NodeAt(m, c, j);
      OnlyOnce(m, b, i, j);
    }
  }

  lemma RangeEnds<V(!new), K(!new)>(f: Keys<V, K>, m: Mem<V>, p: nat, q: nat) returns (b: nat, i: nat, c: nat, j: nat)
    requires Ok(m) && Proper(f, Values(m)) && p < q <= |Flat(m.chains)|
    ensures |m.heads| == |m.chains| && b < |m.chains| && i < |m.chains[b]| && m.chains[b][i] == Flat(m.chains)[p]
    ensures m.chains[b][i] < |m.val| && BucketOf(f, m.val[m.chains[b][i]], |m.chains|) == b && p == |Flat(Values(m)[..b])| + i
    ensures q == |Flat(m.chains)| ==> c == |m.chains| && j == 0
    ensures q < |Flat(m.chains)| ==> c < |m.chains| && j < |m.chains[c]| && m.chains[c][j] == Flat(m.chains)[q]
    ensures q < |Flat(m.chains)| ==> m.chains[c][j] < |m.val| && BucketOf(f, m.val[m.chains[c][j]], |m.chains|) == c
    ensures c <= |Values(m)| && q == |Flat(Values(m)[..c])| + j && b <= c && (b == c ==> i < j)
  {
    hide Ok, Values, Flat, Proper;
    b, i := PlaceIn(m.chains, p);
    NodeAt(m, b, i);
    BucketAt(m, b);
    BucketOfNode(f, m, b, i);
    FlatSizesOf(m, b);
    if q == |Flat(m.chains)| {
      c, j := |m.chains|, 0;
      FlatSizesOf(m, c);
      assert m.chains[..c] == m.chains;
    } else {
      c, j := PlaceIn(m.chains, q);
      NodeAt(m, c, j);
      BucketOfNode(f, m, c, j);
      FlatSizesOf(m, c);
      if c < b { FlatMonotone(m.chains, c + 1, b); FlatSplit(m.chains, c); }
    }
  }

  lemma {:induction false} FlatMonotone<V>(t: seq<seq<V>>, a: nat, b: nat)
    requires a <= b <= |t|
    ensures |Flat(t[..a])| <= |Flat(t[..b])|
  {
    if a < b {
      FlatMonotone(t, a, b - 1);
      assert t[..b][..b - 1] == t[..b - 1];
    }
  }

  /** The values from place p up to bucket n are gone, and the buckets from n on are untouched. */
  ghost predicate RangeCut<V>(t0: seq<seq<V>>, t: seq<seq<V>>, p: nat, n: nat) {
    && n <= |t0| == |t| && t[n..] == t0[n..] && |Flat(t[..n])| == p && p <= |Flat(t0[..n])| <= |Flat(t0)|
    && Flat(t) == Flat(t0)[..p] + Flat(t0)[|Flat(t0[..n])|..]
  }

  lemma FirstCut<V>(t0: seq<seq<V>>, t: seq<seq<V>>, b: nat, i: nat)
    requires b < |t0| && i <= |t0[b]| && t == t0[b := t0[b][..i] + t0[b][|t0[b]|..]]
    ensures RangeCut(t0, t, |Flat(t0[..b])| + i, b + 1)
  {
    hide Flat;
    FlatCut(t0, b, i, |t0[b]|);
    FlatSplit(t0, b);
    FlatSplit(t, b);
    assert t[..b] == t0[..b] && t[b + 1..] == t0[b + 1..];
    assert t[b] == t0[b][..i];
  }

  lemma RangeCutOn<V>(t0: seq<seq<V>>, t: seq<seq<V>>, t': seq<seq<V>>, p: nat, n: nat)
    requires RangeCut(t0, t, p, n) && n < |t| && t' == t[n := t[n][|t[n]|..]]
    ensures RangeCut(t0, t', p, n + 1)
  {
    hide Flat;
    var u := t[n];
    assert u == t0[n] by { assert t[n..][0] == t0[n..][0]; }
    assert u[..0] + u[|u|..] == u[|u|..];
    FlatCut(t, n, 0, |u|);
    FlatSplit(t0, n);
    FlatSplit(t', n);
    assert t'[..n] == t[..n] && t'[n] == [] && t'[n + 1..] == t[n..][1..] && t0[n + 1..] == t0[n..][1..];
    CutAgain(Flat(t0), p, |Flat(t0[..n])|, |u|);
  }

  lemma CutAgain<V>(s: seq<V>, p: nat, e: nat, n: nat)
    requires p <= e && e + n <= |s|
    ensures var a := s[..p] + s[e..]; p + n <= |a| && a[..p] + a[p + n..] == s[..p] + s[e + n..]
  {
  }

  lemma RangeCutEnds<V>(t0: seq<seq<V>>, t: seq<seq<V>>, t': seq<seq<V>>, p: nat, n: nat, j: nat)
    requires RangeCut(t0, t, p, n)
    requires if n < |t| then j <= |t[n]| && t' == t[n := t[n][j..]] else t' == t && j == 0
    ensures p <= |Flat(t0)| && |Flat(t0[..n])| + j <= |Flat(t0)|
    ensures Flat(t') == Flat(t0)[..p] + Flat(t0)[|Flat(t0[..n])| + j..]
  {
    hide Flat;
    if n < |t| {
      var u := t[n];
      assert u == t0[n] by { assert t[n..][0] == t0[n..][0]; }
      assert u[..0] + u[j..] == u[j..];
      FlatCut(t, n, 0, j);
      FlatSplit(t0, n);
      CutAgain(Flat(t0), p, |Flat(t0[..n])|, j);
    }
  }

  // ---------- copying ----------

  lemma BlankOk<V>(m: Mem<V>, n: nat)
    requires |m.next| == |m.val| && m.home == seq(|m.next|, _ => -1) && m.heads == seq(n, _ => -1) && m.chains == seq(n, _ => [])
    ensures Ok(m) && Values(m) == [] + seq(n, _ => [])
  {
    PickNothing(m.val);
  }

  lemma CopiedMore<V>(t: seq<seq<V>>, n: nat, i: nat)
    requires i < n == |t|
    ensures (t[..i] + seq(n - i, _ => []))[i := t[i]] == t[..i + 1] + seq(n - (i + 1), _ => [])
  {
  }

  lemma SoundCopy<V(!new), K(!new)>(f: Keys<V, K>, m: Mem<V>, m0: Mem<V>, n: nat)
    requires Sound(f, m0, n) && Ok(m) && Values(m) == Values(m0)
    ensures Sound(f, m, n)
  {
  }

  lemma NothingLeft<V(!new), K(!new)>(f: Keys<V, K>, m: Mem<V>, n: nat)
    requires Sound(f, m, n) && n == 0
    ensures |Flat(m.chains)| == 0
  {
    FlatSizesOf(m, 0);
  }

  lemma MemSizes<V>(m: Mem<V>)
    requires Ok(m)
    ensures |m.home| == |m.next| == |m.val| && |m.heads| == |m.chains|
  {
  }
}
