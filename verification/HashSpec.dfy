/** Hash tables as sequences of buckets, each a sequence of values; equal keys stand together. */
module HashSpec {
  import opened Ranges

  /** The hash function, the key of a value and when keys are equal; keys that are equal hash alike. */
  datatype Keys<!V, !K> = Keys(hash: K -> nat, key: V -> K, equals: (K, K) -> bool)

  ghost predicate Lawful<V(!new), K(!new)>(f: Keys<V, K>) {
    && (forall a :: f.equals(a, a))
    && (forall a, b :: f.equals(a, b) ==> f.equals(b, a))
    && (forall a, b, c :: f.equals(a, b) && f.equals(b, c) ==> f.equals(a, c))
    && (forall a, b :: f.equals(a, b) ==> f.hash(a) == f.hash(b))
  }

  predicate Same<V, K>(f: Keys<V, K>, x: V, y: V) { f.equals(f.key(x), f.key(y)) }

  /** _M_bkt_num */
  function BucketOf<V, K>(f: Keys<V, K>, x: V, n: nat): (b: nat)
    requires n > 0
    ensures b < n
  {
    f.hash(f.key(x)) % n
  }

  /** Values with equal keys are neighbours. */
  ghost predicate Grouped<V, K>(f: Keys<V, K>, s: seq<V>) {
    forall i, j, k :: 0 <= i < j < k < |s| && Same(f, s[i], s[k]) ==> Same(f, s[i], s[j])
  }

  ghost predicate Placed<V, K>(f: Keys<V, K>, t: seq<seq<V>>) {
    && |t| > 0
    && forall b, i :: 0 <= b < |t| && 0 <= i < |t[b]| ==> BucketOf(f, t[b][i], |t|) == b
  }

  /** What every operation keeps. */
  ghost predicate Proper<V, K>(f: Keys<V, K>, t: seq<seq<V>>) {
    Placed(f, t) && forall b :: 0 <= b < |t| ==> Grouped(f, t[b])
  }

  /** The order of iteration. */
  function Flat<V>(t: seq<seq<V>>): seq<V> { if t == [] then [] else Flat(t[..|t| - 1]) + t[|t| - 1] }

  // ---------- finding ----------

  /** The first place with an equal key, or the end. */
  function Find<V, K>(f: Keys<V, K>, s: seq<V>, k: K): (i: nat)
    ensures i <= |s| && (i < |s| ==> f.equals(f.key(s[i]), k)) && forall j :: 0 <= j < i ==> !f.equals(f.key(s[j]), k)
  {
    if s == [] || f.equals(f.key(s[0]), k) then 0 else
    var i := Find(f, s[1..], k);
    assert forall j :: 1 <= j < i + 1 ==> s[j] == s[1..][j - 1];
    i + 1
  }

  /** The end of the run of equal keys that starts at i. */
  function RunEnd<V, K>(f: Keys<V, K>, s: seq<V>, k: K, i: nat): (e: nat)
    requires i <= |s|
    ensures i <= e <= |s| && (e < |s| ==> !f.equals(f.key(s[e]), k)) && forall j :: i <= j < e ==> f.equals(f.key(s[j]), k)
    decreases |s| - i
  {
    if i < |s| && f.equals(f.key(s[i]), k) then RunEnd(f, s, k, i + 1) else i
  }

  lemma Between<V(!new), K(!new)>(f: Keys<V, K>, s: seq<V>, k: K, i: nat, e: nat, j: nat)
    requires Lawful(f) && Grouped(f, s) && i < e < j < |s| && f.equals(f.key(s[i]), k)
    ensures f.equals(f.key(s[j]), k) ==> f.equals(f.key(s[e]), k)
  {
    if f.equals(f.key(s[j]), k) {
      assert Same(f, s[i], s[j]);
      assert Same(f, s[i], s[e]);
    }
  }

  /** In a bucket, the run found holds all values with the key. */
  lemma RunIsAll<V(!new), K(!new)>(f: Keys<V, K>, s: seq<V>, k: K)
    requires Lawful(f) && Grouped(f, s)
    ensures var i := Find(f, s, k); var e := RunEnd(f, s, k, i);
      forall j :: 0 <= j < |s| ==> (f.equals(f.key(s[j]), k) <==> i <= j < e)
  {
    hide Lawful, Grouped;
    var i := Find(f, s, k);
    var e := RunEnd(f, s, k, i);
    forall j | e < j < |s| ensures !f.equals(f.key(s[j]), k) {
      if i < e { Between(f, s, k, i, e, j); }
    }
  }

  // ---------- inserting ----------

  /** insert_unique_noresize in its bucket */
  function PutUnique<V, K>(f: Keys<V, K>, s: seq<V>, x: V): seq<V> { if Find(f, s, f.key(x)) < |s| then s else [x] + s }

  /** insert_equal_noresize in its bucket */
  function PutEqual<V, K>(f: Keys<V, K>, s: seq<V>, x: V): seq<V> {
    var i := Find(f, s, f.key(x));
    if i < |s| then s[..i + 1] + [x] + s[i + 1..] else [x] + s
  }

  lemma GroupedInsert<V(!new), K(!new)>(f: Keys<V, K>, s: seq<V>, x: V, i: nat)
    requires Lawful(f) && Grouped(f, s) && i < |s| && Same(f, s[i], x)
    ensures Grouped(f, s[..i + 1] + [x] + s[i + 1..])
  {
    var t := s[..i + 1] + [x] + s[i + 1..];
    forall a, b, c | 0 <= a < b < c < |t| && Same(f, t[a], t[c]) ensures Same(f, t[a], t[b]) {
      var a', b', c' := if a <= i then a else a - 1, if b <= i then b else b - 1, if c <= i then c else c - 1;
      assert Same(f, t[a], s[a']) && Same(f, t[b], s[b']) && Same(f, t[c], s[c']);
      assert Same(f, s[a'], s[c']);
      if a' < b' < c' { assert Same(f, s[a'], s[b']); }
    }
  }

  lemma GroupedFront<V(!new), K(!new)>(f: Keys<V, K>, s: seq<V>, x: V)
    requires Lawful(f) && Grouped(f, s) && Find(f, s, f.key(x)) == |s|
    ensures Grouped(f, [x] + s)
  {
    var t := [x] + s;
    NotInside(f, s, x);
    hide Lawful, Find, Same;
    forall a, b, c | 0 <= a < b < c < |t| && Same(f, t[a], t[c]) ensures Same(f, t[a], t[b]) {
      assert a > 0;
      assert t[a] == s[a - 1] && t[b] == s[b - 1] && t[c] == s[c - 1];
    }
  }

  lemma NotInside<V(!new), K(!new)>(f: Keys<V, K>, s: seq<V>, x: V)
    requires Lawful(f) && Find(f, s, f.key(x)) == |s|
    ensures forall j :: 0 <= j < |s| ==> !Same(f, x, s[j])
  {
  }

  lemma PutGrouped<V(!new), K(!new)>(f: Keys<V, K>, s: seq<V>, x: V)
    requires Lawful(f) && Grouped(f, s)
    ensures Grouped(f, PutUnique(f, s, x)) && Grouped(f, PutEqual(f, s, x))
    ensures multiset(PutEqual(f, s, x)) == multiset(s) + multiset{x}
  {
    hide Grouped, Lawful;
    var i := Find(f, s, f.key(x));
    if i < |s| {
      GroupedInsert(f, s, x, i);
      assert s == s[..i + 1] + s[i + 1..];
    } else {
      GroupedFront(f, s, x);
    }
  }

  // ---------- erasing ----------

  /** The values that a test lets through, in their order. */
  function Keep<V>(test: V -> bool, s: seq<V>): (t: seq<V>)
    ensures |t| <= |s|
  {
    if s == [] then [] else Keep(test, s[..|s| - 1]) + if test(s[|s| - 1]) then [s[|s| - 1]] else []
  }

  lemma {:induction false} KeepMembers<V>(test: V -> bool, s: seq<V>, x: V)
    ensures x in Keep(test, s) <==> x in s && test(x)
  {
    if s != [] { KeepMembers(test, s[..|s| - 1], x); }
  }

  lemma {:induction false} KeepConcat<V>(test: V -> bool, s: seq<V>, t: seq<V>)
    ensures Keep(test, s + t) == Keep(test, s) + Keep(test, t)
    decreases |t|
  {
    if t == [] {
      assert s + t == s;
    } else {
      assert (s + t)[..|s + t| - 1] == s + t[..|t| - 1];
      KeepConcat(test, s, t[..|t| - 1]);
    }
  }

  /** Whatever in s has x's key is followed by nothing else. */
  ghost predicate Leads<V, K>(f: Keys<V, K>, s: seq<V>, x: V) {
    forall i, j :: 0 <= i < j < |s| && Same(f, s[i], x) ==> Same(f, s[i], s[j])
  }

  lemma GroupedLast<V, K>(f: Keys<V, K>, s: seq<V>, x: V)
    ensures Grouped(f, s + [x]) <==> Grouped(f, s) && Leads(f, s, x)
  {
    var t := s + [x];
    if Grouped(f, t) {
      forall i, j | 0 <= i < j < |s| && Same(f, s[i], x) ensures Same(f, s[i], s[j]) {
        assert Same(f, t[i], t[|s|]);
        assert Same(f, t[i], t[j]);
      }
      forall i, j, k | 0 <= i < j < k < |s| && Same(f, s[i], s[k]) ensures Same(f, s[i], s[j]) {
        assert Same(f, t[i], t[k]);
        assert Same(f, t[i], t[j]);
      }
    }
  }

  lemma {:induction false} KeepLeads<V(!new), K(!new)>(f: Keys<V, K>, test: V -> bool, s: seq<V>, x: V)
    requires Leads(f, s, x)
    ensures Leads(f, Keep(test, s), x)
  {
    if s != [] {
      var n := |s| - 1;
      KeepLeads(f, test, s[..n], x);
      var t := Keep(test, s[..n]);
      if test(s[n]) {
        forall i | 0 <= i < |t| && Same(f, t[i], x) ensures Same(f, t[i], s[n]) {
          KeepMembers(test, s[..n], t[i]);
          var i' :| 0 <= i' < n && s[..n][i'] == t[i];
          assert Same(f, s[i'], x);
        }
      }
    }
  }

  /** Leaving values out does not part those that stay. */
  lemma {:induction false} KeepGrouped<V(!new), K(!new)>(f: Keys<V, K>, test: V -> bool, s: seq<V>)
    requires Grouped(f, s)
    ensures Grouped(f, Keep(test, s))
  {
    if s != [] {
      hide Grouped, Leads;
      var n := |s| - 1;
      assert s == s[..n] + [s[n]];
      GroupedLast(f, s[..n], s[n]);
      KeepGrouped(f, test, s[..n]);
      KeepLeads(f, test, s[..n], s[n]);
      GroupedLast(f, Keep(test, s[..n]), s[n]);
      if !test(s[n]) { assert Keep(test, s) == Keep(test, s[..n]); }
    }
  }

  lemma ReversedGrouped<V(!new), K(!new)>(f: Keys<V, K>, s: seq<V>)
    requires Lawful(f) && Grouped(f, s)
    ensures Grouped(f, Reversed(s))
  {
    var r := Reversed(s);
    hide Reversed;
    forall i | 0 <= i < |s| ensures r[i] == s[|s| - 1 - i] { ReversedAt(s, i); }
    forall i, j, k | 0 <= i < j < k < |s| && Same(f, r[i], r[k]) ensures Same(f, r[i], r[j]) {
      assert Same(f, s[|s| - 1 - k], s[|s| - 1 - i]);
      assert Same(f, s[|s| - 1 - k], s[|s| - 1 - j]);
    }
  }

  /** erase(key) in its bucket */
  function Without<V, K>(f: Keys<V, K>, s: seq<V>, k: K): seq<V> { Keep(NotKey(f, k), s) }

  function NotKey<V, K>(f: Keys<V, K>, k: K): V -> bool { x => !f.equals(f.key(x), k) }

  /** The values with a key. */
  function HasKey<V, K>(f: Keys<V, K>, k: K): V -> bool { x => f.equals(f.key(x), k) }

  // ---------- resizing ----------

  /** The bucket b of n after moving everything: each value has been pushed in front of those before it. */
  function Moved<V, K>(f: Keys<V, K>, s: seq<V>, n: nat, b: nat): seq<V>
    requires n > 0
  {
    Reversed(Keep(x => BucketOf(f, x, n) == b, s))
  }

  function Rehashed<V, K>(f: Keys<V, K>, s: seq<V>, n: nat): (t: seq<seq<V>>)
    requires n > 0
    ensures |t| == n
  {
    seq(n, b requires 0 <= b < n => Moved(f, s, n, b))
  }

  lemma {:induction false} FlatMember<V>(t: seq<seq<V>>, x: V)
    ensures x in Flat(t) <==> exists b :: 0 <= b < |t| && x in t[b]
  {
    if t != [] {
      var n := |t| - 1;
      FlatMember(t[..n], x);
      if x in Flat(t[..n]) {
        var b :| 0 <= b < n && x in t[..n][b];
        assert x in t[b];
      }
      if b :| 0 <= b < n && x in t[b] { assert x in t[..n][b]; }
    }
  }

  /** Buckets whose keys differ: what is grouped in each is grouped in all. */
  lemma GroupedConcat<V(!new), K(!new)>(f: Keys<V, K>, s: seq<V>, t: seq<V>)
    requires Lawful(f) && Grouped(f, s) && Grouped(f, t)
    requires forall i, j :: 0 <= i < |s| && 0 <= j < |t| ==> !Same(f, s[i], t[j])
    ensures Grouped(f, s + t)
  {
    var u := s + t;
    forall i, j, k | 0 <= i < j < k < |u| && Same(f, u[i], u[k]) ensures Same(f, u[i], u[j]) {
      if i >= |s| { assert Same(f, t[i - |s|], t[k - |s|]); }
      if k < |s| { assert Same(f, s[i], s[k]); }
    }
  }

  lemma {:induction false} FlatGrouped<V(!new), K(!new)>(f: Keys<V, K>, t: seq<seq<V>>, n: nat)
    requires Lawful(f) && n <= |t| && Proper(f, t)
    ensures Grouped(f, Flat(t[..n]))
  {
    if n > 0 {
      hide Grouped;
      FlatGrouped(f, t, n - 1);
      assert t[..n][..n - 1] == t[..n - 1];
      var s, u := Flat(t[..n - 1]), t[n - 1];
      forall i, j | 0 <= i < |s| && 0 <= j < |u| ensures !Same(f, s[i], u[j]) {
        FlatMember(t[..n - 1], s[i]);
        var b :| 0 <= b < n - 1 && s[i] in t[..n - 1][b];
        var c :| 0 <= c < |t[b]| && t[b][c] == s[i];
        assert BucketOf(f, t[b][c], |t|) == b && BucketOf(f, t[n - 1][j], |t|) == n - 1;
        SameBucket(f, s[i], u[j], |t|);
      }
      GroupedConcat(f, s, u);
    }
  }

  lemma SameBucket<V(!new), K(!new)>(f: Keys<V, K>, x: V, y: V, n: nat)
    requires Lawful(f) && n > 0
    ensures Same(f, x, y) ==> BucketOf(f, x, n) == BucketOf(f, y, n)
  {
  }

  /** resize keeps everything proper ... */
  lemma RehashedProper<V(!new), K(!new)>(f: Keys<V, K>, t: seq<seq<V>>, n: nat)
    requires Lawful(f) && Proper(f, t) && n > 0
    ensures Proper(f, Rehashed(f, Flat(t), n))
  {
    hide Grouped, Proper, Lawful;
    FlatGrouped(f, t, |t|);
    assert t[..|t|] == t;
    var u := Rehashed(f, Flat(t), n);
    forall b | 0 <= b < n ensures Grouped(f, u[b]) && forall i :: 0 <= i < |u[b]| ==> BucketOf(f, u[b][i], n) == b {
      MovedRight(f, Flat(t), n, b);
    }
    ProperMeans(f, u);
  }

  lemma ProperMeans<V, K>(f: Keys<V, K>, u: seq<seq<V>>)
    requires |u| > 0
    requires forall b :: 0 <= b < |u| ==> Grouped(f, u[b]) && forall i :: 0 <= i < |u[b]| ==> BucketOf(f, u[b][i], |u|) == b
    ensures Proper(f, u)
  {
  }

  lemma MovedRight<V(!new), K(!new)>(f: Keys<V, K>, s: seq<V>, n: nat, b: nat)
    requires Lawful(f) && Grouped(f, s) && b < n
    ensures Grouped(f, Moved(f, s, n, b)) && forall i :: 0 <= i < |Moved(f, s, n, b)| ==> BucketOf(f, Moved(f, s, n, b)[i], n) == b
  {
    hide Grouped, Lawful, Reversed, Keep;
    var test := x => BucketOf(f, x, n) == b;
    var k := Keep(test, s);
    KeepGrouped(f, test, s);
    ReversedGrouped(f, k);
    forall i | 0 <= i < |k| ensures BucketOf(f, Reversed(k)[i], n) == b {
      ReversedAt(k, i);
      KeepMembers(test, s, k[|k| - 1 - i]);
    }
  }

  lemma {:induction false} FlatPermutes<V>(t: seq<seq<V>>, b: nat, s: seq<V>)
    requires b < |t|
    ensures multiset(Flat(t[b := s])) + multiset(t[b]) == multiset(Flat(t)) + multiset(s)
  {
    var n := |t| - 1;
    var u := t[b := s];
    assert multiset(Flat(t)) == multiset(Flat(t[..n])) + multiset(t[n]);
    assert multiset(Flat(u)) == multiset(Flat(u[..n])) + multiset(u[n]);
    if b < n {
      FlatPermutes(t[..n], b, s);
      assert u[..n] == t[..n][b := s];
      Shuffled(multiset(Flat(u[..n])), multiset(t[b]), multiset(Flat(t[..n])), multiset(s), multiset(t[n]));
    } else {
      assert u[..n] == t[..n];
      Shuffled(multiset(Flat(t[..n])), multiset(s), multiset(Flat(t[..n])), multiset(s), multiset(t[n]));
    }
  }

  lemma Shuffled<V>(a: multiset<V>, b: multiset<V>, c: multiset<V>, d: multiset<V>, e: multiset<V>)
    requires a + b == c + d
    ensures (a + e) + b == (c + e) + d && (a + b) + e == (c + e) + d
  {
    forall y ensures ((a + e) + b)[y] == ((c + e) + d)[y] { assert (a + b)[y] == (c + d)[y]; }
  }

  lemma {:induction false} FlatEmpty<V>(t: seq<seq<V>>)
    requires forall b :: 0 <= b < |t| ==> t[b] == []
    ensures Flat(t) == []
  {
    if t != [] { FlatEmpty(t[..|t| - 1]); }
  }

  /** One more value goes in front of its bucket. */
  lemma RehashedStep<V, K>(f: Keys<V, K>, s: seq<V>, x: V, n: nat)
    requires n > 0
    ensures var t, b := Rehashed(f, s, n), BucketOf(f, x, n); Rehashed(f, s + [x], n) == t[b := [x] + t[b]]
  {
    var t, b := Rehashed(f, s, n), BucketOf(f, x, n);
    var u := Rehashed(f, s + [x], n);
    forall c | 0 <= c < n ensures u[c] == if c == b then [x] + t[b] else t[c] { MovedStep(f, s, x, n, c); }
  }

  lemma MovedStep<V, K>(f: Keys<V, K>, s: seq<V>, x: V, n: nat, c: nat)
    requires n > 0
    ensures Moved(f, s + [x], n, c) == if BucketOf(f, x, n) == c then [x] + Moved(f, s, n, c) else Moved(f, s, n, c)
  {
    var test := y => BucketOf(f, y, n) == c;
    assert (s + [x])[..|s|] == s;
    var k := Keep(test, s);
    if BucketOf(f, x, n) == c {
      assert Keep(test, s + [x]) == k + [x];
      ReversedFirst(k + [x]);
      assert (k + [x])[..|k|] == k;
    } else {
      assert Keep(test, s + [x]) == k;
    }
  }

  lemma FrontPermutes<V>(t: seq<seq<V>>, b: nat, x: V)
    requires b < |t|
    ensures multiset(Flat(t[b := [x] + t[b]])) == multiset(Flat(t)) + multiset{x}
  {
    hide *;
    FlatPermutes(t, b, [x] + t[b]);
    FrontBack(t[b], t[b], x);
    OneMore(multiset(Flat(t[b := [x] + t[b]])), multiset(t[b]), multiset(Flat(t)), x);
  }

  lemma RehashedNothing<V, K>(f: Keys<V, K>, n: nat)
    requires n > 0
    ensures Rehashed(f, [], n) == seq(n, _ => []) && Flat(Rehashed(f, [], n)) == []
  {
    hide Flat;
    FlatEmpty(Rehashed(f, [], n));
  }

  /** ... and loses and adds nothing. */
  lemma {:induction false} RehashedPermutes<V, K>(f: Keys<V, K>, s: seq<V>, n: nat)
    requires n > 0
    ensures multiset(Flat(Rehashed(f, s, n))) == multiset(s)
    decreases |s|
  {
    hide *;
    if s == [] {
      RehashedNothing(f, n);
    } else {
      var m := |s| - 1;
      var x := s[m];
      RehashedPermutes(f, s[..m], n);
      RehashedStep(f, s[..m], x, n);
      FrontPermutes(Rehashed(f, s[..m], n), BucketOf(f, x, n), x);
      FrontBack(s[..m], s, x);
      assert s == s[..m] + [x];
    }
  }

  lemma OneMore<V>(a: multiset<V>, b: multiset<V>, c: multiset<V>, x: V)
    requires a + b == c + (multiset{x} + b)
    ensures a == c + multiset{x}
  {
    forall y ensures a[y] == (c + multiset{x})[y] { assert (a + b)[y] == (c + (multiset{x} + b))[y]; }
  }

  lemma FrontBack<V>(s: seq<V>, t: seq<V>, x: V)
    ensures multiset(s + [x]) == multiset(s) + multiset{x} && multiset([x] + t) == multiset{x} + multiset(t)
  {
  }

  // ---------- changes to one bucket ----------

  lemma ProperUpdate<V, K>(f: Keys<V, K>, t: seq<seq<V>>, b: nat, s: seq<V>)
    requires Proper(f, t) && b < |t| && Grouped(f, s) && forall i :: 0 <= i < |s| ==> BucketOf(f, s[i], |t|) == b
    ensures Proper(f, t[b := s])
  {
    hide Grouped;
  }

  lemma {:induction false} FlatLength<V>(t: seq<seq<V>>, b: nat, s: seq<V>)
    requires b < |t|
    ensures |Flat(t[b := s])| + |t[b]| == |Flat(t)| + |s|
  {
    var n := |t| - 1;
    if b < n {
      FlatLength(t[..n], b, s);
      assert t[b := s][..n] == t[..n][b := s];
    } else {
      assert t[b := s][..n] == t[..n];
    }
  }

  /** Inserting keeps the table proper. */
  lemma PutProper<V(!new), K(!new)>(f: Keys<V, K>, t: seq<seq<V>>, x: V)
    requires Lawful(f) && Proper(f, t)
    ensures var b := BucketOf(f, x, |t|);
      Proper(f, t[b := PutUnique(f, t[b], x)]) && Proper(f, t[b := PutEqual(f, t[b], x)])
  {
    hide Grouped, Lawful;
    var b := BucketOf(f, x, |t|);
    PutGrouped(f, t[b], x);
    ProperUpdate(f, t, b, PutUnique(f, t[b], x));
    ProperUpdate(f, t, b, PutEqual(f, t[b], x));
  }

  /** So does erasing a key. */
  lemma WithoutProper<V(!new), K(!new)>(f: Keys<V, K>, t: seq<seq<V>>, b: nat, k: K)
    requires Lawful(f) && Proper(f, t) && b < |t|
    ensures Proper(f, t[b := Without(f, t[b], k)])
  {
    hide Grouped, Lawful;
    var test := x => !f.equals(f.key(x), k);
    var s := Without(f, t[b], k);
    KeepGrouped(f, test, t[b]);
    forall i | 0 <= i < |s| ensures BucketOf(f, s[i], |t|) == b {
      KeepMembers(test, t[b], s[i]);
    }
    ProperUpdate(f, t, b, s);
  }

  // ---------- the order of iteration ----------

  lemma {:induction false} FlatSplit<V>(t: seq<seq<V>>, b: nat)
    requires b < |t|
    ensures |Flat(t[..b])| + |t[b]| <= |Flat(t)|
    ensures Flat(t[..b + 1]) == Flat(t[..b]) + t[b]
    ensures Flat(t)[|Flat(t[..b])|..|Flat(t[..b])| + |t[b]|] == t[b]
  {
    var n := |t| - 1;
    assert t[..b + 1][..b] == t[..b];
    if b < n {
      FlatSplit(t[..n], b);
      assert t[..n][..b] == t[..b] && t[..n][..b + 1] == t[..b + 1];
      var p, m := |Flat(t[..b])|, |t[b]|;
      assert Flat(t)[p..p + m] == Flat(t[..n])[p..p + m];
    } else {
      assert t[..n + 1] == t;
    }
  }

  lemma {:induction false} FlatAll<V>(t: seq<seq<V>>, a: nat, b: nat)
    requires a <= b <= |t| && forall k :: a <= k < b ==> t[k] == []
    ensures Flat(t[..a]) == Flat(t[..b])
  {
    if a < b {
      FlatAll(t, a, b - 1);
      assert t[..b][..b - 1] == t[..b - 1];
    }
  }

  /** Equal keys are all in one bucket, so they are together in the order of iteration. */
  lemma RangeIsAll<V(!new), K(!new)>(f: Keys<V, K>, t: seq<seq<V>>, k: K, b: nat)
    requires Lawful(f) && Proper(f, t) && b == f.hash(k) % |t|
    ensures var p, i := |Flat(t[..b])|, Find(f, t[b], k); var e := RunEnd(f, t[b], k, i);
      forall j :: 0 <= j < |Flat(t)| ==> (f.equals(f.key(Flat(t)[j]), k) <==> p + i <= j < p + e)
  {
    hide Grouped, Lawful, Find, RunEnd;
    var s, p := Flat(t), |Flat(t[..b])|;
    FlatSplit(t, b);
    RunIsAll(f, t[b], k);
    forall j | 0 <= j < |s| && !(p <= j < p + |t[b]|) ensures !f.equals(f.key(s[j]), k) {
      Elsewhere(f, t, k, b, j);
    }
    forall j | 0 <= j < |t[b]| ensures s[p + j] == t[b][j] { assert s[p..p + |t[b]|][j] == s[p + j]; }
    forall j | p <= j < p + |t[b]| ensures s[j] == t[b][j - p] { assert s[p + (j - p)] == t[b][j - p]; }
  }

  lemma {:induction false} PlaceIn<V>(t: seq<seq<V>>, j: nat) returns (c: nat, i: nat)
    requires j < |Flat(t)|
    ensures c < |t| && i < |t[c]| && t[c][i] == Flat(t)[j] && j == |Flat(t[..c])| + i
  {
    var n := |t| - 1;
    if j < |Flat(t[..n])| {
      c, i := PlaceIn(t[..n], j);
      assert t[..n][..c] == t[..c];
    } else {
      c, i := n, j - |Flat(t[..n])|;
    }
  }

  lemma Elsewhere<V(!new), K(!new)>(f: Keys<V, K>, t: seq<seq<V>>, k: K, b: nat, j: nat)
    requires Lawful(f) && Placed(f, t) && b == f.hash(k) % |t| && j < |Flat(t)|
    requires !(|Flat(t[..b])| <= j < |Flat(t[..b])| + |t[b]|)
    ensures !f.equals(f.key(Flat(t)[j]), k)
  {
    var c, i := PlaceIn(t, j);
    assert BucketOf(f, t[c][i], |t|) == c;
    HashesAlike(f, t[c][i], k);
  }

  lemma HashesAlike<V(!new), K(!new)>(f: Keys<V, K>, x: V, k: K)
    requires Lawful(f)
    ensures f.equals(f.key(x), k) ==> f.hash(f.key(x)) == f.hash(k)
  {
  }

  // ---------- erasing ranges ----------

  /** Taking neighbours out parts no others. */
  lemma CutGrouped<V, K>(f: Keys<V, K>, s: seq<V>, lo: nat, hi: nat)
    requires Grouped(f, s) && lo <= hi <= |s|
    ensures Grouped(f, s[..lo] + s[hi..])
  {
    var t := s[..lo] + s[hi..];
    forall i, j, k | 0 <= i < j < k < |t| && Same(f, t[i], t[k]) ensures Same(f, t[i], t[j]) {
      var i', j', k' := if i < lo then i else i + hi - lo, if j < lo then j else j + hi - lo, if k < lo then k else k + hi - lo;
      assert Same(f, s[i'], s[k']);
      assert Same(f, s[i'], s[j']);
    }
  }

  lemma CutProper<V, K>(f: Keys<V, K>, t: seq<seq<V>>, b: nat, lo: nat, hi: nat)
    requires Proper(f, t) && b < |t| && lo <= hi <= |t[b]|
    ensures Proper(f, t[b := t[b][..lo] + t[b][hi..]])
  {
    hide Grouped;
    var s := t[b][..lo] + t[b][hi..];
    CutGrouped(f, t[b], lo, hi);
    forall i | 0 <= i < |s| ensures BucketOf(f, s[i], |t|) == b {
      assert s[i] == t[b][if i < lo then i else i + hi - lo];
    }
    ProperUpdate(f, t, b, s);
  }

  /** ... and in the order of iteration it takes the same values out. */
  lemma {:induction false} FlatCut<V>(t: seq<seq<V>>, b: nat, lo: nat, hi: nat)
    requires b < |t| && lo <= hi <= |t[b]|
    ensures var p := |Flat(t[..b])|;
      p + hi <= |Flat(t)| && Flat(t[b := t[b][..lo] + t[b][hi..]]) == Flat(t)[..p + lo] + Flat(t)[p + hi..]
  {
    hide Flat;
    var n := |t| - 1;
    var cut := t[b][..lo] + t[b][hi..];
    var p := |Flat(t[..b])|;
    FlatLast(t);
    FlatLast(t[b := cut]);
    if b < n {
      FlatCut(t[..n], b, lo, hi);
      assert t[..n][..b] == t[..b] && t[b := cut][..n] == t[..n][b := cut];
      CutConcat(Flat(t[..n]), t[n], p + lo, p + hi);
    } else {
      assert t[b := cut][..n] == t[..n];
      CutLast(Flat(t[..n]), t[n], lo, hi);
    }
  }

  lemma FlatLast<V>(t: seq<seq<V>>)
    requires t != []
    ensures Flat(t) == Flat(t[..|t| - 1]) + t[|t| - 1]
  {
  }

  lemma CutLast<V>(a: seq<V>, z: seq<V>, lo: nat, hi: nat)
    requires lo <= hi <= |z|
    ensures a + (z[..lo] + z[hi..]) == (a + z)[..|a| + lo] + (a + z)[|a| + hi..]
  {
    assert (a + z)[..|a| + lo] == a + z[..lo] && (a + z)[|a| + hi..] == z[hi..];
  }

  lemma CutConcat<V>(a: seq<V>, z: seq<V>, lo: nat, hi: nat)
    requires lo <= hi <= |a|
    ensures (a + z)[..lo] + (a + z)[hi..] == a[..lo] + a[hi..] + z
  {
  }
}
