/** In which order a table is gone through after its buckets were changed. */
module HashOrder {
  import opened HashSpec

  /** Another bucket in the place of one. */
  lemma {:induction false} FlatReplace<V>(t: seq<seq<V>>, b: nat, u: seq<V>)
    requires b < |t|
    ensures var p := |Flat(t[..b])|;
      p + |t[b]| <= |Flat(t)| && Flat(t[b := u]) == Flat(t)[..p] + u + Flat(t)[p + |t[b]|..]
    ensures Flat(t)[|Flat(t[..b])|..|Flat(t[..b])| + |t[b]|] == t[b]
    decreases |t|
  {
    hide Flat;
    var n := |t| - 1;
    FlatSplit(t, b);
    FlatLast(t);
    FlatLast(t[b := u]);
    if b < n {
      FlatReplace(t[..n], b, u);
      assert t[..n][..b] == t[..b] && t[b := u][..n] == t[..n][b := u];
      var s, p, q := Flat(t[..n]), |Flat(t[..b])|, |Flat(t[..b])| + |t[b]|;
      assert (s + t[n])[..p] == s[..p] && (s + t[n])[q..] == s[q..] + t[n];
    } else {
      assert t[..b] == t[..n] == t[b := u][..n];
    }
  }

  /** The first place with a key in the whole table is in the bucket of the key. */
  lemma FindInTable<V(!new), K(!new)>(f: Keys<V, K>, t: seq<seq<V>>, k: K, b: nat)
    requires Lawful(f) && Proper(f, t) && b == f.hash(k) % |t|
    ensures var p, i := |Flat(t[..b])|, Find(f, t[b], k);
      Find(f, Flat(t), k) == if i < |t[b]| then p + i else |Flat(t)|
  {
    hide Flat, Lawful, Grouped, Find;
    var s, p, i := Flat(t), |Flat(t[..b])|, Find(f, t[b], k);
    FlatSplit(t, b);
    FindMeans(f, t[b], k);
    forall j | 0 <= j < |s| && !(p <= j < p + |t[b]|) ensures !f.equals(f.key(s[j]), k) { Elsewhere(f, t, k, b, j); }
    forall j | p <= j < p + |t[b]| ensures s[j] == t[b][j - p] { assert s[p..p + |t[b]|][j - p] == s[j]; }
    var g := if i < |t[b]| then p + i else |s|;
    forall j | 0 <= j < g ensures !f.equals(f.key(s[j]), k) {
      if p <= j < p + |t[b]| { assert s[j] == t[b][j - p]; }
    }
    FindAt(f, s, k, g);
  }

  lemma FindAt<V, K>(f: Keys<V, K>, s: seq<V>, k: K, i: nat)
    requires i <= |s| && (i < |s| ==> f.equals(f.key(s[i]), k)) && forall j :: 0 <= j < i ==> !f.equals(f.key(s[j]), k)
    ensures Find(f, s, k) == i
  {
    var e := Find(f, s, k);
    assert e < i || i < e || e == i;
  }

  lemma FindMeans<V, K>(f: Keys<V, K>, s: seq<V>, k: K)
    ensures var i := Find(f, s, k);
      i <= |s| && (i < |s| ==> f.equals(f.key(s[i]), k)) && forall j :: 0 <= j < i ==> !f.equals(f.key(s[j]), k)
  {
  }

  /** s with x put before the p-th. */
  function PutAt<V>(s: seq<V>, p: nat, x: V): seq<V>
    requires p <= |s|
  {
    s[..p] + [x] + s[p..]
  }

  /** Where a new element comes in the order of the whole table: with equal ones allowed, directly behind the first one
      with its key; at the front of its bucket where there is none; and nowhere where it has to be the only one. */
  lemma PutOrder<V(!new), K(!new)>(f: Keys<V, K>, t: seq<seq<V>>, x: V)
    requires Lawful(f) && Proper(f, t)
    ensures var b, s := BucketOf(f, x, |t|), Flat(t); var p, i := |Flat(t[..b])|, Find(f, s, f.key(x));
      && p <= |s|
      && Flat(t[b := PutEqual(f, t[b], x)]) == (if i < |s| then PutAt(s, i + 1, x) else PutAt(s, p, x))
      && Flat(t[b := PutUnique(f, t[b], x)]) == (if i < |s| then s else PutAt(s, p, x))
  {
    hide Flat, Lawful, Grouped, Find;
    var b := BucketOf(f, x, |t|);
    var s, p, v := Flat(t), |Flat(t[..b])|, t[b];
    FindInTable(f, t, f.key(x), b);
    FindMeans(f, v, f.key(x));
    FlatReplace(t, b, PutEqual(f, v, x));
    FlatReplace(t, b, PutUnique(f, v, x));
    var i := Find(f, v, f.key(x));
    hide PutAt;
    if i < |v| {
      assert t[b := v] == t;
      PutInside(s, p, v, i + 1, x);
    } else {
      PutInside(s, p, v, 0, x);
      assert v[..0] + [x] + v[0..] == [x] + v;
    }
  }

  lemma PutInside<V>(s: seq<V>, p: nat, v: seq<V>, i: nat, x: V)
    requires p + |v| <= |s| && s[p..p + |v|] == v && i <= |v|
    ensures s[..p] + (v[..i] + [x] + v[i..]) + s[p + |v|..] == PutAt(s, p + i, x)
  {
    var q := p + |v|;
    assert s[..p] + v[..i] == s[..p + i] && v[i..] + s[q..] == s[p + i..];
    assert s[..p] + (v[..i] + [x] + v[i..]) + s[q..] == s[..p] + v[..i] + [x] + (v[i..] + s[q..]);
  }

  /** Taking a key out of its bucket takes it out of the table, and leaves the order of the others. */
  lemma WithoutOrder<V(!new), K(!new)>(f: Keys<V, K>, t: seq<seq<V>>, k: K, b: nat)
    requires Lawful(f) && Proper(f, t) && b == f.hash(k) % |t|
    ensures Flat(t[b := Without(f, t[b], k)]) == Keep(NotKey(f, k), Flat(t))
  {
    hide Flat, Lawful, Grouped, Keep;
    var s, p, v := Flat(t), |Flat(t[..b])|, t[b];
    FlatReplace(t, b, Without(f, v, k));
    var q := p + |v|;
    assert s == s[..p] + v + s[q..];
    KeepConcat(NotKey(f, k), s[..p] + v, s[q..]);
    KeepConcat(NotKey(f, k), s[..p], v);
    forall j | 0 <= j < |s| && !(p <= j < q) ensures NotKey(f, k)(s[j]) { Elsewhere(f, t, k, b, j); }
    forall j | 0 <= j < |s[q..]| ensures NotKey(f, k)(s[q..][j]) { assert s[q..][j] == s[q + j]; }
    KeepAll(NotKey(f, k), s[..p]);
    KeepAll(NotKey(f, k), s[q..]);
  }

  lemma {:induction false} KeepAll<V>(test: V -> bool, s: seq<V>)
    requires forall i :: 0 <= i < |s| ==> test(s[i])
    ensures Keep(test, s) == s
  {
    if s != [] { KeepAll(test, s[..|s| - 1]); }
  }
}
