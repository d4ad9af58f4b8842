/** Comparison functions, and what it means to sort with them, stably or not. */
module Ordering {

  type Less<!T> = (T, T) -> bool

  /** What the algorithms require of a comparison function: a strict weak ordering. */
  ghost predicate StrictWeak<T(!new)>(lt: Less<T>) {
    && (forall x :: !lt(x, x))
    && (forall x, y, z :: lt(x, y) && lt(y, z) ==> lt(x, z))
    && (forall x, y, z :: lt(x, z) ==> lt(x, y) || lt(y, z))
  }

  predicate Equiv<T>(lt: Less<T>, x: T, y: T) { !lt(x, y) && !lt(y, x) }

  ghost predicate Sorted<T>(lt: Less<T>, s: seq<T>) { forall i, j :: 0 <= i < j < |s| ==> !lt(s[j], s[i]) }

  /** No element of b precedes one of a. */
  ghost predicate Below<T>(lt: Less<T>, a: seq<T>, b: seq<T>) {
    forall i, j :: 0 <= i < |a| && 0 <= j < |b| ==> !lt(b[j], a[i])
  }

  /** Every element of a precedes every one of b. */
  ghost predicate StrictlyBelow<T>(lt: Less<T>, a: seq<T>, b: seq<T>) {
    forall i, j :: 0 <= i < |a| && 0 <= j < |b| ==> lt(a[i], b[j])
  }

  lemma SortedConcat<T>(lt: Less<T>, a: seq<T>, b: seq<T>)
    ensures Sorted(lt, a + b) <==> Sorted(lt, a) && Sorted(lt, b) && Below(lt, a, b)
  {
    if Sorted(lt, a + b) {
      forall i, j | 0 <= i < j < |a| ensures !lt(a[j], a[i]) { assert (a + b)[i] == a[i] && (a + b)[j] == a[j]; }
      forall i, j | 0 <= i < j < |b| ensures !lt(b[j], b[i]) {
        assert (a + b)[|a| + i] == b[i] && (a + b)[|a| + j] == b[j];
      }
      forall i, j | 0 <= i < |a| && 0 <= j < |b| ensures !lt(b[j], a[i]) {
        assert (a + b)[i] == a[i] && (a + b)[|a| + j] == b[j];
      }
    }
  }

  // ---------- stability ----------

  /** The elements of s equivalent to x, in their order. */
  function Class<T>(lt: Less<T>, x: T, s: seq<T>): seq<T> {
    if s == [] then []
    else Class(lt, x, s[..|s| - 1]) + if Equiv(lt, x, s[|s| - 1]) then [s[|s| - 1]] else []
  }

  lemma {:induction false} ClassConcat<T>(lt: Less<T>, x: T, s: seq<T>, t: seq<T>)
    ensures Class(lt, x, s + t) == Class(lt, x, s) + Class(lt, x, t)
    decreases |t|
  {
    if t == [] {
      assert s + t == s;
    } else {
      assert (s + t)[..|s + t| - 1] == s + t[..|t| - 1];
      ClassConcat(lt, x, s, t[..|t| - 1]);
    }
  }

  /** The same elements, those equivalent to one another in the same order. */
  ghost predicate SameClasses<T(!new)>(lt: Less<T>, s: seq<T>, t: seq<T>) {
    forall x :: Class(lt, x, s) == Class(lt, x, t)
  }

  lemma SameClassesConcat<T(!new)>(lt: Less<T>, s: seq<T>, t: seq<T>, s': seq<T>, t': seq<T>)
    requires SameClasses(lt, s, s') && SameClasses(lt, t, t')
    ensures SameClasses(lt, s + t, s' + t')
  {
    forall x ensures Class(lt, x, s + t) == Class(lt, x, s' + t') {
      ClassConcat(lt, x, s, t);
      ClassConcat(lt, x, s', t');
    }
  }

  lemma {:induction false} ClassEmpty<T>(lt: Less<T>, x: T, s: seq<T>)
    ensures Class(lt, x, s) == [] <==> forall i :: 0 <= i < |s| ==> !Equiv(lt, x, s[i])
  {
    if s != [] {
      var n := |s| - 1;
      ClassEmpty(lt, x, s[..n]);
      assert forall i :: 0 <= i < n ==> s[..n][i] == s[i];
    }
  }

  ghost predicate Apart<T>(lt: Less<T>, a: seq<T>, b: seq<T>) {
    forall i, j :: 0 <= i < |a| && 0 <= j < |b| ==> !Equiv(lt, a[i], b[j])
  }

  lemma OneClassEmpty<T(!new)>(lt: Less<T>, x: T, a: seq<T>, b: seq<T>)
    requires StrictWeak(lt) && Apart(lt, a, b)
    ensures Class(lt, x, a) == [] || Class(lt, x, b) == []
  {
    ClassEmpty(lt, x, a);
    ClassEmpty(lt, x, b);
    if i :| 0 <= i < |a| && Equiv(lt, x, a[i]) {
      forall j | 0 <= j < |b| ensures !Equiv(lt, x, b[j]) { assert !Equiv(lt, a[i], b[j]); }
    }
  }

  /** Two stretches without equivalent elements may change places. */
  lemma Exchange<T(!new)>(lt: Less<T>, a: seq<T>, b: seq<T>)
    requires StrictWeak(lt) && Apart(lt, a, b)
    ensures SameClasses(lt, a + b, b + a)
  {
    forall x ensures Class(lt, x, a + b) == Class(lt, x, b + a) {
      ClassConcat(lt, x, a, b);
      ClassConcat(lt, x, b, a);
      OneClassEmpty(lt, x, a, b);
    }
  }

  lemma ExchangeInside<T(!new)>(lt: Less<T>, p: seq<T>, a: seq<T>, b: seq<T>, s: seq<T>)
    requires StrictWeak(lt) && Apart(lt, a, b)
    ensures SameClasses(lt, p + a + b + s, p + b + a + s)
  {
    Exchange(lt, a, b);
    SameClassesConcat(lt, p, a + b, p, b + a);
    SameClassesConcat(lt, p + (a + b), s, p + (b + a), s);
    assert p + a + b + s == p + (a + b) + s && p + b + a + s == p + (b + a) + s;
  }

  lemma SameClassesTransitive<T(!new)>(lt: Less<T>, s: seq<T>, t: seq<T>, u: seq<T>)
    requires SameClasses(lt, s, t) && SameClasses(lt, t, u)
    ensures SameClasses(lt, s, u)
  {
  }

  // ---------- the stable sort ----------

  /** Where x goes in a sorted sequence: behind all that do not follow it. */
  function InsertionPoint<T>(lt: Less<T>, s: seq<T>, x: T): (k: nat)
    ensures k <= |s|
  {
    if s == [] then 0
    else if lt(x, s[|s| - 1]) then InsertionPoint(lt, s[..|s| - 1], x)
    else |s|
  }

  function Insert<T>(lt: Less<T>, s: seq<T>, x: T): seq<T> {
    var k := InsertionPoint(lt, s, x);
    s[..k] + [x] + s[k..]
  }

  /** The sequence that every stable sort makes of s. */
  function StableSorted<T>(lt: Less<T>, s: seq<T>): (t: seq<T>)
    ensures |t| == |s|
  {
    if s == [] then [] else Insert(lt, StableSorted(lt, s[..|s| - 1]), s[|s| - 1])
  }

  ghost predicate StableSortOf<T(!new)>(lt: Less<T>, s: seq<T>, t: seq<T>) { Sorted(lt, t) && SameClasses(lt, s, t) }

  lemma {:induction false} InsertionPointSplits<T(!new)>(lt: Less<T>, s: seq<T>, x: T)
    requires StrictWeak(lt) && Sorted(lt, s)
    ensures var k := InsertionPoint(lt, s, x);
      && (forall i :: 0 <= i < k ==> !lt(x, s[i]))
      && (forall i :: k <= i < |s| ==> lt(x, s[i]))
  {
    if s != [] && lt(x, s[|s| - 1]) { InsertionPointSplits(lt, s[..|s| - 1], x); }
  }

  lemma InsertionPointParts<T(!new)>(lt: Less<T>, s: seq<T>, x: T)
    requires StrictWeak(lt) && Sorted(lt, s)
    ensures var k := InsertionPoint(lt, s, x);
      Below(lt, s[..k], [x]) && Below(lt, [x], s[k..]) && Apart(lt, s[k..], [x]) && Sorted(lt, [x])
  {
    InsertionPointSplits(lt, s, x);
    hide InsertionPoint, Sorted;
    assert Sorted(lt, [x]) by { SortedOne(lt, x); }
  }

  lemma SortedOne<T>(lt: Less<T>, x: T)
    ensures Sorted(lt, [x])
  {
  }

  lemma InsertStable<T(!new)>(lt: Less<T>, s: seq<T>, x: T)
    requires StrictWeak(lt) && Sorted(lt, s)
    ensures StableSortOf(lt, s + [x], Insert(lt, s, x))
  {
    hide StrictWeak, SameClasses, InsertionPoint, Sorted;
    var k := InsertionPoint(lt, s, x);
    InsertionPointParts(lt, s, x);
    SortedConcat(lt, s[..k], s[k..]);
    assert s[..k] + s[k..] == s;
    SortedConcat(lt, [x], s[k..]);
    SortedConcat(lt, s[..k], [x] + s[k..]);
    assert s[..k] + ([x] + s[k..]) == Insert(lt, s, x);
    ExchangeInside(lt, s[..k], s[k..], [x], []);
    assert s[..k] + s[k..] + [x] + [] == s + [x] && s[..k] + [x] + s[k..] + [] == Insert(lt, s, x);
  }

  lemma {:induction false} StableSortedIsOne<T(!new)>(lt: Less<T>, s: seq<T>)
    requires StrictWeak(lt)
    ensures StableSortOf(lt, s, StableSorted(lt, s))
  {
    if s != [] {
      var front, x := s[..|s| - 1], s[|s| - 1];
      StableSortedIsOne(lt, front);
      InsertStable(lt, StableSorted(lt, front), x);
      SameClassesConcat(lt, front, [x], StableSorted(lt, front), [x]);
      assert front + [x] == s;
      SameClassesTransitive(lt, s, StableSorted(lt, front) + [x], StableSorted(lt, s));
    }
  }

  lemma LastOfClass<T(!new)>(lt: Less<T>, x: T, s: seq<T>)
    requires StrictWeak(lt) && s != [] && Equiv(lt, x, s[|s| - 1])
    ensures Class(lt, x, s) == Class(lt, x, s[..|s| - 1]) + [s[|s| - 1]]
  {
  }

  lemma LastDominates<T(!new)>(lt: Less<T>, t: seq<T>, u: seq<T>)
    requires StrictWeak(lt) && Sorted(lt, u) && t != [] && u != [] && SameClasses(lt, t, u)
    ensures !lt(u[|u| - 1], t[|t| - 1])
  {
    var x := t[|t| - 1];
    assert Class(lt, x, t) == Class(lt, x, u);
    ClassEmpty(lt, x, u);
    var i :| 0 <= i < |u| && Equiv(lt, x, u[i]);
    assert i == |u| - 1 || !lt(u[|u| - 1], u[i]);
  }

  lemma NotEmpty<T(!new)>(lt: Less<T>, t: seq<T>, u: seq<T>)
    requires StrictWeak(lt) && SameClasses(lt, t, u) && u != []
    ensures t != []
  {
    ClassEmpty(lt, u[0], u);
    assert Equiv(lt, u[0], u[0]) && Class(lt, u[0], t) == Class(lt, u[0], u);
  }

  lemma SameLast<T(!new)>(lt: Less<T>, t: seq<T>, u: seq<T>)
    requires StrictWeak(lt) && Sorted(lt, t) && Sorted(lt, u) && SameClasses(lt, t, u) && t != [] && u != []
    ensures t[|t| - 1] == u[|u| - 1] && SameClasses(lt, t[..|t| - 1], u[..|u| - 1])
  {
    LastDominates(lt, t, u);
    LastDominates(lt, u, t);
    var x, t', u' := t[|t| - 1], t[..|t| - 1], u[..|u| - 1];
    LastOfClass(lt, x, t);
    LastOfClass(lt, x, u);
    var c := Class(lt, x, t);
    assert c == Class(lt, x, u) && c[|c| - 1] == x == u[|u| - 1];
    forall z ensures Class(lt, z, t') == Class(lt, z, u') {
      assert Class(lt, z, t) == Class(lt, z, u);
      DropLast(lt, z, t);
      DropLast(lt, z, u);
    }
  }

  /** There is only one way to sort stably. */
  lemma {:induction false} StableSortUnique<T(!new)>(lt: Less<T>, t: seq<T>, u: seq<T>)
    requires StrictWeak(lt) && Sorted(lt, t) && Sorted(lt, u) && SameClasses(lt, t, u)
    ensures t == u
    decreases |t|
  {
    if u != [] { NotEmpty(lt, t, u); }
    if t != [] {
      NotEmpty(lt, u, t);
      SameLast(lt, t, u);
      StableSortUnique(lt, t[..|t| - 1], u[..|u| - 1]);
      assert t == t[..|t| - 1] + [t[|t| - 1]] && u == u[..|u| - 1] + [u[|u| - 1]];
    }
  }

  lemma DropLast<T>(lt: Less<T>, z: T, t: seq<T>)
    requires t != []
    ensures var c := Class(lt, z, t);
      Class(lt, z, t[..|t| - 1]) == if Equiv(lt, z, t[|t| - 1]) && c != [] then c[..|c| - 1] else c
  {
  }

  /** So to sort stably is to compute StableSorted. */
  lemma StableSortMeans<T(!new)>(lt: Less<T>, s: seq<T>, t: seq<T>)
    requires StrictWeak(lt)
    ensures StableSortOf(lt, s, t) <==> t == StableSorted(lt, s)
  {
    StableSortedIsOne(lt, s);
    if StableSortOf(lt, s, t) { StableSortUnique(lt, t, StableSorted(lt, s)); }
  }

  lemma InsertPermutes<T>(s: seq<T>, k: nat, x: T)
    requires k <= |s|
    ensures multiset(s[..k] + [x] + s[k..]) == multiset(s) + multiset{x}
  {
    assert s == s[..k] + s[k..];
  }

  /** A stable sort rearranges. */
  lemma {:induction false} StableSortedPermutes<T>(lt: Less<T>, s: seq<T>)
    ensures multiset(StableSorted(lt, s)) == multiset(s)
  {
    if s != [] {
      hide StableSorted, InsertionPoint;
      var t, x := StableSorted(lt, s[..|s| - 1]), s[|s| - 1];
      StableSortedPermutes(lt, s[..|s| - 1]);
      StableSortedStep(lt, s);
      InsertPermutes(t, InsertionPoint(lt, t, x), x);
      LastOut(s);
    }
  }

  lemma LastOut<T>(s: seq<T>)
    requires s != []
    ensures multiset(s) == multiset(s[..|s| - 1]) + multiset{s[|s| - 1]}
  {
    assert s == s[..|s| - 1] + [s[|s| - 1]];
  }

  lemma StableSortedStep<T>(lt: Less<T>, s: seq<T>)
    requires s != []
    ensures StableSorted(lt, s) == Insert(lt, StableSorted(lt, s[..|s| - 1]), s[|s| - 1])
  {
  }

  // ---------- parts of stable sorts ----------

  lemma {:induction false} InOwnClass<T(!new)>(lt: Less<T>, x: T, s: seq<T>)
    requires StrictWeak(lt)
    ensures x in s <==> x in Class(lt, x, s)
  {
    if s != [] { InOwnClass(lt, x, s[..|s| - 1]); }
  }

  lemma SameMembers<T(!new)>(lt: Less<T>, s: seq<T>, t: seq<T>, x: T)
    requires StrictWeak(lt) && SameClasses(lt, s, t)
    ensures x in s <==> x in t
  {
    InOwnClass(lt, x, s);
    InOwnClass(lt, x, t);
  }

  lemma BelowClasses<T(!new)>(lt: Less<T>, a: seq<T>, b: seq<T>, a': seq<T>, b': seq<T>)
    requires StrictWeak(lt) && Below(lt, a, b) && SameClasses(lt, a, a') && SameClasses(lt, b, b')
    ensures Below(lt, a', b')
  {
    forall i, j | 0 <= i < |a'| && 0 <= j < |b'| ensures !lt(b'[j], a'[i]) {
      SameMembers(lt, a, a', a'[i]);
      SameMembers(lt, b, b', b'[j]);
      assert a'[i] in a && b'[j] in b;
    }
  }

  lemma BelowConcat<T>(lt: Less<T>, a: seq<T>, b: seq<T>, c: seq<T>)
    ensures Below(lt, a + b, c) <==> Below(lt, a, c) && Below(lt, b, c)
    ensures Below(lt, c, a + b) <==> Below(lt, c, a) && Below(lt, c, b)
  {
    if Below(lt, a + b, c) {
      forall i, j | 0 <= i < |a| && 0 <= j < |c| ensures !lt(c[j], a[i]) { assert (a + b)[i] == a[i]; }
      forall i, j | 0 <= i < |b| && 0 <= j < |c| ensures !lt(c[j], b[i]) { assert (a + b)[|a| + i] == b[i]; }
    }
    if Below(lt, c, a + b) {
      forall i, j | 0 <= i < |c| && 0 <= j < |a| ensures !lt(a[j], c[i]) { assert (a + b)[j] == a[j]; }
      forall i, j | 0 <= i < |c| && 0 <= j < |b| ensures !lt(b[j], c[i]) { assert (a + b)[|a| + j] == b[j]; }
    }
  }

  lemma StrictIsApart<T(!new)>(lt: Less<T>, a: seq<T>, b: seq<T>)
    requires StrictWeak(lt) && StrictlyBelow(lt, b, a)
    ensures Apart(lt, a, b) && Below(lt, b, a)
  {
  }

  /** Whether a lies below b depends on their elements only. */
  lemma BelowElements<T>(lt: Less<T>, a: seq<T>, b: seq<T>, a': seq<T>, b': seq<T>)
    requires Below(lt, a, b)
    requires forall x :: x in a' ==> x in a
    requires forall x :: x in b' ==> x in b
    ensures Below(lt, a', b')
  {
    forall i, j | 0 <= i < |a'| && 0 <= j < |b'| ensures !lt(b'[j], a'[i]) { assert a'[i] in a && b'[j] in b; }
  }

  lemma SameBag<T>(a: seq<T>, a': seq<T>)
    requires multiset(a) == multiset(a')
    ensures |a| == |a'| && forall x :: x in a' <==> x in a
  {
    assert |multiset(a)| == |multiset(a')|;
    forall x ensures x in a' <==> x in a { assert x in multiset(a') <==> x in multiset(a); }
  }
}
