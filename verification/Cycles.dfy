/** The arithmetic of rotating n elements by k places: the permutation has gcd(n, k) cycles, one through each of the
    first gcd(n, k) places. */
module Cycles {

  // ---------- greatest common divisor ----------

  function Gcd(m: nat, n: nat): nat
    decreases n
  {
    if n == 0 then m else Gcd(n, m % n)
  }

  /** __gcd */
  method ComputeGcd(m: nat, n: nat) returns (g: nat)
    ensures g == Gcd(m, n)
  {
    g := m;
    var b: nat := n;
    while b != 0
      invariant Gcd(g, b) == Gcd(m, n)
      decreases b
    {
      var t := g % b;
      g := b;
      b := t;
    }
  }

  lemma Distribute(g: int, q: int, a: int, r: int)
    ensures a * (g * q) + g * r == g * (a * q + r)
  {
    assert a * (g * q) == g * (a * q);
  }

  lemma {:induction false} GcdDivides(m: nat, n: nat) returns (p: nat, q: nat)
    requires m > 0 || n > 0
    ensures Gcd(m, n) > 0 && m == Gcd(m, n) * p && n == Gcd(m, n) * q
    decreases n
  {
    if n == 0 {
      p, q := 1, 0;
    } else {
      var r: nat;
      q, r := GcdDivides(n, m % n);
      var a := m / n;
      p := a * q + r;
      assert m == a * n + m % n;
      Distribute(Gcd(m, n), q, a, r);
    }
  }

  lemma Substitute(m: int, n: int, a: int, r: int, u: int, v: int)
    requires m == a * n + r
    ensures m * v + n * (u - a * v) == n * u + r * v
  {
    assert m * v == (a * n) * v + r * v;
    assert n * (u - a * v) == n * u - n * (a * v);
    assert (a * n) * v == n * (a * v);
  }

  lemma {:induction false} Bezout(m: nat, n: nat) returns (x: int, y: int)
    ensures m * x + n * y == Gcd(m, n)
    decreases n
  {
    if n == 0 {
      x, y := 1, 0;
    } else {
      var u, v := Bezout(n, m % n);
      x, y := v, u - (m / n) * v;
      Substitute(m, n, m / n, m % n, u, v);
    }
  }

  // ---------- remainders ----------

  lemma SmallMultiple(m: int, t: int, r: int)
    requires m * t == r && -m < r < m
    ensures t == 0
  {
  }

  lemma DivisionUnique(m: nat, q: int, r: nat, z: int)
    requires m > 0 && z == m * q + r && r < m
    ensures z / m == q && z % m == r
  {
    assert m * (z / m - q) == m * (z / m) - m * q;
    SmallMultiple(m, z / m - q, r - z % m);
  }

  lemma ModPlusMultiple(m: nat, z: int, t: int)
    requires m > 0
    ensures (z + m * t) % m == z % m
  {
    DivisionUnique(m, z / m + t, z % m, z + m * t);
  }

  /** A factor may be reduced first. */
  lemma ModFactor(m: nat, a: int, b: int)
    requires m > 0
    ensures ((a % m) * b) % m == (a * b) % m
  {
    var q := a / m;
    assert a * b == (a % m) * b + m * (q * b);
    ModPlusMultiple(m, (a % m) * b, q * b);
  }

  // ---------- the wheel ----------

  /** Rotating n = d * np elements by k = d * kp places; l is n - k. By Bezout's identity y is an inverse of kp. */
  datatype Wheel = Wheel(n: nat, k: nat, l: nat, d: nat, np: nat, kp: nat, lp: nat, x: int, y: int)

  ghost predicate WheelOk(w: Wheel) {
    && w.d > 0 && w.kp > 0 && w.lp > 0 && w.np == w.kp + w.lp
    && w.n == w.d * w.np && w.k == w.d * w.kp && w.l == w.d * w.lp && w.n == w.k + w.l
    && w.np * w.x + w.kp * w.y == 1
  }

  lemma Reduce(d: int, n: int, k: int, np: int, kp: int, x: int, y: int)
    requires n == d * np && k == d * kp && n * x + k * y == d
    ensures d * (np * x + kp * y) == d && d * (np - kp) == n - k
  {
    assert (d * np) * x == d * (np * x) && (d * kp) * y == d * (kp * y);
    assert d * (np * x + kp * y) == d * (np * x) + d * (kp * y);
    assert d * (np - kp) == d * np - d * kp;
  }

  lemma PositiveFactor(d: int, z: int)
    requires d > 0 && d * z > 0
    ensures z > 0
  {
  }

  lemma MakeWheel(n: nat, k: nat) returns (w: Wheel)
    requires 0 < k < n
    ensures WheelOk(w) && w.n == n && w.k == k && w.d == Gcd(n, k)
  {
    var d := Gcd(n, k);
    var np, kp := GcdDivides(n, k);
    var x, y := Bezout(n, k);
    hide Gcd;
    Reduce(d, n, k, np, kp, x, y);
    CancelFactor(d, np * x + kp * y);
    PositiveFactor(d, np - kp);
    PositiveFactor(d, kp);
    w := Wheel(n, k, n - k, d, np, kp, np - kp, x, y);
  }

  lemma CancelFactor(d: nat, z: int)
    requires d > 0 && d * z == d
    ensures z == 1
  {
    SmallMultiple(d, z - 1, 0);
  }

  /** The place reached from place i by m steps of k. */
  function Pos(w: Wheel, i: nat, m: nat): nat { if w.n > 0 then (i + m * w.k) % w.n else 0 }

  /** How many steps lead to place p from the first place of its cycle. */
  function Index(w: Wheel, p: nat): int { if w.d > 0 && w.np > 0 then ((p / w.d) * w.y) % w.np else 0 }

  /** Splitting i + m * k, with k == d * kp and n == d * np, by n. */
  lemma SplitSteps(i: int, m: int, d: int, np: int, kp: int, q: int, r: int)
    requires m * kp == np * q + r
    ensures i + m * (d * kp) == (d * np) * q + (i + d * r)
  {
    assert m * (d * kp) == d * (m * kp);
    assert d * (np * q + r) == d * (np * q) + d * r;
    assert d * (np * q) == (d * np) * q;
  }

  lemma BelowProduct(d: int, r: int, np: int, i: int)
    requires 0 <= i < d && 0 <= r < np
    ensures 0 <= i + d * r < d * np
  {
    assert d * (r + 1) <= d * np;
    assert d * (r + 1) == d * r + d;
  }

  lemma PosParts(w: Wheel, i: nat, m: nat)
    requires WheelOk(w) && i < w.d
    ensures w.n > 0 && w.np > 0 && Pos(w, i, m) == i + w.d * ((m * w.kp) % w.np) < w.n
    ensures Pos(w, i, m) % w.d == i && Pos(w, i, m) / w.d == (m * w.kp) % w.np
  {
    Positive(w);
    var z := m * w.kp;
    var q, r: nat := z / w.np, z % w.np;
    SplitSteps(i, m, w.d, w.np, w.kp, q, r);
    BelowProduct(w.d, r, w.np, i);
    DivisionUnique(w.n, q, i + w.d * r, i + m * w.k);
    DivisionUnique(w.d, r, i, i + w.d * r);
  }

  lemma PosZero(w: Wheel, i: nat)
    requires WheelOk(w) && i < w.d
    ensures i < w.n && i % w.d == i && Pos(w, i, 0) == i
  {
    Positive(w);
    BelowProduct(w.d, 0, w.np, i);
    DivisionUnique(w.d, 0, i, i);
    DivisionUnique(w.n, 0, i, i);
  }

  lemma Positive(w: Wheel)
    requires WheelOk(w)
    ensures w.n > 0 && w.np > 0 && w.k > 0 && w.l > 0
  {
  }

  /** Index undoes Pos ... */
  lemma IndexOfPos(w: Wheel, i: nat, m: nat)
    requires WheelOk(w) && i < w.d && m < w.np
    ensures w.n > 0 && w.np > 0 && Index(w, Pos(w, i, m)) == m
  {
    PosParts(w, i, m);
    InverseTimes(w.np, w.kp, w.x, w.y, m);
    hide WheelOk, Pos;
    ModFactor(w.np, m * w.kp, w.y);
    var z: int := m;
    ModPlusMultiple(w.np, z, -z * w.x);
    DivisionUnique(w.np, 0, m, m);
  }

  lemma InverseTimes(np: int, kp: int, x: int, y: int, z: int)
    requires np * x + kp * y == 1
    ensures (z * kp) * y == z + np * (-z * x) && (z * y) * kp == z + np * (-z * x)
  {
    assert z * (np * x + kp * y) == z * (np * x) + z * (kp * y);
    assert z * (kp * y) == (z * kp) * y == (z * y) * kp;
    assert z * (np * x) == np * (z * x) == -(np * (-z * x));
  }

  lemma ProductMonotone(d: nat, a: int, b: int)
    requires a <= b
    ensures d * a <= d * b
  {
  }

  lemma QuotientBelow(d: nat, np: nat, p: nat)
    requires d > 0 && p < d * np
    ensures p / d < np
  {
    var q := p / d;
    assert d * q <= p;
    if np <= q { ProductMonotone(d, np, q); }
  }

  /** ... and the other way round. */
  lemma PosOfIndex(w: Wheel, p: nat)
    requires WheelOk(w) && p < w.n
    ensures w.n > 0 && w.np > 0 && 0 <= Index(w, p) < w.np && Pos(w, p % w.d, Index(w, p)) == p
  {
    Positive(w);
    var z := p / w.d;
    QuotientBelow(w.d, w.np, p);
    PosParts(w, p % w.d, Index(w, p));
    assert p == w.d * z + p % w.d;
    ThereAndBack(w.np, w.kp, w.x, w.y, z);
  }

  lemma ThereAndBack(np: nat, kp: int, x: int, y: int, z: int)
    requires 0 <= z < np && np * x + kp * y == 1
    ensures (((z * y) % np) * kp) % np == z
  {
    InverseTimes(np, kp, x, y, z);
    ModFactor(np, z * y, kp);
    ModPlusMultiple(np, z, -z * x);
    DivisionUnique(np, 0, z, z);
  }

  lemma NextPos(w: Wheel, i: nat, m: nat)
    requires WheelOk(w)
    ensures w.n > 0 && Pos(w, i, m + 1) == (Pos(w, i, m) + w.k) % w.n
  {
    hide WheelOk;
    Positive(w);
    NextMod(w.n, w.k, i, m);
  }

  lemma NextMod(n: nat, k: int, i: int, m: int)
    requires n > 0
    ensures (i + (m + 1) * k) % n == ((i + m * k) % n + k) % n
  {
    OneMoreStep(i, m, k);
    NextModOf(n, k, i + m * k, i + (m + 1) * k);
  }

  lemma OneMoreStep(i: int, m: int, k: int)
    ensures i + (m + 1) * k == (i + m * k) + k
  {
  }

  lemma NextModOf(n: nat, k: int, z: int, z': int)
    requires n > 0 && z' == z + k
    ensures z' % n == (z % n + k) % n
  {
    ModSum(n, z, k);
  }

  lemma ModSum(n: nat, z: int, k: int)
    requires n > 0
    ensures (z + k) % n == (z % n + k) % n
  {
    ModPlusMultiple(n, z % n + k, z / n);
  }

  // ---------- how far a cycle has got ----------

  /** Place p is done when m steps of cycle i are, and all of the cycles before. */
  predicate Done(w: Wheel, i: nat, m: nat, p: nat)
    requires w.d > 0
  {
    p % w.d < i || (p % w.d == i && Index(w, p) < m)
  }

  lemma NothingDone(w: Wheel, i: nat, p: nat)
    requires WheelOk(w) && p < w.n
    ensures Done(w, i, 0, p) <==> p % w.d < i
  {
    PosOfIndex(w, p);
    hide Pos, Index, WheelOk;
  }

  lemma OneMoreDone(w: Wheel, i: nat, m: nat, p: nat)
    requires WheelOk(w) && p < w.n && i < w.d && m < w.np
    ensures Done(w, i, m + 1, p) <==> Done(w, i, m, p) || p == Pos(w, i, m)
  {
    PosOfIndex(w, p);
    PosParts(w, i, m);
    IndexOfPos(w, i, m);
    hide Pos, Index, WheelOk;
  }

  lemma CycleDone(w: Wheel, i: nat, p: nat)
    requires WheelOk(w) && p < w.n
    ensures Done(w, i, w.np, p) <==> p % w.d < i + 1
  {
    PosOfIndex(w, p);
    hide Pos, Index, WheelOk;
  }

  lemma NotYetDone(w: Wheel, i: nat, m: nat)
    requires WheelOk(w) && i < w.d && m < w.np
    ensures Pos(w, i, m) < w.n && !Done(w, i, m, Pos(w, i, m))
    ensures m + 1 < w.np ==> !Done(w, i, m, Pos(w, i, m + 1)) && Pos(w, i, m + 1) != Pos(w, i, m)
    ensures m + 1 == w.np ==> (Pos(w, i, m) + w.k) % w.n == i
  {
    PosParts(w, i, m);
    IndexOfPos(w, i, m);
    if m + 1 < w.np {
      PosParts(w, i, m + 1);
      IndexOfPos(w, i, m + 1);
    } else {
      NextPos(w, i, m);
      PosParts(w, i, m + 1);
      FullTurn(w);
    }
    hide Pos, Index, WheelOk;
  }

  lemma FullTurn(w: Wheel)
    requires WheelOk(w)
    ensures w.np > 0 && (w.np * w.kp) % w.np == 0
  {
    var zero: nat := 0;
    DivisionUnique(w.np, w.kp, zero, w.np * w.kp);
  }

  // ---------- the way of the code ----------

  lemma Coprime(a: int, b: int, u: int, v: int, j: int, e: int)
    requires a * u + b * v == 1 && j * a == e * b && 0 <= j < b
    ensures j == 0
  {
    assert j * (a * u + b * v) == (j * a) * u + b * (j * v);
    assert (e * b) * u == b * (e * u);
    assert b * (e * u + j * v) == b * (e * u) + b * (j * v);
    SmallMultiple(b, e * u + j * v, j);
  }

  lemma Unscale(d: int, a: int, b: int)
    requires d > 0 && d * a == d * b
    ensures a == b
  {
    assert d * (a - b) == 0;
  }

  lemma Rescale(d: int, a: int, b: int, j: int, e: int)
    requires d > 0 && j * (d * a) == e * (d * b)
    ensures j * a == e * b
  {
    Commute(j, d, a);
    Commute(e, d, b);
    Unscale(d, j * a, e * b);
  }

  lemma Commute(j: int, d: int, a: int)
    ensures j * (d * a) == d * (j * a)
  {
  }

  lemma PartsCoprime(w: Wheel)
    requires WheelOk(w)
    ensures w.kp * (w.x + w.y) + w.lp * w.x == 1
  {
    assert w.np * w.x == w.kp * w.x + w.lp * w.x;
    assert w.kp * (w.x + w.y) == w.kp * w.x + w.kp * w.y;
  }

  /** Place i + l, from which the cycle closes, comes only after lp steps up ... */
  lemma NotHomeUp(w: Wheel, j: nat, c: nat)
    requires WheelOk(w) && j < w.lp
    ensures j * w.k != (c + 1) * w.l
  {
    if j * w.k == (c + 1) * w.l {
      PartsCoprime(w);
      Rescale(w.d, w.kp, w.lp, j, c + 1);
      Coprime(w.kp, w.lp, w.x + w.y, w.x, j, c + 1);
    }
  }

  /** ... and kp - 1 steps down. */
  lemma NotHomeDown(w: Wheel, j: nat, c: nat)
    requires WheelOk(w) && j + 1 < w.kp
    ensures c * w.k != (j + 1) * w.l
  {
    if c * w.k == (j + 1) * w.l {
      PartsCoprime(w);
      Rescale(w.d, w.kp, w.lp, c, j + 1);
      Coprime(w.lp, w.kp, w.x, w.x + w.y, j + 1, c);
    }
  }
}
