/** power by repeated squaring, over numbers and over ropes. */
module Power {
  import opened Options
  import opened RopeTree

  ghost predicate Associative<M(!new)>(times: (M, M) -> M) {
    forall a, b, c :: times(times(a, b), c) == times(a, times(b, c))
  }

  /** x taken n times, one factor after the other. */
  ghost function Product<M>(times: (M, M) -> M, x: M, n: nat): M
    requires n > 0
  {
    if n == 1 then x else times(Product(times, x, n - 1), x)
  }

  lemma {:induction false} ProductAdd<M(!new)>(times: (M, M) -> M, x: M, j: nat, k: nat)
    requires Associative(times) && j > 0 && k > 0
    ensures Product(times, x, j + k) == times(Product(times, x, j), Product(times, x, k))
  {
    if k > 1 { ProductAdd(times, x, j, k - 1); }
  }

  /** opr is defined on what good allows of at most limit factors, and means times. */
  ghost predicate Carries<T(!new), M>(opr: (T, T) --> T, times: (M, M) -> M, view: T -> M, good: (T, nat) -> bool, limit: nat) {
    forall a, b, j: nat, k: nat :: good(a, j) && good(b, k) && j + k <= limit ==>
      opr.requires(a, b) && good(opr(a, b), j + k) && view(opr(a, b)) == times(view(a), view(b))
  }

  /** r stands for q factors x. */
  ghost predicate Stands<T, M>(times: (M, M) -> M, view: T -> M, good: (T, nat) -> bool, x: T, r: T, q: nat) {
    q > 0 && good(r, q) && view(r) == Product(times, view(x), q)
  }

  lemma Joined<T(!new), M(!new)>(opr: (T, T) --> T, times: (M, M) -> M, view: T -> M, good: (T, nat) -> bool, limit: nat,
      x: T, a: T, j: nat, b: T, k: nat)
    requires Associative(times) && Carries(opr, times, view, good, limit) && j + k <= limit
    requires Stands(times, view, good, x, a, j) && Stands(times, view, good, x, b, k)
    ensures opr.requires(a, b) && Stands(times, view, good, x, opr(a, b), j + k)
  {
    ProductAdd(times, view(x), j, k);
  }

  /** q factors are in the result, and n times w are to come. */
  ghost predicate Weighs(q: nat, w: nat, n: nat, total: nat) { q + w * n == total }

  lemma {:induction false} Doubled(w: nat, h: nat)
    ensures w * (h + h) == (w + w) * h && w * (h + h + 1) == w + (w + w) * h
  {
    if h > 0 { Doubled(w, h - 1); }
  }

  lemma AtLeast(w: nat, n: nat)
    ensures n > 0 ==> w <= w * n
    ensures n > 1 ==> w + w <= w * n
  {
    if n > 1 { assert w * n == w + w + w * (n - 2); }
  }

  lemma Halved(q: nat, w: nat, n: nat, total: nat)
    requires Weighs(q, w, n, total)
    ensures Weighs(if n % 2 == 0 then q else q + w, w + w, n / 2, total)
    ensures n > 0 ==> q + w <= total
    ensures n > 1 ==> q + w + w <= total
  {
    Doubled(w, n / 2);
    AtLeast(w, n);
    assert n == n / 2 + n / 2 || n == n / 2 + n / 2 + 1;
  }

  lemma Ends(q: nat, w: nat, total: nat)
    ensures Weighs(q, w, 0, total) <==> q == total
    ensures Weighs(0, 1, total, total)
  {
  }

  /** __power: any associative operation, without looking at its result for more than n factors. */
  method Power<T(!new), M(!new)>(x0: T, n0: nat, opr: (T, T) --> T, identity: T,
      ghost times: (M, M) -> M, ghost view: T -> M, ghost good: (T, nat) -> bool) returns (result: T)
    requires Associative(times) && Carries(opr, times, view, good, n0) && good(x0, 1)
    ensures n0 == 0 ==> result == identity
    ensures n0 > 0 ==> good(result, n0) && view(result) == Product(times, view(x0), n0)
  {
    hide *;
    if n0 == 0 { return identity; }
    var x, n: nat := x0, n0;
    ghost var w: nat := 1;
    StandsOne(times, view, good, x0);
    Ends(0, 1, n0);
    while n % 2 == 0
      invariant n > 0 && Weighs(0, w, n, n0) && Stands(times, view, good, x0, x, w)
      decreases n
    {
      Halved(0, w, n, n0);
      Joined(opr, times, view, good, n0, x0, x, w, x, w);
      n := n / 2;
      x := opr(x, x);
      w := w + w;
    }
    result := x;
    ghost var q: nat := w;
    Halved(0, w, n, n0);
    n := n / 2;
    while n != 0
      invariant Weighs(q, w + w, n, n0)
      invariant Stands(times, view, good, x0, x, w) && Stands(times, view, good, x0, result, q)
      decreases n
    {
      Halved(q, w + w, n, n0);
      Joined(opr, times, view, good, n0, x0, x, w, x, w);
      x := opr(x, x);
      w := w + w;
      if n % 2 != 0 {
        Joined(opr, times, view, good, n0, x0, result, q, x, w);
        result := opr(result, x);
        q := q + w;
      }
      n := n / 2;
    }
    Ends(q, w + w, n0);
    StandsMeans(times, view, good, x0, result, q);
  }

  lemma StandsOne<T, M>(times: (M, M) -> M, view: T -> M, good: (T, nat) -> bool, x: T)
    requires good(x, 1)
    ensures Stands(times, view, good, x, x, 1)
  {
  }

  lemma StandsMeans<T, M>(times: (M, M) -> M, view: T -> M, good: (T, nat) -> bool, x: T, r: T, q: nat)
    requires Stands(times, view, good, x, r, q)
    ensures q > 0 && good(r, q) && view(r) == Product(times, view(x), q)
  {
  }

  /** power over a total associative operation. */
  method PowerTotal<T(!new)>(x: T, n: nat, opr: (T, T) -> T, identity: T) returns (result: T)
    requires Associative(opr)
    ensures result == if n == 0 then identity else Product(opr, x, n)
  {
    result := Power(x, n, opr, identity, opr, t => t, (_, _) => true);
  }

  // ---------- ropes of one repeated character ----------

  const EXPONENTIATE_THRESHOLD: nat := 32

  function Fill(c: char, n: nat): seq<char> { seq(n, _ => c) }

  function Glue(a: seq<char>, b: seq<char>): seq<char> { a + b }

  lemma {:induction false} GluedFill(c: char, m: nat, n: nat)
    requires n > 0
    ensures Product(Glue, Fill(c, m), n) == Fill(c, m * n)
  {
    if n > 1 {
      GluedFill(c, m, n - 1);
      assert m * n == m * (n - 1) + m;
      assert Fill(c, m * n) == Fill(c, m * (n - 1)) + Fill(c, m);
    }
  }

  lemma GlueAssociative()
    ensures Associative(Glue)
  {
    forall a: seq<char>, b: seq<char>, c: seq<char> ensures Glue(Glue(a, b), c) == Glue(a, Glue(b, c)) { Regroup(a, b, c); }
  }

  /** A rope of k blocks of m characters. */
  ghost predicate Blocks(m: nat, r: Option<Rep>, k: nat) { ValidOpt(r) && SizeOpt(r) == m * k }

  lemma BlocksJoin(m: nat, limit: nat, a: Option<Rep>, b: Option<Rep>, j: nat, k: nat)
    requires Blocks(m, a, j) && Blocks(m, b, k) && j + k <= limit && m * limit <= MAX_SIZE
    ensures JoinableOpt(a, b) && Blocks(m, ConcatOpt(a, b), j + k)
  {
    hide ConcatOpt, Valid, Size;
    Bounded(m, limit, j, k);
  }

  lemma Bounded(m: nat, limit: nat, j: nat, k: nat)
    requires j + k <= limit
    ensures m * j + m * k == m * (j + k) <= m * limit
  {
  }

  lemma ConcatCarries(m: nat, limit: nat)
    requires m * limit <= MAX_SIZE
    ensures Carries(ConcatOpt, Glue, Chars, (r, k) => Blocks(m, r, k), limit)
  {
    hide ConcatOpt, Valid, Size, Blocks;
    forall a, b, j: nat, k: nat | Blocks(m, a, j) && Blocks(m, b, k) && j + k <= limit
      ensures ConcatOpt.requires(a, b) && Blocks(m, ConcatOpt(a, b), j + k) && Chars(ConcatOpt(a, b)) == Glue(Chars(a), Chars(b))
    {
      BlocksJoin(m, limit, a, b, j, k);
    }
  }

  /** rope(n, c) */
  method FillRope(n: nat, c: char) returns (result: Option<Rep>)
    requires n <= MAX_SIZE
    ensures ValidOpt(result) && Chars(result) == Fill(c, n)
    ensures result.None? <==> n == 0
  {
    if n == 0 { return None; }
    var exponent, rest := n / EXPONENTIATE_THRESHOLD, n % EXPONENTIATE_THRESHOLD;
    var remainder := if rest == 0 then None else Some(Leaf(Fill(c, rest)));
    if exponent != 0 {
      var base := Some(Leaf(Fill(c, EXPONENTIATE_THRESHOLD)));
      if exponent == 1 {
        result := base;
      } else {
        ConcatCarries(EXPONENTIATE_THRESHOLD, exponent);
        GlueAssociative();
        result := Power(base, exponent, ConcatOpt, None, Glue, Chars, (r, k) => Blocks(EXPONENTIATE_THRESHOLD, r, k));
        GluedFill(c, EXPONENTIATE_THRESHOLD, exponent);
      }
      if remainder.Some? {
        result := ConcatOpt(result, remainder);
      }
      assert Fill(c, n) == Fill(c, EXPONENTIATE_THRESHOLD * exponent) + Fill(c, rest);
    } else {
      result := remainder;
    }
  }
}
