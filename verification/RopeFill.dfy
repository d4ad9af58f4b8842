/** The rope of one repeated character, made by squaring in counted memory. */
module RopeFill {
  import opened RopeTree
  import opened RopeHandles
  import opened Power

  /** In the middle of the work: x has tx, the variable r, if there is one yet, has tr, the ones before are as they
      were, and all other new ones have gone out of scope. */
  ghost predicate Working(before: seq<seq<char>>, texts: seq<seq<char>>, x: nat, tx: seq<char>, r: int, tr: seq<char>) {
    && x < |before| <= |texts| && texts[..|before|] == before[x := tx]
    && (r >= 0 ==> |before| <= r < |texts| && texts[r] == tr)
    && forall k :: |before| <= k < |texts| && k != r ==> texts[k] == []
  }

  lemma WorkingAt(before: seq<seq<char>>, texts: seq<seq<char>>, x: nat, tx: seq<char>, r: int, tr: seq<char>)
    requires Working(before, texts, x, tx, r, tr)
    ensures x < |before| <= |texts| && texts[x] == tx && (r >= 0 ==> |before| <= r < |texts| && texts[r] == tr)
  {
    assert texts[x] == texts[..|before|][x];
  }

  lemma WorkingOn(before: seq<seq<char>>, texts: seq<seq<char>>, x: nat, tx: seq<char>, r: int, tr: seq<char>, s: seq<char>)
    requires Working(before, texts, x, tx, r, tr)
    ensures Working(before, texts[x := s] + [[]], x, s, r, tr)
    ensures r >= 0 ==> Working(before, texts[r := s] + [[]], x, tx, r, s)
    ensures r < 0 ==> Working(before, texts + [s], x, tx, |texts|, s)
  {
    assert (texts[x := s] + [[]])[..|before|] == texts[..|before|][x := s];
    assert (texts + [s])[..|before|] == texts[..|before|];
    if r >= 0 { assert (texts[r := s] + [[]])[..|before|] == texts[..|before|]; }
  }

  lemma {:induction false} ProductLength(s: seq<char>, n: nat)
    requires n > 0
    ensures |Product(Glue, s, n)| == |s| * n
  {
    if n > 1 {
      ProductLength(s, n - 1);
      assert |s| * n == |s| * (n - 1) + |s|;
    }
  }

  lemma Factors(s: seq<char>, j: nat, k: nat, total: nat)
    requires j > 0 && k > 0 && j + k <= total && |s| * total <= MAX_SIZE
    ensures Product(Glue, s, j) + Product(Glue, s, k) == Product(Glue, s, j + k)
    ensures |Product(Glue, s, j)| + |Product(Glue, s, k)| <= MAX_SIZE
  {
    hide Product;
    GlueAssociative();
    ProductAdd(Glue, s, j, k);
    ProductLength(s, j);
    ProductLength(s, k);
    Bounded(|s|, total, j, k);
  }

  /** r = r + x, by way of a variable that lives as long as the expression. */
  method PutBehind(ropes: Ropes, r: nat, x: nat)
    requires ropes.Valid() && r < |ropes.handles| && x < |ropes.handles| && |ropes.Texts()[r]| + |ropes.Texts()[x]| <= MAX_SIZE
    modifies ropes, ropes.store
    ensures ropes.Valid() && ropes.Texts() == old(ropes.Texts())[r := old(ropes.Texts()[r]) + old(ropes.Texts()[x])] + [[]]
  {
    hide Ropes.Valid, Ropes.Texts;
    var k := ropes.Plus(r, x);
    ropes.Assign(r, k);
    ropes.Clear(k);
  }

  /** __power, of the rope x, whose variable is a copy that the call uses up. */
  method PowerRope(ropes: Ropes, x: nat, n0: nat) returns (result: nat)
    requires ropes.Valid() && x < |ropes.handles| && n0 > 0 && |ropes.Texts()[x]| * n0 <= MAX_SIZE
    modifies ropes, ropes.store
    ensures ropes.Valid()
    ensures x < |old(ropes.Texts())| <= result < |ropes.Texts()|
    ensures ropes.Texts()[..|old(ropes.Texts())|] == old(ropes.Texts())[x := []]
    ensures ropes.Texts()[result] == Product(Glue, old(ropes.Texts()[x]), n0)
    ensures forall k :: |old(ropes.Texts())| <= k < |ropes.Texts()| && k != result ==> ropes.Texts()[k] == []
  {
    hide Ropes.Valid, Ropes.Texts, Product, Weighs, Working;
    ghost var s, before := ropes.Texts()[x], ropes.Texts();
    var n: nat := n0;
    ghost var w: nat := 1;
    WorkStarts(s, before, x);
    Ends(0, 1, n0);
    while n % 2 == 0
      invariant ropes.Valid() && n > 0 && w > 0 && Weighs(0, w, n, n0)
      invariant Working(before, ropes.Texts(), x, Product(Glue, s, w), -1, [])
      decreases n
    {
      Halved(0, w, n, n0);
      Square(ropes, before, x, s, w, -1, [], n0);
      n := n / 2;
      w := w + w;
    }
    WorkingAt(before, ropes.Texts(), x, Product(Glue, s, w), -1, []);
    WorkingOn(before, ropes.Texts(), x, Product(Glue, s, w), -1, [], Product(Glue, s, w));
    result := ropes.Copy(x);
    ghost var q: nat := w;
    Halved(0, w, n, n0);
    n := n / 2;
    while n != 0
      invariant ropes.Valid() && w > 0 && q > 0 && Weighs(q, w + w, n, n0)
      invariant Working(before, ropes.Texts(), x, Product(Glue, s, w), result, Product(Glue, s, q))
      decreases n
    {
      Halved(q, w + w, n, n0);
      Square(ropes, before, x, s, w, result, Product(Glue, s, q), n0);
      w := w + w;
      if n % 2 != 0 {
        PutPower(ropes, before, x, s, w, result, q, n0);
        q := q + w;
      }
      n := n / 2;
    }
    Ends(q, w + w, n0);
    WorkEnds(before, ropes.Texts(), x, Product(Glue, s, w), result, Product(Glue, s, n0));
    ropes.Clear(x);
  }

  /** x = x + x */
  method Square(ropes: Ropes, ghost before: seq<seq<char>>, x: nat, ghost s: seq<char>, ghost w: nat, ghost r: int,
      ghost tr: seq<char>, ghost total: nat)
    requires ropes.Valid() && w > 0 && w + w <= total && |s| * total <= MAX_SIZE
    requires Working(before, ropes.Texts(), x, Product(Glue, s, w), r, tr)
    modifies ropes, ropes.store
    ensures ropes.Valid() && Working(before, ropes.Texts(), x, Product(Glue, s, w + w), r, tr)
  {
    hide Ropes.Valid, Ropes.Texts, Product, Working;
    Factors(s, w, w, total);
    WorkingAt(before, ropes.Texts(), x, Product(Glue, s, w), r, tr);
    WorkingOn(before, ropes.Texts(), x, Product(Glue, s, w), r, tr, Product(Glue, s, w + w));
    PutBehind(ropes, x, x);
  }

  /** result = result + x */
  method PutPower(ropes: Ropes, ghost before: seq<seq<char>>, x: nat, ghost s: seq<char>, ghost w: nat, result: nat, ghost q: nat,
      ghost total: nat)
    requires ropes.Valid() && w > 0 && q > 0 && q + w <= total && |s| * total <= MAX_SIZE
    requires Working(before, ropes.Texts(), x, Product(Glue, s, w), result, Product(Glue, s, q))
    modifies ropes, ropes.store
    ensures ropes.Valid() && Working(before, ropes.Texts(), x, Product(Glue, s, w), result, Product(Glue, s, q + w))
  {
    hide Ropes.Valid, Ropes.Texts, Product, Working;
    Factors(s, q, w, total);
    WorkingAt(before, ropes.Texts(), x, Product(Glue, s, w), result, Product(Glue, s, q));
    WorkingOn(before, ropes.Texts(), x, Product(Glue, s, w), result, Product(Glue, s, q), Product(Glue, s, q + w));
    PutBehind(ropes, result, x);
  }

  lemma WorkStarts(s: seq<char>, before: seq<seq<char>>, x: nat)
    requires x < |before| && before[x] == s
    ensures Working(before, before, x, Product(Glue, s, 1), -1, [])
  {
  }

  lemma WorkEnds(before: seq<seq<char>>, texts: seq<seq<char>>, x: nat, tx: seq<char>, r: nat, tr: seq<char>)
    requires Working(before, texts, x, tx, r, tr)
    ensures x < |before| <= r < |texts|
    ensures var u := texts[x := []];
      && u[..|before|] == before[x := []] && u[r] == tr
      && forall k :: |before| <= k < |u| && k != r ==> u[k] == []
  {
  }

  /** rope(n, c): a new variable; the ones used on the way have gone out of scope. */
  method FillHandle(ropes: Ropes, n: nat, c: char) returns (h: nat)
    requires ropes.Valid() && n <= MAX_SIZE
    modifies ropes, ropes.store
    ensures ropes.Valid() && |old(ropes.Texts())| <= h < |ropes.Texts()|
    ensures ropes.Texts()[..|old(ropes.Texts())|] == old(ropes.Texts()) && ropes.Texts()[h] == Fill(c, n)
    ensures forall k :: |old(ropes.Texts())| <= k < |ropes.Texts()| && k != h ==> ropes.Texts()[k] == []
  {
    hide Ropes.Valid, Ropes.Texts, Product;
    if n == 0 {
      h := ropes.Create([]);
      return;
    }
    var exponent, rest := n / EXPONENTIATE_THRESHOLD, n % EXPONENTIATE_THRESHOLD;
    FillSplit(n, c);
    var remainder := ropes.Create(Fill(c, rest));
    if exponent == 0 {
      h := remainder;
    } else {
      h := FillBlocks(ropes, exponent, c);
      if rest != 0 {
        ropes.AppendRope(h, remainder);
      }
      ropes.Clear(remainder);
    }
  }

  lemma FillSplit(n: nat, c: char)
    ensures var m, k, j := EXPONENTIATE_THRESHOLD, n / EXPONENTIATE_THRESHOLD, n % EXPONENTIATE_THRESHOLD;
      m * k + j == n && Fill(c, n) == Fill(c, m * k) + Fill(c, j)
  {
  }

  /** The part of the rope made of whole blocks. */
  method FillBlocks(ropes: Ropes, exponent: nat, c: char) returns (h: nat)
    requires ropes.Valid() && exponent > 0 && EXPONENTIATE_THRESHOLD * exponent <= MAX_SIZE
    modifies ropes, ropes.store
    ensures ropes.Valid() && |old(ropes.Texts())| <= h < |ropes.Texts()|
    ensures ropes.Texts()[..|old(ropes.Texts())|] == old(ropes.Texts())
    ensures ropes.Texts()[h] == Fill(c, EXPONENTIATE_THRESHOLD * exponent)
    ensures forall k :: |old(ropes.Texts())| <= k < |ropes.Texts()| && k != h ==> ropes.Texts()[k] == []
  {
    hide Ropes.Valid, Ropes.Texts, Product;
    var base := ropes.Create(Fill(c, EXPONENTIATE_THRESHOLD));
    if exponent == 1 {
      h := ropes.Copy(base);
    } else {
      var x := ropes.Copy(base);
      GluedFill(c, EXPONENTIATE_THRESHOLD, exponent);
      h := PowerRope(ropes, x, exponent);
    }
    ropes.Clear(base);
  }
}
