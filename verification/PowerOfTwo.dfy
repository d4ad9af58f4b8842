/** pow2gt: the bits of a number smeared to the right. */
module PowerOfTwo {

  /** A machine word, the most significant bit first. */
  type Word = seq<bool>

  function Pow2(k: nat): (p: nat)
    ensures p >= 1
  {
    if k == 0 then 1 else 2 * Pow2(k - 1)
  }

  function Bits(n: nat, width: nat): (w: Word)
    ensures |w| == width
  {
    if width == 0 then [] else Bits(n / 2, width - 1) + [n % 2 == 1]
  }

  function Value(w: Word): nat { if w == [] then 0 else 2 * Value(w[..|w| - 1]) + if w[|w| - 1] then 1 else 0 }

  function ShiftRight(w: Word, s: nat): (u: Word)
    ensures |u| == |w|
  {
    seq(|w|, i requires 0 <= i < |w| => i >= s && w[i - s])
  }

  function Or(w: Word, u: Word): (v: Word)
    requires |w| == |u|
    ensures |v| == |w|
  {
    seq(|w|, i requires 0 <= i < |w| => w[i] || u[i])
  }

  lemma {:induction false} BitsValue(n: nat, width: nat)
    requires n < Pow2(width)
    ensures Value(Bits(n, width)) == n
  {
    if width > 0 { BitsValue(n / 2, width - 1); }
  }

  /** w is zero before place z, and one from there on at least c places far. */
  ghost predicate Smeared(w: Word, z: nat, c: nat) {
    z <= |w| && (forall i :: 0 <= i < z ==> !w[i]) && forall i :: z <= i < |w| && i < z + c ==> w[i]
  }

  lemma SmearMore(w: Word, z: nat, c: nat)
    requires Smeared(w, z, c)
    ensures Smeared(Or(w, ShiftRight(w, c)), z, c + c)
  {
    var u := ShiftRight(w, c);
    forall i | z <= i < |w| && i < z + c + c ensures w[i] || u[i] {
      if i >= z + c { assert w[i - c]; }
    }
  }

  /** The place of the first one. */
  function FirstOne(w: Word): (z: nat)
    ensures Smeared(w, z, 1)
  {
    if w == [] || w[0] then 0 else
    var z := FirstOne(w[1..]);
    assert forall i :: 1 <= i < |w| ==> w[i] == w[1..][i - 1];
    z + 1
  }

  lemma {:induction false} ZeroValue(w: Word)
    requires forall i :: 0 <= i < |w| ==> !w[i]
    ensures Value(w) == 0
  {
    if w != [] { ZeroValue(w[..|w| - 1]); }
  }

  /** The size of a number by the place of its first one. */
  lemma {:induction false} ValueBounds(w: Word, z: nat)
    requires Smeared(w, z, 1)
    ensures Value(w) < Pow2(|w| - z)
    ensures z < |w| ==> Pow2(|w| - z - 1) <= Value(w)
  {
    if z == |w| {
      ZeroValue(w);
    } else if z == |w| - 1 {
      ZeroValue(w[..|w| - 1]);
      assert Pow2(0) == 1 && Pow2(1) == 2;
    } else {
      ValueBounds(w[..|w| - 1], z);
    }
  }

  lemma {:induction false} OnesValue(w: Word, z: nat)
    requires Smeared(w, z, |w|)
    ensures Value(w) + 1 == Pow2(|w| - z)
  {
    if z == |w| { ZeroValue(w); } else { OnesValue(w[..|w| - 1], z); }
  }

  lemma {:induction false} Pow2Monotone(j: nat, k: nat)
    requires j <= k
    ensures Pow2(j) <= Pow2(k)
  {
    if j < k { Pow2Monotone(j, k - 1); }
  }

  /** r is the least power of two that is not below x. */
  ghost predicate LeastPower(x: nat, r: nat) {
    && r >= x && (exists k: nat :: r == Pow2(k))
    && forall k: nat :: Pow2(k) >= x ==> Pow2(k) >= r
  }

  lemma SmearedIsLeast(x: nat, w: Word, u: Word, z: nat)
    requires x >= 1 && Value(w) == x - 1 && Smeared(w, z, 1) && Smeared(u, z, |w|) && |u| == |w|
    ensures LeastPower(x, Value(u) + 1)
  {
    ValueBounds(w, z);
    OnesValue(u, z);
    forall k: nat | Pow2(k) >= x ensures Pow2(k) >= Pow2(|w| - z) {
      if k < |w| - z { Pow2Monotone(k, |w| - z - 1); } else { Pow2Monotone(|w| - z, k); }
    }
  }

  /** pow2gt */
  method Pow2Gt(x: nat) returns (r: nat)
    requires 1 <= x <= 0x4000_0000
    ensures LeastPower(x, r)
  {
    hide *;
    var w := Bits(x - 1, 32);
    Pow2Thirty();
    BitsValue(x - 1, 32);
    ghost var z := FirstOne(w);
    SmearMore(w, z, 1);
    var u := Or(w, ShiftRight(w, 1));
    SmearMore(u, z, 2);
    u := Or(u, ShiftRight(u, 2));
    SmearMore(u, z, 4);
    u := Or(u, ShiftRight(u, 4));
    SmearMore(u, z, 8);
    u := Or(u, ShiftRight(u, 8));
    SmearMore(u, z, 16);
    u := Or(u, ShiftRight(u, 16));
    SmearedIsLeast(x, w, u, z);
    r := Value(u) + 1;
  }

  lemma Pow2Thirty()
    ensures Pow2(32) == 0x1_0000_0000
  {
    assert Pow2(8) == 256;
    assert Pow2(16) == 65536;
    assert Pow2(24) == 0x100_0000;
  }

  /** The result fits in an int as long as the argument is at most 2^30. */
  lemma LeastPowerBound(x: nat, r: nat)
    requires x <= 0x4000_0000 && LeastPower(x, r)
    ensures r <= 0x4000_0000
  {
    assert Pow2(8) == 256;
    assert Pow2(16) == 65536;
    assert Pow2(24) == 0x100_0000;
    assert Pow2(30) == 0x4000_0000;
  }
}
