/** Bytes and texts: a C string is its bytes without the closing NUL. */
module JsonBytes {

  type Byte = bv8

  const TAB: Byte := 9
  const NEWLINE: Byte := 10
  const SPACE: Byte := 32
  const QUOTE: Byte := 34
  const COMMA: Byte := 44
  const COLON: Byte := 58
  const OPEN_BRACKET: Byte := 91
  const BACKSLASH: Byte := 92
  const CLOSE_BRACKET: Byte := 93
  const LETTER_U: Byte := 117
  const OPEN_BRACE: Byte := 123
  const CLOSE_BRACE: Byte := 125

  /** The byte at a position; behind the end comes the NUL. */
  function At(t: seq<Byte>, i: nat): Byte { if i < |t| then t[i] else 0 }

  predicate NoNul(t: seq<Byte>) { forall i :: 0 <= i < |t| ==> t[i] != 0 }

  /** Text s stands in t from position i on. */
  predicate Has(t: seq<Byte>, i: nat, s: seq<Byte>) { i + |s| <= |t| && t[i..i + |s|] == s }

  lemma HasSplit(t: seq<Byte>, i: nat, a: seq<Byte>, b: seq<Byte>)
    ensures Has(t, i, a + b) <==> Has(t, i, a) && Has(t, i + |a|, b)
  {
    if i + |a| + |b| <= |t| {
      var u := t[i..i + |a| + |b|];
      assert u[..|a|] == t[i..i + |a|] && u[|a|..] == t[i + |a|..i + |a| + |b|];
      assert (a + b)[..|a|] == a && (a + b)[|a|..] == b && u == u[..|a|] + u[|a|..];
    }
  }

  lemma HasAt(t: seq<Byte>, i: nat, s: seq<Byte>, k: nat)
    requires Has(t, i, s) && k < |s|
    ensures i + k < |t| && t[i + k] == At(t, i + k) == s[k]
  {
    assert t[i..i + |s|][k] == t[i + k];
  }

  lemma HasOne(t: seq<Byte>, i: nat, b: Byte)
    ensures Has(t, i, [b]) <==> i < |t| && At(t, i) == b
  {
    if i < |t| { assert t[i..i + 1] == [t[i]]; }
  }

  function Tabs(n: nat): seq<Byte> { seq(n, _ => TAB) }
}
