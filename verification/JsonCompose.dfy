/** Writing text into character arrays: every write continues what stands before it. */
module JsonCompose {
  import opened JsonBytes
  import opened JsonUnicode
  import opened JsonText

  /** *ptr++ = b */
  method PutByte(buf: array<Byte>, at: nat, b: Byte) returns (end: nat)
    requires at < buf.Length
    modifies buf
    ensures end == at + 1 && buf[..end] == old(buf[..at]) + [b]
  {
    buf[at] := b;
    end := at + 1;
  }

  /** memcpy and the like */
  method PutBytes(buf: array<Byte>, at: nat, s: seq<Byte>) returns (end: nat)
    requires at + |s| <= buf.Length
    modifies buf
    ensures end == at + |s| && buf[..end] == old(buf[..at]) + s
  {
    end := at;
    var k := 0;
    while k < |s|
      invariant k <= |s| && end == at + k && buf[..end] == old(buf[..at]) + s[..k]
    {
      end := PutByte(buf, end, s[k]);
      k := k + 1;
      assert s[..k] == s[..k - 1] + [s[k - 1]];
    }
    assert s[..|s|] == s;
  }

  /** The closing NUL. */
  method PutNul(buf: array<Byte>, at: nat)
    requires at < buf.Length
    modifies buf
    ensures buf[at] == 0 && buf[..at] == old(buf[..at])
  {
    buf[at] := 0;
  }

  method PutTabs(buf: array<Byte>, at: nat, n: nat) returns (end: nat)
    requires at + n <= buf.Length
    modifies buf
    ensures end == at + n && buf[..end] == old(buf[..at]) + Tabs(n)
  {
    end := at;
    var i := 0;
    while i < n
      invariant i <= n && end == at + i && buf[..end] == old(buf[..at]) + Tabs(i)
    {
      end := PutByte(buf, end, TAB);
      i := i + 1;
      assert Tabs(i) == Tabs(i - 1) + [TAB];
    }
  }

  // ---------- print_string_ptr ----------

  predicate Special(b: Byte) { b < 32 || b == QUOTE || b == BACKSLASH }

  predicate Tame(s: seq<Byte>) { forall i :: 0 <= i < |s| ==> !Special(s[i]) }

  lemma {:induction false} TameIsPlain(s: seq<Byte>)
    requires Tame(s)
    ensures EscapedAll(s) == s
  {
    if s != [] {
      TameIsPlain(s[..|s| - 1]);
      assert s == s[..|s| - 1] + [s[|s| - 1]];
    }
  }

  /** The first loop: whether anything needs an escape. */
  method NeedsEscape(str: seq<Byte>) returns (flag: bool)
    requires NoNul(str)
    ensures flag <==> !Tame(str)
  {
    flag := false;
    var ptr := 0;
    while ptr < |str|
      invariant ptr <= |str| && (flag <==> !Tame(str[..ptr]))
    {
      flag := flag || 0 < str[ptr] < 32 || str[ptr] == QUOTE || str[ptr] == BACKSLASH;
      ptr := ptr + 1;
      assert str[..ptr] == str[..ptr - 1] + [str[ptr - 1]];
    }
    assert str[..|str|] == str;
  }

  /** The second loop: the length with escapes. */
  method EscapedLength(str: seq<Byte>) returns (len: nat)
    requires NoNul(str)
    ensures len == |EscapedAll(str)|
  {
    len := 0;
    var ptr := 0;
    while ptr < |str|
      invariant ptr <= |str| && len == |EscapedAll(str[..ptr])|
    {
      var token := str[ptr];
      len := len + 1;
      if token == QUOTE || token == BACKSLASH || token == 8 || token == 12 || token == 10 || token == 13 || token == 9 {
        len := len + 1;
      } else if token < 32 {
        len := len + 5;
      }
      ptr := ptr + 1;
      EscapedOneMore(str, ptr);
    }
    assert str[..|str|] == str;
  }

  lemma EscapedOneMore(s: seq<Byte>, k: nat)
    requires 1 <= k <= |s|
    ensures EscapedAll(s[..k]) == EscapedAll(s[..k - 1]) + Escaped(s[k - 1])
  {
    assert s[..k][..k - 1] == s[..k - 1];
  }

  /** One round of the last loop. */
  method PutEscaped(buf: array<Byte>, at: nat, b: Byte) returns (end: nat)
    requires b != 0 && at + |Escaped(b)| <= buf.Length
    modifies buf
    ensures end == at + |Escaped(b)| && buf[..end] == old(buf[..at]) + Escaped(b)
  {
    ghost var before := buf[..at];
    if b > 31 && b != QUOTE && b != BACKSLASH {
      end := PutByte(buf, at, b);
    } else {
      end := PutByte(buf, at, BACKSLASH);
      if b == BACKSLASH { end := PutByte(buf, end, BACKSLASH); }
      else if b == QUOTE { end := PutByte(buf, end, QUOTE); }
      else if b == 8 { end := PutByte(buf, end, 98); }
      else if b == 12 { end := PutByte(buf, end, 102); }
      else if b == 10 { end := PutByte(buf, end, 110); }
      else if b == 13 { end := PutByte(buf, end, 114); }
      else if b == 9 { end := PutByte(buf, end, 116); }
      else { end := PutBytes(buf, end, [LETTER_U, 48, 48, HexDigit(b >> 4), HexDigit(b & 15)]); }
      Regrouped(before, [BACKSLASH], Escaped(b)[1..], Escaped(b));
    }
  }

  lemma Regrouped(a: seq<Byte>, b: seq<Byte>, c: seq<Byte>, d: seq<Byte>)
    requires b + c == d
    ensures a + b + c == a + d
  {
  }

  /** The last loop. */
  method PutAllEscaped(buf: array<Byte>, at: nat, str: seq<Byte>) returns (end: nat)
    requires NoNul(str) && at + |EscapedAll(str)| <= buf.Length
    modifies buf
    ensures end == at + |EscapedAll(str)| && buf[..end] == old(buf[..at]) + EscapedAll(str)
  {
    hide Escaped, EscapedAll;
    ghost var before := buf[..at];
    end := at;
    var ptr := 0;
    NothingEscaped(str);
    while ptr < |str|
      invariant ptr <= |str| && end == at + |EscapedAll(str[..ptr])| <= buf.Length
      invariant buf[..end] == before + EscapedAll(str[..ptr])
    {
      EscapedOneMore(str, ptr + 1);
      EscapedPrefix(str, ptr + 1);
      end := PutEscaped(buf, end, str[ptr]);
      ptr := ptr + 1;
    }
    assert str[..|str|] == str;
  }

  lemma NothingEscaped(s: seq<Byte>)
    ensures EscapedAll(s[..0]) == []
  {
  }

  /** The string in quotes, escaped where the flag says so, and the NUL. */
  method PutQuoted(buf: array<Byte>, at: nat, str: seq<Byte>, flag: bool) returns (end: nat)
    requires NoNul(str) && (flag <==> !Tame(str)) && at + |Quoted(str)| < buf.Length
    modifies buf
    ensures end == at + |Quoted(str)| && buf[..end] == old(buf[..at]) + Quoted(str) && buf[end] == 0
  {
    hide EscapedAll, Tame;
    ghost var before := buf[..at];
    end := PutByte(buf, at, QUOTE);
    if !flag {
      TameIsPlain(str);
      end := PutBytes(buf, end, str);
    } else {
      end := PutAllEscaped(buf, end, str);
    }
    end := PutByte(buf, end, QUOTE);
    assert before + [QUOTE] + EscapedAll(str) + [QUOTE] == before + Quoted(str);
    PutNul(buf, end);
  }

  lemma {:induction false} EscapedPrefix(s: seq<Byte>, k: nat)
    requires k <= |s|
    ensures |EscapedAll(s[..k])| <= |EscapedAll(s)|
    decreases |s| - k
  {
    hide Escaped;
    if k < |s| {
      EscapedPrefix(s, k + 1);
      EscapedOneMore(s, k + 1);
    } else {
      assert s[..k] == s;
    }
  }
}
