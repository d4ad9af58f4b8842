/** Printing into one growing buffer. */
module JsonBuffer {
  import opened JsonBytes
  import opened JsonCompose
  import opened JsonPrinter
  import opened PowerOfTwo

  /** The largest size for which pow2gt stays within int. */
  const LIMIT: nat := 0x4000_0000

  class PrintBuffer {
    var buffer: array<Byte>
    var length: nat
    var offset: nat

    ghost predicate Valid()
      reads this
    {
      length == buffer.Length && offset <= length
    }

    /** What has been written before the offset. */
    ghost function Front(): seq<Byte>
      requires Valid()
      reads this, buffer
    {
      buffer[..offset]
    }

    constructor (prebuffer: nat)
      ensures Valid() && offset == 0 && length == prebuffer && fresh(buffer)
    {
      buffer := new Byte[prebuffer];
      length, offset := prebuffer, 0;
    }

    /** ensure: room for the bytes asked for, and all that has been written kept. */
    method Ensure(needed0: nat) returns (at: nat)
      requires Valid() && 1 <= offset + needed0 <= LIMIT
      modifies this`buffer, this`length
      ensures Valid() && at == offset && Front() == old(Front()) && offset + needed0 <= length && old(length) <= length
      ensures if old(offset) + needed0 <= old(length) then buffer == old(buffer)
        else fresh(buffer) && LeastPower(old(offset) + needed0, length) && length <= LIMIT
    {
      var needed := needed0 + offset;
      if needed <= length { return offset; }
      var newsize := Pow2Gt(needed);
      LeastPowerBound(needed, newsize);
      var newbuffer := new Byte[newsize];
      var _ := PutBytes(newbuffer, 0, buffer[..length]);
      assert newbuffer[..length] == buffer[..length];
      length := newsize;
      buffer := newbuffer;
      at := offset;
    }

    /** update: the offset behind the text s that stands at base and reaches from before the offset to a NUL. */
    method Update(ghost base: nat, ghost s: seq<Byte>) returns (end: nat)
      requires Valid() && base <= offset <= base + |s| < length && NoNul(s)
      requires buffer[base..base + |s|] == s && buffer[base + |s|] == 0
      ensures end == base + |s|
    {
      var n := 0;
      while buffer[offset + n] != 0
        invariant offset + n <= base + |s|
        decreases base + |s| - n
      {
        assert buffer[base..base + |s|][offset + n - base] == buffer[offset + n];
        n := n + 1;
      }
      end := offset + n;
    }
  }
}
