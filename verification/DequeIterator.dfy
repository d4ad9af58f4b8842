/** The deque's iterator: a place in a map of equally long buffers. */
module DequeIterator {

  /** node is the place in the map, first the buffer found there, cur the cell in that buffer. */
  datatype Iter = Iter(node: int, first: nat, cur: int)

  /** How many elements of a given width fit in a buffer. */
  function BufferSize(width: nat): (s: nat)
    requires width > 0
    ensures s > 0 && (s > 1 ==> s * width <= 512)
  {
    if width < 512 then BufferFits(width); 512 / width else 1
  }

  lemma BufferFits(width: nat)
    requires 0 < width < 512
    ensures 512 / width > 0 && 512 / width * width <= 512
  {
  }

  /** it is at a cell of one of the buffers lo up to hi of the map. */
  ghost predicate On(slots: seq<nat>, s: nat, lo: int, hi: int, it: Iter) {
    && 0 <= lo <= it.node < hi <= |slots|
    && it.first == slots[it.node]
    && 0 <= it.cur < s
  }

  /** The number of cells from the start of buffer lo to it. */
  function Off(s: nat, lo: int, it: Iter): int { (it.node - lo) * s + it.cur }

  lemma LowOffset(s: nat, it: Iter)
    ensures Off(s, it.node, it) == it.cur
  {
  }

  lemma RowOf(s: nat, lo: int, it: Iter)
    requires lo <= it.node
    ensures Off(s, lo, it) == (it.node - lo) * s + it.cur && (it.node - lo) * s >= 0
  {
  }

  /** The first cell of a buffer. */
  lemma StartOf(slots: seq<nat>, s: nat, lo: int, hi: int, k: int)
    requires 0 <= lo <= k < hi <= |slots| && s > 0
    ensures On(slots, s, lo, hi, SetNode(slots, k, 0))
    ensures 0 <= Off(s, lo, SetNode(slots, k, 0)) == (k - lo) * s < (hi - lo) * s
  {
    Rows(s, k - lo, hi - lo);
    MulMonotone(s, 0, k - lo);
  }

  /** The place n cells behind the first of a window of n / s + 1 buffers. */
  lemma EndOf(slots: seq<nat>, s: nat, lo: int, n: nat)
    requires s > 0 && 0 <= lo && lo + n / s < |slots|
    ensures On(slots, s, lo, lo + n / s + 1, SetNode(slots, lo + n / s, n % s))
    ensures Off(s, lo, SetNode(slots, lo + n / s, n % s)) == n
  {
    assert n == n / s * s + n % s;
  }

  /** The last cell of the buffer before. */
  lemma Previously(s: nat, lo: int, it: Iter)
    ensures forall b: Iter :: b.node == it.node - 1 && b.cur == s - 1 ==> Off(s, lo, b) == Off(s, lo, it) - it.cur - 1
  {
    Rows(s, it.node - lo, 0);
    assert (it.node - lo - 1) * s == (it.node - lo) * s - s;
  }

  // ---------- the operations ----------

  function SetNode(slots: seq<nat>, node: int, cur: int): Iter
    requires 0 <= node < |slots|
  {
    Iter(node, slots[node], cur)
  }

  function Next(slots: seq<nat>, s: nat, it: Iter): Iter
    requires it.cur + 1 == s ==> 0 <= it.node + 1 < |slots|
  {
    if it.cur + 1 == s then SetNode(slots, it.node + 1, 0) else it.(cur := it.cur + 1)
  }

  function Previous(slots: seq<nat>, s: nat, it: Iter): Iter
    requires it.cur == 0 ==> 0 <= it.node - 1 < |slots|
  {
    if it.cur == 0 then SetNode(slots, it.node - 1, s - 1) else it.(cur := it.cur - 1)
  }

  /** How many buffers away an offset from the start of a buffer is; both divisions are of numbers not below zero. */
  function NodeOffset(s: nat, offset: int): int
    requires s > 0 && !(0 <= offset < s)
  {
    if offset > 0 then offset / s else - ((- offset - 1) / s) - 1
  }

  function Target(s: nat, it: Iter, n: int): int
    requires s > 0
  {
    if 0 <= n + it.cur < s then it.node else it.node + NodeOffset(s, n + it.cur)
  }

  function Advance(slots: seq<nat>, s: nat, it: Iter, n: int): Iter
    requires s > 0
    requires 0 <= Target(s, it, n) < |slots|
  {
    var offset := n + it.cur;
    if 0 <= offset < s then it.(cur := it.cur + n)
    else
      var nodeOffset := NodeOffset(s, offset);
      SetNode(slots, it.node + nodeOffset, offset - nodeOffset * s)
  }

  function Distance(s: nat, a: Iter, b: Iter): int { s * (a.node - b.node - 1) + a.cur + (s - b.cur) }

  /** Equality compares the cells pointed at, and order first the buffers. */
  predicate Same(a: Iter, b: Iter) { a.first == b.first && a.cur == b.cur }

  predicate Less(a: Iter, b: Iter) { if a.node == b.node then a.cur < b.cur else a.node < b.node }

  // ---------- they are arithmetic on offsets ----------

  lemma Rows(s: nat, k: int, j: int)
    ensures (k + 1) * s == k * s + s && (k - 1) * s == k * s - s
    ensures k < j ==> k * s + s <= j * s
  {
    if k < j { MulMonotone(s, k + 1, j); }
  }

  lemma MulMonotone(s: nat, k: int, j: int)
    requires k <= j
    ensures k * s <= j * s
  {
  }

  lemma Bounds(slots: seq<nat>, s: nat, lo: int, hi: int, it: Iter)
    requires On(slots, s, lo, hi, it)
    ensures 0 <= Off(s, lo, it) < (hi - lo) * s
  {
    Rows(s, it.node - lo, hi - lo);
    MulMonotone(s, 0, it.node - lo);
  }

  /** The same place counted from k buffers earlier, and the length of a window with k and j more buffers. */
  lemma Wider(s: nat, lo: int, hi: int, k: nat, j: nat, it: Iter)
    ensures Off(s, lo - k, it) == k * s + Off(s, lo, it)
    ensures (hi + j - (lo - k)) * s == k * s + (hi - lo) * s + j * s
    ensures k * s >= 0 && j * s >= 0
  {
    Distribute(s, it.node - lo, k);
    Distribute(s, hi - lo, k);
    Distribute(s, hi - lo + k, j);
    assert it.node - (lo - k) == it.node - lo + k;
    assert hi + j - (lo - k) == hi - lo + k + j;
  }

  lemma DivUnique(m: int, s: nat, q: int, r: int)
    requires m == q * s + r && 0 <= r < s
    ensures m / s == q
  {
    assert m == m / s * s + m % s;
    Rows(s, q, m / s);
    Rows(s, m / s, q);
  }

  /** How many buffers are passed by moving n cells on from cell cur. */
  function RowsPassed(cur: int, n: nat, s: nat): (rows: nat) { if s > 0 && cur >= 0 then (cur + n) / s else 0 }

  lemma NoRows(cur: nat, n: nat, s: nat)
    requires s > 0
    ensures RowsPassed(cur, n, s) == 0 <==> cur + n < s
  {
    var m := cur + n;
    assert m == m / s * s + m % s;
  }

  lemma Distribute(s: nat, a: int, b: int)
    ensures (a + b) * s == a * s + b * s
  {
  }

  /** The order of offsets is the order of the iterators, and only one iterator is at an offset. */
  lemma OrderOfOffsets(slots: seq<nat>, s: nat, lo: int, hi: int, a: Iter, b: Iter)
    requires On(slots, s, lo, hi, a) && On(slots, s, lo, hi, b)
    ensures Less(a, b) <==> Off(s, lo, a) < Off(s, lo, b)
    ensures a == b <==> Off(s, lo, a) == Off(s, lo, b)
  {
    Rows(s, a.node - lo, b.node - lo);
    Rows(s, b.node - lo, a.node - lo);
  }

  /** Comparing the cells pointed at tells iterators apart where no buffer is twice in the map. */
  lemma SameIsEqual(slots: seq<nat>, s: nat, lo: int, hi: int, a: Iter, b: Iter)
    requires On(slots, s, lo, hi, a) && On(slots, s, lo, hi, b)
    requires forall i, j :: lo <= i < j < hi ==> slots[i] != slots[j]
    ensures Same(a, b) <==> a == b
  {
  }

  /** An offset within the first row, or within the last, is in the first buffer, or in the last. */
  lemma FirstRow(slots: seq<nat>, s: nat, lo: int, hi: int, it: Iter)
    requires On(slots, s, lo, hi, it) && Off(s, lo, it) < s
    ensures it.node == lo
  {
    Rows(s, 0, it.node - lo);
  }

  lemma LastRow(slots: seq<nat>, s: nat, lo: int, hi: int, it: Iter)
    requires On(slots, s, lo, hi, it) && (hi - 1 - lo) * s <= Off(s, lo, it)
    ensures it.node == hi - 1
  {
    Rows(s, it.node - lo, hi - 1 - lo);
  }

  /** Rounding up a division. */
  function Ceiling(n: nat, s: nat): (k: nat)
    requires s > 0
    ensures n <= k * s < n + s
  {
    assert n + s - 1 == (n + s - 1) / s * s + (n + s - 1) % s;
    (n + s - 1) / s
  }

  lemma NextOff(slots: seq<nat>, s: nat, lo: int, hi: int, it: Iter)
    requires On(slots, s, lo, hi, it)
    requires Off(s, lo, it) + 1 < (hi - lo) * s
    ensures it.cur + 1 == s ==> it.node + 1 < hi
    ensures On(slots, s, lo, hi, Next(slots, s, it)) && Off(s, lo, Next(slots, s, it)) == Off(s, lo, it) + 1
  {
    Rows(s, it.node - lo, hi - lo);
  }

  lemma PreviousOff(slots: seq<nat>, s: nat, lo: int, hi: int, it: Iter)
    requires On(slots, s, lo, hi, it)
    requires Off(s, lo, it) > 0
    ensures it.cur == 0 ==> lo < it.node
    ensures On(slots, s, lo, hi, Previous(slots, s, it)) && Off(s, lo, Previous(slots, s, it)) == Off(s, lo, it) - 1
  {
    Rows(s, it.node - lo, hi - lo);
  }

  /** The two divisions round down, for an offset of either sign. */
  lemma NodeOffsetRoundsDown(s: nat, offset: int)
    requires s > 0 && !(0 <= offset < s)
    ensures 0 <= offset - NodeOffset(s, offset) * s < s
  {
    if offset > 0 {
      assert offset == offset / s * s + offset % s;
    } else {
      var m := - offset - 1;
      var q := m / s;
      assert m == q * s + m % s;
      Rows(s, - q, 0);
      assert NodeOffset(s, offset) == - q - 1;
      assert (- q) * s == - (q * s) by { Negate(s, q); }
    }
  }

  lemma Negate(s: nat, q: int)
    ensures (- q) * s == - (q * s)
  {
  }

  /** Moving by n, forwards or backwards, moves the offset by n, and the buffer found is the right one. */
  lemma {:induction false} AdvanceOff(slots: seq<nat>, s: nat, lo: int, hi: int, it: Iter, n: int)
    requires On(slots, s, lo, hi, it)
    requires 0 <= Off(s, lo, it) + n < (hi - lo) * s
    ensures lo <= Target(s, it, n) < hi
    ensures On(slots, s, lo, hi, Advance(slots, s, it, n))
    ensures Off(s, lo, Advance(slots, s, it, n)) == Off(s, lo, it) + n
  {
    var offset := n + it.cur;
    if !(0 <= offset < s) {
      NodeOffsetRoundsDown(s, offset);
      var k := NodeOffset(s, offset);
      var row := it.node - lo;
      Distribute(s, row, k);
      assert (row + k) * s <= row * s + offset < (row + k) * s + s;
      assert 0 <= row * s + offset < (hi - lo) * s;
      Within(s, row + k, hi - lo);
    }
  }

  lemma Within(s: nat, r: int, h: int)
    requires r * s < h * s && 0 < r * s + s
    ensures 0 <= r < h
  {
    if r >= h { MulMonotone(s, h, r); }
    if r < 0 { Rows(s, r, 0); }
  }

  lemma DistanceOff(slots: seq<nat>, s: nat, lo: int, hi: int, a: Iter, b: Iter)
    requires On(slots, s, lo, hi, a) && On(slots, s, lo, hi, b)
    ensures Distance(s, a, b) == Off(s, lo, a) - Off(s, lo, b)
  {
    Rows(s, a.node - b.node, 0);
    Distribute(s, a.node - b.node, b.node - lo);
  }

  /** Moving by n and measuring gives n; measuring and moving by that gets there. */
  lemma MoveAndMeasure(slots: seq<nat>, s: nat, lo: int, hi: int, it: Iter, n: int)
    requires On(slots, s, lo, hi, it)
    requires 0 <= Off(s, lo, it) + n < (hi - lo) * s
    ensures 0 <= Target(s, it, n) < |slots|
    ensures Distance(s, Advance(slots, s, it, n), it) == n
  {
    AdvanceOff(slots, s, lo, hi, it, n);
    DistanceOff(slots, s, lo, hi, Advance(slots, s, it, n), it);
  }

  lemma MeasureAndMove(slots: seq<nat>, s: nat, lo: int, hi: int, a: Iter, b: Iter)
    requires On(slots, s, lo, hi, a) && On(slots, s, lo, hi, b)
    ensures 0 <= Target(s, b, Distance(s, a, b)) < |slots|
    ensures Advance(slots, s, b, Distance(s, a, b)) == a
  {
    var n := Distance(s, a, b);
    DistanceOff(slots, s, lo, hi, a, b);
    Bounds(slots, s, lo, hi, a);
    AdvanceOff(slots, s, lo, hi, b, n);
    OrderOfOffsets(slots, s, lo, hi, Advance(slots, s, b, n), a);
  }

  /** One step is a move by one, and the two steps undo each other. */
  lemma StepsUndo(slots: seq<nat>, s: nat, lo: int, hi: int, it: Iter)
    requires On(slots, s, lo, hi, it)
    requires Off(s, lo, it) + 1 < (hi - lo) * s
    ensures it.cur + 1 == s ==> it.node + 1 < hi
    ensures Next(slots, s, it) == Advance(slots, s, it, 1)
    ensures Previous(slots, s, Next(slots, s, it)) == it
  {
    Bounds(slots, s, lo, hi, it);
    NextOff(slots, s, lo, hi, it);
    AdvanceOff(slots, s, lo, hi, it, 1);
    OrderOfOffsets(slots, s, lo, hi, Next(slots, s, it), Advance(slots, s, it, 1));
    PreviousOff(slots, s, lo, hi, Next(slots, s, it));
    OrderOfOffsets(slots, s, lo, hi, Previous(slots, s, Next(slots, s, it)), it);
  }
}
