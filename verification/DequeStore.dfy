/** The deque: a map of buffers, and the elements between two iterators into it. */
module DequeStore {
  import opened Sequences
  import opened DequeIterator
  import opened DequeStrips
  import opened DequeMoves

  /** The buffers behind slot lo and before slot hi. */
  ghost function Between(slots: seq<nat>, lo: int, hi: int): set<nat> {
    if 0 <= lo < hi <= |slots| then Members(slots[lo + 1..hi]) else {}
  }

  class Deque<T> {
    /** How many elements fit in a buffer, and what a newly allocated map is filled with. */
    const size: nat
    const stale: nat

    /** The map, the buffers by address, and the two ends. */
    var slots: seq<nat>
    var heap: seq<seq<Cell<T>>>
    var start: Iter
    var finish: Iter

    /** The buffers not given back yet, those of them that no map lists any more, and the elements. */
    ghost var live: set<nat>
    ghost var leaked: set<nat>
    ghost var contents: seq<T>

    /** The buffers lo up to hi of the map, and the leaked ones, are the ones allocated. */
    ghost predicate Held(lo: int, hi: int)
      reads this
    {
      && size > 0 && 0 <= lo <= hi <= |slots|
      && Buffers(slots[lo..hi], heap, live, size)
      && live == leaked + Members(slots[lo..hi]) && leaked !! Members(slots[lo..hi])
      && (forall a :: a in live ==> a < |heap| && |heap[a]| == size)
    }

    ghost function Tape(lo: int, hi: int): seq<Cell<T>>
      requires 0 <= lo <= hi <= |slots|
      reads this
    {
      Strip(slots[lo..hi], heap)
    }

    /** The buffers lo up to hi hold the elements between the two ends, and nothing else. */
    ghost predicate Spread(lo: int, hi: int)
      reads this
    {
      && Held(lo, hi)
      && On(slots, size, lo, hi, start) && On(slots, size, lo, hi, finish)
      && 0 <= Off(size, lo, start) && Off(size, lo, finish) <= (hi - lo) * size
      && Tape(lo, hi) == Layout(Off(size, lo, start), contents, (hi - lo) * size - Off(size, lo, finish))
    }

    /** The buffers in use are those from the one of start to the one of finish. */
    ghost predicate Valid()
      reads this
    {
      Spread(start.node, finish.node + 1)
    }

    /** A deque of n copies of x; the width of an element decides how many fit in a buffer. */
    constructor (n: nat, x: T, width: nat, stale: nat)
      requires width > 0
      ensures Valid() && contents == Copies(n, x) && leaked == {} && size == BufferSize(width)
    {
      this.size := BufferSize(width);
      this.stale := stale;
      slots := [];
      heap := [];
      start := Iter(0, 0, 0);
      finish := Iter(0, 0, 0);
      live := {};
      leaked := {};
      contents := [];
      new;
      InitializeMap(n);
      FillInitialize(x);
    }

    lemma Ends(lo: int, hi: int)
      requires Spread(lo, hi)
      ensures |Tape(lo, hi)| == (hi - lo) * size
      ensures Off(size, lo, finish) == Off(size, lo, start) + |contents| < (hi - lo) * size
      ensures start.node <= finish.node
    {
      hide Off, On, Strip, Buffers, Members;
      CellAt(lo, hi, start);
      CellAt(lo, hi, finish);
      OrderOfOffsets(slots, size, lo, hi, finish, start);
    }

    /** In a valid deque the cells before start and behind finish are in the first and in the last buffer. */
    lemma ValidEnds()
      requires Valid()
      ensures 0 <= start.cur < size && 0 <= finish.cur < size && start.node <= finish.node
      ensures Off(size, start.node, start) == start.cur
      ensures Tape(start.node, finish.node + 1) == Layout(start.cur, contents, size - finish.cur)
      ensures Off(size, start.node, finish) == start.cur + |contents|
    {
      hide Strip, Buffers, Members, Layout;
      Ends(start.node, finish.node + 1);
      Rows(size, finish.node - start.node, 0);
    }

    /** And the other way round. */
    lemma IsValid()
      requires start.node <= finish.node && Held(start.node, finish.node + 1)
      requires On(slots, size, start.node, finish.node + 1, start) && On(slots, size, start.node, finish.node + 1, finish)
      requires Tape(start.node, finish.node + 1) == Layout(start.cur, contents, size - finish.cur)
      ensures Valid()
    {
      hide Strip, Buffers, Members, Layout;
      Rows(size, finish.node - start.node, 0);
    }

    /** The elements reach from the first buffer into another when an end is at the border of its buffer. */
    lemma TwoNodes()
      requires Valid() && contents != []
      ensures finish.cur == 0 || start.cur == size - 1 ==> start.node < finish.node
    {
      hide Strip, Buffers, Members, Layout;
      ValidEnds();
      Rows(size, finish.node - start.node, 0);
    }

    // ---------- cells ----------

    lemma CellAt(lo: int, hi: int, it: Iter)
      requires Held(lo, hi) && On(slots, size, lo, hi, it)
      ensures it.first in live && it.first < |heap| && |heap[it.first]| == size
      ensures |Tape(lo, hi)| == (hi - lo) * size
      ensures 0 <= Off(size, lo, it) < |Tape(lo, hi)|
      ensures Tape(lo, hi)[Off(size, lo, it)] == heap[it.first][it.cur]
    {
      StripLength(slots[lo..hi], heap, live, size);
      assert slots[lo..hi][it.node - lo] == it.first;
      StripAt(slots[lo..hi], heap, live, size, it.node - lo, it.cur);
    }

    function Deref(it: Iter, ghost lo: int, ghost hi: int): (x: T)
      requires Held(lo, hi) && On(slots, size, lo, hi, it)
      requires 0 <= Off(size, lo, it) < |Tape(lo, hi)| && Tape(lo, hi)[Off(size, lo, it)].Full?
      reads this
      ensures Tape(lo, hi)[Off(size, lo, it)] == Full(x)
    {
      CellAt(lo, hi, it);
      heap[it.first][it.cur].value
    }

    method Store(it: Iter, v: Cell<T>, ghost lo: int, ghost hi: int)
      requires Held(lo, hi) && On(slots, size, lo, hi, it)
      modifies this`heap
      ensures Held(lo, hi) && 0 <= Off(size, lo, it) < |old(Tape(lo, hi))|
      ensures Tape(lo, hi) == old(Tape(lo, hi))[Off(size, lo, it) := v]
    {
      CellAt(lo, hi, it);
      PutStrip(slots[lo..hi], heap, live, size, it.node - lo, it.cur, v);
      heap := Put(heap, it.first, it.cur, v);
    }

    method Construct(it: Iter, x: T, ghost lo: int, ghost hi: int)
      requires Held(lo, hi) && On(slots, size, lo, hi, it)
      requires 0 <= Off(size, lo, it) < |Tape(lo, hi)| && Tape(lo, hi)[Off(size, lo, it)].Raw?
      modifies this`heap
      ensures Held(lo, hi) && Tape(lo, hi) == old(Tape(lo, hi))[Off(size, lo, it) := Full(x)]
    {
      Store(it, Full(x), lo, hi);
    }

    method Assign(it: Iter, x: T, ghost lo: int, ghost hi: int)
      requires Held(lo, hi) && On(slots, size, lo, hi, it)
      requires 0 <= Off(size, lo, it) < |Tape(lo, hi)| && Tape(lo, hi)[Off(size, lo, it)].Full?
      modifies this`heap
      ensures Held(lo, hi) && Tape(lo, hi) == old(Tape(lo, hi))[Off(size, lo, it) := Full(x)]
    {
      Store(it, Full(x), lo, hi);
    }

    method DestroyOne(it: Iter, ghost lo: int, ghost hi: int)
      requires Held(lo, hi) && On(slots, size, lo, hi, it)
      requires 0 <= Off(size, lo, it) < |Tape(lo, hi)| && Tape(lo, hi)[Off(size, lo, it)].Full?
      modifies this`heap
      ensures Held(lo, hi) && Tape(lo, hi) == old(Tape(lo, hi))[Off(size, lo, it) := Raw]
    {
      Store(it, Raw, lo, hi);
    }

    // ---------- ranges of cells ----------

    lemma Step(it: Iter, lo: int, hi: int)
      requires Held(lo, hi) && On(slots, size, lo, hi, it) && Off(size, lo, it) + 1 < (hi - lo) * size
      ensures it.cur + 1 == size ==> 0 <= it.node + 1 < |slots|
      ensures On(slots, size, lo, hi, Next(slots, size, it)) && Off(size, lo, Next(slots, size, it)) == Off(size, lo, it) + 1
    {
      NextOff(slots, size, lo, hi, it);
    }

    /** Assigns n = last - from elements, the first one first. */
    method Copy(from: Iter, last: Iter, to: Iter, ghost lo: int, ghost hi: int) returns (result: Iter)
      requires Held(lo, hi) && On(slots, size, lo, hi, from) && On(slots, size, lo, hi, last) && On(slots, size, lo, hi, to)
      requires AllFull(Tape(lo, hi), Off(size, lo, from), Off(size, lo, last))
      requires AllFull(Tape(lo, hi), Off(size, lo, to), Off(size, lo, to) + Off(size, lo, last) - Off(size, lo, from))
      requires Off(size, lo, to) + Off(size, lo, last) - Off(size, lo, from) < (hi - lo) * size
      requires Off(size, lo, to) <= Off(size, lo, from) || Off(size, lo, last) <= Off(size, lo, to)
      modifies this`heap
      ensures Held(lo, hi) && On(slots, size, lo, hi, result)
      ensures Off(size, lo, result) == Off(size, lo, to) + Off(size, lo, last) - Off(size, lo, from)
      ensures Tape(lo, hi) == Overwrite(old(Tape(lo, hi)), Off(size, lo, to), old(Tape(lo, hi))[Off(size, lo, from)..Off(size, lo, last)])
    {
      hide Off, On, Next, Distance, Same, Strip, Overwrite, Buffers, Members;
      MeasureRange(from, last, lo, hi);
      ghost var u := Tape(lo, hi);
      ghost var a, b, d := Off(size, lo, from), Off(size, lo, last), Off(size, lo, to);
      ghost var k: nat := 0;
      var first := from;
      result := to;
      var n := Distance(size, last, from);
      OverwriteNothing(u, d, u[a..b]);
      while n > 0
        invariant 0 <= n && k == b - a - n
        invariant Held(lo, hi) && On(slots, size, lo, hi, first) && On(slots, size, lo, hi, result)
        invariant Off(size, lo, first) == a + k && Off(size, lo, result) == d + k
        invariant Tape(lo, hi) == Overwrite(u, d, u[a..b][..k])
      {
        CopyForward(u, a, b, d, k);
        first, result := CopyOne(first, result, lo, hi);
        n := n - 1;
        k := k + 1;
      }
      assert u[a..b][..k] == u[a..b];
    }

    lemma MeasureRange(from: Iter, last: Iter, lo: int, hi: int)
      requires Held(lo, hi) && On(slots, size, lo, hi, from) && On(slots, size, lo, hi, last)
      ensures Distance(size, last, from) == Off(size, lo, last) - Off(size, lo, from)
      ensures |Tape(lo, hi)| == (hi - lo) * size
      ensures 0 <= Off(size, lo, from) < |Tape(lo, hi)| && 0 <= Off(size, lo, last) < |Tape(lo, hi)|
    {
      CellAt(lo, hi, from);
      CellAt(lo, hi, last);
      DistanceOff(slots, size, lo, hi, last, from);
    }

    method CopyOne(from: Iter, to: Iter, ghost lo: int, ghost hi: int) returns (first: Iter, result: Iter)
      requires Held(lo, hi) && On(slots, size, lo, hi, from) && On(slots, size, lo, hi, to)
      requires Off(size, lo, from) + 1 < (hi - lo) * size && Off(size, lo, to) + 1 < (hi - lo) * size
      requires AllFull(Tape(lo, hi), Off(size, lo, from), Off(size, lo, from) + 1)
      requires AllFull(Tape(lo, hi), Off(size, lo, to), Off(size, lo, to) + 1)
      modifies this`heap
      ensures Held(lo, hi) && On(slots, size, lo, hi, first) && On(slots, size, lo, hi, result)
      ensures Off(size, lo, first) == Off(size, lo, from) + 1 && Off(size, lo, result) == Off(size, lo, to) + 1
      ensures Tape(lo, hi) == old(Tape(lo, hi))[Off(size, lo, to) := old(Tape(lo, hi))[Off(size, lo, from)]]
    {
      hide Off, On, Next, Strip;
      Assign(to, Deref(from, lo, hi), lo, hi);
      Step(from, lo, hi);
      Step(to, lo, hi);
      first := Next(slots, size, from);
      result := Next(slots, size, to);
    }

    lemma StepBack(it: Iter, lo: int, hi: int)
      requires Held(lo, hi) && On(slots, size, lo, hi, it) && 0 < Off(size, lo, it)
      ensures it.cur == 0 ==> 0 <= it.node - 1 < |slots|
      ensures On(slots, size, lo, hi, Previous(slots, size, it)) && Off(size, lo, Previous(slots, size, it)) == Off(size, lo, it) - 1
    {
      PreviousOff(slots, size, lo, hi, it);
    }

    /** Assigns the elements from the last one back, to the cells that end at `to`. */
    method CopyBackward(first: Iter, from: Iter, to: Iter, ghost lo: int, ghost hi: int) returns (result: Iter)
      requires Held(lo, hi) && On(slots, size, lo, hi, first) && On(slots, size, lo, hi, from) && On(slots, size, lo, hi, to)
      requires AllFull(Tape(lo, hi), Off(size, lo, first), Off(size, lo, from))
      requires AllFull(Tape(lo, hi), Off(size, lo, to) - (Off(size, lo, from) - Off(size, lo, first)), Off(size, lo, to))
      requires Off(size, lo, from) <= Off(size, lo, to) || Off(size, lo, to) <= Off(size, lo, first)
      modifies this`heap
      ensures Held(lo, hi) && On(slots, size, lo, hi, result)
      ensures Off(size, lo, result) == Off(size, lo, to) - (Off(size, lo, from) - Off(size, lo, first))
      ensures Tape(lo, hi) == Overwrite(old(Tape(lo, hi)), Off(size, lo, result), old(Tape(lo, hi))[Off(size, lo, first)..Off(size, lo, from)])
    {
      hide Off, On, Previous, Distance, Same, Strip, Overwrite, Buffers, Members;
      MeasureRange(first, from, lo, hi);
      ghost var u := Tape(lo, hi);
      ghost var a, b := Off(size, lo, first), Off(size, lo, from);
      ghost var d: nat := Off(size, lo, to) - (b - a);
      var last := from;
      result := to;
      var n := Distance(size, from, first);
      OverwriteNothing(u, d, u[a..b]);
      while n > 0
        invariant 0 <= n <= b - a
        invariant Held(lo, hi) && On(slots, size, lo, hi, last) && On(slots, size, lo, hi, result)
        invariant Off(size, lo, last) == a + n && Off(size, lo, result) == d + n
        invariant Tape(lo, hi) == Overwrite(u, d + n, u[a..b][n..])
      {
        CopyBackwards(u, a, b, d, n);
        last, result := CopyOneBack(last, result, lo, hi);
        n := n - 1;
      }
      assert u[a..b][n..] == u[a..b];
    }

    method CopyOneBack(from: Iter, to: Iter, ghost lo: int, ghost hi: int) returns (last: Iter, result: Iter)
      requires Held(lo, hi) && On(slots, size, lo, hi, from) && On(slots, size, lo, hi, to)
      requires AllFull(Tape(lo, hi), Off(size, lo, from) - 1, Off(size, lo, from))
      requires AllFull(Tape(lo, hi), Off(size, lo, to) - 1, Off(size, lo, to))
      modifies this`heap
      ensures Held(lo, hi) && On(slots, size, lo, hi, last) && On(slots, size, lo, hi, result)
      ensures Off(size, lo, last) == Off(size, lo, from) - 1 && Off(size, lo, result) == Off(size, lo, to) - 1
      ensures Tape(lo, hi) == old(Tape(lo, hi))[Off(size, lo, to) - 1 := old(Tape(lo, hi))[Off(size, lo, from) - 1]]
    {
      hide Off, On, Previous, Strip;
      StepBack(from, lo, hi);
      StepBack(to, lo, hi);
      result := Previous(slots, size, to);
      last := Previous(slots, size, from);
      Assign(result, Deref(last, lo, hi), lo, hi);
    }

    /** Equality of the cells pointed at is equality of the places. */
    lemma SamePlace(a: Iter, b: Iter, lo: int, hi: int)
      requires Held(lo, hi) && On(slots, size, lo, hi, a) && On(slots, size, lo, hi, b)
      ensures Same(a, b) <==> Off(size, lo, a) == Off(size, lo, b)
      ensures Same(a, b) <==> a == b
    {
      forall i, j | lo <= i < j < hi ensures slots[i] != slots[j] {
        assert slots[lo..hi][i - lo] != slots[lo..hi][j - lo];
      }
      SameIsEqual(slots, size, lo, hi, a, b);
      OrderOfOffsets(slots, size, lo, hi, a, b);
    }

    /** Constructs copies in cells that hold no element, and says where it stopped. */
    method UninitializedCopy(from: Iter, last: Iter, to: Iter, ghost lo: int, ghost hi: int) returns (cur: Iter)
      requires Held(lo, hi) && On(slots, size, lo, hi, from) && On(slots, size, lo, hi, last) && On(slots, size, lo, hi, to)
      requires AllFull(Tape(lo, hi), Off(size, lo, from), Off(size, lo, last))
      requires AllRaw(Tape(lo, hi), Off(size, lo, to), Off(size, lo, to) + Off(size, lo, last) - Off(size, lo, from))
      requires Off(size, lo, to) + Off(size, lo, last) - Off(size, lo, from) < (hi - lo) * size
      modifies this`heap
      ensures Held(lo, hi) && On(slots, size, lo, hi, cur)
      ensures Off(size, lo, cur) == Off(size, lo, to) + Off(size, lo, last) - Off(size, lo, from)
      ensures Tape(lo, hi) == Overwrite(old(Tape(lo, hi)), Off(size, lo, to), old(Tape(lo, hi))[Off(size, lo, from)..Off(size, lo, last)])
    {
      hide Off, On, Next, Distance, Same, Strip, Overwrite, Buffers, Members;
      MeasureRange(from, last, lo, hi);
      ghost var u := Tape(lo, hi);
      ghost var a, b, d := Off(size, lo, from), Off(size, lo, last), Off(size, lo, to);
      ghost var k: nat := 0;
      var first := from;
      cur := to;
      OverwriteNothing(u, d, u[a..b]);
      SamePlace(first, last, lo, hi);
      while !Same(first, last)
        invariant k <= b - a
        invariant Held(lo, hi) && On(slots, size, lo, hi, first) && On(slots, size, lo, hi, cur)
        invariant Off(size, lo, first) == a + k && Off(size, lo, cur) == d + k
        invariant Same(first, last) <==> k == b - a
        invariant Tape(lo, hi) == Overwrite(u, d, u[a..b][..k])
        decreases b - a - k
      {
        WriteForward(u, d, u[a..b], k);
        ReadApart(u, a, b, d, k);
        Construct(cur, Deref(first, lo, hi), lo, hi);
        Step(first, lo, hi);
        Step(cur, lo, hi);
        first := Next(slots, size, first);
        cur := Next(slots, size, cur);
        k := k + 1;
        SamePlace(first, last, lo, hi);
      }
      assert u[a..b][..k] == u[a..b];
    }

    /** Assigns the elements of a sequence from outside. */
    method CopyIn(src: seq<T>, to: Iter, ghost lo: int, ghost hi: int) returns (result: Iter)
      requires Held(lo, hi) && On(slots, size, lo, hi, to)
      requires AllFull(Tape(lo, hi), Off(size, lo, to), Off(size, lo, to) + |src|) && Off(size, lo, to) + |src| < (hi - lo) * size
      modifies this`heap
      ensures Held(lo, hi) && On(slots, size, lo, hi, result) && Off(size, lo, result) == Off(size, lo, to) + |src|
      ensures Tape(lo, hi) == Overwrite(old(Tape(lo, hi)), Off(size, lo, to), Fulls(src))
    {
      hide Off, On, Next, Strip, Overwrite, Buffers, Members;
      ghost var u, d := Tape(lo, hi), Off(size, lo, to);
      CellAt(lo, hi, to);
      OverwriteNothing(u, d, Fulls(src));
      result := to;
      var k := 0;
      while k < |src|
        invariant k <= |src|
        invariant Held(lo, hi) && On(slots, size, lo, hi, result) && Off(size, lo, result) == d + k
        invariant Tape(lo, hi) == Overwrite(u, d, Fulls(src)[..k])
      {
        WriteForward(u, d, Fulls(src), k);
        Assign(result, src[k], lo, hi);
        Step(result, lo, hi);
        result := Next(slots, size, result);
        k := k + 1;
      }
      assert Fulls(src)[..k] == Fulls(src);
    }

    method UninitializedCopyIn(src: seq<T>, to: Iter, ghost lo: int, ghost hi: int) returns (cur: Iter)
      requires Held(lo, hi) && On(slots, size, lo, hi, to)
      requires AllRaw(Tape(lo, hi), Off(size, lo, to), Off(size, lo, to) + |src|) && Off(size, lo, to) + |src| < (hi - lo) * size
      modifies this`heap
      ensures Held(lo, hi) && On(slots, size, lo, hi, cur) && Off(size, lo, cur) == Off(size, lo, to) + |src|
      ensures Tape(lo, hi) == Overwrite(old(Tape(lo, hi)), Off(size, lo, to), Fulls(src))
    {
      hide Off, On, Next, Strip, Overwrite, Buffers, Members;
      ghost var u, d := Tape(lo, hi), Off(size, lo, to);
      CellAt(lo, hi, to);
      OverwriteNothing(u, d, Fulls(src));
      cur := to;
      var k := 0;
      while k < |src|
        invariant k <= |src|
        invariant Held(lo, hi) && On(slots, size, lo, hi, cur) && Off(size, lo, cur) == d + k
        invariant Tape(lo, hi) == Overwrite(u, d, Fulls(src)[..k])
      {
        WriteForward(u, d, Fulls(src), k);
        Construct(cur, src[k], lo, hi);
        Step(cur, lo, hi);
        cur := Next(slots, size, cur);
        k := k + 1;
      }
      assert Fulls(src)[..k] == Fulls(src);
    }

    method Fill(from: Iter, last: Iter, x: T, ghost lo: int, ghost hi: int)
      requires Held(lo, hi) && On(slots, size, lo, hi, from) && On(slots, size, lo, hi, last)
      requires AllFull(Tape(lo, hi), Off(size, lo, from), Off(size, lo, last))
      modifies this`heap
      ensures Held(lo, hi)
      ensures Tape(lo, hi) == Overwrite(old(Tape(lo, hi)), Off(size, lo, from), Fulls(Copies(Off(size, lo, last) - Off(size, lo, from), x)))
    {
      hide Off, On, Next, Same, Distance, Strip, Overwrite, Buffers, Members;
      MeasureRange(from, last, lo, hi);
      ghost var u, d := Tape(lo, hi), Off(size, lo, from);
      ghost var n: nat := Off(size, lo, last) - d;
      ghost var v := Fulls(Copies(n, x));
      ghost var k: nat := 0;
      OverwriteNothing(u, d, v);
      var first := from;
      SamePlace(first, last, lo, hi);
      while !Same(first, last)
        invariant k <= n
        invariant Held(lo, hi) && On(slots, size, lo, hi, first) && Off(size, lo, first) == d + k
        invariant Same(first, last) <==> k == n
        invariant Tape(lo, hi) == Overwrite(u, d, v[..k])
        decreases n - k
      {
        WriteForward(u, d, v, k);
        Assign(first, x, lo, hi);
        Step(first, lo, hi);
        first := Next(slots, size, first);
        k := k + 1;
        SamePlace(first, last, lo, hi);
      }
      assert v[..k] == v;
    }

    method UninitializedFill(from: Iter, last: Iter, x: T, ghost lo: int, ghost hi: int)
      requires Held(lo, hi) && On(slots, size, lo, hi, from) && On(slots, size, lo, hi, last)
      requires AllRaw(Tape(lo, hi), Off(size, lo, from), Off(size, lo, last))
      modifies this`heap
      ensures Held(lo, hi)
      ensures Tape(lo, hi) == Overwrite(old(Tape(lo, hi)), Off(size, lo, from), Fulls(Copies(Off(size, lo, last) - Off(size, lo, from), x)))
    {
      hide Off, On, Next, Same, Distance, Strip, Overwrite, Buffers, Members;
      MeasureRange(from, last, lo, hi);
      ghost var u, d := Tape(lo, hi), Off(size, lo, from);
      ghost var n: nat := Off(size, lo, last) - d;
      ghost var v := Fulls(Copies(n, x));
      ghost var k: nat := 0;
      OverwriteNothing(u, d, v);
      var cur := from;
      SamePlace(cur, last, lo, hi);
      while !Same(cur, last)
        invariant k <= n
        invariant Held(lo, hi) && On(slots, size, lo, hi, cur) && Off(size, lo, cur) == d + k
        invariant Same(cur, last) <==> k == n
        invariant Tape(lo, hi) == Overwrite(u, d, v[..k])
        decreases n - k
      {
        WriteForward(u, d, v, k);
        Construct(cur, x, lo, hi);
        Step(cur, lo, hi);
        cur := Next(slots, size, cur);
        k := k + 1;
        SamePlace(cur, last, lo, hi);
      }
      assert v[..k] == v;
    }

    /** Destroys the elements up to last. */
    method Destroy(from: Iter, last: Iter, ghost lo: int, ghost hi: int)
      requires Held(lo, hi) && On(slots, size, lo, hi, from) && On(slots, size, lo, hi, last)
      requires AllFull(Tape(lo, hi), Off(size, lo, from), Off(size, lo, last))
      modifies this`heap
      ensures Held(lo, hi)
      ensures Tape(lo, hi) == Overwrite(old(Tape(lo, hi)), Off(size, lo, from), Raws(Off(size, lo, last) - Off(size, lo, from)))
    {
      hide Off, On, Next, Same, Distance, Strip, Overwrite, Buffers, Members;
      MeasureRange(from, last, lo, hi);
      ghost var u, d := Tape(lo, hi), Off(size, lo, from);
      ghost var n: nat := Off(size, lo, last) - d;
      ghost var v := Raws<T>(n);
      ghost var k: nat := 0;
      OverwriteNothing(u, d, v);
      var first := from;
      SamePlace(first, last, lo, hi);
      while !Same(first, last)
        invariant k <= n
        invariant Held(lo, hi) && On(slots, size, lo, hi, first) && Off(size, lo, first) == d + k
        invariant Same(first, last) <==> k == n
        invariant Tape(lo, hi) == Overwrite(u, d, v[..k])
        decreases n - k
      {
        WriteForward(u, d, v, k);
        DestroyOne(first, lo, hi);
        Step(first, lo, hi);
        first := Next(slots, size, first);
        k := k + 1;
        SamePlace(first, last, lo, hi);
      }
      assert v[..k] == v;
    }

    // ---------- buffers and the map ----------

    method AllocateNode() returns (a: nat)
      modifies this`heap, this`live
      ensures a == |old(heap)| && heap == old(heap) + [Raws(size)] && live == old(live) + {a}
    {
      a := |heap|;
      heap := heap + [Raws(size)];
      live := live + {a};
    }

    /** Gives a buffer back; no element may be left in it. */
    method DeallocateNode(a: nat)
      requires a in live && a < |heap| && heap[a] == Raws(size)
      modifies this`live
      ensures live == old(live) - {a}
    {
      live := live - {a};
    }

    /** Puts a new buffer into the slot before the first, or behind the last. */
    method NodeBefore(node: int, ghost hi: int)
      requires Held(node, hi) && node > 0
      modifies this`heap, this`live, this`slots
      ensures |slots| == |old(slots)| && slots == old(slots)[node - 1 := slots[node - 1]]
      ensures Held(node - 1, hi) && Tape(node - 1, hi) == Raws(size) + old(Tape(node, hi))
    {
      hide Strip, Buffers, Members;
      ghost var nodes := slots[node..hi];
      StripFresh(nodes, heap, live, size);
      BuffersFresh(nodes, heap, live, size);
      MembersFresh(nodes, |heap|);
      var a := AllocateNode();
      slots := slots[node - 1 := a];
      assert slots[node - 1..hi] == [a] + nodes;
    }

    method NodeBehind(node: int, ghost lo: int)
      requires Held(lo, node) && node < |slots|
      modifies this`heap, this`live, this`slots
      ensures |slots| == |old(slots)| && slots == old(slots)[node := slots[node]]
      ensures Held(lo, node + 1) && Tape(lo, node + 1) == old(Tape(lo, node)) + Raws(size)
    {
      hide Strip, Buffers, Members;
      ghost var nodes := slots[lo..node];
      StripFresh(nodes, heap, live, size);
      BuffersFresh(nodes, heap, live, size);
      MembersFresh(nodes, |heap|);
      var a := AllocateNode();
      slots := slots[node := a];
      assert slots[lo..node + 1] == nodes + [a];
    }

    /** Moves a part of the map down, first slot first, or up, last slot first. */
    method MoveSlotsDown(a: nat, b: nat, d: nat)
      requires d <= a <= b <= |slots|
      modifies this`slots
      ensures slots == Overwrite(old(slots), d, old(slots)[a..b])
      ensures |slots| == |old(slots)| && slots[d..d + (b - a)] == old(slots)[a..b]
    {
      hide Overwrite;
      ghost var u := slots;
      OverwriteSlice(u, d, u[a..b]);
      OverwriteNothing(u, d, u[a..b]);
      var k := 0;
      while k < b - a
        invariant k <= b - a && |slots| == |u| && slots == Overwrite(u, d, u[a..b][..k])
      {
        MoveDown(u, a, b, d, k);
        slots := slots[d + k := slots[a + k]];
        k := k + 1;
      }
      assert u[a..b][..k] == u[a..b];
    }

    method MoveSlotsUp(a: nat, b: nat, end: nat)
      requires a <= b <= end <= |slots|
      modifies this`slots
      ensures slots == Overwrite(old(slots), end - (b - a), old(slots)[a..b])
      ensures |slots| == |old(slots)| && slots[end - (b - a)..end] == old(slots)[a..b]
    {
      hide Overwrite;
      ghost var u := slots;
      ghost var d: nat := end - (b - a);
      OverwriteSlice(u, d, u[a..b]);
      OverwriteNothing(u, d, u[a..b]);
      var k := b - a;
      while k > 0
        invariant 0 <= k <= b - a && |slots| == |u| && slots == Overwrite(u, d + k, u[a..b][k..])
      {
        MoveUp(u, a, b, d, k);
        k := k - 1;
        slots := slots[end - (b - a) + k := slots[a + k]];
      }
      assert u[a..b][k..] == u[a..b];
    }

    /** Allocates a map of n slots and copies a part of the old one to d. */
    method CopyMap(part: seq<nat>, n: nat, d: nat) returns (room: seq<nat>)
      requires d + |part| <= n
      ensures |room| == n && room[d..d + |part|] == part
    {
      room := seq(n, _ => stale);
      var k := 0;
      while k < |part|
        invariant k <= |part| && |room| == n && room[d..d + k] == part[..k]
      {
        room := room[d + k := part[k]];
        assert room[d..d + k] == part[..k];
        assert room[d..d + k + 1] == room[d..d + k] + [part[k]];
        k := k + 1;
      }
    }

    /** Moves slots a up to b to the middle of the map, or of a longer one, with room for more slots at one side. */
    method MoveMap(a: nat, b: nat, nodesToAdd: nat, addAtFront: bool) returns (newStart: nat)
      requires a < b <= |slots|
      modifies this`slots
      ensures newStart + (b - a) <= |slots| && slots[newStart..newStart + (b - a)] == old(slots)[a..b]
      ensures if addAtFront then nodesToAdd <= newStart else newStart + (b - a) + nodesToAdd <= |slots|
    {
      hide Overwrite;
      var oldNumNodes := b - a;
      var newNumNodes := oldNumNodes + nodesToAdd;
      if |slots| > 2 * newNumNodes {
        newStart := (|slots| - newNumNodes) / 2 + (if addAtFront then nodesToAdd else 0);
        if newStart < a {
          MoveSlotsDown(a, b, newStart);
        } else {
          MoveSlotsUp(a, b, newStart + oldNumNodes);
        }
      } else {
        var newMapSize := |slots| + (if |slots| > nodesToAdd then |slots| else nodesToAdd) + 2;
        newStart := (newMapSize - newNumNodes) / 2 + (if addAtFront then nodesToAdd else 0);
        slots := CopyMap(slots[a..b], newMapSize, newStart);
      }
    }

    method ReallocateMap(nodesToAdd: nat, addAtFront: bool)
      requires Valid()
      modifies this`slots, this`start, this`finish
      ensures Valid()
      ensures start.cur == old(start.cur) && finish.cur == old(finish.cur)
      ensures finish.node - start.node == old(finish.node - start.node)
      ensures slots[start.node..finish.node + 1] == old(slots[start.node..finish.node + 1])
      ensures if addAtFront then nodesToAdd <= start.node else finish.node + nodesToAdd < |slots|
    {
      hide Strip, Buffers, Members, Layout;
      ValidEnds();
      ghost var used := slots[start.node..finish.node + 1];
      var last := finish.node - start.node;
      var newStart := MoveMap(start.node, finish.node + 1, nodesToAdd, addAtFront);
      assert used[0] == slots[newStart] && used[last] == slots[newStart + last];
      start := SetNode(slots, newStart, start.cur);
      finish := SetNode(slots, newStart + last, finish.cur);
      assert slots[start.node..finish.node + 1] == used;
    }

    method ReserveMapAtBack(nodesToAdd: nat)
      requires Valid()
      modifies this`slots, this`start, this`finish
      ensures Valid() && finish.node + nodesToAdd < |slots|
      ensures start.cur == old(start.cur) && finish.cur == old(finish.cur)
      ensures finish.node - start.node == old(finish.node - start.node)
      ensures slots[start.node..finish.node + 1] == old(slots[start.node..finish.node + 1])
    {
      hide Strip, Buffers, Members, Layout;
      if nodesToAdd + 1 > |slots| - finish.node {
        ReallocateMap(nodesToAdd, false);
      }
    }

    method ReserveMapAtFront(nodesToAdd: nat)
      requires Valid()
      modifies this`slots, this`start, this`finish
      ensures Valid() && nodesToAdd <= start.node
      ensures start.cur == old(start.cur) && finish.cur == old(finish.cur)
      ensures finish.node - start.node == old(finish.node - start.node)
      ensures slots[start.node..finish.node + 1] == old(slots[start.node..finish.node + 1])
    {
      hide Strip, Buffers, Members, Layout;
      if nodesToAdd > start.node {
        ReallocateMap(nodesToAdd, true);
      }
    }

    /** The same elements seen in a wider part of the map. */
    lemma SpreadWider(lo: int, hi: int, k: nat, j: nat)
      requires Held(lo - k, hi + j) && lo < hi
      requires On(slots, size, lo, hi, start) && On(slots, size, lo, hi, finish)
      requires 0 <= Off(size, lo, start) && Off(size, lo, finish) <= (hi - lo) * size
      requires Tape(lo - k, hi + j) == Raws(k * size) + Layout(Off(size, lo, start), contents, (hi - lo) * size - Off(size, lo, finish)) + Raws(j * size)
      ensures Spread(lo - k, hi + j)
    {
      hide Strip, Buffers, Members, Layout, Off;
      Wider(size, lo, hi, k, j, start);
      Wider(size, lo, hi, k, j, finish);
      WiderLayout(Off(size, lo, start), contents, (hi - lo) * size - Off(size, lo, finish), k * size, j * size);
    }

    /** k buffers more before slot node, and before slot hi. */
    method NodesBefore(k: nat, node: int, ghost hi: int)
      requires Held(node, hi) && k <= node
      modifies this`heap, this`live, this`slots
      ensures |slots| == |old(slots)| && slots[node..] == old(slots)[node..]
      ensures Held(node - k, hi) && Tape(node - k, hi) == Raws(k * size) + old(Tape(node, hi))
    {
      hide Strip, Buffers, Members;
      ghost var tape := Tape(node, hi);
      var i := 0;
      assert Raws(0 * size) + tape == tape;
      while i < k
        invariant i <= k && |slots| == |old(slots)| && slots[node..] == old(slots)[node..]
        invariant Held(node - i, hi)
        invariant Tape(node - i, hi) == Raws(i * size) + tape
      {
        NodeBefore(node - i, hi);
        RawsAppend<T>(size, i * size);
        Rows(size, i, 0);
        i := i + 1;
      }
    }

    method NodesBehind(k: nat, node: int, ghost lo: int)
      requires Held(lo, node) && node + k <= |slots|
      modifies this`heap, this`live, this`slots
      ensures |slots| == |old(slots)| && slots[..node] == old(slots)[..node]
      ensures Held(lo, node + k) && Tape(lo, node + k) == old(Tape(lo, node)) + Raws(k * size)
    {
      hide Strip, Buffers, Members;
      ghost var tape := Tape(lo, node);
      var i := 0;
      assert tape + Raws(0 * size) == tape;
      while i < k
        invariant i <= k && |slots| == |old(slots)| && slots[..node] == old(slots)[..node]
        invariant Held(lo, node + i)
        invariant Tape(lo, node + i) == tape + Raws(i * size)
      {
        NodeBehind(node + i, lo);
        RawsAppend<T>(i * size, size);
        Rows(size, i, 0);
        i := i + 1;
      }
    }

    method NewElementsAtFront(newElems: nat) returns (ghost newNodes: nat)
      requires Valid()
      modifies this`heap, this`live, this`slots, this`start, this`finish
      ensures newNodes == Ceiling(newElems, size)
      ensures Spread(start.node - newNodes, finish.node + 1)
      ensures start.cur == old(start.cur) && finish.cur == old(finish.cur)
      ensures finish.node - start.node == old(finish.node - start.node)
    {
      hide Strip, Buffers, Members, Layout, Off;
      var nodes := Ceiling(newElems, size);
      ReserveMapAtFront(nodes);
      NodesBefore(nodes, start.node, finish.node + 1);
      newNodes := nodes;
      assert Tape(start.node - newNodes, finish.node + 1) == Tape(start.node - newNodes, finish.node + 1) + Raws(0 * size);
      SpreadWider(start.node, finish.node + 1, newNodes, 0);
    }

    method NewElementsAtBack(newElems: nat) returns (ghost newNodes: nat)
      requires Valid()
      modifies this`heap, this`live, this`slots, this`start, this`finish
      ensures newNodes == Ceiling(newElems, size)
      ensures Spread(start.node, finish.node + 1 + newNodes)
      ensures start.cur == old(start.cur) && finish.cur == old(finish.cur)
      ensures finish.node - start.node == old(finish.node - start.node)
    {
      hide Strip, Buffers, Members, Layout, Off;
      var nodes := Ceiling(newElems, size);
      ReserveMapAtBack(nodes);
      NodesBehind(nodes, finish.node + 1, start.node);
      newNodes := nodes;
      assert Tape(start.node, finish.node + 1 + newNodes) == Raws(0 * size) + Tape(start.node, finish.node + 1 + newNodes);
      SpreadWider(start.node, finish.node + 1, 0, newNodes);
    }

    /** Makes room for n elements before start, and says where the first of them goes. */
    method ReserveElementsAtFront(n: nat) returns (newStart: Iter)
      requires Valid()
      modifies this`heap, this`live, this`slots, this`start, this`finish
      ensures newStart.node <= start.node <= finish.node
      ensures Spread(newStart.node, finish.node + 1)
      ensures On(slots, size, newStart.node, finish.node + 1, newStart)
      ensures Off(size, newStart.node, newStart) == newStart.cur
      ensures Off(size, newStart.node, start) == newStart.cur + n
    {
      hide Strip, Buffers, Members, Layout;
      ValidEnds();
      var vacancies := start.cur;
      ghost var k: nat := 0;
      if n > vacancies {
        k := NewElementsAtFront(n - vacancies);
      }
      ghost var lo := start.node - k;
      Wider(size, start.node, finish.node + 1, k, 0, start);
      AdvanceOff(slots, size, lo, finish.node + 1, start, 0 - n);
      newStart := Advance(slots, size, start, 0 - n);
      FirstRow(slots, size, lo, finish.node + 1, newStart);
    }

    method ReserveElementsAtBack(n: nat) returns (newFinish: Iter)
      requires Valid()
      modifies this`heap, this`live, this`slots, this`start, this`finish
      ensures start.node <= finish.node <= newFinish.node
      ensures Spread(start.node, newFinish.node + 1)
      ensures On(slots, size, start.node, newFinish.node + 1, newFinish)
      ensures Off(size, start.node, newFinish) == Off(size, start.node, finish) + n
    {
      hide Strip, Buffers, Members, Layout;
      ValidEnds();
      var vacancies := size - finish.cur - 1;
      ghost var k: nat := 0;
      if n > vacancies {
        k := NewElementsAtBack(n - vacancies);
      }
      ghost var hi := finish.node + 1 + k;
      Distribute(size, finish.node - start.node, k);
      Distribute(size, finish.node - start.node + k, 1);
      AdvanceOff(slots, size, start.node, hi, finish, n);
      newFinish := Advance(slots, size, finish, n);
      LastRow(slots, size, start.node, hi, newFinish);
    }

    /** Gives back the last buffer of a window, or the first. */
    method DropLast(ghost lo: int, hi: int)
      requires Held(lo, hi) && lo < hi
      requires (hi - lo) * size <= |Tape(lo, hi)| && AllRaw(Tape(lo, hi), |Tape(lo, hi)| - size, |Tape(lo, hi)|)
      modifies this`live
      ensures Held(lo, hi - 1)
      ensures |old(Tape(lo, hi))| >= size && Tape(lo, hi - 1) == old(Tape(lo, hi))[..|old(Tape(lo, hi))| - size]
    {
      hide Strip, Buffers, Members;
      ghost var nodes := slots[lo..hi];
      StripDropLast(nodes, heap, live, size);
      BuffersDrop(nodes, heap, live, size);
      assert nodes[hi - 1 - lo] == slots[hi - 1] && slots[hi - 1] in nodes;
      assert nodes[..hi - 1 - lo] == slots[lo..hi - 1];
      DeallocateNode(slots[hi - 1]);
    }

    method DropFirst(lo: int, ghost hi: int)
      requires Held(lo, hi) && lo < hi
      requires size <= |Tape(lo, hi)| && AllRaw(Tape(lo, hi), 0, size)
      modifies this`live
      ensures Held(lo + 1, hi)
      ensures |old(Tape(lo, hi))| >= size && Tape(lo + 1, hi) == old(Tape(lo, hi))[size..]
    {
      hide Strip, Buffers, Members;
      ghost var nodes := slots[lo..hi];
      StripDropFirst(nodes, heap, live, size);
      BuffersDrop(nodes, heap, live, size);
      assert nodes[0] == slots[lo] && slots[lo] in nodes;
      assert nodes[1..] == slots[lo + 1..hi];
      DeallocateNode(slots[lo]);
    }

    // ---------- pushing and popping ----------

    method PushBack(x: T)
      requires Valid()
      modifies this
      ensures Valid() && contents == old(contents) + [x] && leaked == old(leaked)
    {
      hide Strip, Buffers, Members, Layout;
      ValidEnds();
      if finish.cur != size - 1 {
        PutBehind(start.cur, contents, size - finish.cur, x);
        Construct(finish, x, start.node, finish.node + 1);
        finish := finish.(cur := finish.cur + 1);
        contents := contents + [x];
      } else {
        PushBackAux(x);
      }
    }

    /** One more buffer behind the last, or before the first. */
    method NodeAtBack()
      requires Valid()
      modifies this`heap, this`live, this`slots, this`start, this`finish
      ensures Held(start.node, finish.node + 2) && start.node <= finish.node
      ensures On(slots, size, start.node, finish.node + 2, start) && On(slots, size, start.node, finish.node + 2, finish)
      ensures start.cur == old(start.cur) && finish.cur == old(finish.cur)
      ensures Off(size, start.node, finish) == start.cur + |contents|
      ensures Tape(start.node, finish.node + 2) == Layout(start.cur, contents, size - finish.cur + size)
    {
      hide Strip, Buffers, Members, Layout, Off;
      ReserveMapAtBack(1);
      ValidEnds();
      NodeBehind(finish.node + 1, start.node);
      LayoutPadded(start.cur, contents, size - finish.cur, size);
    }

    method NodeAtFront()
      requires Valid()
      modifies this`heap, this`live, this`slots, this`start, this`finish
      ensures Held(start.node - 1, finish.node + 1) && start.node <= finish.node
      ensures On(slots, size, start.node - 1, finish.node + 1, start) && On(slots, size, start.node - 1, finish.node + 1, finish)
      ensures start.cur == old(start.cur) && finish.cur == old(finish.cur)
      ensures Off(size, start.node, finish) == start.cur + |contents|
      ensures Tape(start.node - 1, finish.node + 1) == Layout(size + start.cur, contents, size - finish.cur)
    {
      hide Strip, Buffers, Members, Layout, Off;
      ReserveMapAtFront(1);
      ValidEnds();
      NodeBefore(start.node, finish.node + 1);
      LayoutPadded(start.cur, contents, size - finish.cur, size);
    }

    method PushBackAux(x: T)
      requires Valid() && finish.cur == size - 1
      modifies this
      ensures Valid() && contents == old(contents) + [x] && leaked == old(leaked)
    {
      hide Strip, Buffers, Members, Layout;
      hide Off;
      NodeAtBack();
      PutBehind(start.cur, contents, 1 + size, x);
      Construct(finish, x, start.node, finish.node + 2);
      finish := SetNode(slots, finish.node + 1, 0);
      contents := contents + [x];
      IsValid();
    }

    method PushFront(x: T)
      requires Valid()
      modifies this
      ensures Valid() && contents == [x] + old(contents) && leaked == old(leaked)
    {
      hide Strip, Buffers, Members, Layout;
      ValidEnds();
      if start.cur != 0 {
        PutBefore(start.cur, contents, size - finish.cur, x);
        start := start.(cur := start.cur - 1);
        Construct(start, x, start.node, finish.node + 1);
        contents := [x] + contents;
      } else {
        PushFrontAux(x);
      }
    }

    method PushFrontAux(x: T)
      requires Valid() && start.cur == 0
      modifies this
      ensures Valid() && contents == [x] + old(contents) && leaked == old(leaked)
    {
      hide Strip, Buffers, Members, Layout;
      hide Off;
      NodeAtFront();
      PutBefore(size, contents, size - finish.cur, x);
      start := SetNode(slots, start.node - 1, size - 1);
      LowOffset(size, start);
      Construct(start, x, start.node, finish.node + 1);
      contents := [x] + contents;
      IsValid();
    }

    method PopBack()
      requires Valid() && contents != []
      modifies this
      ensures Valid() && contents == old(contents)[..|old(contents)| - 1] && leaked == old(leaked)
    {
      hide Strip, Buffers, Members, Layout;
      ValidEnds();
      if finish.cur != 0 {
        TakeLast(start.cur, contents, size - finish.cur);
        finish := finish.(cur := finish.cur - 1);
        DestroyOne(finish, start.node, finish.node + 1);
        contents := contents[..|contents| - 1];
      } else {
        PopBackAux();
      }
    }

    method PopBackAux()
      requires Valid() && contents != [] && finish.cur == 0
      modifies this
      ensures Valid() && contents == old(contents)[..|old(contents)| - 1] && leaked == old(leaked)
    {
      hide Strip, Buffers, Members, Layout;
      hide Off;
      ValidEnds();
      Ends(start.node, finish.node + 1);
      TwoNodes();
      Previously(size, start.node, finish);
      LayoutCut(start.cur, contents, size, 0, size);
      TakeLast(start.cur, contents, 0);
      DropLast(start.node, finish.node + 1);
      finish := SetNode(slots, finish.node - 1, size - 1);
      DestroyOne(finish, start.node, finish.node + 1);
      contents := contents[..|contents| - 1];
      IsValid();
    }

    method PopFront()
      requires Valid() && contents != []
      modifies this
      ensures Valid() && contents == old(contents)[1..] && leaked == old(leaked)
    {
      hide Strip, Buffers, Members, Layout;
      ValidEnds();
      if start.cur != size - 1 {
        TakeFirst(start.cur, contents, size - finish.cur);
        DestroyOne(start, start.node, finish.node + 1);
        start := start.(cur := start.cur + 1);
        contents := contents[1..];
      } else {
        PopFrontAux();
      }
    }

    method PopFrontAux()
      requires Valid() && contents != [] && start.cur == size - 1
      modifies this
      ensures Valid() && contents == old(contents)[1..] && leaked == old(leaked)
    {
      hide Strip, Buffers, Members, Layout;
      hide Off;
      ValidEnds();
      TwoNodes();
      TakeFirst(start.cur, contents, size - finish.cur);
      DestroyOne(start, start.node, finish.node + 1);
      LayoutCut(size, contents[1..], size - finish.cur, size, 0);
      DropFirst(start.node, finish.node + 1);
      start := SetNode(slots, start.node + 1, 0);
      contents := contents[1..];
      IsValid();
    }

    // ---------- elements ----------

    /** it is at the i-th element, counted from start, and in the window lo up to hi. */
    ghost predicate Marks(lo: int, hi: int, it: Iter, i: int)
      reads this
    {
      On(slots, size, lo, hi, it) && Off(size, lo, it) == Off(size, lo, start) + i
    }

    /** it is at the i-th element of a valid deque, or behind the last one. */
    ghost predicate Points(it: Iter, i: int)
      reads this
    {
      Marks(start.node, finish.node + 1, it, i) && 0 <= i <= |contents|
    }

    lemma EndsPoint()
      requires Valid()
      ensures Points(start, 0) && Points(finish, |contents|)
    {
      hide Strip, Buffers, Members, Layout;
      ValidEnds();
    }

    function Size(): (n: nat)
      requires Valid()
      reads this
      ensures n == |contents|
    {
      ValidEnds();
      DistanceOff(slots, size, start.node, finish.node + 1, finish, start);
      Distance(size, finish, start)
    }

    function Moved(it: Iter, n: int, ghost lo: int, ghost hi: int): (r: Iter)
      requires Held(lo, hi) && On(slots, size, lo, hi, it)
      requires 0 <= Off(size, lo, it) + n < (hi - lo) * size
      reads this
      ensures On(slots, size, lo, hi, r) && Off(size, lo, r) == Off(size, lo, it) + n
    {
      AdvanceOff(slots, size, lo, hi, it, n);
      Advance(slots, size, it, n)
    }

    /** it + n, between the ends. */
    function Later(it: Iter, n: int, ghost i: nat): (r: Iter)
      requires Valid() && Points(it, i) && 0 <= i + n <= |contents|
      reads this
      ensures Points(r, i + n)
    {
      ValidEnds();
      Ends(start.node, finish.node + 1);
      Moved(it, n, start.node, finish.node + 1)
    }

    /** start + n. */
    function From(n: nat): (it: Iter)
      requires Valid() && n <= |contents|
      reads this
      ensures Points(it, n)
    {
      EndsPoint();
      Later(start, n, 0)
    }

    function Index(it: Iter, ghost i: nat): (n: nat)
      requires Valid() && Points(it, i)
      reads this
      ensures n == i
    {
      DistanceOff(slots, size, start.node, finish.node + 1, it, start);
      Distance(size, it, start)
    }

    lemma PointsAt(it: Iter, i: nat)
      requires Valid() && Points(it, i)
      ensures |Tape(start.node, finish.node + 1)| == start.cur + |contents| + size - finish.cur
      ensures 0 <= start.cur + i == Off(size, start.node, it) < |Tape(start.node, finish.node + 1)|
      ensures i < |contents| ==> Tape(start.node, finish.node + 1)[start.cur + i] == Full(contents[i])
    {
      hide Strip, Buffers, Members, Layout;
      ValidEnds();
      CellAt(start.node, finish.node + 1, it);
      LayoutAt(start.cur, contents, size - finish.cur, start.cur + i);
    }

    function ElementAt(it: Iter, ghost i: nat): (x: T)
      requires Valid() && Points(it, i) && i < |contents|
      reads this
      ensures x == contents[i]
    {
      PointsAt(it, i);
      Deref(it, start.node, finish.node + 1)
    }

    function At(n: nat): (x: T)
      requires Valid() && n < |contents|
      reads this
      ensures x == contents[n]
    {
      ElementAt(From(n), n)
    }

    function Front(): (x: T)
      requires Valid() && contents != []
      reads this
      ensures x == contents[0]
    {
      EndsPoint();
      ElementAt(start, 0)
    }

    function Back(): (x: T)
      requires Valid() && contents != []
      reads this
      ensures x == contents[|contents| - 1]
    {
      EndsPoint();
      StepDown(finish, |contents|);
      ElementAt(Previous(slots, size, finish), |contents| - 1)
    }

    /** ++ and -- between the ends. */
    lemma StepUp(it: Iter, i: nat)
      requires Valid() && Points(it, i) && i < |contents|
      ensures it.cur + 1 == size ==> 0 <= it.node + 1 < |slots|
      ensures Points(Next(slots, size, it), i + 1)
    {
      hide Strip, Buffers, Members, Layout, Off;
      ValidEnds();
      Ends(start.node, finish.node + 1);
      Step(it, start.node, finish.node + 1);
    }

    lemma StepDown(it: Iter, i: nat)
      requires Valid() && Points(it, i) && i > 0
      ensures it.cur == 0 ==> 0 <= it.node - 1 < |slots|
      ensures Points(Previous(slots, size, it), i - 1)
    {
      hide Strip, Buffers, Members, Layout, Off;
      ValidEnds();
      StepBack(it, start.node, finish.node + 1);
    }

    lemma SameIndex(a: Iter, b: Iter, i: nat, j: nat)
      requires Valid() && Points(a, i) && Points(b, j)
      ensures Same(a, b) <==> i == j
    {
      hide Strip, Buffers, Members, Layout, Off, Same;
      SamePlace(a, b, start.node, finish.node + 1);
    }

    /** Copying elements onto elements. */
    method CopyWithin(from: Iter, last: Iter, to: Iter, ghost i: nat, ghost j: nat, ghost d: nat) returns (result: Iter)
      requires Valid() && Points(from, i) && Points(last, j) && Points(to, d)
      requires i <= j && d + (j - i) <= |contents| && (d <= i || j <= d)
      modifies this`heap, this`contents
      ensures Valid() && contents == Overwrite(old(contents), d, old(contents)[i..j])
      ensures Points(result, d + (j - i))
    {
      hide Strip, Buffers, Members, Layout, Off, Overwrite;
      ValidEnds();
      Ends(start.node, finish.node + 1);
      LayoutFull(start.cur, contents, size - finish.cur, i, j);
      LayoutFull(start.cur, contents, size - finish.cur, d, d + (j - i));
      LayoutSlice(start.cur, contents, size - finish.cur, i, j);
      LayoutOverwrite(start.cur, contents, size - finish.cur, d, contents[i..j]);
      result := Copy(from, last, to, start.node, finish.node + 1);
      contents := Overwrite(contents, d, contents[i..j]);
      IsValid();
    }

    method CopyBackwardWithin(first: Iter, from: Iter, to: Iter, ghost i: nat, ghost j: nat, ghost e: nat) returns (result: Iter)
      requires Valid() && Points(first, i) && Points(from, j) && Points(to, e)
      requires i <= j <= e
      modifies this`heap, this`contents
      ensures Valid() && contents == Overwrite(old(contents), e - (j - i), old(contents)[i..j])
      ensures Points(result, e - (j - i))
    {
      hide Strip, Buffers, Members, Layout, Off, Overwrite;
      ghost var d: nat := e - (j - i);
      ValidEnds();
      LayoutFull(start.cur, contents, size - finish.cur, i, j);
      LayoutFull(start.cur, contents, size - finish.cur, d, e);
      LayoutSlice(start.cur, contents, size - finish.cur, i, j);
      LayoutOverwrite(start.cur, contents, size - finish.cur, d, contents[i..j]);
      result := CopyBackward(first, from, to, start.node, finish.node + 1);
      contents := Overwrite(contents, d, contents[i..j]);
      IsValid();
    }

    method CopyInWithin(src: seq<T>, to: Iter, ghost d: nat) returns (result: Iter)
      requires Valid() && Points(to, d) && d + |src| <= |contents|
      modifies this`heap, this`contents
      ensures Valid() && contents == Overwrite(old(contents), d, src) && Points(result, d + |src|)
    {
      hide Strip, Buffers, Members, Layout, Off, Overwrite;
      ValidEnds();
      Ends(start.node, finish.node + 1);
      LayoutFull(start.cur, contents, size - finish.cur, d, d + |src|);
      LayoutOverwrite(start.cur, contents, size - finish.cur, d, src);
      result := CopyIn(src, to, start.node, finish.node + 1);
      contents := Overwrite(contents, d, src);
      IsValid();
    }

    method FillWithin(from: Iter, last: Iter, x: T, ghost i: nat, ghost j: nat)
      requires Valid() && Points(from, i) && Points(last, j) && i <= j
      modifies this`heap, this`contents
      ensures Valid() && contents == Overwrite(old(contents), i, Copies(j - i, x))
    {
      hide Strip, Buffers, Members, Layout, Off, Overwrite;
      ValidEnds();
      LayoutFull(start.cur, contents, size - finish.cur, i, j);
      LayoutOverwrite(start.cur, contents, size - finish.cur, i, Copies(j - i, x));
      Fill(from, last, x, start.node, finish.node + 1);
      contents := Overwrite(contents, i, Copies(j - i, x));
      IsValid();
    }

    method AssignElement(it: Iter, x: T, ghost i: nat)
      requires Valid() && Points(it, i) && i < |contents|
      modifies this`heap, this`contents
      ensures Valid() && contents == old(contents)[i := x]
    {
      hide Strip, Buffers, Members, Layout, Off;
      ValidEnds();
      PointsAt(it, i);
      SetElement(start.cur, contents, size - finish.cur, i, x);
      Assign(it, x, start.node, finish.node + 1);
      contents := contents[i := x];
      IsValid();
    }

    // ---------- inserting and erasing one element ----------

    /** Inserts x before the i-th element and says where it is now. */
    method Insert(pos: Iter, x: T, ghost i: nat) returns (r: Iter)
      requires Valid() && Points(pos, i)
      modifies this
      ensures Valid() && contents == Inserted(old(contents), i, [x]) && leaked == old(leaked)
      ensures Points(r, i)
    {
      hide Strip, Buffers, Members, Layout, Off, On, Held, Same;
      EndsPoint();
      SameIndex(pos, start, i, 0);
      SameIndex(pos, finish, i, |contents|);
      if Same(pos, start) {
        PushFront(x);
        EndsPoint();
        r := start;
      } else if Same(pos, finish) {
        PushBack(x);
        EndsPoint();
        StepDown(finish, |contents|);
        r := Previous(slots, size, finish);
      } else {
        r := InsertAux(pos, x, i);
      }
    }

    method InsertAux(pos: Iter, x: T, ghost i: nat) returns (r: Iter)
      requires Valid() && Points(pos, i) && 0 < i < |contents|
      modifies this
      ensures Valid() && contents == Inserted(old(contents), i, [x]) && leaked == old(leaked)
      ensures Points(r, i)
    {
      hide Strip, Buffers, Members, Layout, Off, On, Held, Overwrite, Inserted;
      ghost var was := contents;
      var index := Index(pos, i);
      if index < Size() / 2 {
        FrontOne(was, i, x);
        PushFront(Front());
        EndsPoint();
        StepUp(start, 0);
        var front1 := Next(slots, size, start);
        StepUp(front1, 1);
        var front2 := Next(slots, size, front1);
        r := From(index);
        StepUp(r, i);
        var pos1 := Next(slots, size, r);
        var end := CopyWithin(front2, pos1, front1, 2, i + 1, 1);
      } else {
        BackOne(was, i, x);
        PushBack(Back());
        EndsPoint();
        StepDown(finish, |contents|);
        var back1 := Previous(slots, size, finish);
        StepDown(back1, |contents| - 1);
        var back2 := Previous(slots, size, back1);
        r := From(index);
        var end := CopyBackwardWithin(r, back2, back1, i, |contents| - 2, |contents| - 1);
      }
      AssignElement(r, x, i);
    }

    /** Erases the i-th element and says where the next one is now. */
    method Erase(pos: Iter, ghost i: nat) returns (r: Iter)
      requires Valid() && Points(pos, i) && i < |contents|
      modifies this
      ensures Valid() && contents == Removed(old(contents), i, i + 1) && leaked == old(leaked)
      ensures Points(r, i)
    {
      hide Strip, Buffers, Members, Layout, Off, On, Held, Marks, Spread, Overwrite, Removed;
      ghost var was := contents;
      EndsPoint();
      StepUp(pos, i);
      var next := Next(slots, size, pos);
      var index := Index(pos, i);
      if index < Size() / 2 {
        EraseFront(was, i, i + 1);
        var end := CopyBackwardWithin(start, pos, next, 0, i, i + 1);
        PopFront();
      } else {
        EraseBack(was, i, i + 1);
        var end := CopyWithin(next, finish, pos, i + 1, |was|, i);
        PopBack();
      }
      r := From(index);
    }

    // ---------- inserting several elements ----------

    /** There is room for n elements before start, from newStart on, in the buffers newStart.node up to the last. */
    ghost predicate ReadyFront(newStart: Iter, n: nat)
      reads this
    {
      var hi := finish.node + 1;
      && newStart.node <= start.node <= finish.node
      && Held(newStart.node, hi)
      && On(slots, size, newStart.node, hi, newStart) && On(slots, size, newStart.node, hi, start) && On(slots, size, newStart.node, hi, finish)
      && Off(size, newStart.node, newStart) == newStart.cur
      && Off(size, newStart.node, start) == newStart.cur + n
      && newStart.cur + n + |contents| < (hi - newStart.node) * size
      && Tape(newStart.node, hi) == Layout(newStart.cur + n, contents, size - finish.cur)
    }

    ghost predicate ReadyBack(newFinish: Iter, n: nat)
      reads this
    {
      var hi := newFinish.node + 1;
      && start.node <= finish.node <= newFinish.node
      && Held(start.node, hi)
      && On(slots, size, start.node, hi, newFinish) && On(slots, size, start.node, hi, start) && On(slots, size, start.node, hi, finish)
      && Off(size, start.node, start) == start.cur
      && Off(size, start.node, finish) == start.cur + |contents|
      && Off(size, start.node, newFinish) == start.cur + |contents| + n
      && start.cur + |contents| + n < (hi - start.node) * size
      && Tape(start.node, hi) == Layout(start.cur, contents, n + size - newFinish.cur)
    }

    method RoomAtFront(n: nat) returns (newStart: Iter)
      requires Valid()
      modifies this`heap, this`live, this`slots, this`start, this`finish
      ensures ReadyFront(newStart, n)
    {
      hide Strip, Buffers, Members, Layout;
      newStart := ReserveElementsAtFront(n);
      Ends(newStart.node, finish.node + 1);
      Rows(size, finish.node - newStart.node, 0);
    }

    method RoomAtBack(n: nat) returns (newFinish: Iter)
      requires Valid()
      modifies this`heap, this`live, this`slots, this`start, this`finish
      ensures ReadyBack(newFinish, n)
    {
      hide Strip, Buffers, Members, Layout;
      newFinish := ReserveElementsAtBack(n);
      Ends(start.node, newFinish.node + 1);
      Bounds(slots, size, start.node, newFinish.node + 1, newFinish);
      Rows(size, newFinish.node - start.node, 0);
    }

    /** start or finish moved to the other end of new elements. */
    method StartAt(newStart: Iter, ghost v: seq<T>)
      requires newStart.node <= finish.node && Held(newStart.node, finish.node + 1)
      requires On(slots, size, newStart.node, finish.node + 1, newStart) && On(slots, size, newStart.node, finish.node + 1, finish)
      requires Tape(newStart.node, finish.node + 1) == Layout(newStart.cur, v + contents, size - finish.cur)
      modifies this`start, this`contents
      ensures Valid() && start == newStart && contents == v + old(contents)
    {
      hide Strip, Buffers, Members, Layout, Off;
      start := newStart;
      contents := v + contents;
      IsValid();
    }

    method FinishAt(newFinish: Iter, ghost v: seq<T>)
      requires start.node <= newFinish.node && Held(start.node, newFinish.node + 1)
      requires On(slots, size, start.node, newFinish.node + 1, start) && On(slots, size, start.node, newFinish.node + 1, newFinish)
      requires Tape(start.node, newFinish.node + 1) == Layout(start.cur, contents + v, size - newFinish.cur)
      modifies this`finish, this`contents
      ensures Valid() && finish == newFinish && contents == old(contents) + v
    {
      hide Strip, Buffers, Members, Layout, Off;
      finish := newFinish;
      contents := contents + v;
      IsValid();
    }

    /** uninitialized_fill and uninitialized_copy before the elements, and behind them. */
    method FillFront(newStart: Iter, n: nat, x: T)
      requires ReadyFront(newStart, n)
      modifies this`heap, this`start, this`contents
      ensures Valid() && start == newStart && contents == Copies(n, x) + old(contents)
    {
      hide Strip, Buffers, Members, Layout, Off, Overwrite;
      LayoutRaw(newStart.cur + n, contents, size - finish.cur);
      LayoutBefore(newStart.cur + n, contents, size - finish.cur, Copies(n, x));
      UninitializedFill(newStart, start, x, newStart.node, finish.node + 1);
      StartAt(newStart, Copies(n, x));
    }

    method FillBack(newFinish: Iter, n: nat, x: T)
      requires ReadyBack(newFinish, n)
      modifies this`heap, this`finish, this`contents
      ensures Valid() && contents == old(contents) + Copies(n, x)
    {
      hide Strip, Buffers, Members, Layout, Off, Overwrite;
      LayoutRaw(start.cur, contents, n + size - newFinish.cur);
      LayoutBehind(start.cur, contents, n + size - newFinish.cur, Copies(n, x));
      UninitializedFill(finish, newFinish, x, start.node, newFinish.node + 1);
      FinishAt(newFinish, Copies(n, x));
    }

    method CopyInFront(newStart: Iter, src: seq<T>)
      requires ReadyFront(newStart, |src|)
      modifies this`heap, this`start, this`contents
      ensures Valid() && start == newStart && contents == src + old(contents)
    {
      hide Strip, Buffers, Members, Layout, Off, Overwrite;
      LayoutRaw(newStart.cur + |src|, contents, size - finish.cur);
      LayoutBefore(newStart.cur + |src|, contents, size - finish.cur, src);
      var cur := UninitializedCopyIn(src, newStart, newStart.node, finish.node + 1);
      StartAt(newStart, src);
    }

    method CopyInBack(newFinish: Iter, src: seq<T>)
      requires ReadyBack(newFinish, |src|)
      modifies this`heap, this`finish, this`contents
      ensures Valid() && contents == old(contents) + src
    {
      hide Strip, Buffers, Members, Layout, Off, Overwrite;
      LayoutRaw(start.cur, contents, |src| + size - newFinish.cur);
      LayoutBehind(start.cur, contents, |src| + size - newFinish.cur, src);
      var cur := UninitializedCopyIn(src, finish, start.node, newFinish.node + 1);
      FinishAt(newFinish, src);
    }

    /** Constructs copies of the first i elements from newStart on. */
    method CopyOwnFront(newStart: Iter, last: Iter, ghost i: nat, ghost n: nat) returns (mid: Iter)
      requires ReadyFront(newStart, n) && i <= n && i <= |contents|
      requires Marks(newStart.node, finish.node + 1, last, i)
      modifies this`heap
      ensures Held(newStart.node, finish.node + 1) && On(slots, size, newStart.node, finish.node + 1, mid)
      ensures Off(size, newStart.node, mid) == newStart.cur + i
      ensures Tape(newStart.node, finish.node + 1) == Overwrite(Layout(newStart.cur + n, contents, size - finish.cur), newStart.cur, Fulls(contents[..i]))
    {
      hide Strip, Buffers, Members, Layout, Off, Overwrite;
      LayoutRaw(newStart.cur + n, contents, size - finish.cur);
      LayoutFull(newStart.cur + n, contents, size - finish.cur, 0, i);
      LayoutSlice(newStart.cur + n, contents, size - finish.cur, 0, i);
      mid := UninitializedCopy(start, last, newStart, newStart.node, finish.node + 1);
    }

    method PrependOwn(newStart: Iter, last: Iter, ghost n: nat)
      requires ReadyFront(newStart, n) && n <= |contents|
      requires Marks(newStart.node, finish.node + 1, last, n)
      modifies this`heap, this`start, this`contents
      ensures Valid() && start == newStart && contents == old(contents)[..n] + old(contents)
    {
      hide Strip, Buffers, Members, Layout, Off, Overwrite;
      LayoutBefore(newStart.cur + n, contents, size - finish.cur, contents[..n]);
      var mid := CopyOwnFront(newStart, last, n, n);
      StartAt(newStart, contents[..n]);
    }

    /** Copies of the first i elements, and v between them and the elements. */
    method PrependOwnThenFill(newStart: Iter, last: Iter, ghost i: nat, ghost n: nat, x: T)
      requires ReadyFront(newStart, n) && i <= n && i <= |contents|
      requires Marks(newStart.node, finish.node + 1, last, i)
      modifies this`heap, this`start, this`contents
      ensures Valid() && start == newStart && contents == old(contents)[..i] + Copies(n - i, x) + old(contents)
    {
      hide Strip, Buffers, Members, Layout, Off, Overwrite;
      ghost var own, v := contents[..i], Copies(n - i, x);
      var mid := CopyOwnFront(newStart, last, i, n);
      GapFilled(newStart.cur, contents, size - finish.cur, own, v);
      UninitializedFill(mid, start, x, newStart.node, finish.node + 1);
      StartAt(newStart, own + v);
    }

    method PrependOwnThenCopyIn(newStart: Iter, last: Iter, ghost i: nat, src: seq<T>)
      requires ReadyFront(newStart, i + |src|) && i <= |contents|
      requires Marks(newStart.node, finish.node + 1, last, i)
      modifies this`heap, this`start, this`contents
      ensures Valid() && start == newStart && contents == old(contents)[..i] + src + old(contents)
    {
      hide Strip, Buffers, Members, Layout, Off, Overwrite;
      ghost var own := contents[..i];
      var mid := CopyOwnFront(newStart, last, i, i + |src|);
      GapFilled(newStart.cur, contents, size - finish.cur, own, src);
      var cur := UninitializedCopyIn(src, mid, newStart.node, finish.node + 1);
      StartAt(newStart, own + src);
    }

    /** Copies of the elements from i on, behind what was already constructed behind the elements. */
    method AppendOwn(newFinish: Iter, from: Iter, to: Iter, ghost i: nat, ghost v: seq<T>)
      requires i <= |contents|
      requires var hi := newFinish.node + 1;
               && start.node <= finish.node <= newFinish.node && Held(start.node, hi)
               && On(slots, size, start.node, hi, newFinish) && On(slots, size, start.node, hi, start) && On(slots, size, start.node, hi, finish)
               && Marks(start.node, hi, from, i) && On(slots, size, start.node, hi, to)
               && Off(size, start.node, start) == start.cur
               && Off(size, start.node, finish) == start.cur + |contents|
               && Off(size, start.node, to) == start.cur + |contents| + |v|
               && start.cur + |contents| + |v| + |contents| - i < (hi - start.node) * size
               && Tape(start.node, hi) == Layout(start.cur, contents + v, |contents| - i + size - newFinish.cur)
      modifies this`heap, this`finish, this`contents
      ensures Valid() && finish == newFinish && contents == old(contents) + v + old(contents)[i..]
    {
      hide Strip, Buffers, Members, Layout, Off, Overwrite;
      ghost var b := |contents| - i + size - newFinish.cur;
      ghost var own := contents[i..];
      assert (contents + v)[i..|contents|] == own;
      LayoutRaw(start.cur, contents + v, b);
      LayoutFull(start.cur, contents + v, b, i, |contents|);
      LayoutSlice(start.cur, contents + v, b, i, |contents|);
      LayoutBehind(start.cur, contents + v, b, own);
      var cur := UninitializedCopy(from, finish, to, start.node, newFinish.node + 1);
      assert contents + v + own == contents + (v + own);
      FinishAt(newFinish, v + own);
    }

    method AppendLast(newFinish: Iter, from: Iter, ghost n: nat)
      requires ReadyBack(newFinish, n) && n <= |contents|
      requires Marks(start.node, newFinish.node + 1, from, |contents| - n)
      modifies this`heap, this`finish, this`contents
      ensures Valid() && finish == newFinish && contents == old(contents) + old(contents)[|old(contents)| - n..]
    {
      hide Strip, Buffers, Members, Layout, Off;
      assert contents + [] == contents;
      AppendOwn(newFinish, from, finish, |contents| - n, []);
    }

    /** Inserts n copies of x before the i-th element. */
    method FillInsert(pos: Iter, n: nat, x: T, ghost i: nat)
      requires Valid() && Points(pos, i)
      modifies this
      ensures Valid() && contents == Inserted(old(contents), i, Copies(n, x)) && leaked == old(leaked)
    {
      hide Strip, Buffers, Members, Layout, Off, On, Held, Same, Copies, ReadyFront, ReadyBack;
      EndsPoint();
      SameIndex(pos, start, i, 0);
      SameIndex(pos, finish, i, |contents|);
      if Same(pos, start) {
        var newStart := RoomAtFront(n);
        FillFront(newStart, n, x);
      } else if Same(pos, finish) {
        var newFinish := RoomAtBack(n);
        FillBack(newFinish, n, x);
      } else {
        InsertCopies(pos, n, x, i);
      }
    }

    method InsertCopies(pos: Iter, n: nat, x: T, ghost i: nat)
      requires Valid() && Points(pos, i)
      modifies this
      ensures Valid() && contents == Inserted(old(contents), i, Copies(n, x)) && leaked == old(leaked)
    {
      hide Strip, Buffers, Members, Layout, Off, On, Held, ReadyFront, ReadyBack, Inserted, Overwrite;
      var elemsBefore := Index(pos, i);
      var length := Size();
      if elemsBefore < length / 2 {
        var newStart := RoomAtFront(n);
        if elemsBefore >= n {
          CopiesBeforeFar(newStart, n, x, elemsBefore);
        } else {
          CopiesBeforeNear(newStart, n, x, elemsBefore);
        }
      } else {
        var newFinish := RoomAtBack(n);
        var elemsAfter := length - elemsBefore;
        if elemsAfter > n {
          CopiesBehindFar(newFinish, n, x, elemsAfter);
        } else {
          CopiesBehindNear(newFinish, n, x, elemsAfter);
        }
      }
    }

    /** The first n elements copied to the front and those up to the i-th moved down behind them. */
    method GapAtFront(newStart: Iter, n: nat, i: nat) returns (pos: Iter)
      requires ReadyFront(newStart, n) && n <= i <= |contents|
      modifies this`heap, this`start, this`contents
      ensures Valid() && Points(pos, i + n)
      ensures var y := old(contents)[..n] + old(contents);
        contents == Overwrite(y, n, y[2 * n..n + i])
    {
      hide Strip, Buffers, Members, Layout, Off, Overwrite;
      var oldStart := start;
      pos := Moved(start, i, newStart.node, finish.node + 1);
      var startN := Moved(start, n, newStart.node, finish.node + 1);
      PrependOwn(newStart, startN, n);
      var end := CopyWithin(startN, pos, oldStart, 2 * n, n + i, n);
    }

    /** The last n elements copied behind the others and those from the m-th last one on moved up before them. */
    method GapAtBack(newFinish: Iter, n: nat, m: nat) returns (pos: Iter)
      requires ReadyBack(newFinish, n) && n < m <= |contents|
      modifies this`heap, this`finish, this`contents
      ensures Valid() && Points(pos, |old(contents)| - m)
      ensures var x := old(contents);
        var i, k := |x| - m, |x| - n;
        var y := x + x[k..];
        contents == Overwrite(y, i + n, y[i..k])
    {
      hide Strip, Buffers, Members, Layout, Off, Overwrite;
      ghost var was := contents;
      var oldFinish := finish;
      pos := Moved(finish, 0 - m, start.node, newFinish.node + 1);
      var finishN := Moved(finish, 0 - n, start.node, newFinish.node + 1);
      AppendLast(newFinish, finishN, n);
      var end := CopyBackwardWithin(pos, finishN, oldFinish, |was| - m, |was| - n, |was|);
    }

    /** The four ways to make room for n copies in the middle. */
    method CopiesBeforeFar(newStart: Iter, n: nat, x: T, i: nat)
      requires ReadyFront(newStart, n) && n <= i <= |contents|
      modifies this`heap, this`start, this`contents
      ensures Valid() && contents == Inserted(old(contents), i, Copies(n, x))
    {
      hide Strip, Buffers, Members, Layout, Off, Inserted, Overwrite, Copies, Spread, Marks;
      FrontFar(contents, i, Copies(n, x));
      var pos := GapAtFront(newStart, n, i);
      FillWithin(Later(pos, 0 - n, i + n), pos, x, i, i + n);
    }

    method CopiesBeforeNear(newStart: Iter, n: nat, x: T, i: nat)
      requires ReadyFront(newStart, n) && i < n && i <= |contents|
      modifies this`heap, this`start, this`contents
      ensures Valid() && contents == Inserted(old(contents), i, Copies(n, x))
    {
      hide Strip, Buffers, Members, Layout, Off, Inserted, Overwrite, Copies;
      FrontNear(contents, i, Copies(n, x));
      CopiesSplit(n, n - i, x);
      var oldStart := start;
      var pos := Moved(start, i, newStart.node, finish.node + 1);
      PrependOwnThenFill(newStart, pos, i, n, x);
      FillWithin(oldStart, pos, x, n, n + i);
    }

    method CopiesBehindFar(newFinish: Iter, n: nat, x: T, m: nat)
      requires ReadyBack(newFinish, n) && n < m <= |contents|
      modifies this`heap, this`finish, this`contents
      ensures Valid() && contents == Inserted(old(contents), |old(contents)| - m, Copies(n, x))
    {
      hide Strip, Buffers, Members, Layout, Off, Inserted, Overwrite, Copies, Spread, Marks;
      ghost var was := contents;
      ghost var i: nat := |was| - m;
      BackFar(was, i, Copies(n, x));
      var pos := GapAtBack(newFinish, n, m);
      FillWithin(pos, Later(pos, n, i), x, i, i + n);
    }

    method CopiesBehindNear(newFinish: Iter, n: nat, x: T, m: nat)
      requires ReadyBack(newFinish, n) && m <= n && m <= |contents|
      modifies this`heap, this`finish, this`contents
      ensures Valid() && contents == Inserted(old(contents), |old(contents)| - m, Copies(n, x))
    {
      hide Strip, Buffers, Members, Layout, Off, Inserted, Overwrite, Copies;
      ghost var was := contents;
      ghost var i: nat := |was| - m;
      BackNear(was, i, Copies(n, x));
      CopiesSplit(n, m, x);
      var oldFinish := finish;
      var pos := Moved(finish, 0 - m, start.node, newFinish.node + 1);
      var mid := Moved(pos, n, start.node, newFinish.node + 1);
      LayoutRaw(start.cur, contents, n + size - newFinish.cur);
      LayoutBehind(start.cur, contents, n + size - newFinish.cur, Copies(n - m, x));
      UninitializedFill(finish, mid, x, start.node, newFinish.node + 1);
      AppendOwn(newFinish, pos, mid, i, Copies(n - m, x));
      FillWithin(pos, oldFinish, x, i, |was|);
    }

    /** Inserts a sequence from outside before the i-th element. */
    method RangeInsert(pos: Iter, src: seq<T>, ghost i: nat)
      requires Valid() && Points(pos, i)
      modifies this
      ensures Valid() && contents == Inserted(old(contents), i, src) && leaked == old(leaked)
    {
      hide Strip, Buffers, Members, Layout, Off, On, Held, Same, ReadyFront, ReadyBack;
      EndsPoint();
      SameIndex(pos, start, i, 0);
      SameIndex(pos, finish, i, |contents|);
      if Same(pos, start) {
        var newStart := RoomAtFront(|src|);
        CopyInFront(newStart, src);
      } else if Same(pos, finish) {
        var newFinish := RoomAtBack(|src|);
        CopyInBack(newFinish, src);
      } else {
        InsertRange(pos, src, i);
      }
    }

    method InsertRange(pos: Iter, src: seq<T>, ghost i: nat)
      requires Valid() && Points(pos, i)
      modifies this
      ensures Valid() && contents == Inserted(old(contents), i, src) && leaked == old(leaked)
    {
      hide Strip, Buffers, Members, Layout, Off, On, Held, ReadyFront, ReadyBack, Inserted, Overwrite;
      var elemsBefore := Index(pos, i);
      var length := Size();
      if elemsBefore < length / 2 {
        var newStart := RoomAtFront(|src|);
        if elemsBefore >= |src| {
          RangeBeforeFar(newStart, src, elemsBefore);
        } else {
          RangeBeforeNear(newStart, src, elemsBefore);
        }
      } else {
        var newFinish := RoomAtBack(|src|);
        var elemsAfter := length - elemsBefore;
        if elemsAfter > |src| {
          RangeBehindFar(newFinish, src, elemsAfter);
        } else {
          RangeBehindNear(newFinish, src, elemsAfter);
        }
      }
    }

    method RangeBeforeFar(newStart: Iter, src: seq<T>, i: nat)
      requires ReadyFront(newStart, |src|) && |src| <= i <= |contents|
      modifies this`heap, this`start, this`contents
      ensures Valid() && contents == Inserted(old(contents), i, src)
    {
      hide Strip, Buffers, Members, Layout, Off, Inserted, Overwrite;
      var n := |src|;
      FrontFar(contents, i, src);
      var pos := GapAtFront(newStart, n, i);
      var end := CopyInWithin(src, Later(pos, 0 - n, i + n), i);
    }

    method RangeBeforeNear(newStart: Iter, src: seq<T>, i: nat)
      requires ReadyFront(newStart, |src|) && i < |src| && i <= |contents|
      modifies this`heap, this`start, this`contents
      ensures Valid() && contents == Inserted(old(contents), i, src)
    {
      hide Strip, Buffers, Members, Layout, Off, Inserted, Overwrite;
      FrontNear(contents, i, src);
      var oldStart := start;
      var mid := |src| - i;
      var pos := Moved(start, i, newStart.node, finish.node + 1);
      PrependOwnThenCopyIn(newStart, pos, i, src[..mid]);
      var end := CopyInWithin(src[mid..], oldStart, |src|);
    }

    method RangeBehindFar(newFinish: Iter, src: seq<T>, m: nat)
      requires ReadyBack(newFinish, |src|) && |src| < m <= |contents|
      modifies this`heap, this`finish, this`contents
      ensures Valid() && contents == Inserted(old(contents), |old(contents)| - m, src)
    {
      hide Strip, Buffers, Members, Layout, Off, Inserted, Overwrite;
      ghost var was := contents;
      var n := |src|;
      ghost var i: nat := |was| - m;
      BackFar(was, i, src);
      var pos := GapAtBack(newFinish, n, m);
      var end := CopyInWithin(src, pos, i);
    }

    method RangeBehindNear(newFinish: Iter, src: seq<T>, m: nat)
      requires ReadyBack(newFinish, |src|) && m <= |src| && m <= |contents|
      modifies this`heap, this`finish, this`contents
      ensures Valid() && contents == Inserted(old(contents), |old(contents)| - m, src)
    {
      hide Strip, Buffers, Members, Layout, Off, Inserted, Overwrite;
      ghost var was := contents;
      ghost var i: nat := |was| - m;
      BackNear(was, i, src);
      var pos := Moved(finish, 0 - m, start.node, newFinish.node + 1);
      LayoutRaw(start.cur, contents, |src| + size - newFinish.cur);
      LayoutBehind(start.cur, contents, |src| + size - newFinish.cur, src[m..]);
      var mid := UninitializedCopyIn(src[m..], finish, start.node, newFinish.node + 1);
      AppendOwn(newFinish, pos, mid, i, src[m..]);
      var end := CopyInWithin(src[..m], pos, i);
    }

    // ---------- erasing several elements ----------

    /** A window cut in two. */
    lemma Windows(lo: int, mid: int, hi: int)
      requires Held(lo, hi) && lo <= mid <= hi
      ensures Buffers(slots[lo..mid], heap, live, size) && Buffers(slots[mid..hi], heap, live, size)
      ensures Buffers(slots[lo..mid], heap, live - Members(slots[mid..hi]), size)
      ensures Members(slots[lo..mid]) == Members(slots[lo..hi]) - Members(slots[mid..hi])
      ensures Members(slots[mid..hi]) == Members(slots[lo..hi]) - Members(slots[lo..mid])
      ensures 0 <= (mid - lo) * size <= |Tape(lo, hi)|
      ensures Tape(lo, mid) == Tape(lo, hi)[..(mid - lo) * size] && Tape(mid, hi) == Tape(lo, hi)[(mid - lo) * size..]
    {
      hide Strip, Members, Buffers;
      ghost var nodes, m := slots[lo..hi], mid - lo;
      BuffersParts(nodes, heap, live, size, m);
      StripParts(nodes, heap, live, size, m);
      assert nodes[..m] == slots[lo..mid] && nodes[m..] == slots[mid..hi];
    }

    /** Gives back the buffers nstart up to nfinish; none where nstart is not before nfinish. */
    method DestroyNodes(nstart: int, nfinish: int, ghost lo: int)
      requires nstart < nfinish ==> lo <= nstart && Held(lo, nfinish) && AllRaw(Tape(lo, nfinish), (nstart - lo) * size, (nfinish - lo) * size)
      modifies this`live
      ensures nstart >= nfinish ==> live == old(live)
      ensures nstart < nfinish ==>
        && Held(lo, nstart) && 0 <= (nstart - lo) * size <= |old(Tape(lo, nfinish))|
        && Tape(lo, nstart) == old(Tape(lo, nfinish))[..(nstart - lo) * size]
    {
      if nstart < nfinish {
        DestroySome(nstart, nfinish, lo);
      }
    }

    method DestroySome(nstart: int, nfinish: int, ghost lo: int)
      requires lo <= nstart < nfinish && Held(lo, nfinish) && AllRaw(Tape(lo, nfinish), (nstart - lo) * size, (nfinish - lo) * size)
      modifies this`live
      ensures Held(lo, nstart) && 0 <= (nstart - lo) * size <= |old(Tape(lo, nfinish))|
      ensures Tape(lo, nstart) == old(Tape(lo, nfinish))[..(nstart - lo) * size]
    {
      hide Strip, Members, Buffers;
      Windows(lo, nstart, nfinish);
      var n := nstart;
      while n < nfinish
        invariant nstart <= n <= nfinish
        invariant live == old(live) - Members(slots[nstart..n])
      {
        DeadBuffer(slots[lo..nfinish], heap, old(live), size, nstart - lo, n - lo);
        assert slots[n] == slots[lo..nfinish][n - lo];
        assert slots[nstart..n] == slots[lo..nfinish][nstart - lo..n - lo];
        assert slots[nstart..n + 1] == slots[nstart..n] + [slots[n]];
        MembersFresh(slots[nstart..n], slots[n]);
        DeallocateNode(slots[n]);
        n := n + 1;
      }
    }

    /** Destroys the first n elements. */
    method DestroyFirst(newStart: Iter, ghost n: nat)
      requires Valid() && Points(newStart, n)
      modifies this`heap
      ensures start.node <= newStart.node <= finish.node && Held(start.node, finish.node + 1)
      ensures 0 <= start.cur && finish.cur < size && Off(size, start.node, newStart) == start.cur + n
      ensures Tape(start.node, finish.node + 1) == Layout(start.cur + n, contents[n..], size - finish.cur)
    {
      hide Strip, Buffers, Members, Layout, Off, Overwrite;
      ValidEnds();
      LayoutFull(start.cur, contents, size - finish.cur, 0, n);
      LayoutDropFront(start.cur, contents, size - finish.cur, n);
      Destroy(start, newStart, start.node, finish.node + 1);
    }

    /** Destroys the elements from the n-th on. */
    method DestroyLast(newFinish: Iter, ghost n: nat)
      requires Valid() && Points(newFinish, n)
      modifies this`heap
      ensures start.node <= newFinish.node <= finish.node && Held(start.node, finish.node + 1)
      ensures 0 <= start.cur && finish.cur < size && Off(size, start.node, newFinish) == start.cur + n
      ensures Tape(start.node, finish.node + 1) == Layout(start.cur, contents[..n], size - finish.cur + |contents| - n)
    {
      hide Strip, Buffers, Members, Layout, Off, Overwrite;
      ValidEnds();
      EndsPoint();
      LayoutFull(start.cur, contents, size - finish.cur, n, |contents|);
      LayoutDropBack(start.cur, contents, size - finish.cur, n);
      Destroy(newFinish, finish, start.node, finish.node + 1);
    }

    /** The cells from a place without elements before it on. */
    lemma TapeFrom(lo: int, hi: int, it: Iter, x: seq<T>, b: nat)
      requires Held(lo, hi) && On(slots, size, lo, hi, it) && 0 <= Off(size, lo, it)
      requires Tape(lo, hi) == Layout(Off(size, lo, it), x, b)
      ensures Tape(it.node, hi) == Layout(it.cur, x, b)
    {
      hide Strip, Buffers, Members, Layout, Off;
      Windows(lo, it.node, hi);
      RowOf(size, lo, it);
      LayoutCut(Off(size, lo, it), x, b, (it.node - lo) * size, 0);
      assert Tape(lo, hi)[(it.node - lo) * size..] == Tape(lo, hi)[(it.node - lo) * size..Off(size, lo, it) + |x| + b - 0];
    }

    /** start moved to n elements later; the buffers before its new one stay allocated. */
    method StartLater(newStart: Iter, ghost n: nat)
      requires Valid() && Points(newStart, n)
      modifies this`heap, this`start, this`contents, this`leaked, this`live
      ensures Valid() && start == newStart && contents == old(contents)[n..]
      ensures old(start.node) <= newStart.node && leaked == old(leaked) + Members(slots[old(start.node)..newStart.node])
    {
      hide Strip, Buffers, Members, Layout, Off;
      DestroyFirst(newStart, n);
      DestroyNodes(newStart.node, start.node, start.node);
      TapeFrom(start.node, finish.node + 1, newStart, contents[n..], size - finish.cur);
      Windows(start.node, newStart.node, finish.node + 1);
      leaked := leaked + Members(slots[start.node..newStart.node]);
      start := newStart;
      contents := contents[n..];
      IsValid();
    }

    /** finish moved to the n-th element. */
    method FinishEarlier(newFinish: Iter, ghost n: nat)
      requires Valid() && Points(newFinish, n)
      modifies this`heap, this`finish, this`contents, this`live
      ensures Valid() && finish == newFinish && contents == old(contents)[..n]
    {
      hide Strip, Buffers, Members, Layout, Off;
      ghost var lo, b := start.node, size - finish.cur + |contents| - n;
      DestroyLast(newFinish, n);
      TailRaw(lo, finish.node + 1, newFinish, start.cur, contents[..n], b);
      DestroyNodes(newFinish.node + 1, finish.node + 1, lo);
      finish := newFinish;
      contents := contents[..n];
      IsValid();
    }

    /** The buffers behind the one of the first cell without an element behind the others. */
    lemma TailRaw(lo: int, hi: int, it: Iter, a: nat, x: seq<T>, b: nat)
      requires Held(lo, hi) && On(slots, size, lo, hi, it) && Off(size, lo, it) == a + |x|
      requires Tape(lo, hi) == Layout(a, x, b)
      ensures a + |x| <= (it.node + 1 - lo) * size <= |Tape(lo, hi)| == (hi - lo) * size
      ensures AllRaw(Tape(lo, hi), (it.node + 1 - lo) * size, (hi - lo) * size)
      ensures Tape(lo, hi)[..(it.node + 1 - lo) * size] == Layout(a, x, size - it.cur)
    {
      hide Strip, Buffers, Members, Layout, Off;
      CellAt(lo, hi, it);
      RowOf(size, lo, it);
      Distribute(size, it.node + 1 - lo, hi - it.node - 1);
      Rows(size, it.node - lo, 0);
      MulMonotone(size, 0, hi - it.node - 1);
      LayoutCut(a, x, b, 0, (hi - it.node - 1) * size);
    }

    /** Whether an erasure of n elements behind the first i moves the elements before them, in a deque of length. */
    static predicate MovesFront(length: nat, i: nat, n: nat) {
      !(i == 0 && n == length) && n <= length && i < (length - n) / 2
    }

    /** Erases elements i up to j; where the ones before them are moved, the buffers passed over are not given back. */
    method EraseRange(first: Iter, last: Iter, ghost i: nat, ghost j: nat) returns (r: Iter)
      requires Valid() && Points(first, i) && Points(last, j) && i <= j
      modifies this
      ensures Valid() && contents == Removed(old(contents), i, j) && Points(r, i)
      ensures slots == old(slots)
      ensures if MovesFront(|old(contents)|, i, j - i)
              then old(start.node) <= start.node && leaked == old(leaked) + Members(slots[old(start.node)..start.node])
                   && start.node == old(start.node) + RowsPassed(old(start.cur), j - i, size)
              else leaked == old(leaked) && start == old(start)
      ensures leaked == old(leaked) <==> !(MovesFront(|old(contents)|, i, j - i) && old(start.cur) + (j - i) >= size)
    {
      hide Strip, Buffers, Members, Layout, Off, On, Held, Same, Overwrite, Removed;
      ghost var was := contents;
      EndsPoint();
      SameIndex(first, start, i, 0);
      SameIndex(last, finish, j, |contents|);
      if Same(first, start) && Same(last, finish) {
        RemovedAll(was);
        Clear();
        EndsPoint();
        r := finish;
      } else {
        SpanBetween(first, last, i, j);
        var n := Distance(size, last, first);
        var elemsBefore := Index(first, i);
        if elemsBefore < (Size() - n) / 2 {
          EraseFront(was, i, j);
          MoveFrontUp(first, last, n, i, j);
        } else {
          EraseBack(was, i, j);
          var end := CopyWithin(last, finish, first, j, |was|, i);
          FinishEarlier(From(Size() - n), |was| - n);
        }
        r := From(elemsBefore);
      }
    }

    method MoveFrontUp(first: Iter, last: Iter, n: nat, ghost i: nat, ghost j: nat)
      requires Valid() && Points(first, i) && Points(last, j) && i <= j && n == j - i
      modifies this`heap, this`start, this`contents, this`leaked, this`live
      ensures Valid() && contents == Overwrite(old(contents), n, old(contents)[0..i])[n..]
      ensures old(start.node) <= start.node == old(start.node) + RowsPassed(old(start.cur), n, size) <= |slots|
      ensures leaked == old(leaked) + Members(slots[old(start.node)..start.node])
      ensures leaked == old(leaked) <==> old(start.cur) + n < size
    {
      hide Strip, Buffers, Members, Layout, Off, On, Held, Same, Overwrite;
      EndsPoint();
      NodeOfMove(n);
      PassedBuffers(n);
      var end := CopyBackwardWithin(start, first, last, 0, i, j);
      StartLater(From(n), n);
    }

    /** The buffers a start n elements later passes over: none exactly when n elements fit behind start in its buffer. */
    lemma PassedBuffers(n: nat)
      requires Valid() && n <= |contents|
      ensures 0 <= start.node && start.node + RowsPassed(start.cur, n, size) <= finish.node < |slots|
      ensures var passed := Members(slots[start.node..start.node + RowsPassed(start.cur, n, size)]);
        passed !! leaked && (passed == {} <==> start.cur + n < size)
    {
      hide Strip, Layout, Off, Buffers, Members, RowsPassed;
      ValidEnds();
      NodeOfMove(n);
      var m := start.node + RowsPassed(start.cur, n, size);
      NoRows(start.cur, n, size);
      Windows(start.node, m, finish.node + 1);
      if start.cur + n >= size {
        assert slots[start.node] in slots[start.node..m];
        assert slots[start.node] in Members(slots[start.node..m]);
      } else {
        assert slots[start.node..m] == [];
      }
    }

    /** The number of elements between two places. */
    lemma SpanBetween(first: Iter, last: Iter, i: nat, j: nat)
      requires Valid() && Points(first, i) && Points(last, j)
      ensures Distance(size, last, first) == j - i
    {
      DistanceOff(slots, size, start.node, finish.node + 1, last, first);
    }

    /** The buffer of start + n. */
    lemma NodeOfMove(n: nat)
      requires Valid() && n <= |contents|
      ensures From(n).node == start.node + RowsPassed(start.cur, n, size) <= finish.node
    {
      ValidEnds();
      var it := From(n);
      RowOf(size, start.node, it);
      assert (it.node - start.node) * size + it.cur == start.cur + n;
      DivUnique(start.cur + n, size, it.node - start.node, it.cur);
    }

    // ---------- destroying everything ----------

    /** Which cells of a buffer hold elements. */
    lemma CellsOf(k: int)
      requires Valid() && start.node <= k <= finish.node
      ensures slots[k] in live && slots[k] < |heap| && |heap[slots[k]]| == size
      ensures forall c :: 0 <= c < size ==>
        (heap[slots[k]][c].Full? <==> (k == start.node ==> start.cur <= c) && (k == finish.node ==> c < finish.cur))
    {
      hide Strip, Members, Layout;
      ValidEnds();
      ghost var lo, hi := start.node, finish.node + 1;
      assert slots[k] == slots[lo..hi][k - lo];
      forall c | 0 <= c < size
        ensures heap[slots[k]][c].Full? <==> (k == start.node ==> start.cur <= c) && (k == finish.node ==> c < finish.cur)
      {
        CellOf(k, c);
      }
    }

    lemma CellOf(k: int, c: nat)
      requires Valid() && start.node <= k <= finish.node && c < size
      ensures slots[k] < |heap| && |heap[slots[k]]| == size
      ensures heap[slots[k]][c].Full? <==> (k == start.node ==> start.cur <= c) && (k == finish.node ==> c < finish.cur)
    {
      hide Strip, Members, Layout, Off;
      ValidEnds();
      ghost var lo, hi := start.node, finish.node + 1;
      ghost var it := SetNode(slots, k, c);
      CellAt(lo, hi, it);
      LayoutAt(start.cur, contents, size - finish.cur, Off(size, lo, it));
      OrderOfOffsets(slots, size, lo, hi, it, start);
      OrderOfOffsets(slots, size, lo, hi, it, finish);
    }

    /** Destroys the elements in cells c up to d of a buffer. */
    method DestroyCells(a: nat, c: nat, d: nat)
      requires a < |heap| && a in live && AllFull(heap[a], c, d)
      modifies this`heap
      ensures heap == old(heap)[a := Overwrite(old(heap)[a], c, Raws(d - c))]
    {
      hide Overwrite;
      ghost var u := heap[a];
      ghost var v := Raws<T>(d - c);
      OverwriteNothing(u, c, v);
      var p := c;
      while p < d
        invariant c <= p <= d && |heap| == |old(heap)|
        invariant heap == old(heap)[a := Overwrite(u, c, v[..p - c])]
      {
        WriteForward(u, c, v, p - c);
        heap := heap[a := heap[a][p := Raw]];
        p := p + 1;
      }
      assert v[..d - c] == v;
    }

    /** Buffers up to node were cleared since memory was h and l were allocated. */
    ghost predicate Cleared(node: int, h: seq<seq<Cell<T>>>, l: set<nat>)
      reads this
    {
      && 0 <= start.node <= finish.node < |slots| && start.node < node
      && (forall k :: start.node <= k <= finish.node ==> slots[k] < |h|)
      && |heap| == |h| && (forall a :: 0 <= a < |heap| ==> |heap[a]| == |h[a]|)
      && (forall k :: start.node <= k <= finish.node && (k == start.node || node <= k) ==> heap[slots[k]] == h[slots[k]])
      && live == l - Between(slots, start.node, node)
    }

    /** Destroys and gives back the buffers between the first and the last. */
    method ClearBetween()
      requires Valid()
      modifies this`heap, this`live
      ensures |heap| == |old(heap)| && forall a :: 0 <= a < |heap| ==> |heap[a]| == |old(heap)[a]|
      ensures start.first < |heap| && heap[start.first] == old(heap)[start.first]
      ensures finish.first < |heap| && heap[finish.first] == old(heap)[finish.first]
      ensures live == old(live) - Between(slots, start.node, finish.node)
    {
      hide Strip, Buffers, Members, Layout, Off, Overwrite;
      ValidEnds();
      DifferentBuffers();
      FullBuffers();
      ClearLoop();
    }

    method ClearLoop()
      requires 0 <= start.node <= finish.node < |slots| && start.first == slots[start.node] && finish.first == slots[finish.node]
      requires forall p, q :: start.node <= p < q <= finish.node ==> slots[p] != slots[q]
      requires forall k :: start.node <= k <= finish.node ==> slots[k] in live && slots[k] < |heap| && |heap[slots[k]]| == size
      requires forall k :: start.node < k < finish.node ==> AllFull(heap[slots[k]], 0, size)
      modifies this`heap, this`live
      ensures |heap| == |old(heap)| && forall a :: 0 <= a < |heap| ==> |heap[a]| == |old(heap)[a]|
      ensures heap[start.first] == old(heap)[start.first] && heap[finish.first] == old(heap)[finish.first]
      ensures live == old(live) - Between(slots, start.node, finish.node)
    {
      hide Members, Between;
      ghost var h, l := heap, live;
      var node := start.node + 1;
      BetweenNone();
      NoneAtEnd();
      while node < finish.node
        invariant Cleared(node, h, l)
        invariant if start.node < finish.node then node <= finish.node else node == start.node + 1
      {
        ClearNode(node, h, l);
        node := node + 1;
      }
    }

    lemma BetweenNone()
      requires 0 <= start.node <= finish.node < |slots|
      ensures Between(slots, start.node, start.node + 1) == {}
    {
    }

    lemma NoneAtEnd()
      ensures start.node == finish.node ==> Between(slots, start.node, finish.node) == {}
    {
    }

    method ClearNode(node: int, ghost h: seq<seq<Cell<T>>>, ghost l: set<nat>)
      requires Cleared(node, h, l) && node < finish.node
      requires forall p, q :: start.node <= p < q <= finish.node ==> slots[p] != slots[q]
      requires slots[node] in l && |h[slots[node]]| == size && AllFull(h[slots[node]], 0, size)
      modifies this`heap, this`live
      ensures Cleared(node + 1, h, l)
    {
      hide Members, Overwrite;
      ghost var seen := slots[start.node + 1..node];
      assert slots[start.node + 1..node + 1] == seen + [slots[node]];
      MembersFresh(seen, slots[node]);
      ClearOne(slots[node]);
    }

    method ClearOne(a: nat)
      requires a in live && a < |heap| && |heap[a]| == size && AllFull(heap[a], 0, size)
      modifies this`heap, this`live
      ensures heap == old(heap)[a := Raws(size)] && live == old(live) - {a}
    {
      hide Overwrite;
      OverwriteAll(heap[a], 0, size);
      DestroyCells(a, 0, size);
      DeallocateNode(a);
    }

    lemma DifferentBuffers()
      requires Valid()
      ensures Distinct(slots[start.node..finish.node + 1])
      ensures forall p, q :: start.node <= p < q <= finish.node ==> slots[p] != slots[q]
      ensures forall k :: start.node <= k <= finish.node ==> slots[k] in live && slots[k] < |heap| && |heap[slots[k]]| == size
    {
      hide Strip, Members, Layout, Off;
      ghost var nodes := slots[start.node..finish.node + 1];
      forall p, q | start.node <= p < q <= finish.node ensures slots[p] != slots[q] {
        assert nodes[p - start.node] != nodes[q - start.node];
      }
      forall k | start.node <= k <= finish.node ensures slots[k] in live && slots[k] < |heap| && |heap[slots[k]]| == size {
        assert slots[k] == nodes[k - start.node];
      }
    }

    lemma FullBuffers()
      requires Valid()
      ensures forall k :: start.node < k < finish.node ==> slots[k] < |heap| && AllFull(heap[slots[k]], 0, size)
    {
      hide Strip, Members, Layout, Off, Buffers;
      forall k | start.node < k < finish.node ensures slots[k] < |heap| && AllFull(heap[slots[k]], 0, size) {
        CellsOf(k);
      }
    }

    /** A deque of one buffer and no elements. */
    lemma OneBuffer()
      requires size > 0 && start == finish && contents == [] && 0 <= start.node < |slots| && start.first == slots[start.node] && 0 <= start.cur < size
      requires live == leaked + {start.first} && start.first !in leaked
      requires forall a :: a in live ==> a < |heap| && |heap[a]| == size
      requires start.first < |heap| && heap[start.first] == Raws(size)
      ensures Valid()
    {
      hide Off;
      assert slots[start.node..start.node + 1] == [start.first];
      StripOne(start.first, heap);
      assert Raws<T>(size) == Layout(start.cur, [], size - start.cur);
      assert Members([start.first]) == {start.first};
      IsValid();
    }

    /** The cells of the first and the last buffer that hold no elements. */
    lemma EndBuffers()
      requires Valid()
      ensures start.first < |heap| && finish.first < |heap|
      ensures AllRaw(heap[start.first], 0, start.cur) && AllRaw(heap[finish.first], finish.cur, size)
      ensures start.node < finish.node ==> AllFull(heap[start.first], start.cur, size) && AllFull(heap[finish.first], 0, finish.cur)
      ensures start.node == finish.node ==> AllFull(heap[start.first], start.cur, finish.cur)
    {
      hide Strip, Layout, Off, Members, Buffers;
      ValidEnds();
      CellsOf(start.node);
      CellsOf(finish.node);
      if start.node == finish.node { SameLast(); }
    }

    /** What is left when all buffers but the first were given back. */
    lemma OnlyFirst()
      requires Valid()
      ensures start.first in live && finish.first in live && start.first !in leaked
      ensures start.node == finish.node ==> live == leaked + {start.first}
      ensures start.node < finish.node ==> live - Between(slots, start.node, finish.node) - {finish.first} == leaked + {start.first}
      ensures start.node < finish.node ==> start.first != finish.first && finish.first !in Between(slots, start.node, finish.node)
    {
      hide Strip, Layout, Off, Members;
      ghost var nodes, n := slots[start.node..finish.node + 1], finish.node - start.node;
      assert nodes[0] == start.first && nodes[n] == finish.first;
      assert nodes[0] in Members(nodes);
      MembersEnds(nodes);
      if n > 0 {
        assert nodes[1..n] == slots[start.node + 1..finish.node];
        NotYet(nodes, 1, n);
      } else {
        assert nodes[..1] == nodes;
      }
    }

    lemma SameLast()
      requires Valid() && start.node == finish.node
      ensures start.cur <= finish.cur
    {
      hide Strip, Layout, Members, Buffers;
      ValidEnds();
    }

    method Clear()
      requires Valid()
      modifies this
      ensures Valid() && contents == [] && leaked == old(leaked) && slots == old(slots)
      ensures start == old(start) && finish == start
    {
      hide Strip, Buffers, Members, Layout, Off, Overwrite;
      ValidEnds();
      EndBuffers();
      OnlyFirst();
      NoneAtEnd();
      ghost var h := heap;
      ClearBetween();
      if start.node != finish.node {
        OverwriteAll(h[start.first], start.cur, size);
        OverwriteAll(h[finish.first], 0, finish.cur);
        DestroyCells(start.first, start.cur, size);
        DestroyCells(finish.first, 0, finish.cur);
        DeallocateNode(finish.first);
      } else {
        OverwriteAll(h[start.first], start.cur, finish.cur);
        DestroyCells(start.first, start.cur, finish.cur);
      }
      finish := start;
      contents := [];
      OneBuffer();
    }

    /** Destroys the elements and gives back the buffers in use. */
    method Release()
      requires Valid()
      modifies this`heap, this`live
      ensures live == leaked
    {
      hide Strip, Buffers, Members, Layout, Off, Overwrite;
      ValidEnds();
      EndsPoint();
      ghost var lo, hi := start.node, finish.node + 1;
      LayoutFull(start.cur, contents, size - finish.cur, 0, |contents|);
      LayoutDropFront(start.cur, contents, size - finish.cur, |contents|);
      CellAt(lo, hi, start);
      Destroy(start, finish, lo, hi);
      LayoutRaw(start.cur + |contents|, contents[|contents|..], size - finish.cur);
      DestroyNodes(start.node, finish.node + 1, lo);
      MembersNone(slots[lo..lo]);
    }

    // ---------- resizing and assigning ----------

    method Resize(newSize: nat, x: T)
      requires Valid()
      modifies this
      ensures Valid() && leaked == old(leaked)
      ensures contents == if newSize < |old(contents)| then old(contents)[..newSize] else old(contents) + Copies(newSize - |old(contents)|, x)
    {
      hide Strip, Buffers, Members, Layout, Off, On, Held, Spread;
      EndsPoint();
      var len := Size();
      if newSize < len {
        var r := EraseRange(From(newSize), finish, newSize, len);
      } else {
        FillInsert(finish, newSize - len, x, len);
      }
    }

    method FillAssign(n: nat, x: T)
      requires Valid()
      modifies this
      ensures Valid() && contents == Copies(n, x) && leaked == old(leaked)
    {
      hide Strip, Buffers, Members, Layout, Off, On, Held, Spread;
      EndsPoint();
      var len := Size();
      if n > len {
        FillWithin(start, finish, x, 0, len);
        EndsPoint();
        FillInsert(finish, n - len, x, len);
      } else {
        var r := EraseRange(From(n), finish, n, len);
        EndsPoint();
        FillWithin(start, finish, x, 0, n);
      }
    }

    /** Makes the elements those of a sequence from outside. */
    method AssignFrom(src: seq<T>)
      requires Valid()
      modifies this
      ensures Valid() && contents == src && leaked == old(leaked)
    {
      hide Strip, Buffers, Members, Layout, Off, On, Held, Spread;
      EndsPoint();
      var len := Size();
      if len >= |src| {
        var mid := CopyInWithin(src, start, 0);
        EndsPoint();
        var r := EraseRange(mid, finish, |src|, len);
      } else {
        var mid := CopyInWithin(src[..len], start, 0);
        EndsPoint();
        RangeInsert(finish, src[len..], len);
      }
    }

    // ---------- making a deque ----------

    /** Allocates a map and buffers for n elements, in the middle of the map, and sets the ends; no element is constructed. */
    method InitializeMap(n: nat)
      requires size > 0 && live == {} && leaked == {}
      modifies this
      ensures leaked == {}
      ensures start.node <= finish.node && Held(start.node, finish.node + 1)
      ensures On(slots, size, start.node, finish.node + 1, start) && On(slots, size, start.node, finish.node + 1, finish)
      ensures start.cur == 0 && Off(size, start.node, finish) == n
      ensures Tape(start.node, finish.node + 1) == Raws((finish.node + 1 - start.node) * size)
    {
      hide Strip, Members, Off, Buffers;
      var numNodes := n / size + 1;
      var mapSize := if 8 > numNodes + 2 then 8 else numNodes + 2;
      slots := seq(mapSize, _ => stale);
      var nstart := (mapSize - numNodes) / 2;
      NothingHeld(nstart);
      NodesBehind(numNodes, nstart, nstart);
      assert [] + Raws<T>(numNodes * size) == Raws(numNodes * size);
      StartOf(slots, size, nstart, nstart + numNodes, nstart);
      EndOf(slots, size, nstart, n);
      start := SetNode(slots, nstart, 0);
      finish := SetNode(slots, nstart + numNodes - 1, n % size);
    }

    lemma NothingHeld(lo: int)
      requires size > 0 && live == {} && leaked == {} && 0 <= lo <= |slots|
      ensures Held(lo, lo) && Tape(lo, lo) == []
    {
      assert slots[lo..lo] == [];
      MembersNone(slots[lo..lo]);
    }

    /** Constructs copies of x in all cells up to finish, one buffer after another. */
    method FillInitialize(x: T)
      requires start.node <= finish.node && Held(start.node, finish.node + 1)
      requires On(slots, size, start.node, finish.node + 1, start) && On(slots, size, start.node, finish.node + 1, finish)
      requires start.cur == 0
      requires Tape(start.node, finish.node + 1) == Raws((finish.node + 1 - start.node) * size)
      modifies this`heap, this`contents
      ensures Valid() && 0 <= Off(size, start.node, finish) && contents == Copies(Off(size, start.node, finish), x)
    {
      hide Strip, Members, Buffers, Layout, Overwrite, Copies, Off;
      ghost var lo, hi := start.node, finish.node + 1;
      contents := [];
      StartOf(slots, size, lo, hi, lo);
      StartOf(slots, size, lo, hi, finish.node);
      Bounds(slots, size, lo, hi, finish);
      RowOf(size, lo, finish);
      NoCopies(x);
      AllRawLayout<T>((hi - lo) * size);
      var cur := start.node;
      while cur < finish.node
        invariant lo <= cur <= finish.node && Held(lo, hi)
        invariant 0 <= (cur - lo) * size <= (hi - lo) * size && contents == Copies((cur - lo) * size, x)
        invariant Tape(lo, hi) == Layout(0, contents, (hi - lo) * size - |contents|)
      {
        StartOf(slots, size, lo, hi, cur);
        StartOf(slots, size, lo, hi, cur + 1);
        Rows(size, cur - lo, cur + 1 - lo);
        FillBuffer(SetNode(slots, cur, 0), SetNode(slots, cur + 1, 0), x, lo, hi);
        cur := cur + 1;
      }
      FillBuffer(SetNode(slots, finish.node, 0), finish, x, lo, hi);
      Rows(size, finish.node - lo, 0);
      IsValid();
    }

    method FillBuffer(from: Iter, last: Iter, x: T, ghost lo: int, ghost hi: int)
      requires Held(lo, hi) && On(slots, size, lo, hi, from) && On(slots, size, lo, hi, last)
      requires |contents| == Off(size, lo, from) <= Off(size, lo, last) <= (hi - lo) * size
      requires contents == Copies(|contents|, x)
      requires Tape(lo, hi) == Layout(0, contents, (hi - lo) * size - |contents|)
      modifies this`heap, this`contents
      ensures Held(lo, hi) && 0 <= Off(size, lo, last) && contents == Copies(Off(size, lo, last), x)
      ensures Tape(lo, hi) == Layout(0, contents, (hi - lo) * size - |contents|)
    {
      hide Strip, Members, Buffers, Layout, Overwrite, Off;
      ghost var n: nat := Off(size, lo, last) - |contents|;
      LayoutRaw(0, contents, (hi - lo) * size - |contents|);
      LayoutBehind(0, contents, (hi - lo) * size - |contents|, Copies(n, x));
      UninitializedFill(from, last, x, lo, hi);
      contents := contents + Copies(n, x);
    }
  }

  /** One element erased from the front of five, in buffers of one: a buffer stays allocated that no map lists. */
  method EraseLeavesBuffer<T>(x: T) returns (d: Deque<T>)
    ensures d.Valid() && d.contents == Copies(4, x) && d.leaked != {}
  {
    d := new Deque(5, x, 512, 0);
    var r := d.EraseRange(d.From(0), d.From(1), 0, 1);
    assert Removed(Copies(5, x), 0, 1) == Copies(4, x);
  }
}
