/** The const iterator of stl_rope.h with its cache: a buffer of characters around the current position, and the
    last few nodes of the path from the root to the current leaf. */
module RopeIterator {
  import opened RopeTree

  const PATH_CACHE_LEN := 4
  const ITERATOR_BUF_LEN := 15

  // ---------- paths ----------

  /** The nodes from the root to the leaf that holds position p, the turns between them (true is right), and the
      position of that leaf: what _S_setcache looks for. */
  function PathTo(r: Rep, p: nat): seq<Rep> {
    if r.Join? then
      if p < Size(r.left) then [r] + PathTo(r.left, p) else [r] + PathTo(r.right, p - Size(r.left))
    else [r]
  }

  function TurnsTo(r: Rep, p: nat): seq<bool> {
    if r.Join? then
      if p < Size(r.left) then [false] + TurnsTo(r.left, p) else [true] + TurnsTo(r.right, p - Size(r.left))
    else []
  }

  function LeafStart(r: Rep, p: nat): nat {
    if r.Join? then
      if p < Size(r.left) then LeafStart(r.left, p) else Size(r.left) + LeafStart(r.right, p - Size(r.left))
    else 0
  }

  /** nodes runs down from root by the given turns. */
  predicate IsPath(root: Rep, nodes: seq<Rep>, turns: seq<bool>) {
    && |nodes| == |turns| + 1
    && nodes[0] == root
    && forall k :: 0 <= k < |turns| ==> nodes[k].Join? && nodes[k + 1] == Child(nodes[k], turns[k])
  }

  function Child(r: Rep, right: bool): Rep
    requires r.Join?
  {
    if right then r.right else r.left
  }

  /** Where the last node of a path starts. */
  function StartOf(nodes: seq<Rep>, turns: seq<bool>): nat {
    if |turns| == 0 || |nodes| != |turns| + 1 then 0 else
    var n := |turns| - 1;
    StartOf(nodes[..n + 1], turns[..n]) + if turns[n] && nodes[n].Join? then Size(nodes[n].left) else 0
  }

  function Last<T>(s: seq<T>): T
    requires s != []
  {
    s[|s| - 1]
  }

  /** One step down. */
  lemma PathPush(root: Rep, nodes: seq<Rep>, turns: seq<bool>, right: bool)
    requires IsPath(root, nodes, turns) && Last(nodes).Join?
    ensures var nodes1, turns1 := nodes + [Child(Last(nodes), right)], turns + [right];
      && IsPath(root, nodes1, turns1) && Last(nodes1) == Child(Last(nodes), right)
      && StartOf(nodes1, turns1) == StartOf(nodes, turns) + if right then Size(Last(nodes).left) else 0
  {
    var nodes1, turns1 := nodes + [Child(Last(nodes), right)], turns + [right];
    assert nodes1[..|turns| + 1] == nodes && turns1[..|turns|] == turns;
  }

  /** One step up. */
  lemma PathPop(root: Rep, nodes: seq<Rep>, turns: seq<bool>)
    requires IsPath(root, nodes, turns) && turns != []
    ensures var nodes1, turns1 := nodes[..|turns|], turns[..|turns| - 1];
      && IsPath(root, nodes1, turns1) && Last(nodes1).Join? && Last(nodes) == Child(Last(nodes1), Last(turns))
      && StartOf(nodes, turns) == StartOf(nodes1, turns1) + if Last(turns) then Size(Last(nodes1).left) else 0
  {
  }

  /** A node on a path stands for its part of the text. */
  lemma {:induction false} PathContent(root: Rep, nodes: seq<Rep>, turns: seq<bool>)
    requires IsPath(root, nodes, turns) && Shaped(root)
    ensures Shaped(Last(nodes)) && |Content(root)| == Size(root)
    ensures StartOf(nodes, turns) + Size(Last(nodes)) <= Size(root)
    ensures Content(root)[StartOf(nodes, turns)..StartOf(nodes, turns) + Size(Last(nodes))] == Content(Last(nodes))
    ensures Depth(Last(nodes)) + |turns| <= Depth(root)
    decreases |turns|
  {
    SizeIsLength(root);
    if turns != [] {
      var n := |turns| - 1;
      PathPop(root, nodes, turns);
      PathContent(root, nodes[..n + 1], turns[..n]);
      var up := nodes[n];
      SizeIsLength(up.left);
      SizeIsLength(up.right);
      var a := StartOf(nodes[..n + 1], turns[..n]);
      PartOfPart(Content(root), a, Content(up.left), Content(up.right));
    }
  }

  lemma PartOfPart(s: seq<char>, a: nat, x: seq<char>, y: seq<char>)
    requires a + |x| + |y| <= |s| && s[a..a + |x| + |y|] == x + y
    ensures s[a..a + |x|] == x && s[a + |x|..a + |x| + |y|] == y
  {
    var t := s[a..a + |x| + |y|];
    assert t[..|x|] == s[a..a + |x|];
    assert t[|x|..] == s[a + |x|..a + |x| + |y|];
  }

  /** There is only one path to the leaf that holds a position. */
  lemma {:induction false} PathUnique(root: Rep, nodes: seq<Rep>, turns: seq<bool>, p: nat)
    requires IsPath(root, nodes, turns) && Shaped(root) && !Last(nodes).Join?
    requires StartOf(nodes, turns) <= p < StartOf(nodes, turns) + Size(Last(nodes))
    ensures nodes == PathTo(root, p) && turns == TurnsTo(root, p) && StartOf(nodes, turns) == LeafStart(root, p)
  {
    if turns == [] {
      assert nodes == [root];
    } else {
      hide PathTo, TurnsTo, LeafStart, StartOf, IsPath, Size, Shaped, Content, Depth;
      var q := PathFirstTurn(root, nodes, turns, p);
      PathToJoin(root, p, turns[0], q);
      assert nodes == [root] + nodes[1..] && turns == [turns[0]] + turns[1..];
      PathUnique(nodes[1], nodes[1..], turns[1..], q);
    }
  }

  lemma PathToJoin(root: Rep, p: nat, right: bool, q: nat)
    requires root.Join? && (right <==> p >= Size(root.left)) && q == if right then p - Size(root.left) else p
    ensures PathTo(root, p) == [root] + PathTo(Child(root, right), q)
    ensures TurnsTo(root, p) == [right] + TurnsTo(Child(root, right), q)
    ensures LeafStart(root, p) == LeafStart(Child(root, right), q) + if right then Size(root.left) else 0
  {
  }

  lemma PathFirstTurn(root: Rep, nodes: seq<Rep>, turns: seq<bool>, p: nat) returns (q: nat)
    requires IsPath(root, nodes, turns) && Shaped(root) && turns != []
    requires StartOf(nodes, turns) <= p < StartOf(nodes, turns) + Size(Last(nodes))
    ensures |nodes| == |turns| + 1 && nodes[0] == root && Last(nodes[1..]) == Last(nodes)
    ensures root.Join? && nodes[1] == Child(root, turns[0]) && Shaped(nodes[1]) && IsPath(nodes[1], nodes[1..], turns[1..])
    ensures turns[0] <==> p >= Size(root.left)
    ensures q == if turns[0] then p - Size(root.left) else p
    ensures StartOf(nodes, turns) - StartOf(nodes[1..], turns[1..]) == if turns[0] then Size(root.left) else 0
    ensures StartOf(nodes[1..], turns[1..]) <= q < StartOf(nodes[1..], turns[1..]) + Size(Last(nodes))
  {
    PathTail(root, nodes, turns);
    PathContent(nodes[1], nodes[1..], turns[1..]);
    q := if turns[0] then p - Size(root.left) else p;
  }

  lemma {:induction false} PathTail(root: Rep, nodes: seq<Rep>, turns: seq<bool>)
    requires IsPath(root, nodes, turns) && turns != []
    ensures IsPath(nodes[1], nodes[1..], turns[1..]) && Last(nodes[1..]) == Last(nodes)
    ensures StartOf(nodes, turns) == StartOf(nodes[1..], turns[1..]) + if turns[0] then Size(root.left) else 0
    decreases |turns|
  {
    var n := |turns| - 1;
    if n > 0 {
      PathPop(root, nodes, turns);
      PathTail(root, nodes[..n + 1], turns[..n]);
      assert nodes[..n + 1][1..] == nodes[1..][..n] && turns[..n][1..] == turns[1..][..n - 1];
    }
  }

  // ---------- direction bits ----------

  function Bit(d: bv8, i: nat): bool
    requires i < 8
  {
    (d >> i) & 1 == 1
  }

  predicate LowBit(d: bv8) { d & 1 == 1 }

  function DropBit(d: bv8): bv8 { d >> 1 }

  /** The low bits of d are the last turns, most recent first, as far as the cache reaches. */
  predicate DirsOk(turns: seq<bool>, d: bv8, count: nat) {
    count < PATH_CACHE_LEN && count <= |turns| && forall i :: 0 <= i < count ==> Bit(d, i) == turns[|turns| - 1 - i]
  }

  /** The first count + 1 cells of the cache are the last nodes of the path. */
  predicate Cached(cells: seq<Rep>, nodes: seq<Rep>, count: nat) {
    && |cells| == PATH_CACHE_LEN && count < PATH_CACHE_LEN && count < |nodes|
    && forall k :: 0 <= k <= count ==> cells[k] == nodes[|nodes| - 1 - count + k]
  }

  lemma DirsPush(turns: seq<bool>, d: bv8, count: nat, right: bool)
    requires DirsOk(turns, d, count)
    ensures DirsOk(turns + [right], if right then (d << 1) | 1 else d << 1, Min(count + 1, PATH_CACHE_LEN - 1))
  {
    var e := if right then (d << 1) | 1 else d << 1;
    forall i | 0 <= i < Min(count + 1, PATH_CACHE_LEN - 1) ensures Bit(e, i) == (turns + [right])[|turns| - i] {
      if i > 0 { BitsShiftLeft(d, i - 1); } else { BitsShiftLeft(d, 0); }
    }
  }

  lemma DirsPop(turns: seq<bool>, d: bv8, count: nat)
    requires DirsOk(turns, d, count) && count > 0
    ensures DirsOk(turns[..|turns| - 1], d >> 1, count - 1)
    ensures d & 1 == 1 <==> Last(turns)
  {
    BitsShiftRight(d, 0);
    var e := d >> 1;
    forall i | 0 <= i < count - 1 ensures Bit(e, i) == turns[|turns| - 2 - i] { BitsShiftRight(d, i); }
  }

  /** Replacing the last turn by a right turn. */
  lemma DirsTurn(turns: seq<bool>, d: bv8, count: nat)
    requires DirsOk(turns, d, count) && count > 0
    ensures DirsOk(turns[..|turns| - 1] + [true], d | 1, count)
  {
    BitsShiftRight(d, 0);
    var t, e := turns[..|turns| - 1] + [true], d | 1;
    forall i | 0 <= i < count ensures Bit(e, i) == t[|t| - 1 - i] { if i > 0 { BitsShiftRight(d, i - 1); } }
  }

  lemma BitsShiftLeft(d: bv8, i: nat)
    requires i < PATH_CACHE_LEN
    ensures !Bit(d << 1, 0) && Bit((d << 1) | 1, 0) && Bit(d << 1, i + 1) == Bit(d, i) == Bit((d << 1) | 1, i + 1)
  {
    if i == 0 {} else if i == 1 {} else if i == 2 {} else {}
  }

  lemma BitsShiftRight(d: bv8, i: nat)
    requires i < PATH_CACHE_LEN
    ensures Bit(d >> 1, i) == Bit(d, i + 1) && Bit(d | 1, i + 1) == Bit(d, i + 1) && Bit(d | 1, 0)
    ensures Bit(d, 0) <==> d & 1 == 1
  {
    if i == 0 {} else if i == 1 {} else if i == 2 {} else {}
  }

  // ---------- the cached path ----------

  /** What the path cache knows: start and the first count + 1 cells describe the end of the path, d its turns. */
  predicate Cursor(root: Rep, nodes: seq<Rep>, turns: seq<bool>, start: nat, cells: seq<Rep>, count: nat, d: bv8) {
    IsPath(root, nodes, turns) && start == StartOf(nodes, turns) && Cached(cells, nodes, count) && DirsOk(turns, d, count)
  }

  lemma CursorLast(root: Rep, nodes: seq<Rep>, turns: seq<bool>, start: nat, cells: seq<Rep>, count: nat, d: bv8)
    requires Cursor(root, nodes, turns, start, cells, count, d) && RopeTree.Valid(root)
    ensures |cells| == PATH_CACHE_LEN && count < PATH_CACHE_LEN
    ensures nodes != [] && cells[count] == Last(nodes) && Shaped(Last(nodes)) && Size(Last(nodes)) > 0
    ensures start + Size(Last(nodes)) <= |Content(root)| == Size(root)
    ensures Content(root)[start..start + Size(Last(nodes))] == Content(Last(nodes))
    ensures turns == [] ==> start == 0 && Last(nodes) == root
  {
    PathContent(root, nodes, turns);
    SizeIsLength(Last(nodes));
  }

  /** The low bit says how the last node of the path was reached. */
  lemma CursorTurned(root: Rep, nodes: seq<Rep>, turns: seq<bool>, start: nat, cells: seq<Rep>, count: nat, d: bv8)
    requires Cursor(root, nodes, turns, start, cells, count, d)
    ensures count > 0 ==> turns != [] && (LowBit(d) <==> Last(turns))
  {
    if count > 0 { DirsPop(turns, d, count); }
  }

  /** The path above the last node, popped after a right turn. */
  lemma CursorPop(root: Rep, nodes: seq<Rep>, turns: seq<bool>, start: nat, cells: seq<Rep>, count: nat, d: bv8)
    returns (nodes1: seq<Rep>, turns1: seq<bool>)
    requires Cursor(root, nodes, turns, start, cells, count, d) && count > 0 && LowBit(d)
    ensures |cells| == PATH_CACHE_LEN && cells[count - 1].Join? && start >= Size(cells[count - 1].left)
    ensures start - Size(cells[count - 1].left) + Size(cells[count - 1]) == start + Size(cells[count])
    ensures Cursor(root, nodes1, turns1, start - Size(cells[count - 1].left), cells, count - 1, DropBit(d))
  {
    PathPop(root, nodes, turns);
    DirsPop(turns, d, count);
    nodes1, turns1 := nodes[..|turns|], turns[..|turns| - 1];
  }

  /** From a left child to its right sibling. */
  lemma CursorTurn(root: Rep, nodes: seq<Rep>, turns: seq<bool>, start: nat, cells: seq<Rep>, count: nat, d: bv8)
    requires Cursor(root, nodes, turns, start, cells, count, d) && count > 0 && !Last(turns)
    ensures cells[count - 1].Join? && cells[count - 1].left == cells[count] && |nodes| == |turns| + 1
    ensures var up := cells[count - 1];
      Cursor(root, nodes[..|turns|] + [up.right], turns[..|turns| - 1] + [true], start + Size(up.left),
             cells[count := up.right], count, d | 1)
  {
    PathPop(root, nodes, turns);
    DirsTurn(turns, d, count);
    PathPush(root, nodes[..|turns|], turns[..|turns| - 1], true);
  }

  /** From a concatenation to its left child; a full cache has been shifted. */
  lemma CursorDown(root: Rep, nodes: seq<Rep>, turns: seq<bool>, start: nat, cells: seq<Rep>, count: nat, d: bv8,
                   shifted: seq<Rep>)
    requires Cursor(root, nodes, turns, start, cells, count, d) && cells[count].Join?
    requires if count < PATH_CACHE_LEN - 1 then shifted == cells
             else |shifted| == PATH_CACHE_LEN && forall k :: 0 <= k < count ==> shifted[k] == cells[k + 1]
    ensures var down, count1 := cells[count].left, Min(count + 1, PATH_CACHE_LEN - 1);
      Cursor(root, nodes + [down], turns + [false], start, shifted[count1 := down], count1, d << 1)
  {
    PathPush(root, nodes, turns, false);
    DirsPush(turns, d, count, false);
  }

  // ---------- the iterator ----------

  /** The part of a producer's text that _S_setbuf fetches: at most 15 characters around the position. */
  method BufferWindow(leafPos: nat, size: nat, pos: nat) returns (start: nat, len: nat)
    requires leafPos <= pos < leafPos + size
    ensures leafPos <= start <= pos < start + len <= leafPos + size
    ensures len == Min(ITERATOR_BUF_LEN, size)
  {
    start, len := leafPos, ITERATOR_BUF_LEN;
    var leafEnd := leafPos + size;
    if start + len <= pos {
      start := pos - len / 4;
      if start + len > leafEnd { start := leafEnd - len; }
    }
    if start + len > leafEnd { len := leafEnd - start; }
  }

  /** The buffer that _S_setbuf sets up for a leaf that starts at leafPos of the text. */
  method PieceAround(leaf: Rep, leafPos: nat, pos: nat, ghost text: seq<char>) returns (start: nat, piece: seq<char>)
    requires Shaped(leaf) && leafPos <= pos < leafPos + Size(leaf) <= |text|
    requires text[leafPos..leafPos + Size(leaf)] == Content(leaf)
    ensures leafPos <= start <= pos < start + |piece| <= leafPos + Size(leaf)
    ensures piece == text[start..start + |piece|]
  {
    SizeIsLength(leaf);
    hide Content, Shaped, Size;
    var len := Size(leaf);
    start := leafPos;
    if !leaf.Leaf? { start, len := BufferWindow(leafPos, Size(leaf), pos); }
    piece := Content(leaf)[start - leafPos..start - leafPos + len];
    PieceOfPiece(text, leafPos, Content(leaf), start - leafPos, len);
  }

  class ConstIterator {
    const root: Rep
    /** Whether the root has a flattened copy (_M_c_string); c_str may create one at any time. */
    var flat: bool
    var pos: nat
    /** _M_buf_ptr != 0, the characters from _M_buf_start to _M_buf_end, and the offset of _M_buf_ptr. */
    var bufValid: bool
    var buf: seq<char>
    var bufPtr: nat
    /** The path cache. */
    const pathEnd: array<Rep>
    var leafIndex: nat
    var leafPos: nat
    var dirns: bv8
    /** The whole path that the cache is the end of, with its turns, and where the buffer starts. */
    ghost var nodes: seq<Rep>
    ghost var turns: seq<bool>
    ghost var bufPos: nat

    /** The cached part of the path. */
    ghost predicate CacheOk()
      reads this, pathEnd
    {
      Cursor(root, nodes, turns, leafPos, pathEnd[..], leafIndex, dirns)
    }

    /** The buffer holds a piece of the current leaf; when the root is flat it may count as a leaf. */
    ghost predicate BufOk()
      reads this
    {
      && nodes != []
      && leafPos <= bufPos && bufPos + |buf| <= leafPos + Size(Last(nodes))
      && bufPos + |buf| <= |Content(root)| && buf == Content(root)[bufPos..bufPos + |buf|]
      && (Last(nodes).Join? ==> turns == [] && bufPos == 0 && |buf| == Size(root))
    }

    /** The root and the position, without the cache. */
    ghost predicate Positioned()
      reads this
    {
      RopeTree.Valid(root) && pos <= Size(root) && pathEnd.Length == PATH_CACHE_LEN
    }

    ghost predicate Valid()
      reads this, pathEnd
    {
      && Positioned()
      && (bufValid ==> CacheOk() && BufOk() && bufPtr < |buf| && pos == bufPos + bufPtr)
    }

    constructor (root: Rep, pos: nat)
      requires RopeTree.Valid(root) && pos <= Size(root)
      ensures Valid() && this.root == root && this.pos == pos && !bufValid && fresh(pathEnd)
    {
      this.root, this.pos := root, pos;
      bufValid := false;
      flat := root.Leaf?;
      pathEnd := new Rep[PATH_CACHE_LEN](_ => root);
    }

    /** _S_setbuf */
    method SetBuf()
      requires Positioned() && CacheOk() && nodes != [] && !Last(nodes).Join?
      requires leafPos <= pos < leafPos + Size(Last(nodes))
      modifies `bufValid, `buf, `bufPtr, `bufPos
      ensures Valid() && bufValid
    {
      CursorLast(root, nodes, turns, leafPos, pathEnd[..], leafIndex, dirns);
      hide Content, Shaped, Size, Depth, Cursor;
      var start, piece := PieceAround(pathEnd[leafIndex], leafPos, pos, Content(root));
      buf, bufPtr, bufPos := piece, pos - start, start;
      bufValid := true;
    }

    /** _S_setcache */
    method SetCache()
      requires Positioned()
      modifies this`bufValid, this`buf, this`bufPtr, this`leafIndex, this`leafPos, this`dirns, pathEnd
      modifies this`nodes, this`turns, this`bufPos
      ensures Valid() && (bufValid <==> pos < Size(root))
      ensures pos < Size(root) && !flat ==> leafIndex == Min(|turns|, PATH_CACHE_LEN - 1)
    {
      if pos >= Size(root) {
        bufValid := false;
        return;
      }
      if flat {
        SetFlat();
      } else {
        SetPath();
      }
    }

    /** The root is treated as a leaf. */
    method SetFlat()
      requires Positioned() && pos < Size(root) && flat
      modifies this`bufValid, this`buf, this`bufPtr, this`leafIndex, this`leafPos, this`dirns, pathEnd
      modifies this`nodes, this`turns, this`bufPos
      ensures Valid() && bufValid
    {
      SizeIsLength(root);
      buf, bufPtr := Content(root), pos;
      pathEnd[0] := root;
      leafIndex, leafPos := 0, 0;
      nodes, turns, bufPos := [root], [], 0;
      bufValid := true;
    }

    /** The rest of _S_setcache: the whole path is walked. */
    method SetPath()
      requires Positioned() && pos < Size(root) && !flat
      modifies this`bufValid, this`buf, this`bufPtr, this`leafIndex, this`leafPos, this`dirns, pathEnd
      modifies this`nodes, this`turns, this`bufPos
      ensures Valid() && bufValid && leafIndex == Min(|turns|, PATH_CACHE_LEN - 1)
    {
      SizeIsLength(root);
      hide Content, Shaped, Size, Depth;
      var path, start, d := DescendTo();
      CopyEnd(path);
      leafPos, dirns := start, d;
      nodes, turns := path, TurnsTo(root, pos);
      SetBuf();
    }

    /** The last section of the path goes into the cache. */
    method CopyEnd(path: seq<Rep>)
      requires pathEnd.Length == PATH_CACHE_LEN && path != []
      modifies this`leafIndex, pathEnd
      ensures leafIndex == Min(|path|, PATH_CACHE_LEN) - 1 && Cached(pathEnd[..], path, leafIndex)
    {
      var first := if |path| > PATH_CACHE_LEN then |path| - PATH_CACHE_LEN else 0;
      var i, j := 0, first;
      while j < |path|
        invariant first <= j <= |path| && i == j - first
        invariant forall k :: 0 <= k < i ==> pathEnd[k] == path[first + k]
      {
        pathEnd[i] := path[j];
        i, j := i + 1, j + 1;
      }
      leafIndex := i - 1;
    }

    /** The loop of _S_setcache from the root to the leaf; the array of the original has 46 cells. */
    method DescendTo() returns (path: seq<Rep>, start: nat, d: bv8)
      requires Positioned() && pos < Size(root)
      ensures path == PathTo(root, pos) && IsPath(root, path, TurnsTo(root, pos)) && !Last(path).Join?
      ensures start == LeafStart(root, pos) == StartOf(path, TurnsTo(root, pos))
      ensures start <= pos < start + Size(Last(path))
      ensures DirsOk(TurnsTo(root, pos), d, Min(|path| - 1, PATH_CACHE_LEN - 1))
      ensures |path| <= MAX_DEPTH + 1
    {
      path, start, d := [root], 0, 0;
      var cur := root;
      ghost var ts := [];
      while cur.Join?
        invariant IsPath(root, path, ts) && cur == Last(path) && start == StartOf(path, ts)
        invariant start <= pos < start + Size(cur)
        invariant DirsOk(ts, d, Min(|ts|, PATH_CACHE_LEN - 1))
        decreases cur
      {
        var right := pos >= start + Size(cur.left);
        PathPush(root, path, ts, right);
        DirsPush(ts, d, Min(|ts|, PATH_CACHE_LEN - 1), right);
        d := d << 1;
        if right {
          d, start, cur := d | 1, start + Size(cur.left), cur.right;
        } else {
          cur := cur.left;
        }
        path, ts := path + [cur], ts + [right];
      }
      PathContent(root, path, ts);
      PathUnique(root, path, ts, pos);
    }

    /** _S_setcache_for_incr: the position has reached or passed the end of the buffer, but the cached path is
        still that of the previous position. */
    method SetCacheForIncr()
      requires Positioned() && CacheOk() && nodes != []
      requires leafPos <= pos <= leafPos + Size(Last(nodes))
      requires Last(nodes).Join? ==> turns == [] && pos == Size(root)
      modifies this`bufValid, this`buf, this`bufPtr, this`leafIndex, this`leafPos, this`dirns, pathEnd
      modifies this`nodes, this`turns, this`bufPos
      ensures Valid() && (bufValid <==> pos < Size(root))
    {
      CursorLast(root, nodes, turns, leafPos, pathEnd[..], leafIndex, dirns);
      hide Content, Shaped, Size, Depth, Cursor;
      if pos - leafPos < Size(pathEnd[leafIndex]) {
        // More of this leaf, which was not in the buffer.
        SetBuf();
        return;
      }
      var found, index, d := ClimbOut();
      if !found {
        // The cache underflowed.
        SetCache();
        return;
      }
      StepRight(index, d);
      SetBuf();
    }

    /** The first loop: pops nodes as long as the path turned right. The ghost path shrinks with it; what is left
        ends in a left child whose last character has just been passed. */
    method ClimbOut() returns (found: bool, index: nat, d: bv8)
      requires Positioned() && CacheOk() && nodes != [] && pos == leafPos + Size(Last(nodes))
      modifies this`leafPos, this`nodes, this`turns
      ensures found ==> index + 1 < PATH_CACHE_LEN && Cursor(root, nodes, turns, leafPos, pathEnd[..], index + 1, d)
      ensures found ==> turns != [] && !Last(turns) && pos == leafPos + Size(pathEnd[index + 1])
    {
      hide Content, Shaped, Depth, Size, Cursor, LowBit, DropBit;
      CursorLast(root, nodes, turns, leafPos, pathEnd[..], leafIndex, dirns);
      var i: int := leafIndex - 1;
      d := dirns;
      while i >= 0 && LowBit(d)
        invariant -1 <= i < PATH_CACHE_LEN - 1 && Cursor(root, nodes, turns, leafPos, pathEnd[..], i + 1, d)
        invariant pos == leafPos + Size(pathEnd[i + 1])
        decreases i
      {
        ghost var nodes1, turns1 := CursorPop(root, nodes, turns, leafPos, pathEnd[..], i + 1, d);
        leafPos := leafPos - Size(pathEnd[i].left);
        d := DropBit(d);
        nodes, turns := nodes1, turns1;
        i := i - 1;
      }
      CursorTurned(root, nodes, turns, leafPos, pathEnd[..], i + 1, d);
      found := i >= 0;
      index := if found then i else 0;
    }

    /** The rest: into the right sibling, and down its left edge. */
    method StepRight(from: nat, bits: bv8)
      requires Positioned() && from + 1 < PATH_CACHE_LEN && turns != [] && !Last(turns)
      requires Cursor(root, nodes, turns, leafPos, pathEnd[..], from + 1, bits)
      requires pos == leafPos + Size(pathEnd[from + 1])
      modifies this`leafIndex, this`leafPos, this`dirns, pathEnd, this`nodes, this`turns
      ensures Positioned() && CacheOk() && nodes != [] && !Last(nodes).Join?
      ensures leafPos == pos < leafPos + Size(Last(nodes))
    {
      hide Content, Shaped, Depth, Cursor, Size;
      CursorTurn(root, nodes, turns, leafPos, pathEnd[..], from + 1, bits);
      var index: nat, d := from, bits;
      leafPos := leafPos + Size(pathEnd[index].left);
      var cur := pathEnd[index].right;
      nodes, turns := nodes[..|turns|] + [cur], turns[..|turns| - 1] + [true];
      index := index + 1;
      pathEnd[index] := cur;
      d := d | 1;
      assert pathEnd[..] == old(pathEnd[..])[index := cur];
      while cur.Join?
        invariant index < PATH_CACHE_LEN && Cursor(root, nodes, turns, leafPos, pathEnd[..], index, d)
        invariant cur == pathEnd[index] && leafPos == pos
        decreases cur
      {
        index, cur := StepDown(index, d);
        d := d << 1;
      }
      leafIndex, dirns := index, d;
      CursorLast(root, nodes, turns, leafPos, pathEnd[..], leafIndex, dirns);
    }

    /** One step of the loop down the left edge. */
    method StepDown(from: nat, ghost d: bv8) returns (index: nat, cur: Rep)
      requires from < PATH_CACHE_LEN && pathEnd.Length == PATH_CACHE_LEN && pathEnd[from].Join?
      requires Cursor(root, nodes, turns, leafPos, pathEnd[..], from, d)
      modifies pathEnd, this`nodes, this`turns
      ensures index < PATH_CACHE_LEN && cur == pathEnd[index] == old(pathEnd[from].left)
      ensures Cursor(root, nodes, turns, leafPos, pathEnd[..], index, d << 1)
    {
      cur := pathEnd[from].left;
      index := from + 1;
      if index == PATH_CACHE_LEN {
        ShiftCells();
        index := index - 1;
      }
      CursorDown(root, nodes, turns, leafPos, old(pathEnd[..]), from, d, pathEnd[..]);
      label shifted:
      hide Cursor;
      pathEnd[index] := cur;
      assert pathEnd[..] == old@shifted(pathEnd[..])[index := cur];
      nodes, turns := nodes + [cur], turns + [false];
    }

    /** Makes room at the end of the cache by dropping its first node. */
    method ShiftCells()
      requires pathEnd.Length == PATH_CACHE_LEN
      modifies pathEnd
      ensures forall k :: 0 <= k < PATH_CACHE_LEN - 1 ==> pathEnd[k] == old(pathEnd[k + 1])
    {
      var i := 0;
      while i < PATH_CACHE_LEN - 1
        invariant 0 <= i <= PATH_CACHE_LEN - 1
        invariant forall k :: 0 <= k < i ==> pathEnd[k] == old(pathEnd[k + 1])
        invariant forall k :: i <= k < PATH_CACHE_LEN ==> pathEnd[k] == old(pathEnd[k])
      {
        pathEnd[i] := pathEnd[i + 1];
        i := i + 1;
      }
    }

    // ---------- the public operations ----------

    /** _M_incr */
    method Incr(n: nat)
      requires Valid() && pos + n <= Size(root)
      modifies this`pos, this`bufValid, this`buf, this`bufPtr, this`leafIndex, this`leafPos, this`dirns, pathEnd
      modifies this`nodes, this`turns, this`bufPos
      ensures Valid() && pos == old(pos) + n
    {
      pos := pos + n;
      if bufValid {
        var charsLeft := |buf| - bufPtr;
        if charsLeft > n {
          bufPtr := bufPtr + n;
        } else if charsLeft == n {
          bufPtr := bufPtr + n;
          SetCacheForIncr();
        } else {
          bufValid := false;
        }
      }
    }

    /** _M_decr */
    method Decr(n: nat)
      requires Valid() && n <= pos
      modifies this`pos, this`bufValid, this`bufPtr
      ensures Valid() && pos == old(pos) - n
    {
      if bufValid {
        if bufPtr >= n {
          bufPtr := bufPtr - n;
        } else {
          bufValid := false;
        }
      }
      pos := pos - n;
    }

    /** operator++, with its shortcut inside the buffer. */
    method Next()
      requires Valid() && pos < Size(root)
      modifies this`pos, this`bufValid, this`buf, this`bufPtr, this`leafIndex, this`leafPos, this`dirns, pathEnd
      modifies this`nodes, this`turns, this`bufPos
      ensures Valid() && pos == old(pos) + 1
    {
      if bufValid && bufPtr + 1 < |buf| {
        bufPtr, pos := bufPtr + 1, pos + 1;
      } else {
        Incr(1);
      }
    }

    /** operator+=; operator-= is the same with the sign of n reversed, and operator-- moves by -1. */
    method Move(n: int)
      requires Valid() && 0 <= pos + n <= Size(root)
      modifies this`pos, this`bufValid, this`buf, this`bufPtr, this`leafIndex, this`leafPos, this`dirns, pathEnd
      modifies this`nodes, this`turns, this`bufPos
      ensures Valid() && pos == old(pos) + n
    {
      if n >= 0 { Incr(n); } else { Decr(-n); }
    }

    /** operator* */
    method Deref() returns (c: char)
      requires Valid() && pos < Size(root)
      modifies this`bufValid, this`buf, this`bufPtr, this`leafIndex, this`leafPos, this`dirns, pathEnd
      modifies this`nodes, this`turns, this`bufPos
      ensures Valid() && pos == old(pos) && bufValid
      ensures pos < |Content(root)| && c == Content(root)[pos]
    {
      SizeIsLength(root);
      if !bufValid { SetCache(); }
      c := buf[bufPtr];
      BufferDenotes();
    }

    /** rope::c_str flattens the root while iterators are alive. */
    method CStr()
      requires Valid()
      modifies this`flat
      ensures Valid() && flat
    {
      flat := true;
    }

    /** A buffer pointer that is not null points at the current character. */
    lemma BufferDenotes()
      requires Valid() && bufValid
      ensures pos < |Content(root)| && buf[bufPtr] == Content(root)[pos]
    {
    }

    /** However the position was reached, a valid cache is the end of the path that _S_setcache would find, and
        agrees with it on the leaf, its position and the turns. */
    lemma CacheIsFullPath()
      requires Valid() && bufValid && !Last(nodes).Join?
      ensures leafPos == LeafStart(root, pos) <= pos < leafPos + Size(pathEnd[leafIndex])
      ensures pathEnd[leafIndex] == Last(PathTo(root, pos))
      ensures leafIndex < |PathTo(root, pos)|
      ensures pathEnd[..leafIndex + 1] == PathTo(root, pos)[|PathTo(root, pos)| - 1 - leafIndex..]
      ensures DirsOk(TurnsTo(root, pos), dirns, leafIndex)
    {
      hide PathTo, TurnsTo, LeafStart, IsPath, Shaped, Content, Depth;
      CursorLast(root, nodes, turns, leafPos, pathEnd[..], leafIndex, dirns);
      PathUnique(root, nodes, turns, pos);
    }
  }

  lemma PieceOfPiece(s: seq<char>, a: nat, x: seq<char>, from: nat, len: nat)
    requires a + |x| <= |s| && s[a..a + |x|] == x && from + len <= |x|
    ensures x[from..from + len] == s[a + from..a + from + len]
  {
    var hi := from + len;
    var t := s[a + from..a + hi];
    assert forall k :: 0 <= k < len ==> x[from..hi][k] == t[k];
  }
}
