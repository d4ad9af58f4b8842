/** The heap of the default node allocator: how it is divided into blocks and a pool, and how free blocks are listed. */
module PoolBlocks {
  import opened Sequences

  const ALIGN := 8
  const MAX_BYTES := 128
  const LISTS := 16
  const REFILL := 20

  /** _S_round_up */
  function RoundUp(n: nat): nat { (n + ALIGN - 1) / ALIGN * ALIGN }

  /** _S_freelist_index, for a positive size. */
  function ListIndex(n: nat): nat
    requires n > 0
  {
    (n + ALIGN - 1) / ALIGN - 1
  }

  function BlockSize(i: nat): nat { ALIGN * (i + 1) }

  predicate Aligned(n: nat) { n % ALIGN == 0 }

  lemma IndexOfSize(n: nat)
    requires 0 < n <= MAX_BYTES
    ensures ListIndex(n) < LISTS && BlockSize(ListIndex(n)) == RoundUp(n) && n <= RoundUp(n) < n + ALIGN
    ensures Aligned(RoundUp(n)) && RoundUp(n) <= MAX_BYTES && ListIndex(RoundUp(n)) == ListIndex(n)
    ensures Aligned(n) ==> RoundUp(n) == n
  {
  }

  lemma AlignedParts(m: nat, n: nat)
    requires Aligned(m) && Aligned(n)
    ensures Aligned(m + n) && (n <= m ==> Aligned(m - n))
  {
  }

  lemma {:induction false} AlignedProduct(m: nat, k: nat)
    requires Aligned(m)
    ensures Aligned(m * k) && (m > 0 && k > 0 ==> m * k > 0)
  {
    if k > 0 {
      AlignedProduct(m, k - 1);
      AlignedParts(m * (k - 1), m);
      assert m * k == m * (k - 1) + m;
    }
  }

  // ---------- how the heap is divided ----------

  datatype Owner = Client | OnList(index: nat)

  datatype Block = Block(size: nat, owner: Owner)

  /** The blocks outside the pool, by their addresses. */
  type Blocks = map<nat, Block>

  /** No two blocks overlap, and none overlaps the pool. */
  ghost predicate Disjoint(blocks: Blocks, start: nat, end: nat) {
    && (forall a, b :: a in blocks && b in blocks && a < b ==> a + blocks[a].size <= b)
    && (forall b :: b in blocks && start < end ==> b + blocks[b].size <= start || end <= b)
  }

  ghost predicate WellAligned(blocks: Blocks, start: nat, end: nat) {
    && Aligned(start) && Aligned(end) && start <= end
    && forall b :: b in blocks ==> b > 0 && Aligned(b) && Aligned(blocks[b].size) && blocks[b].size > 0
  }

  datatype Chunk = Chunk(start: nat, size: nat)

  predicate Inside(start: nat, size: nat, c: Chunk) { c.start <= start && start + size <= c.start + c.size }

  ghost predicate BackedBy(start: nat, size: nat, chunks: set<Chunk>) {
    exists c :: c in chunks && Inside(start, size, c)
  }

  /** Blocks and pool lie inside what malloc has returned. */
  ghost predicate Backed(blocks: Blocks, start: nat, end: nat, chunks: set<Chunk>) {
    && (forall b :: b in blocks ==> BackedBy(b, blocks[b].size, chunks))
    && (start < end ==> start > 0 && BackedBy(start, end - start, chunks))
  }

  lemma BackedPart(start: nat, size: nat, chunks: set<Chunk>, start': nat, size': nat)
    requires BackedBy(start, size, chunks) && start <= start' && start' + size' <= start + size
    ensures BackedBy(start', size', chunks)
  {
    var c :| c in chunks && Inside(start, size, c);
    assert Inside(start', size', c);
  }

  /** What malloc promises of a new chunk. */
  ghost predicate Fresh(c: Chunk, chunks: set<Chunk>) {
    c.start > 0 && Aligned(c.start) && forall d :: d in chunks ==> c.start + c.size <= d.start || d.start + d.size <= c.start
  }

  ghost predicate Divided(blocks: Blocks, start: nat, end: nat, chunks: set<Chunk>) {
    Disjoint(blocks, start, end) && WellAligned(blocks, start, end) && Backed(blocks, start, end, chunks)
  }

  /** A piece is cut off the front of the pool. */
  lemma CutFromPool(blocks: Blocks, start: nat, end: nat, chunks: set<Chunk>, size: nat, owner: Owner)
    requires Divided(blocks, start, end, chunks) && 0 < size <= end - start && Aligned(size)
    ensures start !in blocks && Divided(blocks[start := Block(size, owner)], start + size, end, chunks)
  {
    hide BackedBy, Aligned;
    assert start !in blocks;
    BackedPart(start, end - start, chunks, start, size);
    BackedPart(start, end - start, chunks, start + size, end - (start + size));
    AlignedParts(start, size);
  }

  /** A block becomes the pool, which was empty. */
  lemma BlockToPool(blocks: Blocks, start: nat, chunks: set<Chunk>, b: nat)
    requires Divided(blocks, start, start, chunks) && b in blocks
    ensures Divided(blocks - {b}, b, b + blocks[b].size, chunks)
  {
    AlignedParts(b, blocks[b].size);
    hide BackedBy, Aligned;
    assert b + blocks[b].size - b == blocks[b].size;
  }

  /** A new chunk becomes the pool. */
  lemma BackedByOwn(c: Chunk, chunks: set<Chunk>)
    ensures BackedBy(c.start, c.size, chunks + {c})
  {
    assert Inside(c.start, c.size, c);
  }

  lemma BackedByMore(b: nat, size: nat, chunks: set<Chunk>, c: Chunk)
    requires BackedBy(b, size, chunks)
    ensures BackedBy(b, size, chunks + {c})
  {
    var d :| d in chunks && Inside(b, size, d);
    assert d in chunks + {c};
  }

  lemma ApartFromFresh(b: nat, size: nat, chunks: set<Chunk>, c: Chunk)
    requires BackedBy(b, size, chunks) && Fresh(c, chunks)
    ensures b + size <= c.start || c.start + c.size <= b
  {
    var d :| d in chunks && Inside(b, size, d);
  }

  lemma ChunkToPool(blocks: Blocks, start: nat, chunks: set<Chunk>, c: Chunk)
    requires Divided(blocks, start, start, chunks) && Fresh(c, chunks) && Aligned(c.size)
    ensures Divided(blocks, c.start, c.start + c.size, chunks + {c})
  {
    hide BackedBy;
    BackedByOwn(c, chunks);
    forall b | b in blocks ensures b + blocks[b].size <= c.start || c.start + c.size <= b {
      ApartFromFresh(b, blocks[b].size, chunks, c);
    }
    forall b | b in blocks ensures BackedBy(b, blocks[b].size, chunks + {c}) {
      BackedByMore(b, blocks[b].size, chunks, c);
    }
  }

  function Split(blocks: Blocks, b: nat, size: nat, first: Owner, second: Owner): Blocks
    requires b in blocks && size <= blocks[b].size
  {
    blocks[b := Block(size, first)][b + size := Block(blocks[b].size - size, second)]
  }

  /** A block is divided in two. */
  lemma SplitBlock(blocks: Blocks, start: nat, end: nat, chunks: set<Chunk>, b: nat, size: nat, first: Owner, second: Owner)
    requires Divided(blocks, start, end, chunks) && b in blocks && 0 < size < blocks[b].size && Aligned(size)
    ensures b + size !in blocks && Divided(Split(blocks, b, size, first, second), start, end, chunks)
  {
    hide Disjoint, WellAligned, Backed, Split, Aligned;
    assert b + size in blocks ==> blocks[b + size].size > 0 by { PositiveSize(blocks, start, end, b + size); }
    SplitDisjoint(blocks, start, end, b, size, first, second);
    SplitAligned(blocks, start, end, b, size, first, second);
    SplitBacked(blocks, start, end, chunks, b, size, first, second);
  }

  lemma PositiveSize(blocks: Blocks, start: nat, end: nat, b: nat)
    requires WellAligned(blocks, start, end)
    ensures b in blocks ==> blocks[b].size > 0 && b > 0
  {
  }

  lemma SplitAligned(blocks: Blocks, start: nat, end: nat, b: nat, size: nat, first: Owner, second: Owner)
    requires WellAligned(blocks, start, end) && b in blocks && 0 < size < blocks[b].size && Aligned(size)
    ensures WellAligned(Split(blocks, b, size, first, second), start, end)
  {
    AlignedParts(b, size);
    AlignedParts(blocks[b].size, size);
    hide Aligned;
  }

  lemma SplitBacked(blocks: Blocks, start: nat, end: nat, chunks: set<Chunk>, b: nat, size: nat, first: Owner, second: Owner)
    requires Backed(blocks, start, end, chunks) && b in blocks && 0 < size < blocks[b].size
    ensures Backed(Split(blocks, b, size, first, second), start, end, chunks)
  {
    BackedPart(b, blocks[b].size, chunks, b, size);
    BackedPart(b, blocks[b].size, chunks, b + size, blocks[b].size - size);
    hide BackedBy;
  }

  lemma SplitDisjoint(blocks: Blocks, start: nat, end: nat, b: nat, size: nat, first: Owner, second: Owner)
    requires Disjoint(blocks, start, end) && b in blocks && 0 < size < blocks[b].size
    requires b + size in blocks ==> blocks[b + size].size > 0
    ensures b + size !in blocks && Disjoint(Split(blocks, b, size, first, second), start, end)
  {
    assert b + size !in blocks;
    var after, rest := Split(blocks, b, size, first, second), b + size;
    forall x, y | x in after && y in after && x < y ensures x + after[x].size <= y {
      if x != b && x != rest && y != b && y != rest {
        assert x + blocks[x].size <= y;
      } else if x == b || x == rest {
        assert y != b && y != rest ==> b + blocks[b].size <= y;
      } else {
        assert x + blocks[x].size <= b;
      }
    }
    forall x | x in after && start < end ensures x + after[x].size <= start || end <= x {
      assert b + blocks[b].size <= start || end <= b;
    }
  }

  lemma ChangeOwner(blocks: Blocks, start: nat, end: nat, chunks: set<Chunk>, b: nat, owner: Owner)
    requires Divided(blocks, start, end, chunks) && b in blocks
    ensures Divided(blocks[b := blocks[b].(owner := owner)], start, end, chunks)
  {
    hide BackedBy;
  }

  // ---------- how much there is ----------

  ghost function Total(blocks: Blocks): nat {
    if blocks == map[] then 0
    else
      var b :| b in blocks;
      Total(blocks - {b}) + blocks[b].size
  }

  lemma {:induction false} TotalRemove(blocks: Blocks, b: nat)
    requires b in blocks
    ensures Total(blocks) == Total(blocks - {b}) + blocks[b].size
  {
    var a :| a in blocks && Total(blocks) == Total(blocks - {a}) + blocks[a].size;
    if a != b {
      TotalRemove(blocks - {a}, b);
      TotalRemove(blocks - {b}, a);
      assert blocks - {a} - {b} == blocks - {b} - {a};
    }
  }

  lemma TotalPut(blocks: Blocks, b: nat, block: Block)
    ensures Total(blocks[b := block]) == Total(blocks - {b}) + block.size
    ensures b !in blocks ==> Total(blocks[b := block]) == Total(blocks) + block.size
    ensures b in blocks ==> Total(blocks[b := block]) + blocks[b].size == Total(blocks) + block.size
  {
    TotalRemove(blocks[b := block], b);
    assert blocks[b := block] - {b} == blocks - {b};
    if b in blocks { TotalRemove(blocks, b); } else { assert blocks - {b} == blocks; }
  }

  // ---------- the free lists ----------

  /** Exactly the blocks of one size that are free are on its list. */
  ghost predicate ListOk(blocks: Blocks, i: nat, list: seq<nat>) {
    && Distinct(list)
    && (forall b :: b in list ==> b in blocks && blocks[b] == Block(BlockSize(i), OnList(i)))
    && (forall b :: b in blocks && blocks[b].owner == OnList(i) ==> b in list)
  }

  ghost predicate Listed(blocks: Blocks, lists: seq<seq<nat>>) {
    && |lists| == LISTS && (forall i :: 0 <= i < LISTS ==> ListOk(blocks, i, lists[i]))
    && forall b :: b in blocks && blocks[b].owner.OnList? ==> blocks[b].owner.index < LISTS
  }

  /** The words in which free blocks hold their links. */
  type Memory = map<nat, nat>

  predicate Chain(mem: Memory, head: nat, list: seq<nat>)
    decreases list
  {
    if list == [] then head == 0 else head == list[0] && head in mem && Chain(mem, mem[head], list[1..])
  }

  lemma {:induction false} ChainFrame(mem: Memory, head: nat, list: seq<nat>, a: nat, v: nat)
    requires Chain(mem, head, list) && a !in list
    ensures Chain(mem[a := v], head, list)
    decreases list
  {
    if list != [] { ChainFrame(mem, mem[head], list[1..], a, v); }
  }

  lemma {:induction false} ChainOfLinks(mem: Memory, list: seq<nat>)
    requires list != [] && (forall a :: a in list ==> a in mem)
    requires forall k :: 0 <= k < |list| - 1 ==> mem[list[k]] == list[k + 1]
    requires mem[list[|list| - 1]] == 0
    ensures Chain(mem, list[0], list)
    decreases list
  {
    if |list| > 1 { ChainOfLinks(mem, list[1..]); }
  }

  predicate Chains(mem: Memory, heads: seq<nat>, lists: seq<seq<nat>>) {
    |heads| == |lists| && forall i :: 0 <= i < |lists| ==> Chain(mem, heads[i], lists[i])
  }

  ghost predicate OnNoList(lists: seq<seq<nat>>, a: nat) { forall i :: 0 <= i < |lists| ==> a !in lists[i] }

  lemma ChainsFrame(mem: Memory, heads: seq<nat>, lists: seq<seq<nat>>, a: nat, v: nat)
    requires Chains(mem, heads, lists) && OnNoList(lists, a)
    ensures Chains(mem[a := v], heads, lists)
  {
    forall i | 0 <= i < |lists| ensures Chain(mem[a := v], heads[i], lists[i]) {
      ChainFrame(mem, heads[i], lists[i], a, v);
    }
  }

  lemma NotListed(blocks: Blocks, lists: seq<seq<nat>>, a: nat)
    requires Listed(blocks, lists) && (a in blocks ==> blocks[a].owner.Client?)
    ensures OnNoList(lists, a)
  {
    forall i | 0 <= i < |lists| ensures a !in lists[i] { assert ListOk(blocks, i, lists[i]); }
  }

  /** A block goes to the front of its list. */
  lemma PushListed(blocks: Blocks, lists: seq<seq<nat>>, i: nat, b: nat)
    requires Listed(blocks, lists) && i < LISTS && (b in blocks ==> blocks[b].owner.Client?)
    ensures Listed(blocks[b := Block(BlockSize(i), OnList(i))], lists[i := [b] + lists[i]])
  {
    NotListed(blocks, lists, b);
    var after, lists' := blocks[b := Block(BlockSize(i), OnList(i))], lists[i := [b] + lists[i]];
    forall j | 0 <= j < LISTS ensures ListOk(after, j, lists'[j]) {
      assert ListOk(blocks, j, lists[j]) && b !in lists[j];
    }
  }

  /** The first block of a list goes to a client ... */
  lemma PopListed(blocks: Blocks, lists: seq<seq<nat>>, i: nat)
    requires Listed(blocks, lists) && i < LISTS && lists[i] != []
    ensures var b := lists[i][0];
      && b in blocks && blocks[b] == Block(BlockSize(i), OnList(i))
      && Listed(blocks[b := Block(BlockSize(i), Client)], lists[i := lists[i][1..]])
      && Listed(blocks - {b}, lists[i := lists[i][1..]])
  {
    var b, lists' := lists[i][0], lists[i := lists[i][1..]];
    assert ListOk(blocks, i, lists[i]);
    forall j | 0 <= j < LISTS
      ensures ListOk(blocks[b := Block(BlockSize(i), Client)], j, lists'[j]) && ListOk(blocks - {b}, j, lists'[j])
    {
      assert ListOk(blocks, j, lists[j]);
      PopListOk(blocks, i, lists[i], j, lists[j]);
    }
  }

  lemma PopListOk(blocks: Blocks, i: nat, list: seq<nat>, j: nat, other: seq<nat>)
    requires ListOk(blocks, i, list) && list != [] && ListOk(blocks, j, other) && (i == j ==> other == list)
    ensures var b, after := list[0], if i == j then list[1..] else other;
      ListOk(blocks[b := Block(BlockSize(i), Client)], j, after) && ListOk(blocks - {b}, j, after)
  {
    if i == j {
      assert list == [list[0]] + list[1..];
    }
  }

  lemma ClientListed(blocks: Blocks, lists: seq<seq<nat>>, b: nat, size: nat)
    requires Listed(blocks, lists) && (b in blocks ==> blocks[b].owner.Client?)
    ensures Listed(blocks[b := Block(size, Client)], lists)
  {
    NotListed(blocks, lists, b);
    forall i | 0 <= i < LISTS ensures ListOk(blocks[b := Block(size, Client)], i, lists[i]) {
      assert ListOk(blocks, i, lists[i]) && b !in lists[i];
    }
  }

  // ---------- what clients hold ----------

  function Held(blocks: Blocks): map<nat, nat> {
    map b | b in blocks && blocks[b].owner.Client? :: blocks[b].size
  }

  lemma HeldUpdate(blocks: Blocks, b: nat, block: Block)
    ensures block.owner.Client? ==> Held(blocks[b := block]) == Held(blocks)[b := block.size]
    ensures !block.owner.Client? ==> Held(blocks[b := block]) == Held(blocks) - {b} == Held(blocks - {b})
    ensures b in Held(blocks) <==> b in blocks && blocks[b].owner.Client?
    ensures b !in Held(blocks) ==> Held(blocks) - {b} == Held(blocks)
  {
  }

  // ---------- a chunk becomes a list ----------

  /** Equal pieces of n bytes, one after the other. */
  function Pieces(p: nat, n: nat, count: nat): (s: seq<nat>)
    ensures |s| == count && (count > 0 ==> s[0] == p)
    decreases count
  {
    if count == 0 then [] else [p] + Pieces(p + n, n, count - 1)
  }

  /** Their length: count * n. */
  function Span(n: nat, count: nat): (r: nat)
    ensures count > 0 ==> r >= n
  {
    if count == 0 then 0 else n + Span(n, count - 1)
  }

  lemma {:induction false} SpanIsProduct(n: nat, count: nat)
    ensures Span(n, count) == n * count
  {
    if count > 0 {
      SpanIsProduct(n, count - 1);
      assert n * count == n + n * (count - 1);
    }
  }

  /** The block at p is divided into free blocks of list i. */
  function Carve(blocks: Blocks, p: nat, i: nat, count: nat): Blocks
    requires p in blocks && count > 0 && blocks[p].size == Span(BlockSize(i), count)
    decreases count
  {
    var n := BlockSize(i);
    if count == 1 then blocks[p := Block(n, OnList(i))]
    else Carve(Split(blocks, p, n, OnList(i), Client), p + n, i, count - 1)
  }

  ghost predicate Division(blocks: Blocks, lists: seq<seq<nat>>, start: nat, end: nat, chunks: set<Chunk>) {
    Divided(blocks, start, end, chunks) && Listed(blocks, lists)
  }

  lemma SplitTotal(blocks: Blocks, p: nat, n: nat, first: Owner, second: Owner)
    requires p in blocks && 0 < n < blocks[p].size && p + n !in blocks
    ensures Total(Split(blocks, p, n, first, second)) == Total(blocks)
  {
    hide Total;
    TotalPut(blocks, p, Block(n, first));
    TotalPut(blocks[p := Block(n, first)], p + n, Block(blocks[p].size - n, second));
  }

  lemma SplitHeld(blocks: Blocks, p: nat, n: nat, first: Owner)
    requires p in blocks && 0 < n < blocks[p].size && p + n !in blocks && blocks[p].owner.Client?
    ensures var after := Held(Split(blocks, p, n, first, Client)) - {p + n};
      if first.Client? then after == Held(blocks)[p := n] else after == Held(blocks) - {p}
  {
    var next, after := Split(blocks, p, n, first, Client), Held(Split(blocks, p, n, first, Client)) - {p + n};
    var goal := if first.Client? then Held(blocks)[p := n] else Held(blocks) - {p};
    forall b ensures b in after <==> b in goal {
      assert b in next <==> b in blocks || b == p + n;
    }
  }

  lemma SplitListed(blocks: Blocks, lists: seq<seq<nat>>, p: nat, i: nat)
    requires Listed(blocks, lists) && i < LISTS && p in blocks && blocks[p].owner.Client?
    requires BlockSize(i) < blocks[p].size && p + BlockSize(i) !in blocks
    ensures Listed(Split(blocks, p, BlockSize(i), OnList(i), Client), lists[i := lists[i] + [p]])
  {
    assert |lists| == LISTS;
    hide Listed, BlockSize;
    var n := BlockSize(i);
    AppendListed(blocks, lists, i, p);
    ClientListed(blocks[p := Block(n, OnList(i))], lists[i := lists[i] + [p]], p + n, blocks[p].size - n);
  }

  lemma BlockSizes(i: nat)
    ensures Aligned(BlockSize(i)) && BlockSize(i) > 0
  {
  }

  lemma ListCount(blocks: Blocks, lists: seq<seq<nat>>)
    requires Listed(blocks, lists)
    ensures |lists| == LISTS
  {
  }

  lemma SplitFirst(blocks: Blocks, lists: seq<seq<nat>>, start: nat, end: nat, chunks: set<Chunk>, p: nat, i: nat)
    requires Division(blocks, lists, start, end, chunks) && i < LISTS
    requires p in blocks && blocks[p].owner.Client? && BlockSize(i) < blocks[p].size
    ensures p + BlockSize(i) !in blocks
    ensures var n := BlockSize(i);
      var next := Split(blocks, p, n, OnList(i), Client);
      && Division(next, lists[i := lists[i] + [p]], start, end, chunks)
      && Total(next) == Total(blocks) && Held(next) - {p + n} == Held(blocks) - {p}
  {
    hide Listed, BlockSize, Aligned, Divided, Total, Held, Split;
    var n := BlockSize(i);
    BlockSizes(i);
    ListCount(blocks, lists);
    SplitBlock(blocks, start, end, chunks, p, n, OnList(i), Client);
    SplitListed(blocks, lists, p, i);
    SplitTotal(blocks, p, n, OnList(i), Client);
    SplitHeld(blocks, p, n, OnList(i));
  }

  lemma AppendListed(blocks: Blocks, lists: seq<seq<nat>>, i: nat, b: nat)
    requires Listed(blocks, lists) && i < LISTS && (b in blocks ==> blocks[b].owner.Client?)
    ensures Listed(blocks[b := Block(BlockSize(i), OnList(i))], lists[i := lists[i] + [b]])
  {
    NotListed(blocks, lists, b);
    var after, lists' := blocks[b := Block(BlockSize(i), OnList(i))], lists[i := lists[i] + [b]];
    forall j | 0 <= j < LISTS ensures ListOk(after, j, lists'[j]) {
      assert ListOk(blocks, j, lists[j]) && b !in lists[j];
    }
  }

  /** A division that keeps every byte and every client's block but the one at p. */
  ghost predicate Carving(blocks: Blocks, lists: seq<seq<nat>>, start: nat, end: nat, chunks: set<Chunk>, p: nat, before: Blocks) {
    && Division(blocks, lists, start, end, chunks)
    && Total(blocks) == Total(before) && Held(blocks) == Held(before) - {p}
  }

  lemma CarvedOne(blocks: Blocks, lists: seq<seq<nat>>, start: nat, end: nat, chunks: set<Chunk>, p: nat, i: nat)
    requires Division(blocks, lists, start, end, chunks) && i < LISTS
    requires p in blocks && blocks[p] == Block(BlockSize(i), Client)
    ensures Carving(blocks[p := Block(BlockSize(i), OnList(i))], lists[i := lists[i] + [p]], start, end, chunks, p, blocks)
  {
    hide Listed, BlockSize, Divided, Total, Held;
    AppendListed(blocks, lists, i, p);
    ChangeOwner(blocks, start, end, chunks, p, OnList(i));
    TotalPut(blocks, p, Block(BlockSize(i), OnList(i)));
    HeldUpdate(blocks, p, Block(BlockSize(i), OnList(i)));
  }

  lemma CarveSteps(blocks: Blocks, p: nat, i: nat, count: nat)
    requires p in blocks && count > 0 && blocks[p].size == Span(BlockSize(i), count)
    ensures count == 1 ==> blocks[p].size == BlockSize(i) && Carve(blocks, p, i, count) == blocks[p := Block(BlockSize(i), OnList(i))]
    ensures count > 1 ==>
      var n := BlockSize(i);
      && blocks[p].size - n == Span(n, count - 1) > 0
      && Carve(blocks, p, i, count) == Carve(Split(blocks, p, n, OnList(i), Client), p + n, i, count - 1)
    ensures Pieces(p, BlockSize(i), count) == [p] + Pieces(p + BlockSize(i), BlockSize(i), count - 1)
    ensures count == 1 ==> Pieces(p, BlockSize(i), count) == [p]
  {
  }

  lemma ListsRegroup(lists: seq<seq<nat>>, i: nat, p: nat, tail: seq<nat>)
    requires i < |lists|
    ensures var mid := lists[i := lists[i] + [p]];
      mid[i := mid[i] + tail] == lists[i := lists[i] + ([p] + tail)]
  {
    assert lists[i] + [p] + tail == lists[i] + ([p] + tail);
  }

  lemma {:induction false} Carved(blocks: Blocks, lists: seq<seq<nat>>, start: nat, end: nat, chunks: set<Chunk>, p: nat, i: nat, count: nat)
    requires Division(blocks, lists, start, end, chunks) && i < LISTS && count > 0 && |lists| == LISTS
    requires p in blocks && blocks[p] == Block(Span(BlockSize(i), count), Client)
    ensures Carving(Carve(blocks, p, i, count), lists[i := lists[i] + Pieces(p, BlockSize(i), count)], start, end, chunks, p, blocks)
    decreases count
  {
    hide Division, Total, Held, BlockSize, Carve, Span, Pieces;
    var n := BlockSize(i);
    CarveSteps(blocks, p, i, count);
    if count == 1 {
      CarvedOne(blocks, lists, start, end, chunks, p, i);
    } else {
      SplitFirst(blocks, lists, start, end, chunks, p, i);
      var next, lists' := Split(blocks, p, n, OnList(i), Client), lists[i := lists[i] + [p]];
      assert next[p + n] == Block(Span(n, count - 1), Client);
      hide Split;
      Carved(next, lists', start, end, chunks, p + n, i, count - 1);
      ListsRegroup(lists, i, p, Pieces(p + n, n, count - 1));
    }
  }

  // ---------- lists in memory ----------

  /** Storing the old head in the block, and the block in the head. */
  lemma ChainsPush(mem: Memory, heads: seq<nat>, lists: seq<seq<nat>>, i: nat, b: nat)
    requires Chains(mem, heads, lists) && i < |lists| && OnNoList(lists, b) && b > 0
    ensures Chains(mem[b := heads[i]], heads[i := b], lists[i := [b] + lists[i]])
  {
    ChainsFrame(mem, heads, lists, b, heads[i]);
    assert ([b] + lists[i])[1..] == lists[i];
  }

  lemma ChainsPop(mem: Memory, heads: seq<nat>, lists: seq<seq<nat>>, i: nat)
    requires Chains(mem, heads, lists) && i < |lists| && lists[i] != []
    ensures heads[i] == lists[i][0] && heads[i] in mem
    ensures Chains(mem, heads[i := mem[heads[i]]], lists[i := lists[i][1..]])
  {
  }

  /** A pool too small for a request fits a list exactly. */
  lemma LeftOverSize(blocks: Blocks, lists: seq<seq<nat>>, start: nat, end: nat, chunks: set<Chunk>)
    requires Division(blocks, lists, start, end, chunks) && 0 < end - start < MAX_BYTES
    ensures Aligned(end - start) && start > 0
    ensures ListIndex(end - start) < LISTS && BlockSize(ListIndex(end - start)) == end - start
  {
    AlignedParts(end, start);
    IndexOfSize(end - start);
  }

  lemma LinkSteps(blocks: Blocks, lists: seq<seq<nat>>, start: nat, end: nat, chunks: set<Chunk>,
      mem: Memory, heads: seq<nat>, b: nat, i: nat)
    requires Division(blocks, lists, start, end, chunks) && Chains(mem, heads, lists) && i < LISTS
    requires b in blocks && blocks[b] == Block(BlockSize(i), Client)
    ensures |lists| == |heads| == LISTS
    ensures Division(blocks[b := Block(BlockSize(i), OnList(i))], lists[i := [b] + lists[i]], start, end, chunks)
    ensures Chains(mem[b := heads[i]], heads[i := b], lists[i := [b] + lists[i]])
    ensures Total(blocks[b := Block(BlockSize(i), OnList(i))]) == Total(blocks)
  {
    hide Divided, Listed, Total, Aligned, BlockSize, OnNoList;
    ListCount(blocks, lists);
    ChangeOwner(blocks, start, end, chunks, b, OnList(i));
    TotalPut(blocks, b, Block(BlockSize(i), OnList(i)));
    PushListed(blocks, lists, i, b);
    NotListed(blocks, lists, b);
    PositiveAddress(blocks, start, end, chunks, b);
    ChainsPush(mem, heads, lists, i, b);
  }

  lemma UnlinkSteps(blocks: Blocks, lists: seq<seq<nat>>, start: nat, end: nat, chunks: set<Chunk>,
      mem: Memory, heads: seq<nat>, i: nat)
    requires Division(blocks, lists, start, end, chunks) && Chains(mem, heads, lists) && i < LISTS && lists[i] != []
    ensures var b := lists[i][0];
      && |lists| == |heads| == LISTS && heads[i] == b && b in mem
      && b in blocks && blocks[b] == Block(BlockSize(i), OnList(i))
      && Division(blocks[b := Block(BlockSize(i), Client)], lists[i := lists[i][1..]], start, end, chunks)
      && Chains(mem, heads[i := mem[b]], lists[i := lists[i][1..]])
      && Total(blocks[b := Block(BlockSize(i), Client)]) == Total(blocks)
  {
    hide Divided, Listed, Total, Aligned, BlockSize;
    ListCount(blocks, lists);
    var b := lists[i][0];
    PopListed(blocks, lists, i);
    ChangeOwner(blocks, start, end, chunks, b, Client);
    TotalPut(blocks, b, Block(BlockSize(i), Client));
    ChainsPop(mem, heads, lists, i);
  }

  lemma PositiveAddress(blocks: Blocks, start: nat, end: nat, chunks: set<Chunk>, b: nat)
    requires Divided(blocks, start, end, chunks) && b in blocks
    ensures b > 0 && blocks[b].size > 0 && Aligned(b)
  {
  }

  /** A client's block that came from list i is removed. */
  lemma RemoveSteps(before: Blocks, blocks: Blocks, lists: seq<seq<nat>>, start: nat, chunks: set<Chunk>, b: nat, size: nat, i: nat)
    requires Division(blocks, lists, start, start, chunks)
    requires b in before && before[b] == Block(size, OnList(i)) && blocks == before[b := Block(size, Client)]
    ensures Division(blocks - {b}, lists, b, b + size, chunks)
    ensures Total(blocks) == Total(blocks - {b}) + size && Held(blocks - {b}) == Held(before)
  {
    hide Divided, Listed, Total, Held;
    BlockToPool(blocks, start, chunks, b);
    TotalRemove(blocks, b);
    RemoveListed(blocks, lists, b);
    RemoveHeld(before, b, size);
  }

  lemma RemoveHeld(before: Blocks, b: nat, size: nat)
    requires b in before && before[b].owner.OnList?
    ensures Held(before[b := Block(size, Client)] - {b}) == Held(before)
  {
    HeldUpdate(before, b, before[b]);
    assert before[b := Block(size, Client)] - {b} == before - {b} && before[b := before[b]] == before;
  }

  lemma RemoveListed(blocks: Blocks, lists: seq<seq<nat>>, b: nat)
    requires Listed(blocks, lists) && b in blocks && blocks[b].owner.Client?
    ensures Listed(blocks - {b}, lists)
  {
    forall i | 0 <= i < LISTS ensures ListOk(blocks - {b}, i, lists[i]) { assert ListOk(blocks, i, lists[i]); }
  }

  lemma HeadTellsEmpty(blocks: Blocks, lists: seq<seq<nat>>, start: nat, end: nat, chunks: set<Chunk>,
      mem: Memory, heads: seq<nat>, i: nat)
    requires Division(blocks, lists, start, end, chunks) && Chains(mem, heads, lists) && i < LISTS
    ensures |lists| == |heads| == LISTS && (heads[i] == 0 <==> lists[i] == [])
  {
    hide Divided;
    if lists[i] != [] {
      assert ListOk(blocks, i, lists[i]) && lists[i][0] in lists[i];
      PositiveAddress(blocks, start, end, chunks, lists[i][0]);
    }
  }

  lemma BlockSizeMonotone(i: nat, j: nat)
    requires i <= j
    ensures BlockSize(i) <= BlockSize(j)
  {
  }

  lemma RequestAligned(total: nat, heapSize: nat)
    requires Aligned(total)
    ensures Aligned(2 * total + RoundUp(heapSize / 16))
  {
    AlignedParts(total, total);
    AlignedParts(2 * total, RoundUp(heapSize / 16));
  }

  lemma LongerSpan(size: nat, n: nat, q: nat)
    requires n <= q
    ensures size * n <= size * q
  {
  }

  /** Dividing the pool when it is too small for n blocks. */
  lemma AsManyAsFit(size: nat, n: nat, left: nat)
    requires 0 < size <= left < size * n
    ensures 1 <= left / size < n && size * (left / size) <= left
  {
    var q := left / size;
    assert size * q <= left;
    if n <= q { LongerSpan(size, n, q); }
  }

  // ---------- refilling ----------

  lemma {:induction false} PiecesWithin(p: nat, n: nat, count: nat, k: nat)
    requires k < count
    ensures p <= Pieces(p, n, count)[k] && Pieces(p, n, count)[k] + n <= p + Span(n, count)
    decreases count
  {
    if k > 0 { PiecesWithin(p + n, n, count - 1, k - 1); }
  }

  lemma {:induction false} PiecesNext(p: nat, n: nat, count: nat, k: nat)
    requires k + 1 < count
    ensures Pieces(p, n, count)[k + 1] == Pieces(p, n, count)[k] + n
    decreases count
  {
    if k > 0 { PiecesNext(p + n, n, count - 1, k - 1); }
  }

  lemma {:induction false} PiecesIncrease(p: nat, n: nat, count: nat, j: nat, k: nat)
    requires j < k < count && n > 0
    ensures Pieces(p, n, count)[j] < Pieces(p, n, count)[k]
    decreases count
  {
    if j == 0 { PiecesWithin(p + n, n, count - 1, k - 1); } else { PiecesIncrease(p + n, n, count - 1, j - 1, k - 1); }
  }

  /** Inside a client's block there is no block of a list. */
  lemma PiecesUnlisted(blocks: Blocks, lists: seq<seq<nat>>, start: nat, end: nat, chunks: set<Chunk>, b: nat, a: nat)
    requires Division(blocks, lists, start, end, chunks) && b in blocks && blocks[b].owner.Client?
    requires b <= a < b + blocks[b].size
    ensures OnNoList(lists, a)
  {
    assert a in blocks ==> a == b;
    hide Divided;
    NotListed(blocks, lists, a);
  }

  lemma RefillSizes(n: nat, count: nat)
    requires n > 0 && count > 1
    ensures Span(n, count) - n == Span(n, count - 1) > 0
  {
  }

  /** The list that _S_refill makes of all but the first block of a chunk. */
  lemma RefillSteps(blocks: Blocks, lists: seq<seq<nat>>, start: nat, end: nat, chunks: set<Chunk>, b: nat, i: nat, count: nat)
    returns (after: Blocks)
    requires Division(blocks, lists, start, end, chunks) && i < LISTS && |lists| == LISTS && lists[i] == [] && count > 1
    requires b in blocks && blocks[b] == Block(Span(BlockSize(i), count), Client)
    ensures Division(after, lists[i := Pieces(b + BlockSize(i), BlockSize(i), count - 1)], start, end, chunks)
    ensures Total(after) == Total(blocks) && Held(after) == Held(blocks)[b := BlockSize(i)]
  {
    hide Division, Total, Held, BlockSize, Carve, Span, Pieces, Split, Aligned;
    var n := BlockSize(i);
    BlockSizes(i);
    RefillSizes(n, count);
    var next := Split(blocks, b, n, Client, Client);
    SplitClient(blocks, lists, start, end, chunks, b, n);
    after := Carve(next, b + n, i, count - 1);
    Carved(next, lists, start, end, chunks, b + n, i, count - 1);
    assert lists[i] + Pieces(b + n, n, count - 1) == Pieces(b + n, n, count - 1);
  }

  lemma SplitClient(blocks: Blocks, lists: seq<seq<nat>>, start: nat, end: nat, chunks: set<Chunk>, b: nat, n: nat)
    requires Division(blocks, lists, start, end, chunks) && b in blocks && blocks[b].owner.Client?
    requires 0 < n < blocks[b].size && Aligned(n)
    ensures var next := Split(blocks, b, n, Client, Client);
      && b + n in next && next[b + n] == Block(blocks[b].size - n, Client)
      && Division(next, lists, start, end, chunks)
      && Total(next) == Total(blocks) && Held(next) - {b + n} == Held(blocks)[b := n]
  {
    hide Divided, Listed, Total, Held, Split;
    SplitBlock(blocks, start, end, chunks, b, n, Client, Client);
    SplitTotal(blocks, b, n, Client, Client);
    SplitHeld(blocks, b, n, Client);
    SplitClientListed(blocks, lists, b, n);
  }

  lemma SplitClientListed(blocks: Blocks, lists: seq<seq<nat>>, b: nat, n: nat)
    requires Listed(blocks, lists) && b in blocks && blocks[b].owner.Client? && 0 < n < blocks[b].size && b + n !in blocks
    ensures var next := Split(blocks, b, n, Client, Client);
      b + n in next && next[b + n] == Block(blocks[b].size - n, Client) && Listed(next, lists)
  {
    hide Listed;
    ClientListed(blocks, lists, b, n);
    ClientListed(blocks[b := Block(n, Client)], lists, b + n, blocks[b].size - n);
  }

  lemma ChainsReplace(mem: Memory, heads: seq<nat>, lists: seq<seq<nat>>, i: nat, head: nat, list: seq<nat>)
    requires Chains(mem, heads, lists) && i < |lists| && Chain(mem, head, list)
    ensures Chains(mem, heads[i := head], lists[i := list])
  {
  }

  lemma PutRemove<K, V>(m: map<K, V>, k: K, v: V)
    requires k !in m
    ensures m[k := v] - {k} == m
  {
  }

  lemma PutTwice<K, V>(m: map<K, V>, k: K, v: V, w: V)
    ensures m[k := v][k := w] == m[k := w]
  {
  }

  // ---------- what clients store ----------

  ghost predicate WithinHeld(held: map<nat, nat>, a: nat) { exists p :: p in held && p <= a < p + held[p] }

  /** No word of a client's block has changed. */
  ghost predicate Untouched(held: map<nat, nat>, mem: Memory, mem': Memory) {
    forall a :: WithinHeld(held, a) ==> (a in mem <==> a in mem') && (a in mem ==> mem[a] == mem'[a])
  }

  lemma UntouchedTransitive(held: map<nat, nat>, m0: Memory, m1: Memory, m2: Memory)
    requires Untouched(held, m0, m1) && Untouched(held, m1, m2)
    ensures Untouched(held, m0, m2)
  {
  }

  lemma PoolNotHeld(blocks: Blocks, start: nat, end: nat)
    requires Disjoint(blocks, start, end) && start < end
    ensures !WithinHeld(Held(blocks), start)
  {
  }

  lemma OthersNotHeld(blocks: Blocks, start: nat, end: nat, b: nat, a: nat)
    requires Disjoint(blocks, start, end) && b in blocks && b <= a < b + blocks[b].size
    ensures !WithinHeld(Held(blocks) - {b}, a)
  {
    var others := Held(blocks) - {b};
    forall p | p in others ensures !(p <= a < p + others[p]) { assert p in blocks && p != b; }
  }

  ghost predicate OnlyThese(s: seq<nat>, mem: Memory, mem': Memory) {
    forall a :: a !in s ==> (a in mem <==> a in mem') && (a in mem ==> mem[a] == mem'[a])
  }

  lemma SameIsUntouched(held: map<nat, nat>, s: seq<nat>, mem: Memory, mem': Memory)
    requires OnlyThese(s, mem, mem') && forall a :: a in s ==> !WithinHeld(held, a)
    ensures Untouched(held, mem, mem')
  {
  }

  lemma SameStep(s: seq<nat>, mem: Memory, mem': Memory, a: nat, v: nat)
    requires OnlyThese(s, mem, mem') && a in s
    ensures OnlyThese(s, mem, mem'[a := v])
  {
  }

  lemma StoreUntouched(held: map<nat, nat>, mem: Memory, a: nat, v: nat)
    requires !WithinHeld(held, a)
    ensures Untouched(held, mem, mem[a := v])
  {
  }

  lemma SameStart(s: seq<nat>, mem: Memory)
    ensures OnlyThese(s, mem, mem)
  {
  }

  lemma UntouchedSelf(held: map<nat, nat>, mem: Memory)
    ensures Untouched(held, mem, mem)
  {
  }

  lemma AtLeastOne(size: nat, n: nat)
    requires n > 0
    ensures size <= Span(size, n)
  {
  }

  lemma UntouchedLess(held: map<nat, nat>, gone: set<nat>, mem: Memory, mem': Memory)
    requires Untouched(held, mem, mem')
    ensures Untouched(held - gone, mem, mem')
  {
    forall a | WithinHeld(held - gone, a) ensures WithinHeld(held, a) {
      var p :| p in held - gone && p <= a < p + (held - gone)[p];
      assert p in held && held[p] == (held - gone)[p];
    }
  }

  lemma RoundsTo(n: nat)
    requires n > 0
    ensures n <= MAX_BYTES <==> RoundUp(n) <= MAX_BYTES
  {
  }

  /** Blocks of different clients never overlap, lie on word boundaries, and are apart from the pool. */
  lemma ClientsApart(blocks: Blocks, start: nat, end: nat, chunks: set<Chunk>, p: nat, q: nat)
    requires Divided(blocks, start, end, chunks) && p in Held(blocks) && q in Held(blocks) && p != q
    ensures Aligned(p) && Aligned(q) && (p + Held(blocks)[p] <= q || q + Held(blocks)[q] <= p)
    ensures start < end ==> p + Held(blocks)[p] <= start || end <= p
  {
    assert p in blocks && q in blocks;
  }

  // ---------- blocks straight from malloc ----------

  /** The range touches no block that malloc gave a client directly. */
  ghost predicate Clear(c: Chunk, large: map<nat, nat>) {
    forall p :: p in large ==> p + large[p] <= c.start || c.start + c.size <= p
  }

  /** Those blocks are apart from the chunks and from one another. */
  ghost predicate Apart(large: map<nat, nat>, chunks: set<Chunk>) {
    && (forall c :: c in chunks ==> Clear(c, large))
    && (forall p :: p in large ==> large[p] > MAX_BYTES)
    && (forall p, q :: p in large && q in large && p < q ==> p + large[p] <= q)
  }

  lemma ApartGrow(large: map<nat, nat>, chunks: set<Chunk>, c: Chunk)
    requires Apart(large, chunks) && Clear(c, large)
    ensures Apart(large, chunks + {c})
  {
  }

  lemma ApartAdd(large: map<nat, nat>, chunks: set<Chunk>, c: Chunk)
    requires Apart(large, chunks) && Fresh(c, chunks) && Clear(c, large) && c.size > MAX_BYTES
    ensures c.start !in large && Apart(large[c.start := c.size], chunks)
  {
    var more := large[c.start := c.size];
    assert c.start !in large;
    forall d | d in chunks ensures Clear(d, more) { assert Clear(d, large); }
  }

  lemma ApartLess(large: map<nat, nat>, chunks: set<Chunk>, p: nat)
    requires Apart(large, chunks)
    ensures Apart(large - {p}, chunks)
  {
    forall d | d in chunks ensures Clear(d, large - {p}) { assert Clear(d, large); }
  }

  /** An address in a block of the pool's chunks is in no large block. */
  lemma BlockNotLarge(blocks: Blocks, start: nat, end: nat, chunks: set<Chunk>, large: map<nat, nat>, b: nat, a: nat)
    requires Backed(blocks, start, end, chunks) && Apart(large, chunks)
    requires b in blocks && b <= a < b + blocks[b].size
    ensures !WithinHeld(large, a)
  {
    var c :| c in chunks && Inside(b, blocks[b].size, c);
    assert Clear(c, large);
  }

  /** An address in a large block is in no block of the pool's chunks, and in no other large block. */
  lemma LargeNotHeld(blocks: Blocks, start: nat, end: nat, chunks: set<Chunk>, large: map<nat, nat>, p: nat, a: nat)
    requires Backed(blocks, start, end, chunks) && Apart(large, chunks)
    requires p in large && p <= a < p + large[p]
    ensures !WithinHeld(Held(blocks), a) && !WithinHeld(large - {p}, a)
    ensures a in blocks ==> blocks[a].size == 0
  {
    assert WithinHeld(large, a);
    forall b | b in blocks ensures !(b <= a < b + blocks[b].size) {
      if b <= a < b + blocks[b].size { BlockNotLarge(blocks, start, end, chunks, large, b, a); }
    }
    forall q | q in large - {p} ensures !(q <= a < q + (large - {p})[q]) { assert q in large && q != p; }
  }

  lemma WithinLess(held: map<nat, nat>, p: nat, a: nat)
    requires !WithinHeld(held, a)
    ensures !WithinHeld(held - {p}, a)
  {
    forall q | q in held - {p} ensures !(q <= a < q + (held - {p})[q]) { assert q in held; }
  }

  // ---------- copying ----------

  /** Memory after n words were copied from p on to q on. */
  function Copied(mem: Memory, p: nat, q: nat, n: nat): Memory {
    if n == 0 then mem
    else
      var m := Copied(mem, p, q, n - 1);
      if p + n - 1 in mem then m[q + n - 1 := mem[p + n - 1]] else m
  }

  /** What n words from p on held is now what the n words from q on hold. */
  ghost predicate Carried(mem: Memory, m: Memory, p: nat, q: nat, n: nat) {
    forall a :: p <= a < p + n && a in mem ==> a - p + q in m && m[a - p + q] == mem[a]
  }

  lemma {:induction false} CopiedAt(mem: Memory, p: nat, q: nat, n: nat)
    ensures var m := Copied(mem, p, q, n);
      && Carried(mem, m, p, q, n)
      && (forall a :: !(q <= a < q + n) ==> (a in mem <==> a in m) && (a in mem ==> mem[a] == m[a]))
  {
    if n > 0 { CopiedAt(mem, p, q, n - 1); }
  }

  lemma {:induction false} CopiedChains(mem: Memory, heads: seq<nat>, lists: seq<seq<nat>>, p: nat, q: nat, n: nat)
    requires Chains(mem, heads, lists) && forall a :: q <= a < q + n ==> OnNoList(lists, a)
    ensures Chains(Copied(mem, p, q, n), heads, lists)
  {
    hide Chains, OnNoList;
    if n > 0 {
      CopiedChains(mem, heads, lists, p, q, n - 1);
      if p + n - 1 in mem { ChainsFrame(Copied(mem, p, q, n - 1), heads, lists, q + n - 1, mem[p + n - 1]); }
    }
  }

  lemma CopiedUntouched(held: map<nat, nat>, mem: Memory, p: nat, q: nat, n: nat)
    requires forall a :: q <= a < q + n ==> !WithinHeld(held, a)
    ensures Untouched(held, mem, Copied(mem, p, q, n))
  {
    CopiedAt(mem, p, q, n);
  }

  /** A range inside something untouched. */
  lemma WithinRange(held: map<nat, nat>, p: nat, n: nat)
    requires p in held && n <= held[p]
    ensures forall a :: p <= a < p + n ==> WithinHeld(held, a)
  {
  }

  /** Words copied into what stays untouched afterwards, and out of what was untouched before. */
  lemma CarriedOn(m0: Memory, m1: Memory, m2: Memory, held: map<nat, nat>, p: nat, q: nat, n: nat)
    requires Carried(m0, m1, p, q, n) && Untouched(held, m1, m2) && forall a :: q <= a < q + n ==> WithinHeld(held, a)
    ensures Carried(m0, m2, p, q, n)
  {
  }

  lemma CarriedFrom(m0: Memory, m1: Memory, m2: Memory, held: map<nat, nat>, p: nat, q: nat, n: nat)
    requires Untouched(held, m0, m1) && (forall a :: p <= a < p + n ==> WithinHeld(held, a)) && Carried(m1, m2, p, q, n)
    ensures Carried(m0, m2, p, q, n)
  {
  }

  lemma CarriedInPlace(mem: Memory, p: nat, n: nat)
    ensures Carried(mem, mem, p, p, n)
  {
  }

  lemma UntouchedPart(part: map<nat, nat>, held: map<nat, nat>, mem: Memory, mem': Memory)
    requires Untouched(held, mem, mem') && forall p :: p in part ==> p in held && held[p] == part[p]
    ensures Untouched(part, mem, mem')
  {
    forall a | WithinHeld(part, a) ensures WithinHeld(held, a) {
      var p :| p in part && p <= a < p + part[p];
      assert p in held;
    }
  }
}
