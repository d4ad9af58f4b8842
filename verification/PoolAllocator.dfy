/** The default node allocator: sixteen free lists threaded through the free blocks themselves, and a pool from
    which they are refilled. */
module PoolAllocator {
  import opened Options
  import opened PoolBlocks

  /** What malloc and, after it failed, malloc_alloc::allocate would return for the request at hand; None stands for
      a null pointer, and for an exception. */
  datatype Answers = Answers(malloc: Option<nat>, lastResort: Option<nat>)

  /** A range that malloc may return while the chunks and the large blocks are allocated. */
  ghost predicate Given(c: Chunk, chunks: set<Chunk>, large: map<nat, nat>) { Fresh(c, chunks) && Clear(c, large) }

  ghost predicate Honest(answers: Answers, size: nat, chunks: set<Chunk>, large: map<nat, nat>) {
    && (answers.malloc.Some? ==> Given(Chunk(answers.malloc.value, size), chunks, large))
    && (answers.lastResort.Some? ==> Given(Chunk(answers.lastResort.value, size), chunks, large))
  }

  /** The free lists, the pool, and what malloc gave for it. */
  datatype Stock = Stock(lists: seq<seq<nat>>, start: nat, end: nat, heapSize: nat, chunks: set<Chunk>)

  /** A pool that is too small for one block becomes a block of the list of its size. */
  function PutAway(s: Stock): Stock {
    if s.start >= s.end || |s.lists| != LISTS || s.end - s.start > MAX_BYTES then s.(start := s.end)
    else
      var i := ListIndex(s.end - s.start);
      s.(lists := s.lists[i := [s.start] + s.lists[i]], start := s.end)
  }

  /** The first list from i on that is not empty, or their number. */
  function FirstFilled(lists: seq<seq<nat>>, i: nat): (j: nat)
    ensures j >= i && (i <= |lists| ==> j <= |lists|) && (j < |lists| ==> lists[j] != [])
    ensures forall k :: i <= k < |lists| && k < j ==> lists[k] == []
    decreases |lists| - i
  {
    if i < |lists| && lists[i] == [] then FirstFilled(lists, i + 1) else i
  }

  function Grown(s: Stock, start: nat, size: nat): Stock {
    Stock(s.lists, start, start + size, s.heapSize + size, s.chunks + {Chunk(start, size)})
  }

  /** The least free block that fits becomes the pool. */
  function Reused(s: Stock, j: nat): Stock
    requires j < |s.lists| && s.lists[j] != []
  {
    s.(lists := s.lists[j := s.lists[j][1..]], start := s.lists[j][0], end := s.lists[j][0] + BlockSize(j))
  }

  /** With a pool too small for one block: malloc is asked first, then the lists, and malloc again last. */
  function Replaced(s: Stock, size: nat, request: nat, answers: Answers): Stock
    requires size > 0
  {
    var a := PutAway(s);
    var j := FirstFilled(a.lists, ListIndex(size));
    if answers.malloc.Some? then Grown(a, answers.malloc.value, request)
    else if j < |a.lists| then Reused(a, j)
    else if answers.lastResort.Some? then Grown(a, answers.lastResort.value, request)
    else a
  }

  /** The stock that blocks of a size are cut from. */
  function Ready(s: Stock, size: nat, request: nat, answers: Answers): Stock
    requires size > 0
  {
    if s.end >= s.start + size then s else Replaced(s, size, request, answers)
  }

  /** How many blocks are cut, of nobjs that are wanted; none where the pool is too small for one. */
  function Cut(s: Stock, size: nat, nobjs: nat): (got: nat)
    requires size > 0
    ensures got <= nobjs
  {
    if s.end < s.start + size then 0 else if (s.end - s.start) / size < nobjs then (s.end - s.start) / size else nobjs
  }

  function Shortened(s: Stock, size: nat, nobjs: nat): Stock
    requires size > 0
  {
    s.(start := s.start + Span(size, Cut(s, size, nobjs)))
  }

  lemma CutNone(s: Stock, size: nat, nobjs: nat)
    requires size > 0 && nobjs > 0
    ensures Cut(s, size, nobjs) == 0 <==> s.end < s.start + size
  {
    if s.end >= s.start + size { assert 1 <= (s.end - s.start) / size; }
  }

  /** As many as are wanted where their length fits, and else as many as fit. */
  lemma CutIs(s: Stock, size: nat, nobjs: nat)
    requires size > 0 && nobjs > 0 && s.start <= s.end
    ensures Cut(s, size, nobjs) == (if s.end - s.start < size then 0
                                    else if s.end - s.start >= size * nobjs then nobjs else (s.end - s.start) / size)
  {
    var left := s.end - s.start;
    var q := left / size;
    assert size * q <= left < size * (q + 1);
    if left >= size * nobjs {
      if q < nobjs { LongerSpan(size, q + 1, nobjs); }
    } else {
      if q >= nobjs { LongerSpan(size, nobjs, q); }
    }
  }

  lemma ReadyIs(s: Stock, size: nat, request: nat, answers: Answers)
    requires size > 0
    ensures Ready(s, size, request, answers) == if s.end >= s.start + size then s else Replaced(s, size, request, answers)
  {
  }

  /** A pool that was replaced is long enough. */
  lemma ReadyFits(s: Stock, size: nat, request: nat, answers: Answers)
    requires s.end < s.start + size && 0 < size <= MAX_BYTES && Aligned(size) && request >= size && |PutAway(s).lists| == LISTS
    ensures var r := Replaced(s, size, request, answers);
      r.end < r.start + size <==> answers == Answers(None, None) && forall j :: ListIndex(size) <= j < LISTS ==> PutAway(s).lists[j] == []
  {
    IndexOfSize(size);
    var a := PutAway(s);
    var j := FirstFilled(a.lists, ListIndex(size));
    if j < LISTS { BlockSizeMonotone(ListIndex(size), j); }
    assert a.start == a.end;
  }

  /** The first block that was cut is the client's, the others are the list of their size. */
  function Refilled(s: Stock, n: nat): Stock
    requires n > 0
  {
    var got := Cut(s, n, REFILL);
    if got == 0 || ListIndex(n) >= |s.lists| then s
    else Shortened(s, n, REFILL).(lists := s.lists[ListIndex(n) := Pieces(s.start + n, n, got - 1)])
  }

  lemma ReadyLists(s: Stock, size: nat, request: nat, answers: Answers)
    requires size > 0
    ensures |Ready(s, size, request, answers).lists| == |s.lists|
  {
  }

  lemma RefilledIs(s: Stock, n: nat)
    requires n > 0 && ListIndex(n) < |s.lists|
    ensures Cut(s, n, REFILL) == 0 ==> Refilled(s, n) == s && Shortened(s, n, REFILL) == s
    ensures Cut(s, n, REFILL) == 1 && s.lists[ListIndex(n)] == [] ==> Refilled(s, n) == Shortened(s, n, REFILL)
    ensures var got := Cut(s, n, REFILL);
      got > 1 ==> Refilled(s, n) == Shortened(s, n, REFILL).(lists := s.lists[ListIndex(n) := Pieces(s.start + n, n, got - 1)])
  {
    hide Cut;
  }

  /** Putting the left-over away fills no list of blocks of the size that did not fit. */
  lemma PutAwayBelow(s: Stock, size: nat, j: nat)
    requires s.start <= s.end < s.start + size && Aligned(s.end - s.start) && Aligned(size) && 0 < size <= MAX_BYTES
    requires |s.lists| == LISTS && ListIndex(size) <= j < LISTS
    ensures |PutAway(s).lists| == LISTS && PutAway(s).lists[j] == s.lists[j]
  {
  }

  class Allocator {
    const freeList: array<nat>
    var startFree: nat
    var endFree: nat
    var heapSize: nat
    var mem: Memory

    ghost var blocks: Blocks
    ghost var lists: seq<seq<nat>>
    ghost var chunks: set<Chunk>

    /** The blocks of more than MAX_BYTES, which malloc gave the clients directly, and their sizes. */
    ghost var large: map<nat, nat>

    /** What holds throughout: blocks and pool are aligned and disjoint, lie in what malloc returned and add up to
        heapSize; list i links exactly the free blocks of its size. */
    ghost predicate Sound()
      reads this, freeList
    {
      && freeList.Length == LISTS && Division(blocks, lists, startFree, endFree, chunks)
      && Chains(mem, freeList[..], lists)
      && Total(blocks) + (endFree - startFree) == heapSize && Aligned(heapSize)
      && Apart(large, chunks)
    }

    /** Between calls, moreover, no client's block is longer than MAX_BYTES. */
    ghost predicate Valid()
      reads this, freeList
    {
      Sound() && forall p :: p in Held(blocks) ==> Held(blocks)[p] <= MAX_BYTES
    }

    constructor ()
      ensures Valid() && fresh(freeList) && Held(blocks) == map[] && large == map[] && heapSize == 0
    {
      freeList := new nat[LISTS](_ => 0);
      startFree, endFree, heapSize := 0, 0, 0;
      mem := map[];
      blocks := map[];
      lists := seq(LISTS, _ => []);
      chunks := {};
      large := map[];
    }

    ghost function Now(): Stock
      reads this
    {
      Stock(lists, startFree, endFree, heapSize, chunks)
    }

    /** What a refill asks malloc for: _S_chunk_alloc. */
    function BytesToGet(total: nat): nat
      reads this
    {
      2 * total + RoundUp(heapSize / 16)
    }

    // ---------- steps of _S_chunk_alloc ----------

    method TakeFromPool(size: nat) returns (p: nat)
      requires Sound() && 0 < size <= endFree - startFree && Aligned(size)
      modifies this`startFree, this`blocks
      ensures Sound() && p == old(startFree) && startFree == p + size
      ensures p !in old(blocks) && blocks == old(blocks)[p := Block(size, Client)]
    {
      hide Divided, Listed, Total, Aligned;
      CutFromPool(blocks, startFree, endFree, chunks, size, Client);
      ClientListed(blocks, lists, startFree, size);
      TotalPut(blocks, startFree, Block(size, Client));
      p := startFree;
      startFree := startFree + size;
      blocks := blocks[p := Block(size, Client)];
    }

    /** A client's block goes to the front of list i. */
    method Link(b: nat, i: nat)
      requires Sound() && i < LISTS && b in blocks && blocks[b] == Block(BlockSize(i), Client)
      modifies this`mem, this`blocks, this`lists, freeList
      ensures Sound() && blocks == old(blocks)[b := Block(BlockSize(i), OnList(i))]
      ensures lists == old(lists)[i := [b] + old(lists)[i]]
      ensures mem == old(mem)[b := old(freeList[i])]
    {
      hide Divided, Listed, Total, Aligned, BlockSize, Chains, OnNoList;
      LinkSteps(blocks, lists, startFree, endFree, chunks, mem, freeList[..], b, i);
      mem := mem[b := freeList[i]];
      ghost var heads := freeList[..];
      freeList[i] := b;
      assert freeList[..] == heads[i := b];
      blocks := blocks[b := Block(BlockSize(i), OnList(i))];
      lists := lists[i := [b] + lists[i]];
    }

    /** The first block of list i goes to a client. */
    method Unlink(i: nat) returns (b: nat)
      requires Sound() && i < LISTS && lists[i] != []
      modifies this`blocks, this`lists, freeList
      ensures Sound() && b == old(freeList[i]) == old(lists)[i][0] && b in old(blocks) && old(blocks)[b] == Block(BlockSize(i), OnList(i))
      ensures blocks == old(blocks)[b := Block(BlockSize(i), Client)] && lists == old(lists)[i := old(lists)[i][1..]]
    {
      hide Divided, Listed, Total, Aligned, BlockSize, Chains;
      UnlinkSteps(blocks, lists, startFree, endFree, chunks, mem, freeList[..], i);
      b := freeList[i];
      ghost var heads := freeList[..];
      freeList[i] := mem[b];
      assert freeList[..] == heads[i := mem[b]];
      blocks := blocks[b := Block(BlockSize(i), Client)];
      lists := lists[i := lists[i][1..]];
    }

    lemma NotHeldPool()
      requires Sound() && startFree < endFree
      ensures !WithinHeld(Held(blocks), startFree)
    {
      PoolNotHeld(blocks, startFree, endFree);
    }

    /** An address in a block is in no large block. */
    lemma NotLarge(b: nat, a: nat)
      requires Sound() && b in blocks && b <= a < b + blocks[b].size
      ensures !WithinHeld(large, a)
    {
      BlockNotLarge(blocks, startFree, endFree, chunks, large, b, a);
    }

    /** The left-over piece goes to the list of its size. */
    method PushLeftOver()
      requires Sound() && 0 < endFree - startFree < MAX_BYTES
      modifies this, freeList
      ensures Sound() && startFree == endFree == old(endFree) && heapSize == old(heapSize) && chunks == old(chunks)
      ensures Held(blocks) == old(Held(blocks)) && Untouched(Held(blocks), old(mem), mem)
      ensures large == old(large) && Untouched(large, old(mem), mem)
      ensures forall i :: 0 <= i < LISTS && BlockSize(i) != old(endFree - startFree) ==> lists[i] == old(lists)[i]
      ensures Now() == PutAway(old(Now()))
    {
      hide Divided, Listed, Total, Aligned, BlockSize, Chains, Held, ListIndex, Apart, WithinHeld;
      LeftOverSize(blocks, lists, startFree, endFree, chunks);
      ListCount(blocks, lists);
      var size := endFree - startFree;
      var i := ListIndex(size);
      HeldUpdate(blocks, startFree, Block(size, OnList(i)));
      NotHeldPool();
      var p := TakeFromPool(size);
      NotLarge(p, p);
      StoreUntouched(large, mem, p, freeList[i]);
      Link(p, i);
      assert blocks == old(blocks)[p := Block(size, OnList(i))];
    }

    /** A free block becomes the pool, which is empty. */
    method ReuseBlock(i: nat)
      requires Sound() && startFree == endFree && i < LISTS && lists[i] != []
      modifies this`startFree, this`endFree, this`blocks, this`lists, freeList
      ensures Sound() && endFree - startFree == BlockSize(i)
      ensures Held(blocks) == old(Held(blocks)) && lists == old(lists)[i := old(lists)[i][1..]]
      ensures Now() == Reused(old(Now()), i)
    {
      hide Divided, Listed, Total, Aligned, BlockSize, Chains, Held;
      ghost var before := blocks;
      var b := Unlink(i);
      RemoveSteps(before, blocks, lists, startFree, chunks, b, BlockSize(i), i);
      blocks := blocks - {b};
      startFree := b;
      endFree := startFree + BlockSize(i);
    }

    /** A new chunk becomes the pool. */
    method Grow(start: nat, size: nat)
      requires Sound() && startFree == endFree && Aligned(size) && Given(Chunk(start, size), chunks, large)
      modifies this`startFree, this`endFree, this`heapSize, this`chunks
      ensures Sound() && endFree - startFree == size && chunks == old(chunks) + {Chunk(start, size)}
      ensures heapSize == old(heapSize) + size && Now() == Grown(old(Now()), start, size)
    {
      hide Disjoint, WellAligned, Backed, Listed, Total, Chains, Apart, Clear;
      ApartGrow(large, chunks, Chunk(start, size));
      ChunkToPool(blocks, startFree, chunks, Chunk(start, size));
      AlignedParts(heapSize, size);
      chunks := chunks + {Chunk(start, size)};
      startFree := start;
      heapSize := heapSize + size;
      endFree := startFree + size;
    }

    /** The loop that looks for a free block of at least the given size. */
    method FindFree(size: nat) returns (found: Option<nat>)
      requires Sound() && 0 < size <= MAX_BYTES && Aligned(size)
      ensures |lists| == LISTS && FirstFilled(lists, ListIndex(size)) == if found.Some? then found.value else LISTS
      ensures found.Some? ==> ListIndex(size) <= found.value < LISTS && lists[found.value] != []
      ensures found.Some? ==> forall j :: ListIndex(size) <= j < found.value ==> lists[j] == []
      ensures found.None? ==> forall j :: ListIndex(size) <= j < LISTS ==> lists[j] == []
    {
      var i := size;
      while i <= MAX_BYTES
        invariant Aligned(i) && size <= i <= MAX_BYTES + ALIGN
        invariant forall j :: ListIndex(size) <= j < ListIndex(i) ==> lists[j] == []
      {
        hide Divided, Listed, Total, Chains;
        IndexOfSize(i);
        HeadTellsEmpty(blocks, lists, startFree, endFree, chunks, mem, freeList[..], ListIndex(i));
        if freeList[ListIndex(i)] != 0 {
          FirstIs(lists, ListIndex(size), ListIndex(i));
          return Some(ListIndex(i));
        }
        i := i + ALIGN;
      }
      PoolOrdered();
      FirstIs(lists, ListIndex(size), LISTS);
      return None;
    }

    lemma PoolOrdered()
      requires Sound()
      ensures startFree <= endFree && |lists| == LISTS == freeList.Length
    {
    }

    /** The last branch of _S_chunk_alloc up to its recursive call: the pool, too small, is replaced. */
    method ReplacePool(size: nat, total: nat, answers: Answers) returns (ok: bool)
      requires Sound() && 0 < size <= MAX_BYTES && Aligned(size) && endFree - startFree < size <= total && Aligned(total)
      requires Honest(answers, BytesToGet(total), chunks, large)
      modifies this, freeList
      ensures Sound() && Held(blocks) == old(Held(blocks)) && Untouched(Held(blocks), old(mem), mem)
      ensures large == old(large) && Untouched(large, old(mem), mem)
      ensures ok ==> endFree - startFree >= size
      ensures !ok ==> startFree == endFree && answers == Answers(None, None) && forall j :: ListIndex(size) <= j < LISTS ==> lists[j] == []
      ensures old(lists)[ListIndex(size)] == [] ==> lists[ListIndex(size)] == []
      ensures Now() == Replaced(old(Now()), size, old(BytesToGet(total)), answers)
    {
      hide Divided, Listed, Total, Chains, Held, Division, Aligned, ListIndex, BlockSize, RoundUp, Untouched, Apart, Clear;
      IndexOfSize(size);
      RequestAligned(total, heapSize);
      UntouchedSelf(Held(blocks), mem);
      UntouchedSelf(large, mem);
      PoolOrdered();
      var toGet := BytesToGet(total);
      if endFree - startFree > 0 { PushLeftOver(); }
      PoolOrdered();
      if answers.malloc.Some? {
        Grow(answers.malloc.value, toGet);
        return true;
      }
      var i := FindFree(size);
      if i.Some? {
        ReuseBlock(i.value);
        BlockSizeMonotone(ListIndex(size), i.value);
        return true;
      }
      if answers.lastResort.None? { return false; }
      Grow(answers.lastResort.value, toGet);
      return true;
    }

    /** Neither the pool nor a list has a block of this size, or a longer one. */
    ghost predicate Exhausted(size: nat)
      requires size > 0
      reads this
    {
      endFree - startFree < size && forall j :: ListIndex(size) <= j < |lists| ==> lists[j] == []
    }

    lemma NullWhenExhausted(size: nat, nobjs: nat, request: nat, answers: Answers)
      requires Sound() && 0 < size <= MAX_BYTES && Aligned(size) && 0 < nobjs && request >= size
      ensures Cut(Ready(Now(), size, request, answers), size, nobjs) == 0 <==> Exhausted(size) && answers == Answers(None, None)
    {
      hide Divided, Listed, Total, Chains, Apart;
      PoolOrdered();
      PoolAligned();
      IndexOfSize(size);
      if endFree - startFree < size {
        forall j | ListIndex(size) <= j < LISTS ensures |PutAway(Now()).lists| == LISTS && PutAway(Now()).lists[j] == lists[j] {
          PutAwayBelow(Now(), size, j);
        }
        ReadyFits(Now(), size, request, answers);
      }
      CutNone(Ready(Now(), size, request, answers), size, nobjs);
    }

    lemma PoolAligned()
      requires Sound()
      ensures Aligned(endFree - startFree)
    {
      AlignedParts(endFree, startFree);
    }

    lemma AsksEnough(size: nat, nobjs: nat)
      requires nobjs > 0
      ensures BytesToGet(Span(size, nobjs)) >= size
    {
    }

    /** _S_chunk_alloc: nobjs blocks of the given size, or as many as the pool allows. */
    method ChunkAlloc(size: nat, nobjs: nat, answers: Answers) returns (result: Option<nat>, got: nat)
      requires Sound() && 0 < size <= MAX_BYTES && Aligned(size) && 0 < nobjs
      requires endFree - startFree < size ==> Honest(answers, BytesToGet(Span(size, nobjs)), chunks, large)
      modifies this, freeList
      ensures Sound() && Untouched(old(Held(blocks)), old(mem), mem)
      ensures large == old(large) && Untouched(large, old(mem), mem)
      ensures result.Some? ==>
        && 1 <= got <= nobjs && result.value !in old(Held(blocks))
        && result.value in blocks && blocks[result.value] == Block(Span(size, got), Client)
        && Held(blocks) == old(Held(blocks))[result.value := Span(size, got)]
      ensures result.None? ==> Held(blocks) == old(Held(blocks)) && answers == Answers(None, None)
      ensures old(lists)[ListIndex(size)] == [] ==> lists[ListIndex(size)] == []
      ensures old(endFree - startFree) >= size ==> result.Some?
      ensures
        var s := Ready(old(Now()), size, old(BytesToGet(Span(size, nobjs))), answers);
        got == Cut(s, size, nobjs) && result == (if got == 0 then None else Some(s.start)) && Now() == Shortened(s, size, nobjs)
      ensures result.None? <==> old(Exhausted(size)) && answers == Answers(None, None)
      decreases endFree - startFree < size
    {
      hide Divided, Listed, Total, Chains, Held, Division, Aligned, ListIndex, Honest, BytesToGet, Span, Untouched, Apart;
      hide Exhausted, Ready, Cut, Replaced;
      IndexOfSize(size);
      AlignedProduct(size, nobjs);
      SpanIsProduct(size, nobjs);
      SpanIsProduct(size, 0);
      AtLeastOne(size, nobjs);
      PoolOrdered();
      AsksEnough(size, nobjs);
      NullWhenExhausted(size, nobjs, BytesToGet(Span(size, nobjs)), answers);
      ReadyIs(Now(), size, BytesToGet(Span(size, nobjs)), answers);
      var total := size * nobjs;
      var left := endFree - startFree;
      if left >= size {
        result, got := CutPool(size, nobjs);
      } else {
        var ok := ReplacePool(size, total, answers);
        PoolOrdered();
        CutIs(Now(), size, nobjs);
        if !ok { return None, 0; }
        ghost var m1 := mem;
        ReadyIs(Now(), size, BytesToGet(Span(size, nobjs)), Answers(None, None));
        result, got := ChunkAlloc(size, nobjs, Answers(None, None));
        UntouchedTransitive(old(Held(blocks)), old(mem), m1, mem);
        UntouchedTransitive(large, old(mem), m1, mem);
      }
    }

    /** The first two branches: the pool has room for all blocks, or for some. */
    method CutPool(size: nat, nobjs: nat) returns (result: Option<nat>, got: nat)
      requires Sound() && 0 < size <= MAX_BYTES && Aligned(size) && 0 < nobjs && endFree - startFree >= size
      modifies this`startFree, this`blocks
      ensures Sound() && Untouched(old(Held(blocks)), mem, mem) && Untouched(large, mem, mem)
      ensures 1 <= got <= nobjs && got == Cut(old(Now()), size, nobjs) && result == Some(old(startFree))
      ensures result.value !in old(Held(blocks)) && result.value in blocks && blocks[result.value] == Block(Span(size, got), Client)
      ensures Held(blocks) == old(Held(blocks))[result.value := Span(size, got)]
      ensures Now() == Shortened(old(Now()), size, nobjs)
    {
      hide Divided, Listed, Total, Chains, Held, Division, Aligned, ListIndex, Span, Untouched, Apart, Cut;
      PoolOrdered();
      SpanIsProduct(size, nobjs);
      UntouchedSelf(Held(blocks), mem);
      UntouchedSelf(large, mem);
      CutIs(Now(), size, nobjs);
      var total := size * nobjs;
      var left := endFree - startFree;
      if left >= total {
        got := nobjs;
      } else {
        got := left / size;
        AsManyAsFit(size, nobjs, left);
        SpanIsProduct(size, got);
      }
      result := TakePieces(size, got);
    }

    method TakePieces(size: nat, got: nat) returns (p: Option<nat>)
      requires Sound() && 0 < size && 0 < got && Aligned(size) && Span(size, got) <= endFree - startFree
      modifies this`startFree, this`blocks
      ensures Sound() && p.Some? && p.value !in old(blocks)
      ensures p.value == old(startFree) && startFree == old(startFree) + Span(size, got)
      ensures blocks == old(blocks)[p.value := Block(Span(size, got), Client)]
      ensures p.value !in old(Held(blocks)) && Held(blocks) == old(Held(blocks))[p.value := Span(size, got)]
    {
      hide Divided, Listed, Total, Chains, Held, Aligned;
      AlignedProduct(size, got);
      SpanIsProduct(size, got);
      HeldUpdate(blocks, startFree, Block(Span(size, got), Client));
      var totalBytes := size * got;
      var a := TakeFromPool(totalBytes);
      p := Some(a);
    }

    // ---------- the operations ----------

    lemma Head(i: nat)
      requires Sound() && i < LISTS
      ensures freeList.Length == LISTS == |lists| && (freeList[i] == 0 <==> lists[i] == [])
      ensures freeList[i] == if lists[i] == [] then 0 else lists[i][0]
    {
      assert Chain(mem, freeList[i], lists[i]);
      HeadTellsEmpty(blocks, lists, startFree, endFree, chunks, mem, freeList[..], i);
    }

    lemma ListOfSize(i: nat)
      requires Sound() && i < LISTS && freeList.Length == LISTS && freeList[i] != 0
      ensures freeList[i] in blocks && blocks[freeList[i]] == Block(BlockSize(i), OnList(i)) && freeList[i] !in Held(blocks)
    {
      Head(i);
      UnlinkSteps(blocks, lists, startFree, endFree, chunks, mem, freeList[..], i);
    }

    /** The loop of _S_refill: pieces of n bytes from first on are linked to one another. */
    method BuildList(first: nat, n: nat, count: nat)
      requires Chains(mem, freeList[..], lists) && n > 0 && count > 0
      requires forall a :: a in Pieces(first, n, count) ==> OnNoList(lists, a)
      modifies this`mem
      ensures Chains(mem, freeList[..], lists) && Chain(mem, first, Pieces(first, n, count))
      ensures OnlyThese(Pieces(first, n, count), old(mem), mem)
    {
      hide Pieces, Chains, OnNoList, Chain, OnlyThese;
      ghost var s := Pieces(first, n, count);
      SameStart(s, mem);
      var next := first;
      var i := 1;
      while true
        invariant 1 <= i <= count && |s| == count && next == s[i - 1] && s == Pieces(first, n, count)
        invariant forall k :: 0 <= k < i - 1 ==> s[k] in mem && mem[s[k]] == s[k + 1]
        invariant Chains(mem, freeList[..], lists) && OnlyThese(s, old(mem), mem)
        decreases count - i
      {
        var current := next;
        next := next + n;
        forall k | 0 <= k < i - 1 ensures s[k] < current { PiecesIncrease(first, n, count, k, i - 1); }
        if i == count {
          ChainsFrame(mem, freeList[..], lists, current, 0);
          SameStep(s, old(mem), mem, current, 0);
          mem := mem[current := 0];
          break;
        } else {
          PiecesNext(first, n, count, i - 1);
          ChainsFrame(mem, freeList[..], lists, current, next);
          SameStep(s, old(mem), mem, current, next);
          mem := mem[current := next];
        }
        i := i + 1;
      }
      ChainOfLinks(mem, s);
    }

    /** _S_refill: the first block goes to the client, the others become the list, which is empty. */
    method Refill(n: nat, answers: Answers) returns (p: Option<nat>)
      requires Valid() && 0 < n <= MAX_BYTES && Aligned(n) && lists[ListIndex(n)] == []
      requires Honest(answers, BytesToGet(Span(n, REFILL)), chunks, large)
      modifies this, freeList
      ensures Valid() && Untouched(old(Held(blocks)), old(mem), mem)
      ensures large == old(large) && Untouched(large, old(mem), mem)
      ensures p.Some? ==> p.value !in old(Held(blocks)) && Held(blocks) == old(Held(blocks))[p.value := n]
      ensures p.None? ==> Held(blocks) == old(Held(blocks)) && answers == Answers(None, None)
      ensures
        var s := Ready(old(Now()), n, old(BytesToGet(Span(n, REFILL))), answers);
        p == (if Cut(s, n, REFILL) == 0 then None else Some(s.start)) && Now() == Refilled(s, n)
      ensures p.None? <==> old(Exhausted(n)) && answers == Answers(None, None)
    {
      hide Sound, Held, Aligned, ListIndex, Honest, BlockSize, RoundUp, Span, BytesToGet, Untouched, Ready, Cut, Exhausted;
      IndexOfSize(n);
      Head(ListIndex(n));
      ghost var s := Ready(Now(), n, BytesToGet(Span(n, REFILL)), answers);
      var chunk, nobjs := ChunkAlloc(n, REFILL, answers);
      ReadyLists(old(Now()), n, old(BytesToGet(Span(n, REFILL))), answers);
      RefilledIs(s, n);
      if chunk.None? { return None; }
      p := chunk;
      Head(ListIndex(n));
      SpanIsProduct(n, nobjs);
      if nobjs > 1 {
        PutTwice(old(Held(blocks)), p.value, Span(n, nobjs), n);
        PutRemove(old(Held(blocks)), p.value, Span(n, nobjs));
        ghost var m1 := mem;
        MakeList(chunk.value, ListIndex(n), nobjs);
        UntouchedTransitive(old(Held(blocks)), old(mem), m1, mem);
        UntouchedTransitive(large, old(mem), m1, mem);
      }
    }

    /** The part of _S_refill after _S_chunk_alloc has returned more than one block. */
    method MakeList(chunk: nat, i: nat, nobjs: nat)
      requires Sound() && i < LISTS && |lists| == LISTS && lists[i] == [] && nobjs > 1
      requires chunk in blocks && blocks[chunk] == Block(Span(BlockSize(i), nobjs), Client)
      modifies this`mem, this`blocks, this`lists, freeList
      ensures Sound() && Held(blocks) == old(Held(blocks))[chunk := BlockSize(i)]
      ensures lists == old(lists)[i := Pieces(chunk + BlockSize(i), BlockSize(i), nobjs - 1)]
      ensures Untouched(old(Held(blocks)) - {chunk}, old(mem), mem) && Untouched(large, old(mem), mem)
    {
      hide Total, Held, Aligned, Chains, BlockSize, OnNoList, Division, Pieces, Span, Apart, WithinHeld;
      BlockSizes(i);
      RefillSizes(BlockSize(i), nobjs);
      ghost var after := RefillSteps(blocks, lists, startFree, endFree, chunks, chunk, i, nobjs);
      PiecesApart(chunk, BlockSize(i), nobjs);
      var n := BlockSize(i);
      var second: nat := chunk + n;
      BuildList(second, n, nobjs - 1);
      SameIsUntouched(Held(blocks) - {chunk}, Pieces(second, n, nobjs - 1), old(mem), mem);
      SameIsUntouched(large, Pieces(second, n, nobjs - 1), old(mem), mem);
      ChainsReplace(mem, freeList[..], lists, i, second, Pieces(second, n, nobjs - 1));
      ghost var heads := freeList[..];
      freeList[i] := second;
      assert freeList[..] == heads[i := second];
      blocks := after;
      lists := lists[i := Pieces(second, n, nobjs - 1)];
    }

    lemma PiecesApart(chunk: nat, n: nat, nobjs: nat)
      requires Sound() && nobjs > 1 && n > 0 && chunk in blocks && blocks[chunk] == Block(Span(n, nobjs), Client)
      ensures forall a :: a in Pieces(chunk + n, n, nobjs - 1) ==> OnNoList(lists, a) && !WithinHeld(Held(blocks) - {chunk}, a)
      ensures forall a :: a in Pieces(chunk + n, n, nobjs - 1) ==> !WithinHeld(large, a)
    {
      hide OnNoList, Pieces, Held, Total, WithinHeld, Apart;
      RefillSizes(n, nobjs);
      forall a | a in Pieces(chunk + n, n, nobjs - 1) ensures OnNoList(lists, a) && !WithinHeld(Held(blocks) - {chunk}, a) && !WithinHeld(large, a) {
        var k :| 0 <= k < nobjs - 1 && Pieces(chunk + n, n, nobjs - 1)[k] == a;
        PiecesWithin(chunk + n, n, nobjs - 1, k);
        PiecesUnlisted(blocks, lists, startFree, endFree, chunks, chunk, a);
        OthersNotHeld(blocks, startFree, endFree, chunk, a);
        NotLarge(chunk, a);
      }
    }

    /** allocate. Large requests go to malloc. */
    method Allocate(n: nat, answers: Answers) returns (p: Option<nat>)
      requires Valid() && n > 0
      requires Honest(answers, if n <= MAX_BYTES then BytesToGet(Span(RoundUp(n), REFILL)) else n, chunks, large)
      modifies this, freeList
      ensures Valid() && Untouched(old(Held(blocks)), old(mem), mem) && Untouched(old(large), old(mem), mem)
      ensures p.None? ==> Held(blocks) == old(Held(blocks)) && large == old(large)
      ensures n > MAX_BYTES ==>
        && p == answers.lastResort && Held(blocks) == old(Held(blocks))
        && (p.Some? ==> p.value !in old(large) && large == old(large)[p.value := n])
      ensures n <= MAX_BYTES && p.Some? ==>
        p.value !in old(Held(blocks)) && Held(blocks) == old(Held(blocks))[p.value := RoundUp(n)] && large == old(large)
      ensures n <= MAX_BYTES ==> |old(lists)| == LISTS && (p.None? <==> old(Exhausted(RoundUp(n))) && answers == Answers(None, None))
      ensures n <= MAX_BYTES && old(lists)[ListIndex(n)] != [] ==>
        var i, s := ListIndex(n), old(Now());
        p == Some(s.lists[i][0]) && Now() == s.(lists := s.lists[i := s.lists[i][1..]]) && mem == old(mem)
      ensures n <= MAX_BYTES && old(lists)[ListIndex(n)] == [] ==>
        var s := Ready(old(Now()), RoundUp(n), old(BytesToGet(Span(RoundUp(n), REFILL))), answers);
        p == (if Cut(s, RoundUp(n), REFILL) == 0 then None else Some(s.start)) && Now() == Refilled(s, RoundUp(n))
      ensures n > MAX_BYTES ==> Now() == old(Now()) && mem == old(mem)
    {
      hide Sound, Held, Aligned, ListIndex, BlockSize, RoundUp, Span, BytesToGet, Untouched, Apart, Fresh, Clear;
      UntouchedSelf(Held(blocks), mem);
      UntouchedSelf(large, mem);
      hide Ready, Cut, Refilled;
      if n > MAX_BYTES {
        if answers.lastResort.Some? { TakeLarge(answers.lastResort.value, n); }
        return answers.lastResort;
      }
      hide Honest;
      IndexOfSize(n);
      var i := ListIndex(n);
      Head(i);
      if freeList[i] == 0 {
        p := Refill(RoundUp(n), answers);
      } else {
        ListOfSize(i);
        HeldUpdate(blocks, freeList[i], Block(BlockSize(i), Client));
        var b := Unlink(i);
        p := Some(b);
      }
    }

    /** What malloc gave for a large request is the client's. */
    ghost method TakeLarge(p: nat, n: nat)
      requires Valid() && n > MAX_BYTES && Given(Chunk(p, n), chunks, large)
      modifies this`large
      ensures Valid() && p !in old(large) && large == old(large)[p := n]
    {
      hide Division, Total, Chains, Held, Apart, Fresh, Clear;
      ApartAdd(large, chunks, Chunk(p, n));
      large := large[p := n];
    }

    ghost method FreeLarge(p: nat)
      requires Valid()
      modifies this`large
      ensures Valid() && large == old(large) - {p}
    {
      hide Division, Total, Chains, Held, Apart;
      ApartLess(large, chunks, p);
      large := large - {p};
    }

    lemma HeldBlock(p: nat)
      requires Sound() && p in Held(blocks)
      ensures p in blocks && blocks[p] == Block(Held(blocks)[p], Client) && !WithinHeld(Held(blocks) - {p}, p) && !WithinHeld(large, p)
    {
      OthersNotHeld(blocks, startFree, endFree, p, p);
      NotLarge(p, p);
    }

    /** deallocate, of what allocate gave for the same size. */
    method Deallocate(p: nat, n: nat)
      requires Valid() && n > 0
      requires if n <= MAX_BYTES then p in Held(blocks) && Held(blocks)[p] == RoundUp(n) else p in large && large[p] == n
      modifies this, freeList
      ensures Untouched(Held(blocks), old(mem), mem) && Untouched(large, old(mem), mem)
      ensures Valid() && Held(blocks) == if n > MAX_BYTES then old(Held(blocks)) else old(Held(blocks)) - {p}
      ensures large == if n > MAX_BYTES then old(large) - {p} else old(large)
      ensures heapSize == old(heapSize) && chunks == old(chunks)
      ensures
        if n > MAX_BYTES then Now() == old(Now()) && mem == old(mem)
        else
          var i, s := ListIndex(n), old(Now());
          && |s.lists| == LISTS && Now() == s.(lists := s.lists[i := [p] + s.lists[i]])
          && mem == old(mem)[p := if s.lists[i] == [] then 0 else s.lists[i][0]]
    {
      hide Sound, Held, ListIndex, BlockSize, RoundUp, Untouched, WithinHeld;
      if n > MAX_BYTES {
        UntouchedSelf(Held(blocks), mem);
        UntouchedSelf(large - {p}, mem);
        FreeLarge(p);
        return;
      }
      IndexOfSize(n);
      HeldUpdate(blocks, p, Block(RoundUp(n), OnList(ListIndex(n))));
      HeldBlock(p);
      Head(ListIndex(n));
      StoreUntouched(Held(blocks) - {p}, mem, p, freeList[ListIndex(n)]);
      StoreUntouched(large, mem, p, freeList[ListIndex(n)]);
      Link(p, ListIndex(n));
    }

    /** The range that the client was given at p, of either kind, for n bytes. */
    ghost predicate Owns(p: nat, n: nat)
      reads this
    {
      if n <= MAX_BYTES then p in Held(blocks) && Held(blocks)[p] == RoundUp(n) else p in large && large[p] == n
    }

    /** Nothing the allocator or another client relies on is in the client's range. */
    lemma OwnRange(p: nat, n: nat, a: nat)
      requires Sound() && Owns(p, n) && p <= a < p + n
      ensures OnNoList(lists, a) && !WithinHeld(Held(blocks) - {p}, a) && !WithinHeld(large - {p}, a)
      ensures n > MAX_BYTES ==> !WithinHeld(Held(blocks), a)
      ensures n <= MAX_BYTES ==> !WithinHeld(large, a)
    {
      hide Total, Chains, Held, WithinHeld, OnNoList, Apart;
      if n <= MAX_BYTES {
        RoundsTo(n);
        IndexOfSize(n);
        HeldBlock(p);
        PiecesUnlisted(blocks, lists, startFree, endFree, chunks, p, a);
        OthersNotHeld(blocks, startFree, endFree, p, a);
        NotLarge(p, a);
        WithinLess(large, p, a);
      } else {
        LargeNotHeld(blocks, startFree, endFree, chunks, large, p, a);
        NotListed(blocks, lists, a);
        WithinLess(Held(blocks), p, a);
      }
    }

    /** memcpy into what the client owns. */
    method CopyBytes(p: nat, q: nat, n: nat, ghost size: nat)
      requires Valid() && Owns(q, size) && n <= size
      modifies this`mem
      ensures Valid() && mem == Copied(old(mem), p, q, n)
      ensures Untouched(Held(blocks) - {q}, old(mem), mem) && Untouched(large - {q}, old(mem), mem)
      ensures size > MAX_BYTES ==> Untouched(Held(blocks), old(mem), mem)
      ensures size <= MAX_BYTES ==> Untouched(large, old(mem), mem)
    {
      hide Division, Total, Chains, Held, Apart, OnNoList, WithinHeld, Untouched, Copied;
      forall a | q <= a < q + n
        ensures OnNoList(lists, a) && !WithinHeld(Held(blocks) - {q}, a) && !WithinHeld(large - {q}, a)
        ensures size > MAX_BYTES ==> !WithinHeld(Held(blocks), a)
        ensures size <= MAX_BYTES ==> !WithinHeld(large, a)
      {
        OwnRange(q, size, a);
      }
      CopiedChains(mem, freeList[..], lists, p, q, n);
      CopiedUntouched(Held(blocks) - {q}, mem, p, q, n);
      CopiedUntouched(large - {q}, mem, p, q, n);
      if size > MAX_BYTES { CopiedUntouched(Held(blocks), mem, p, q, n); } else { CopiedUntouched(large, mem, p, q, n); }
      mem := Copied(mem, p, q, n);
    }

    /** What clients own is apart, whether it comes from the pool or from malloc. */
    lemma OwnersApart(p: nat, n: nat, q: nat, m: nat)
      requires Valid() && Owns(p, n) && Owns(q, m) && n > 0 && m > 0
      ensures p != q ==> p + n <= q || q + m <= p
      ensures p == q ==> (n <= MAX_BYTES <==> m <= MAX_BYTES)
    {
      hide Total, Chains, OnNoList, Listed;
      RoundsTo(n);
      RoundsTo(m);
      if n <= MAX_BYTES { IndexOfSize(n); }
      if m <= MAX_BYTES { IndexOfSize(m); }
      if p <= q < p + n { OwnRange(p, n, q); }
      if q <= p < q + m { OwnRange(q, m, p); }
    }

    lemma OwnWords(p: nat, n: nat)
      requires Valid() && Owns(p, n) && n > 0
      ensures n <= MAX_BYTES ==> forall a :: p <= a < p + n ==> WithinHeld(Held(blocks), a)
      ensures n > MAX_BYTES ==> forall a :: p <= a < p + n ==> WithinHeld(large, a)
    {
      hide Sound;
      if n <= MAX_BYTES { IndexOfSize(n); WithinRange(Held(blocks), p, n); } else { WithinRange(large, p, n); }
    }

    /** The end of reallocate: the bytes go to the new place and the old one is given back. */
    method CopyAndFree(p: nat, oldSize: nat, q: nat, newSize: nat)
      requires Valid() && oldSize > 0 && newSize > 0 && Owns(p, oldSize) && Owns(q, newSize) && p != q
      modifies this, freeList
      ensures Valid() && Owns(q, newSize)
      ensures Held(blocks) == if oldSize <= MAX_BYTES then old(Held(blocks)) - {p} else old(Held(blocks))
      ensures large == if oldSize <= MAX_BYTES then old(large) else old(large) - {p}
      ensures Carried(old(mem), mem, p, q, if newSize > oldSize then oldSize else newSize)
      ensures
        var target := if newSize <= MAX_BYTES then {q} else {};
        Untouched(old(Held(blocks)) - target - {p}, old(mem), mem)
      ensures
        var target := if newSize <= MAX_BYTES then {} else {q};
        Untouched(old(large) - target - {p}, old(mem), mem)
    {
      hide Sound, Held, Untouched, Copied, Carried, WithinHeld, RoundUp;
      var copySize := if newSize > oldSize then oldSize else newSize;
      CopiedAt(mem, p, q, copySize);
      ghost var m0, h0, l0 := mem, Held(blocks), large;
      CopyBytes(p, q, copySize, newSize);
      ghost var m1 := mem;
      Deallocate(p, oldSize);
      OwnWords(q, newSize);
      if newSize <= MAX_BYTES { CarriedOn(m0, m1, mem, Held(blocks), p, q, copySize); } else { CarriedOn(m0, m1, mem, large, p, q, copySize); }
      ghost var h := h0 - (if newSize <= MAX_BYTES then {q} else {});
      ghost var l := l0 - (if newSize <= MAX_BYTES then {} else {q});
      assert h == (if newSize <= MAX_BYTES then h0 - {q} else h0) && l == if newSize <= MAX_BYTES then l0 else l0 - {q};
      UntouchedLess(h, {p}, m0, m1);
      UntouchedLess(l, {p}, m0, m1);
      UntouchedPart(h - {p}, Held(blocks), m1, mem);
      UntouchedPart(l - {p}, large, m1, mem);
      UntouchedTransitive(h - {p}, m0, m1, mem);
      UntouchedTransitive(l - {p}, m0, m1, mem);
    }

    /** realloc, of a large block: malloc's library moves the bytes where it moves the block. */
    method ReallocLarge(p: nat, oldSize: nat, newSize: nat, answers: Answers) returns (q: Option<nat>)
      requires Valid() && oldSize > MAX_BYTES && newSize > MAX_BYTES && Owns(p, oldSize)
      requires answers.lastResort.Some? ==> Given(Chunk(answers.lastResort.value, newSize), chunks, large - {p})
      modifies this
      ensures Valid() && q == answers.lastResort && Held(blocks) == old(Held(blocks))
      ensures large == if q.Some? then (old(large) - {p})[q.value := newSize] else old(large)
      ensures q.Some? ==> Carried(old(mem), mem, p, q.value, if newSize > oldSize then oldSize else newSize)
      ensures Untouched(Held(blocks), old(mem), mem) && Untouched(old(large) - {p}, old(mem), mem)
    {
      hide Sound, Held, Untouched, Copied, Carried, WithinHeld, RoundUp, Given;
      q := answers.lastResort;
      UntouchedSelf(Held(blocks), mem);
      UntouchedSelf(large - {p}, mem);
      if q.None? { return; }
      var copySize := if newSize > oldSize then oldSize else newSize;
      CopiedAt(mem, p, q.value, copySize);
      FreeLarge(p);
      TakeLarge(q.value, newSize);
      CopyBytes(p, q.value, copySize, newSize);
      assert large - {q.value} == old(large) - {p};
    }

    /** reallocate: the client's bytes, as many as fit, are at the new place. */
    method Reallocate(p: nat, oldSize: nat, newSize: nat, answers: Answers) returns (q: Option<nat>)
      requires Valid() && oldSize > 0 && newSize > 0 && Owns(p, oldSize)
      requires
        if oldSize > MAX_BYTES && newSize > MAX_BYTES then
          answers.lastResort.Some? ==> Given(Chunk(answers.lastResort.value, newSize), chunks, large - {p})
        else Honest(answers, if newSize <= MAX_BYTES then BytesToGet(Span(RoundUp(newSize), REFILL)) else newSize, chunks, large)
      modifies this, freeList
      ensures Valid()
      ensures q.None? ==> Held(blocks) == old(Held(blocks)) && large == old(large)
      ensures oldSize <= MAX_BYTES && RoundUp(oldSize) == RoundUp(newSize) ==> q == Some(p) && Now() == old(Now()) && mem == old(mem)
      ensures newSize > MAX_BYTES ==> q == answers.lastResort
      ensures newSize <= MAX_BYTES && !(oldSize <= MAX_BYTES && RoundUp(oldSize) == RoundUp(newSize)) ==>
        (q.None? <==> old(Exhausted(RoundUp(newSize))) && answers == Answers(None, None))
      ensures q.Some? ==>
        var held := if oldSize <= MAX_BYTES then old(Held(blocks)) - {p} else old(Held(blocks));
        var direct := if oldSize <= MAX_BYTES then old(large) else old(large) - {p};
        && Held(blocks) == (if newSize <= MAX_BYTES then held[q.value := RoundUp(newSize)] else held)
        && large == (if newSize <= MAX_BYTES then direct else direct[q.value := newSize])
      ensures q.Some? ==> Owns(q.value, newSize)
      ensures q.Some? ==> Carried(old(mem), mem, p, q.value, if newSize > oldSize then oldSize else newSize)
      ensures Untouched(old(Held(blocks)) - {p}, old(mem), mem) && Untouched(old(large) - {p}, old(mem), mem)
    {
      hide Sound, Held, Honest, Given, BytesToGet, Span, Untouched, WithinHeld, Carried, Exhausted, Ready, Cut, Refilled, ListIndex;
      UntouchedSelf(Held(blocks) - {p}, mem);
      UntouchedSelf(large - {p}, mem);
      if oldSize > MAX_BYTES && newSize > MAX_BYTES {
        q := ReallocLarge(p, oldSize, newSize, answers);
        UntouchedLess(Held(blocks), {p}, old(mem), mem);
        return;
      }
      RoundsTo(oldSize);
      RoundsTo(newSize);
      hide RoundUp;
      if RoundUp(oldSize) == RoundUp(newSize) {
        CarriedInPlace(mem, p, if newSize > oldSize then oldSize else newSize);
        assert Held(blocks) == (Held(blocks) - {p})[p := RoundUp(newSize)];
        return Some(p);
      }
      q := Relocate(p, oldSize, newSize, answers);
    }

    /** The rest of it: a new block, the bytes copied, and the old block given back. */
    method Relocate(p: nat, oldSize: nat, newSize: nat, answers: Answers) returns (q: Option<nat>)
      requires Valid() && oldSize > 0 && newSize > 0 && Owns(p, oldSize) && !(oldSize > MAX_BYTES && newSize > MAX_BYTES)
      requires Honest(answers, if newSize <= MAX_BYTES then BytesToGet(Span(RoundUp(newSize), REFILL)) else newSize, chunks, large)
      modifies this, freeList
      ensures Valid()
      ensures q.None? ==> Held(blocks) == old(Held(blocks)) && large == old(large)
      ensures newSize > MAX_BYTES ==> q == answers.lastResort
      ensures newSize <= MAX_BYTES ==> (q.None? <==> old(Exhausted(RoundUp(newSize))) && answers == Answers(None, None))
      ensures q.Some? ==>
        var held := if oldSize <= MAX_BYTES then old(Held(blocks)) - {p} else old(Held(blocks));
        var direct := if oldSize <= MAX_BYTES then old(large) else old(large) - {p};
        && Held(blocks) == (if newSize <= MAX_BYTES then held[q.value := RoundUp(newSize)] else held)
        && large == (if newSize <= MAX_BYTES then direct else direct[q.value := newSize])
      ensures q.Some? ==> Owns(q.value, newSize)
      ensures q.Some? ==> Carried(old(mem), mem, p, q.value, if newSize > oldSize then oldSize else newSize)
      ensures Untouched(old(Held(blocks)) - {p}, old(mem), mem) && Untouched(old(large) - {p}, old(mem), mem)
    {
      hide Sound, Held, Honest, Given, BytesToGet, Span, Untouched, WithinHeld, Carried, Exhausted, Ready, Cut, Refilled, ListIndex, RoundUp;
      RoundsTo(newSize);
      OwnWords(p, oldSize);
      q := Allocate(newSize, answers);
      UntouchedLess(old(Held(blocks)), {p}, old(mem), mem);
      UntouchedLess(old(large), {p}, old(mem), mem);
      if q.None? { return; }
      OwnersApart(p, oldSize, q.value, newSize);
      ghost var m1 := mem;
      CopyAndFree(p, oldSize, q.value, newSize);
      var copySize := if newSize > oldSize then oldSize else newSize;
      if oldSize <= MAX_BYTES {
        CarriedFrom(old(mem), m1, mem, old(Held(blocks)), p, q.value, copySize);
      } else {
        CarriedFrom(old(mem), m1, mem, old(large), p, q.value, copySize);
      }
      ghost var h, l := old(Held(blocks)), old(large);
      if newSize <= MAX_BYTES {
        assert h[q.value := RoundUp(newSize)] - {q.value} == h && l - {} == l;
      } else {
        assert l[q.value := newSize] - {q.value} == l && h - {} == h;
      }
      UntouchedTransitive(h - {p}, old(mem), m1, mem);
      UntouchedTransitive(l - {p}, old(mem), m1, mem);
    }

    /** A client stores a word in its block. */
    method ClientWrite(p: nat, n: nat, a: nat, v: nat)
      requires Valid() && Owns(p, n) && p <= a < p + n
      modifies this`mem
      ensures Valid() && mem == old(mem)[a := v]
      ensures Untouched(Held(blocks) - {p}, old(mem), mem) && Untouched(large - {p}, old(mem), mem)
    {
      hide Division, Total, Chains, OnNoList, Held, WithinHeld, Apart, Untouched;
      OwnRange(p, n, a);
      ChainsFrame(mem, freeList[..], lists, a, v);
      StoreUntouched(Held(blocks) - {p}, mem, a, v);
      StoreUntouched(large - {p}, mem, a, v);
      mem := mem[a := v];
    }
  }

  lemma {:induction false} FirstIs(lists: seq<seq<nat>>, i: nat, j: nat)
    requires i <= j <= |lists| && (j < |lists| ==> lists[j] != []) && forall k :: i <= k < j ==> lists[k] == []
    ensures FirstFilled(lists, i) == j
    decreases j - i
  {
    if i < j { FirstIs(lists, i + 1, j); }
  }
}
