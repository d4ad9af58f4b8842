# Ropes, pools, sorts, containers and JSON: a verified model

This project models the hard parts of two libraries in Dafny and proves what they are for.

* **Ropes** (`Rope*.dfy`). `RopeTree`, `RopeLoops` and `RopeOps` treat a rope as the tree it is: concatenation,
  rebalancing with Fibonacci buckets, substrings, flattening, searching. `RopeMemory`, `RopeInPlace`, `RopeHeap`, `RopeFill` and
  `RopeHandles` put the trees into a memory of counted nodes, where appending may overwrite a leaf in place, and show
  that each operation computes the function on trees and touches no other rope. `RopeIterator` is the const iterator
  with its buffer and its cache of four path nodes. `RopeChecks` and `RopeOutlines` settle the assertions of the
  rebalancing code.
* **The pool allocator** (`Pool*.dfy`): sixteen free lists threaded through the free blocks, a pool, and a malloc that
  may fail at any time.
* **Algorithms on arrays**: `Ordering` and `Ranges` (orders, stable sorting as a function, ranges of an array),
  `Rotate`, `Cycles`, `RotateCycles`, `Insertion`, `Merging`, `InplaceMerge`, `StableSort`, `Heap`, `Partition`,
  `Introsort`, `Permutation`, `Power`. An order is any strict weak ordering passed as a parameter.
* **Containers**: `List*.dfy` (rings of linked nodes, sorting by a binary counter of lists), `Deque*.dfy` (a map of
  buffers whose cells hold an element or none), `Hash*.dfy` (buckets of linked nodes over a vector).
* **JSON** (`Json*.dfy`): the parser, the two printers, their strings and their buffers. `JsonNumerals`, `JsonGrammar` and
  `JsonUtf8` say what numbers, texts and bytes mean, without the parser and the printers; `JsonReading`, `JsonAccepts` and
  `JsonRefuses` prove which texts are taken and where the others are refused, and `JsonCanonical` which one is printed.

Code that changes things in place is a class or a method on arrays, proved against a function of the old state; what
the library promises is then proved of that function. Where a value is compared with what the code computes, the
function is an independent definition: the stable sort is insertion sort, the rotation is two slices exchanged, a hash
bucket is a sequence, a printed tree is a sequence of bytes.

Memory is modelled as maps or sequences from addresses to cells, and an address is not used again after it was freed.

## Model

| member | source | states |
|---|---|---|
| `RopeTree.Balance` | stl/sgi-stl/ropeimpl.h:1115-1152 | for every rope of at most max_size characters: it never throws, the characters are kept, and the result has a size of at least min_len[depth - 2]; the termination measure shows that no concatenation inside it rebalances again |
| `RopeTree.AddToForest` | stl/sgi-stl/ropeimpl.h:1157-1170 | keeps every filled slot i within min_len[i] <= size < min_len[i + 1] and depth <= i + 1, and the forest, read from the top slot down, spells the old forest and then the rope |
| `RopeTree.MergeTiny` | stl/sgi-stl/ropeimpl.h:1182-1191 | the slots below the bucket of the new piece are emptied into one prefix, in order, of bounded depth |
| `RopeTree.Place` | stl/sgi-stl/ropeimpl.h:1202-1220 | the loop that carries the piece upwards ends in an empty slot with the forest still in bounds and no character lost |
| `RopeTree.TreeConcat` | stl/sgi-stl/ropeimpl.h:453-485 | contents and sizes add up for every two ropes; the node is plain unless it is too deep or not balanced, and then the result is balanced again |
| `RopeTree.NoRebalance` | stl/sgi-stl/ropeimpl.h:459-471 | joining two pieces of depth at most m + 1 and at least min_len[m] characters never reaches the rebalancing branch |
| `RopeChecks.FirstCheck` | stl/sgi-stl/ropeimpl.h:1200 | the first assertion holds for every forest and every balanced piece |
| `RopeChecks.LoopChecks` | stl/sgi-stl/ropeimpl.h:1207-1213 | the assertions inside the loop hold in every round |
| `RopeOutlines.Predicts` | stl/sgi-stl/ropeimpl.h:1175-1221 | which slot is filled, and the depth and size of what is put there, computed from the sizes and depths of the forest alone |
| `RopeOutlines.SecondCheck` | stl/sgi-stl/ropeimpl.h:1201 | the second assertion holds if and only if the prefix that the slots below make is no deeper than the piece, a condition on sizes and depths before the call |
| `RopeOutlines.CommentHolds` | stl/sgi-stl/ropeimpl.h:1121-1124 | after a call every slot has the depth of its index if and only if the slot predicted from the outline does and the ones above it did |
| `RopeChecks.RunBreaksBoth` | stl/sgi-stl/ropeimpl.h:1175-1221 | one named rope added to the empty forest breaks the assertion and the comment: slot 4 then holds a tree of depth 3 |
| `RopeOps.SubstringContent` | stl/sgi-stl/ropeimpl.h:645-755 | through join, leaf, function and substring nodes, the text of a substring is the clamped slice |
| `RopeOps.SubstringNull` | stl/sgi-stl/ropeimpl.h:651-663 | the result is null exactly when the clamped range is empty |
| `RopeOps.ReplaceIsSplice` | stl/sgi-stl/stl_rope.h:2025-2044 | replace puts the new text between the slices before and behind the range, for positions beyond the end too |
| `RopeOps.AppendTextContent` | stl/sgi-stl/ropeimpl.h:542-595 | the tree that the destructive append builds spells the old text and then the new one |
| `RopeOps.Fetch` | stl/sgi-stl/ropeimpl.h:1225-1263 | the character found by descending is the one at that place of the text |
| `RopeOps.ApplyIsWhole` | stl/sgi-stl/ropeimpl.h:854-909 | for a consumer indifferent to where its input is cut, the pieces together do what the whole slice does, the early stop included |
| `RopeOps.FlattenRange` | stl/sgi-stl/ropeimpl.h:973-980 | the flattening consumer writes exactly the asked slice |
| `RopeOps.FindIsFirst` | stl/sgi-stl/ropeimpl.h:984-993 | find gives the first place of the character at or behind the start, and none exactly when there is none |
| `RopeOps.Flatten` | stl/sgi-stl/ropeimpl.h:997-1028 | fills the buffer with the text and leaves the rest of it alone |
| `RopeIterator.ConstIterator.SetBuf` | stl/sgi-stl/ropeimpl.h:41-82 | the window chosen contains the position, whatever the leaf is |
| `RopeIterator.ConstIterator.SetCache` | stl/sgi-stl/ropeimpl.h:87-156 | from any state the cache becomes a suffix of the path to the position, with a buffer exactly when the position is inside |
| `RopeIterator.ConstIterator.SetCacheForIncr` | stl/sgi-stl/ropeimpl.h:161-222 | the incremental update reaches the same invariant from the cached path alone |
| `RopeIterator.ConstIterator.Incr` | stl/sgi-stl/ropeimpl.h:225-238 | the position moves by n and the cache stays coherent |
| `RopeIterator.ConstIterator.Decr` | stl/sgi-stl/ropeimpl.h:241-251 | the position moves back by n and the cache stays coherent or is dropped |
| `RopeIterator.ConstIterator.Move` | stl/sgi-stl/stl_rope.h:1015-1034 | a move of either sign keeps the cache coherent |
| `RopeIterator.ConstIterator.Deref` | stl/sgi-stl/stl_rope.h:1001-1004 | gives the character of the text at the position |
| `RopeIterator.ConstIterator.BufferDenotes` | stl/sgi-stl/stl_rope.h:917-946 | a buffer pointer that is not null denotes the character at the position, in every reachable state |
| `RopeIterator.ConstIterator.CacheIsFullPath` | stl/sgi-stl/ropeimpl.h:101-156 | the cached nodes and turn bits are a suffix of the one path from the root to the position, and the cached start is where that leaf starts |
| `RopeIterator.PathUnique` | stl/sgi-stl/ropeimpl.h:113-141 | a path of the tree that covers a position is the path to it |
| `RopeMemory.NothingLost` | stl/sgi-stl/stl_rope.h:524-546 | a step that keeps counts equal to references, gives up no reference from outside and keeps the trees of the nodes that stay live keeps every live node live |
| `RopeInPlace.GrowthKeepsBuffer` | stl/sgi-stl/stl_rope.h:565-578 | the growing leaf fits its allocation exactly when the allocation a leaf of the new length would have got is the same |
| `RopeHeap.NodeStore.Unref` | stl/sgi-stl/stl_rope.h:525-538 | counts stay equal to references, and every other tree keeps its value |
| `RopeHeap.NodeStore.FreeTree` | stl/sgi-stl/ropeimpl.h:336-374 | the links of a freed node are given up with it, down the tree |
| `RopeHeap.NodeStore.TreeConcat` | stl/sgi-stl/ropeimpl.h:453-485 | on counted nodes this builds the tree of RopeTree.TreeConcat and keeps counts equal to references |
| `RopeHeap.NodeStore.Concat` | stl/sgi-stl/ropeimpl.h:600-641 | on counted nodes this builds the tree of RopeTree.ConcatOpt; null on one side gives the other side |
| `RopeHeap.NodeStore.AddToForest` | stl/sgi-stl/ropeimpl.h:1157-1170 | the forest in memory becomes that of RopeTree.AddToForest, with all counts right |
| `RopeHeap.NodeStore.Balance` | stl/sgi-stl/ropeimpl.h:1115-1152 | on counted nodes this builds the tree of RopeTree.Balance |
| `RopeHeap.NodeStore.Substring` | stl/sgi-stl/ropeimpl.h:645-755 | on counted nodes this builds the tree of RopeOps.Substring |
| `RopeHeap.NodeStore.ConcatChars` | stl/sgi-stl/ropeimpl.h:488-537 | on counted nodes this builds the concatenation with a new leaf, merging short leaves |
| `RopeHeap.NodeStore.DestrConcatChars` | stl/sgi-stl/ropeimpl.h:542-595 | a shared root is left alone and concatenated, an unshared one is rewritten in place; nothing reachable from other references changes |
| `RopeHeap.NodeStore.Replace` | stl/sgi-stl/stl_rope.h:2025-2044 | on counted nodes this builds the tree of RopeOps.Replace |
| `RopeHandles.Ropes.Copy` | stl/sgi-stl/stl_rope.h:1723-1727 | the copy has the same text, all ropes keep theirs |
| `RopeHandles.Ropes.Assign` | stl/sgi-stl/stl_rope.h:1734-1744 | one rope takes the text of another, all others keep theirs, self-assignment included |
| `RopeHandles.Ropes.Clear` | stl/sgi-stl/stl_rope.h:1746-1750 | one rope becomes empty, all others keep their text |
| `RopeHandles.Ropes.Append` | stl/sgi-stl/stl_rope.h:1952-1958 | one rope grows by the text, in place where it can, and no other rope that shares nodes with it changes |
| `RopeHandles.Ropes.AppendRope` | stl/sgi-stl/stl_rope.h:1998-2006 | appending a rope, itself included, changes no other rope |
| `RopeHandles.Ropes.Plus` | stl/sgi-stl/stl_rope.h:286-287 | a new rope with both texts, all others keep theirs |
| `RopeHandles.Ropes.Substr` | stl/sgi-stl/stl_rope.h:2266-2269 | the new rope is the clamped slice, all others keep their text |
| `RopeHandles.Ropes.Replace` | stl/sgi-stl/stl_rope.h:2107-2112 | one rope has the range replaced, all others keep their text |
| `RopeHandles.Ropes.Erase` | stl/sgi-stl/stl_rope.h:2181-2185 | one rope loses the range, all others keep their text |
| `RopeHandles.Ropes.EraseAt` | stl/sgi-stl/stl_rope.h:2188-2190 | one rope loses p + 1 characters from p on, as the call with that length says |
| `RopeOps.EraseAtIsOne` | stl/sgi-stl/stl_rope.h:2187-2190 | that takes out the one character at p if and only if p is 0 or no more than one character is left from p on |
| `RopeHandles.Ropes.Balance` | stl/sgi-stl/stl_rope.h:1797-1802 | the text of every rope is kept and the one rope is balanced |
| `PoolBlocks.ClientsApart` | stl/sgi-stl/stl_alloc.h:299-310 | small blocks of clients are aligned, do not overlap, and are apart from the pool |
| `PoolAllocator.Allocator.ChunkAlloc` | stl/sgi-stl/stl_alloc.h:429-489 | with malloc succeeding or failing arbitrarily: blocks and pool stay aligned, disjoint, inside what malloc gave, and sum to heap_size; how many blocks are cut, where, and the lists, pool and chunks afterwards are stated outright; null if and only if both requests failed, the pool is too small for one block and no list of that size or a longer one has a block |
| `PoolAllocator.Allocator.FindFree` | stl/sgi-stl/stl_alloc.h:465-478 | finds the first list that has a free block of at least the size, if and only if there is one |
| `PoolAllocator.Allocator.Refill` | stl/sgi-stl/stl_alloc.h:497-524 | gives one block and links the others into the list of their size, which was empty |
| `PoolAllocator.Allocator.Allocate` | stl/sgi-stl/stl_alloc.h:347-375 | the client gets a range nobody else has, the head of the list of its size where that has one, without asking malloc or touching the pool; no byte of any other client changes; null if and only if that list is empty, the pool and all longer lists have nothing, and both requests failed; large requests go to malloc |
| `PoolAllocator.Allocator.Deallocate` | stl/sgi-stl/stl_alloc.h:377-396 | exactly that block leaves the client and becomes the head of the list of its size; no byte of another client changes |
| `PoolAllocator.Allocator.Reallocate` | stl/sgi-stl/stl_alloc.h:528-544 | the new range holds the old bytes as far as both reach; no byte of another client changes |
| `PoolAllocator.ReadyFits` | stl/sgi-stl/stl_alloc.h:452-489 | a replaced pool is too short for a block if and only if both requests failed and all lists of that size and above are empty |
| `PoolAllocator.CutIs` | stl/sgi-stl/stl_alloc.h:438-448 | as many blocks are cut as are wanted where they fit, and otherwise as many as fit |
| `PoolAllocator.Allocator.OwnersApart` | stl/sgi-stl/stl_alloc.h:528-544 | what two clients own never overlaps, whether it is from the pool or from malloc, so the copy in reallocate is between disjoint ranges |
| `Ordering.StableSortMeans` | stl/sgi-stl/stl_algo.h:1698-1719 | being sorted and keeping each class of equivalent elements in order determines the result: it is the insertion sort of the input |
| `Ordering.StableSortedPermutes` | stl/sgi-stl/stl_algo.h:1698-1719 | the stable sort is a permutation |
| `Insertion.LowerBound` | stl/sgi-stl/stl_algo.h:1951-1972 | the first place whose element does not precede the value |
| `Insertion.UpperBound` | stl/sgi-stl/stl_algo.h:2021-2042 | the first place whose element the value precedes |
| `Insertion.InsertionSort` | stl/sgi-stl/stl_algo.h:1357-1362 | the result is the stable sort |
| `Merging.Merge` | stl/sgi-stl/stl_algo.h:2193-2217 | of two sorted ranges: the stable sort of the first followed by the second, in place over the second too |
| `Merging.MergeBackward` | stl/sgi-stl/stl_algo.h:2348-2374 | the same from the end, with the second range in the buffer |
| `Merging.CutMerges` | stl/sgi-stl/stl_algo.h:2258-2292 | merging the two pairs of parts that a bound cuts off merges the whole |
| `InplaceMerge.MergeWithoutBuffer` | stl/sgi-stl/stl_algo.h:2258-2292 | divide and rotate terminates and gives the stable merge |
| `InplaceMerge.MergeAdaptive` | stl/sgi-stl/stl_algo.h:2419-2459 | the same for every buffer of at least one element |
| `InplaceMerge.RotateAdaptive` | stl/sgi-stl/stl_algo.h:2296-2315 | rotates and gives the new middle, by either buffer branch or by rotate |
| `InplaceMerge.InplaceStableSort` | stl/sgi-stl/stl_algo.h:1512-1525 | gives the stable sort without a buffer |
| `StableSort.ChunkInsertionSort` | stl/sgi-stl/stl_algo.h:1583-1592 | every chunk of seven is sorted and no two equivalent elements trade places |
| `StableSort.MergeSortWithBuffer` | stl/sgi-stl/stl_algo.h:1614-1629 | gives the stable sort with a buffer as long as the range |
| `StableSort.StableSortAdaptive` | stl/sgi-stl/stl_algo.h:1651-1671 | gives the stable sort with every buffer of at least one element |
| `StableSort.Sort` | stl/sgi-stl/stl_algo.h:1685-1695 | one and the same result with no buffer, and with every buffer of at least one element |
| `Rotate.RotateForward` | stl/sgi-stl/stl_algo.h:830-860 | swapping forwards gives the rotation and the new middle |
| `Rotate.RotateBidirectional` | stl/sgi-stl/stl_algo.h:864-889 | three reversals, cut short where one side ends, give the rotation and the new middle |
| `Cycles.ComputeGcd` | stl/sgi-stl/stl_algo.h:818-827 | the remainder loop gives the greatest common divisor |
| `RotateCycles.RotateRandomAccess` | stl/sgi-stl/stl_algo.h:892-945 | the gcd cycles visit each place once and give the rotation and the new middle |
| `Heap.AdjustHeap` | stl/sgi-stl/stl_heap.h:163-180 | sinking to a leaf and pushing up makes the tree below the hole a heap and changes no other element |
| `Heap.PushHeap` | stl/sgi-stl/stl_heap.h:78-88 | rising from the hole makes a heap |
| `Heap.MakeHeap` | stl/sgi-stl/stl_heap.h:242-255 | every range becomes a heap of the same elements |
| `Heap.PopHeap` | stl/sgi-stl/stl_heap.h:185-192 | the greatest element goes behind the heap and the others stay a heap |
| `Heap.RootIsGreatest` | stl/sgi-stl/stl_heap.h:185-192 | no element of a heap follows the root |
| `Heap.SortHeap` | stl/sgi-stl/stl_heap.h:279-285 | a heap becomes the sorted range of the same elements |
| `Heap.PartialSort` | stl/sgi-stl/stl_algo.h:1745-1753 | the front holds the least elements in order, none behind precedes one of them, and none is lost |
| `Partition.MedianGuards` | stl/sgi-stl/stl_algo.h:1454-1459 | the median of three leaves an element at or before and one at or behind that stop both scans |
| `Partition.UnguardedPartition` | stl/sgi-stl/stl_algo.h:1279-1294 | with such guards no scan leaves the range, and the cut parts the elements |
| `Partition.PartitionAtMedian` | stl/sgi-stl/stl_algo.h:1454-1459 | the cut is strictly inside the range |
| `Introsort.IntrosortLoop` | stl/sgi-stl/stl_algo.h:1444-1463 | the range becomes blocks of at most sixteen, each below the next |
| `Introsort.LeastIsEarly` | stl/sgi-stl/stl_algo.h:1405-1413 | in such a range a least element is among the first sixteen |
| `Introsort.UnguardedInsertionSort` | stl/sgi-stl/stl_algo.h:1378-1391 | so the final insertion never runs off the front |
| `Introsort.Sort` | stl/sgi-stl/stl_algo.h:1479-1492 | sorted, and a permutation |
| `Introsort.NthElement` | stl/sgi-stl/stl_algo.h:1884-1900 | terminates; none before the nth follows it and none behind precedes it, and no element is lost |
| `Introsort.Lg` | stl/sgi-stl/stl_algo.h:1416-1420 | the greatest k with 2^k <= n |
| `Permutation.NextPermutation` | stl/sgi-stl/stl_algo.h:2909-2940 | the array and the answer are those of Permutation.Next |
| `Permutation.PrevPermutation` | stl/sgi-stl/stl_algo.h:2975-3006 | the array and the answer are those of Permutation.Next for the flipped order |
| `Permutation.NextIsSuccessor` | stl/sgi-stl/stl_algo.h:2909-2940 | when found, the result is greater, is a permutation, and no permutation of the same multiset lies between |
| `Permutation.NextWrapsAround` | stl/sgi-stl/stl_algo.h:2935-2938 | when not found, the input was greatest, and the result is sorted and the least of all permutations |
| `Permutation.PrevUndoesNext` | stl/sgi-stl/stl_algo.h:2909-3006 | stepping back gives the input again and the same answer, also at the wrap-around |
| `Permutation.StepAndBack` | stl/sgi-stl/stl_algo.h:2909-3006 | next and then prev leave the array as it was |
| `ListStore.Lists.Transfer` | stl/sgi-stl/stl_list.h:493-506 | the six link updates, as a function of memory |
| `ListStore.Lists.Splice` | stl/sgi-stl/stl_list.h:519-522 | the nodes between two places move in front of a third, between lists or within one, and all rings stay well formed |
| `ListStore.Lists.Insert` | stl/sgi-stl/stl_list.h:363-370 | a new node is linked before the place |
| `ListStore.Lists.Erase` | stl/sgi-stl/stl_list.h:406-415 | the node is unlinked, the answer is the next place |
| `ListStore.Lists.Reverse` | stl/sgi-stl/stl_list.h:757-770 | swapping the two links of every node reverses the ring |
| `ListStore.Lists.Swap` | stl/sgi-stl/stl_list.h:361 | two lists trade sentinels and so their rings |
| `ListSort.MergeLists` | stl/sgi-stl/stl_list.h:829-845 | of two sorted lists: the stable sort of the first followed by the second, by relinking, with the second left empty |
| `ListSort.Distribute` | stl/sgi-stl/stl_list.h:855-864 | counter i is empty or holds 2^i nodes in order, higher counters hold earlier input |
| `ListCounter.CountersSuffice` | stl/sgi-stl/stl_list.h:853-863 | fewer than 2^64 nodes never carry beyond the last of 64 counters |
| `ListSort.Sort` | stl/sgi-stl/stl_list.h:848-870 | the same nodes relinked into the stable sort, the other lists untouched |
| `ListSort.PickSorted` | stl/sgi-stl/stl_list.h:848-870 | sorting the nodes by their elements sorts the elements |
| `DequeIterator.AdvanceOff` | stl/sgi-stl/stl_deque.h:150-164 | a move by any n that stays inside lands n cells further in the right buffer, with the two rounding divisions for both signs |
| `DequeIterator.MoveAndMeasure` | stl/sgi-stl/stl_deque.h:117-170 | (it + n) - it is n for every n, negative ones included |
| `DequeIterator.MeasureAndMove` | stl/sgi-stl/stl_deque.h:117-170 | b + (a - b) is a |
| `DequeIterator.StepsUndo` | stl/sgi-stl/stl_deque.h:122-148 | ++ is a move by one and -- undoes it, over buffer borders too |
| `DequeIterator.OrderOfOffsets` | stl/sgi-stl/stl_deque.h:181-186 | comparing buffers and then cells is the order of places |
| `DequeStore.Deque.constructor` | stl/sgi-stl/stl_deque.h:533-535 | a map with its buffers in the middle and all elements constructed |
| `DequeStore.Deque.InitializeMap` | stl/sgi-stl/stl_deque.h:384-405 | the buffers for n elements are allocated in the middle of the map and both ends are inside it |
| `DequeStore.Deque.ReallocateMap` | stl/sgi-stl/stl_deque.h:1558-1590 | the used slots are moved, within the map or to a longer one, and leave the asked room on the asked side |
| `DequeStore.Deque.ReserveElementsAtFront` | stl/sgi-stl/stl_deque.h:865-870 | room for n elements before start, with the first new buffer the one the answer points into |
| `DequeStore.Deque.ReserveElementsAtBack` | stl/sgi-stl/stl_deque.h:872-877 | room for n elements behind finish, with the last new buffer the one the answer points into |
| `DequeStore.Deque.Copy` | stl/sgi-stl/stl_algobase.h:148-159 | copies onto constructed elements, forwards over an overlap |
| `DequeStore.Deque.CopyBackward` | stl/sgi-stl/stl_algobase.h:321-330 | copies onto constructed elements, backwards over an overlap |
| `DequeStore.Deque.UninitializedCopy` | stl/sgi-stl/stl_uninitialized.h:49-62 | constructs in cells that hold nothing |
| `DequeStore.Deque.Size` | stl/sgi-stl/stl_deque.h:524 | the distance of the ends is the number of elements |
| `DequeStore.Deque.At` | stl/sgi-stl/stl_deque.h:494-497 | indexing gives that element |
| `DequeStore.Deque.PushBack` | stl/sgi-stl/stl_deque.h:661-668 | one more element at the end |
| `DequeStore.Deque.PushBackAux` | stl/sgi-stl/stl_deque.h:1106-1119 | the same where the last buffer is full |
| `DequeStore.Deque.PushFront` | stl/sgi-stl/stl_deque.h:679-686 | one more element at the front |
| `DequeStore.Deque.PushFrontAux` | stl/sgi-stl/stl_deque.h:1135-1148 | the same where start is at the border of its buffer |
| `DequeStore.Deque.PopBack` | stl/sgi-stl/stl_deque.h:698-705 | the last element is destroyed and, where it was alone in it, its neighbour buffer given back |
| `DequeStore.Deque.PopFront` | stl/sgi-stl/stl_deque.h:707-714 | the first element is destroyed and its buffer given back where it was the last in it |
| `DequeStore.Deque.Insert` | stl/sgi-stl/stl_deque.h:718-732 | the element is before the old i-th, and the answer points at it |
| `DequeStore.Deque.InsertAux` | stl/sgi-stl/stl_deque.h:1227-1255 | the same in the middle, moving the shorter side |
| `DequeStore.Deque.FillInsert` | stl/sgi-stl/stl_deque.h:921-944 | n copies before the old i-th element |
| `DequeStore.Deque.InsertCopies` | stl/sgi-stl/stl_deque.h:1286-1339 | the same in the middle, in all four cases of side and length; every cell is constructed once and assigned only when constructed |
| `DequeStore.Deque.RangeInsert` | stl/sgi-stl/stl_deque.h:1197-1223 | a range from outside before the old i-th element |
| `DequeStore.Deque.InsertRange` | stl/sgi-stl/stl_deque.h:1343-1399 | the same in the middle, in all four cases |
| `DequeStore.Deque.Erase` | stl/sgi-stl/stl_deque.h:784-797 | the element goes, the answer points at the next one |
| `DequeStore.Deque.EraseRange` | stl/sgi-stl/stl_deque.h:1002-1029 | the range goes, the answer points at the next element; no buffer is left behind if and only if the front is not moved or start stays in its buffer |
| `DequeStore.EraseLeavesBuffer` | stl/sgi-stl/stl_deque.h:1014-1018 | a deque of five elements whose first is erased keeps a buffer that its map no longer lists |
| `DequeStore.Deque.Clear` | stl/sgi-stl/stl_deque.h:1031-1050 | all elements are destroyed and all buffers but the first given back |
| `DequeStore.Deque.Resize` | stl/sgi-stl/stl_deque.h:773-779 | a prefix, or the old elements and copies behind them |
| `DequeStore.Deque.FillAssign` | stl/sgi-stl/stl_deque.h:603-612 | n copies |
| `DequeStore.Deque.AssignFrom` | stl/sgi-stl/stl_deque.h:643-655 | the elements of the other sequence |
| `DequeStore.Deque.Release` | stl/sgi-stl/stl_deque.h:375-380 | every buffer is given back but those left behind by erasing |
| `HashSpec.PutProper` | stl/sgi-stl/stl_hashtable.h:713-751 | inserting keeps every element in its bucket and equal keys together |
| `HashSpec.RehashedPermutes` | stl/sgi-stl/stl_hashtable.h:932-967 | rehashing loses and invents no element |
| `HashSpec.RehashedProper` | stl/sgi-stl/stl_hashtable.h:932-967 | after rehashing every element is in its new bucket and equal keys are together |
| `HashSpec.WithoutProper` | stl/sgi-stl/stl_hashtable.h:826-856 | erasing a key keeps every element in its bucket and equal keys together |
| `HashOrder.PutOrder` | stl/sgi-stl/stl_hashtable.h:713-751 | in the order of iteration a new element stands directly behind the first one with its key, or first in its bucket; all others keep their order |
| `HashOrder.WithoutOrder` | stl/sgi-stl/stl_hashtable.h:826-856 | in the order of iteration the elements without the key stay as they were |
| `HashTable.NextPrime` | stl/sgi-stl/stl_hashtable.h:160-166 | the least entry of the table that is not below the argument, and the last one where there is none |
| `HashTable.Table.InsertUniqueNoresize` | stl/sgi-stl/stl_hashtable.h:713-727 | the loop over the bucket computes HashSpec.PutUnique, and says whether it inserted |
| `HashTable.Table.InsertEqualNoresize` | stl/sgi-stl/stl_hashtable.h:732-751 | the loop over the bucket computes HashSpec.PutEqual |
| `HashTable.Table.Resize` | stl/sgi-stl/stl_hashtable.h:932-967 | relinking every node computes HashSpec.Rehashed, when the table is too short and only then |
| `HashTable.Table.InsertUnique` | stl/sgi-stl/stl_hashtable.h:361-365 | inserts exactly when no element has the key, and then adds that one element |
| `HashTable.Table.InsertEqual` | stl/sgi-stl/stl_hashtable.h:367-371 | adds that one element |
| `HashTable.Table.FindNode` | stl/sgi-stl/stl_hashtable.h:465-474 | the first node of the key, or none |
| `HashTable.Table.Count` | stl/sgi-stl/stl_hashtable.h:487-496 | how many elements have the key |
| `HashTable.Table.EqualRange` | stl/sgi-stl/stl_hashtable.h:776-793 | an element of the whole table has the key if and only if it lies between the two answers |
| `HashTable.Table.Begin` | stl/sgi-stl/stl_hashtable.h:317-323 | the first node in the order of the buckets |
| `HashTable.Table.Next` | stl/sgi-stl/stl_hashtable.h:573-583 | from the p-th node to the next, over empty buckets, so that each element is visited once |
| `HashTable.Table.EraseKey` | stl/sgi-stl/stl_hashtable.h:826-856 | all elements of the key go and no other, and the answer counts them |
| `HashTable.Table.EraseNode` | stl/sgi-stl/stl_hashtable.h:859-887 | exactly that node goes |
| `HashTable.Table.EraseRange` | stl/sgi-stl/stl_hashtable.h:891-909 | exactly the nodes from the first up to the last go, across buckets |
| `HashTable.Table.Clear` | stl/sgi-stl/stl_hashtable.h:1006-1018 | no element is left and the buckets stay |
| `HashTable.Table.CopyFrom` | stl/sgi-stl/stl_hashtable.h:1023-1046 | bucket by bucket the same values in new nodes |
| `HashTable.Table.Assign` | stl/sgi-stl/stl_hashtable.h:290-301 | the other table's contents, self-assignment included |
| `Power.Power` | stl/sgi-stl/stl_numeric.h:194-214 | for an operation that carries an associative one over to the represented values: the n-fold product, by repeated squaring |
| `Power.PowerTotal` | stl/sgi-stl/stl_numeric.h:194-214 | for an associative operation: the n-fold product, and the identity for none |
| `Power.FillRope` | stl/sgi-stl/ropeimpl.h:1412-1473 | the rope made by squaring is c repeated n times, and null exactly for none |
| `RopeFill.PowerRope` | stl/sgi-stl/stl_numeric.h:194-214 | on counted nodes, where a rope is joined with itself: the text n times over; nothing but the result is left behind |
| `RopeFill.FillHandle` | stl/sgi-stl/ropeimpl.h:1412-1473 | the same for the whole constructor: a new rope of c repeated n times, all others keep their text, and no other reference is left |
| `JsonUnicode.ParseHex4` | cJSON/src/cJSON.c:177-188 | four hexadecimal digits, or zero |
| `JsonUnicode.WritePoint` | cJSON/src/cJSON.c:230-238 | writes from the last byte back JsonUnicode.Utf8 of the code point |
| `JsonUnicode.PairAsMasked` | cJSON/src/cJSON.c:227 | a surrogate pair denotes what section 2.2 of RFC 2781 says |
| `JsonUtf8.DecodeEncoded` | cJSON/src/cJSON.c:230-238 | whatever follows, JsonUtf8.DecodePoint, which reads the length off the leading bits and joins the other bits, gets back every code point and the length, and takes no longer form than needed (section 3 of RFC 3629) |
| `JsonUtf8.EncodeDecoded` | cJSON/src/cJSON.c:230-238 | whatever bytes are read as a code point are its encoding |
| `JsonUtf8.EscapeDenotes` | cJSON/src/cJSON.c:216-238 | a code unit leaves bytes that are read as the number of its four digits, and a pair bytes that are read as the code point it stands for |
| `JsonUtf8.HexTable` | cJSON/src/cJSON.c:177-188 | the value of each hexadecimal digit, and that there are no others |
| `JsonUtf8.ShortTable` | cJSON/src/cJSON.c:208-214 | what each of the eight short escapes stands for |
| `JsonLiteral.CountPass` | cJSON/src/cJSON.c:198 | the first pass counts what JsonLiteral.Count says |
| `JsonLiteral.DecodeFits` | cJSON/src/cJSON.c:198-244 | the second pass never writes more than the first one counted, for every literal |
| `JsonLiteral.ParseString` | cJSON/src/cJSON.c:192-252 | both passes together compute JsonLiteral.StringAt |
| `JsonLiteral.StringMeans` | cJSON/src/cJSON.c:192-252 | of a literal spelled from characters, short escapes, code units and surrogate pairs: the UTF-8 encoding of what they denote; zero and surrogates outside pairs leave nothing |
| `JsonLiteral.PiecesAt` | cJSON/src/cJSON.c:192-252 | every literal is spelled from such pieces |
| `JsonText.StringRoundTrip` | cJSON/src/cJSON.c:192-310 | a string printed with its escapes is read back byte for byte |
| `JsonParser.ParseNumber` | cJSON/src/cJSON.c:96-115 | the loops compute JsonParse.NumberAt, a mantissa and a power of ten; what that is, JsonNumerals says |
| `JsonParser.ParseValue` | cJSON/src/cJSON.c:367-393 | the mutually recursive parser computes JsonParse.ValueAt, rejections included |
| `JsonParser.ParseItems` | cJSON/src/cJSON.c:430-455 | the loop over the items computes JsonParse.ItemsAt |
| `JsonParser.ParseMembers` | cJSON/src/cJSON.c:538-581 | the loop over the members computes JsonParse.MembersAt |
| `JsonParser.Parse` | cJSON/src/cJSON.c:330-347 | the whole parser computes JsonParse.ParseWithOpts; what that is, JsonAccepts and JsonRefuses say |
| `JsonNumerals.NumeralParses` | cJSON/src/cJSON.c:96-115 | a number is read to its end, as the sum of its digits times the powers of ten of their places, moved by its exponent and by the digits behind the point; so for every number of section 6 of RFC 8259 |
| `JsonNumerals.NumeralAt` | cJSON/src/cJSON.c:96-115 | whatever is read as a number is spelled like one, with nothing behind it that goes on with it |
| `JsonReading.DocParses` | cJSON/src/cJSON.c:367-393 | a text of the grammar that stands anywhere, with space between all its parts, is read as the value it denotes, to its end |
| `JsonReading.ElementsParse` | cJSON/src/cJSON.c:430-455 | the same for what stands between brackets |
| `JsonReading.EntriesParse` | cJSON/src/cJSON.c:538-581 | the same for what stands between braces |
| `JsonReading.GrammaticalParses` | cJSON/src/cJSON.c:330-347 | every JSON text of RFC 8259 is read as its value, with or without the demand that nothing follows |
| `JsonReading.DocumentParses` | cJSON/src/cJSON.c:330-347 | the same with anything else behind the text: where nothing may follow, it is refused at that place |
| `JsonAccepts.DocAt` | cJSON/src/cJSON.c:367-393 | every value that is read stands there as a text of the wider grammar |
| `JsonAccepts.AcceptsExactly` | cJSON/src/cJSON.c:330-347 | the parser takes a text if and only if it is one of the wider grammar, and then gives the value it denotes and where it ends |
| `JsonAccepts.DecidesAll` | cJSON/src/cJSON.c:192-252 | a text in which no quote starts a literal with an escape cut short is taken or refused |
| `JsonRefuses.RefusesExactly` | cJSON/src/cJSON.c:330-347 | the parser refuses a text at a place if and only if the text is well-formed up to there and what must follow does not, at any depth, or something follows a whole text and nothing may |
| `JsonRefuses.StumpFails` | cJSON/src/cJSON.c:367-393 | the same for a value: where it breaks it is refused |
| `JsonCanonical.PrintIsCanonical` | cJSON/src/cJSON.c:396-427 | every print is a text of RFC 8259 that denotes the value, in the canonical form: no needless digit, escape or space; formatted, each entry on its own line behind as many tabs as it is deep |
| `JsonCanonical.CanonicalIsPrint` | cJSON/src/cJSON.c:396-427 | a text in that form is the print of the value it denotes, so that there is just one |
| `JsonRoundTrip.NumberRoundTrip` | cJSON/src/cJSON.c:96-174 | a printed integer is read back as itself |
| `JsonRoundTrip.Surrounded` | cJSON/src/cJSON.c:330-347 | the print amid space is read as its value; the end is behind the print, or behind all space |
| `JsonRoundTrip.Followed` | cJSON/src/cJSON.c:330-347 | with other bytes behind the print and space, it is refused where they start if nothing may follow |
| `JsonRoundTrip.RoundTrip` | cJSON/src/cJSON.c:367-692 | wherever the print of a printable value stands in a text and something follows that ends it, it is parsed as that value and just that text is consumed |
| `JsonRoundTrip.PrintThenParse` | cJSON/src/cJSON.c:330-427 | for every printable tree, formatted or not: parsing the print gives the tree and consumes the whole text |
| `JsonPrinter.PrintValue` | cJSON/src/cJSON.c:396-427 | printing in two passes fills a buffer of just the counted length with JsonText.Print, the canonical text of the value |
| `JsonPrinter.PrintString` | cJSON/src/cJSON.c:255-310 | the counted length covers exactly what the escaping loop writes |
| `JsonPrinter.PrintArray` | cJSON/src/cJSON.c:458-535 | the counted length covers exactly what is composed |
| `JsonPrinter.PrintObject` | cJSON/src/cJSON.c:584-692 | the counted length covers exactly what is composed |
| `PowerOfTwo.Pow2Gt` | cJSON/src/cJSON.c:117 | the smearing of bits gives the least power of two that is not below the argument |
| `JsonBuffer.PrintBuffer.Ensure` | cJSON/src/cJSON.c:121-136 | there is room afterwards, the written front is kept, and a new buffer has the least power of two that is long enough |
| `JsonBuffer.PrintBuffer.Update` | cJSON/src/cJSON.c:138-144 | finds the end of what was written |
| `JsonBuffered.PrintValueTo` | cJSON/src/cJSON.c:396-427 | appends JsonText.Print behind what the buffer held, growing it as needed |
| `JsonBuffered.PrintObjectTo` | cJSON/src/cJSON.c:584-642 | appends the print of the object; the place given as its start is the right one if and only if it is not formatted, has no members, or its depth is the offset it started at |
| `JsonBuffered.SecondInArray` | cJSON/src/cJSON.c:638-640 | for every object that stands second in an array, behind null, the place given is 1 and the object starts at 7 |
| `JsonBuffered.PrintBuffered` | cJSON/src/cJSON.c:355-363 | growing-buffer printing gives the same bytes as printing in two passes, and at the top the place given is their start |

## Findings

Five statements of the source do not hold in general. The model follows the code, and says exactly when they do.

* `stl/sgi-stl/ropeimpl.h:1201` asserts that the tree made of the prefix and the new piece is at most one deeper than
  the piece. A long leaf that follows a deep, short prefix breaks it. `RopeOutlines.SecondCheck` gives the condition,
  both ways, from the sizes and depths before the call; `RopeChecks.RunBreaksBoth` runs a named rope into it.
* `stl/sgi-stl/ropeimpl.h:1123` says that slot i of the forest has depth i. The same rope puts a tree of depth 3 into
  slot 4. `RopeOutlines.CommentHolds` gives the condition, both ways. What does hold always is that slot i has a depth
  of at most i + 1 and a size within its bucket (`RopeTree.AddToForest`).
* `stl/sgi-stl/stl_deque.h:1017` passes the ends of a range of buffers in the wrong order, so that no buffer is given
  back when erasing moves the front. `DequeStore.Deque.EraseRange` says exactly when a buffer is left behind, and which
  ones; `DequeStore.EraseLeavesBuffer` is an example. The elements are right in all cases.
* `stl/sgi-stl/stl_rope.h:2188-2190` erases a single character by passing p + 1 as the length. `RopeOps.EraseAtIsOne`
  says when that takes out one character.
* `cJSON/src/cJSON.c:638-640` computes the start of a formatted object from the variable i, which the loop over the tabs has
  used in between. `JsonBuffered.PrintObjectTo` says when the place is right, and `JsonBuffered.SecondInArray` is a family of
  inputs for which it is not. The caller that keeps the place is at the top, where it is right (`JsonBuffered.PrintBuffered`).

`stl/sgi-stl/stl_algo.h:948-954` passes an iterator tag as the last argument, where the overload for random access at
line 892 takes a pointer to an element, so `rotate` never selects that overload. The model has it as a function of its
own.

The JSON parser takes more than RFC 8259 does: any byte up to 32 as space, control characters in strings, any byte
behind a backslash, no digits behind a minus sign or in an exponent, one zero in front of other digits, and a string
without its closing quote at the end of the text. `JsonAccepts.AcceptsExactly` shows that this is all. An escape for
zero, which RFC 8259 allows, surrogates outside pairs, and four bytes behind `\u` that are no hexadecimal digits leave no bytes
(`JsonLiteral.PieceMeaning`).

## Left out

Of the ropes:

- Iterators on the empty rope, the mutable iterators, and copying an iterator whose buffer is its own.
- The flattened copy that c_str keeps with a node: the iterator knows that a rope was flattened, the memory model does not.
- A character producer is modelled by the sequence of characters it produces.
- insert with an array of characters is modelled as replace with a rope made of them; the three-part form at stl_rope.h:2062 is not.
- A destructive append relinks a node and gives up the old child in one step; the code does one after the other.
- Characters of a type other than the basic ones, for which a leaf has no room for a terminator.
- Comparison of ropes, stream output, debugging output, and the collected variant without counts.
- RopeHandles.Ropes.Append: requires a result of at most max_size characters; of longer ropes the code itself says only that they will probably work.

Of the allocator:

- The lock, and several instances of the allocator at once.
- What malloc returns is aligned to eight bytes and apart from what is allocated; this is assumed of it.
- PoolAllocator.Allocator.Allocate: a null answer stands for the exception that the out-of-memory handler would throw; how often the handler is called before is not modelled.
- PoolAllocator.Allocator.Reallocate: memory holds one value for each address, so that a link and the bytes it covers are one value; what realloc does to a large block is assumed to be what its own specification says.

Of the algorithms:

- The overloads that use the operator < of the elements; those with a comparison have the same bodies.
- Whether a temporary buffer could be had, and how long it is, is a parameter of the stable sort.
- Random shuffling and sampling, set operations, partial_sort_copy, and the algorithms that only read.

Of the containers:

- The element in a list's sentinel node, which is memory that was never constructed, is modelled by an arbitrary value.
- Merging a list with itself, and remove, unique, resize and assign of lists.
- Exceptions thrown by a copy in the middle of an operation, and the undoing that follows.
- Insertion of a range of a deque into itself, its constructors from ranges, swap, and comparison.
- DequeIterator.AdvanceOff: an iterator is a value here, since the code copies it everywhere; += and ++ give the new value instead of changing the old one.
- DequeStore.Deque.constructor: the code fills the buffers through pointers into each, the model through iterators from the start of one to the start of the next.
- DequeStore.Deque.EraseRange: nothing is said of what becomes of a buffer left behind later; nothing gives it back.
- find_or_insert, the insertion of ranges into a hash table, comparison and swap of hash tables, and the wrappers hash_map, hash_set and their multiple forms.
- The red-black tree, vector and singly linked list, bit vectors, and the concept checks.

Of the JSON library:

- Items as linked nodes with their type flags: a parsed value is a tree, and creating, attaching, detaching and deleting items is not modelled.
- malloc failing, the hooks, the error pointer before a text is refused, and the output for debugging.
- JsonParser.ParseNumber: a number is its exact decimal value, mantissa times a power of ten; the code computes it in floating point.
- JsonPrinter.PrintValue: only numbers that are integers of the int range are printed; the others go through a floating-point format.
- JsonLiteral.ParseString: a literal is not in its domain when a quote, a backslash or the end of the text stands within the four bytes behind `\u`, or the text ends behind a backslash; the two passes then disagree on where the literal ends, and the code may run beyond the text or its buffer.
- JsonParser.Parse: the same restriction, for every literal it meets.
- JsonBuffered.PrintBuffered: the printed text and 32 bytes more fit into 2^30 bytes, beyond which the code's int arithmetic would overflow.
- Minifying a text, and finding an item by its name.

The other programs beside these two libraries are not part of this model.
