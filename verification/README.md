# MyStl containers and pool allocator in Dafny

This project models the core of MyStl, a small re-implementation of the C++
standard containers. It covers:

- **The two-level memory pool.** `default_alloc` quantises small requests
  (at most 128 bytes) to 16 size classes of 8 bytes each. Every class has a
  LIFO free list. The lists are refilled from an arena window
  `[start_free, end_free)`, and that window is regrown from the system
  allocator.
- **The typed allocator facade.** `pool_alloc<T>` sits in front of the pool.
- **The binary max-heap algorithms** and the `priority_queue` adapter built
  on them.
- **`vector`.** It is one contiguous buffer with a size and a capacity.
- **`deque`.** It is a map of fixed-size buffers, with its iterator
  arithmetic.
- **`list`.** It is a circular doubly linked list threaded through a
  sentinel node.
- **`stack` and `queue`.** These two adapters sit over a `deque`.

Each component is a module, and its Dafny members are named after the C++
members they model.

- **Pool.** Addresses are integers, with 0 as the null pointer, and each
  free list is a sequence of block addresses, head first. The system
  allocator is an oracle that either grants a region or refuses.
  `PoolSafety` proves that a global invariant survives every entry point and
  any sequence of allocate and deallocate calls. The invariant says that the free-list blocks, the
  arena window and the blocks handed to callers are pairwise disjoint, and
  that each block on list k spans 8(k+1) bytes.
- **Heap.** The algorithms are methods over `seq<int>` with loop invariants.
- **Vector and deque.** Each has an abstraction function to its element
  sequence.
- **List.** It is modelled at two levels:
  - `ListRing` and `ListTransfer` model the node level. `next`, `prev` and
    `data` are maps over node ids. They prove that `insert`, `erase` and
    `transfer` keep the ring well linked, and they state each operation's
    effect on the element sequence.
  - `List` runs `merge`, `sort`, `unique`, `reverse` and `remove` on element
    sequences, one such step at a time.
- **Adapters.** `stack` and `queue` forward to the `deque` model.
  `Lexicographic` gives the container comparisons they forward to.

Where a comment in the source and the code disagree, the model follows the
code:

- The comment at heap.h:104 says `sort_heap` leaves the elements from large
  to small. The code leaves them in ascending order, and `Heap.SortHeap`
  states that.
- The comment at pool_allocator.h:220 says the leftover window always fits a
  free list. `PoolSafety.SalvageIsExact` proves this from the invariant.

## Model

| member | source | states |
|---|---|---|
| PoolAllocator.InitialPool | pool_allocator.h:145-151 | the initial pool is well formed, with every free list empty, an empty window and a zero heap size |
| PoolAllocator.RoundUp | pool_allocator.h:122-124 | `round_up(n)` is a multiple of 8 and lies in `[n, n+8)`, so it is the least multiple of 8 that is at least `n` |
| PoolAllocator.FreeListIndex | pool_allocator.h:126-129 | for 1 <= n <= 128 the list index lies in `[0, 16)`, and the class size of that list, 8(i+1), is `round_up(n)` |
| PoolAllocator.SameListAsRounded | pool_allocator.h:156-161 | `n` and `round_up(n)` select the same free list, so `allocate` and `refill` agree on the list |
| PoolAllocator.SeventeenBytesUseClassTwo | pool_allocator.h:122-129 | a 17-byte request rounds to 24 bytes and uses list 2 |
| PoolAllocator.GrowthRequestCovers | pool_allocator.h:229 | the growth request `2*total + round_up(heap_size>>4)` is a multiple of 8 and covers at least twice the request |
| PoolAllocator.FindDonor | pool_allocator.h:238-249 | the donor scan returns a class of at least `size` bytes whose list is non-empty, and every class it passed over is empty; with no donor, all classes from `size` to 128 are empty |
| PoolAllocator.FindDonorFindsFirst | pool_allocator.h:238-249 | the scan stops at the first non-empty class at or above `size` |
| PoolAllocator.Salvage | pool_allocator.h:221-226 | salvaging the leftover window yields 16 free lists |
| PoolAllocator.Replenish | pool_allocator.h:221-258 | a window too small for one block is regrown to hold at least one block, and the heap size never shrinks; the call runs out of memory exactly when malloc refuses, no larger class can donate, and the fallback allocator refuses too |
| PoolAllocator.ChunkAlloc | pool_allocator.h:200-260 | a successful chunk has between 1 and the requested number of blocks, the pool stays well formed, and the heap size never shrinks |
| PoolAllocator.ChunkAllocCarves | pool_allocator.h:207-217 | with room for one block, the result is the old `start_free`, which advances by `size*n_nodes`; `n_nodes` is kept when the window exceeds the request and otherwise becomes `bytes_left/size` |
| PoolAllocator.ChunkAllocStartsOver | pool_allocator.h:255-258 | when the window is too small, the call recurses on the replenished pool and succeeds exactly when replenishing does |
| PoolAllocator.ChunkAllocGrows | pool_allocator.h:228-258 | when malloc grants the growth request, the chunk is the new region, all `n_nodes` blocks are served, `heap_size` grows by the request, and the rest of the region becomes the window |
| PoolAllocator.ChunkAllocUsesDonor | pool_allocator.h:243-247 | when malloc refuses, the first non-empty larger class gives its head block as a window of exactly its class size, and the call recurses on that pool |
| PoolAllocator.Refill | pool_allocator.h:262-293 | refill succeeds exactly when `chunk_alloc(n, 20)` does, and it returns the chunk's first block |
| PoolAllocator.RefillLinksRest | pool_allocator.h:267-292 | with one block, nothing is linked; otherwise the list for `n` becomes `chunk+n, chunk+2n, ...`, one entry per remaining block, and nothing else changes |
| PoolAllocator.Allocate | pool_allocator.h:153-166 | a large request goes to the system and leaves the pool untouched; a non-empty list gives its head and keeps its tail, with every other list, the window and the heap size unchanged |
| PoolAllocator.Deallocate | pool_allocator.h:168-180 | a large block leaves the pool untouched; a small block is pushed on the head of its class list, and nothing else changes |
| PoolAllocator.Reallocate | pool_allocator.h:182-198 | two large sizes leave the pool to the system; sizes that round to the same class return `ptr` with the pool unchanged |
| PoolAllocator.DeallocateThenAllocate | pool_allocator.h:156-179 | LIFO reuse: freeing `ptr` and then allocating any size of the same class returns `ptr` and restores the pool |
| PoolAllocator.TypedAllocateOne | pool_allocator.h:311-313 | one object is `sizeof(T)` bytes from the pool: the head of its class list when that list is non-empty, no pool change for an object over 128 bytes, and a well-formed pool after any success |
| PoolAllocator.TypedAllocate | pool_allocator.h:315-317 | zero objects is the null pointer with the pool untouched; otherwise `n * sizeof(T)` bytes are served as for one object |
| PoolAllocator.TypedDeallocateOne | pool_allocator.h:320-323 | the null pointer and objects over 128 bytes leave the pool as it was; otherwise the block becomes the head of its class list and no other list changes |
| PoolAllocator.TypedDeallocate | pool_allocator.h:325-328 | zero objects and blocks over 128 bytes leave the pool as it was; otherwise the `n * sizeof(T)`-byte block becomes the head of its class list and no other list changes |
| PoolAllocator.TypedZeroIsNoCall | pool_allocator.h:315-328 | `pool_alloc::allocate(0)` returns null, and `deallocate(p, 0)` and `deallocate(null)` leave the pool untouched |
| PoolAllocator.TypedDeallocateThenAllocate | pool_allocator.h:311-328 | the typed facade inherits LIFO reuse, for `n` elements and for one element |
| PoolSafety.InitialPoolSafe | pool_allocator.h:145-151 | the initial pool satisfies the safety invariant with nothing handed out |
| PoolSafety.SalvageIsExact | pool_allocator.h:219-226 | under the invariant, a leftover window smaller than a block is a multiple of 8 below 128, so the list it joins has exactly its size |
| PoolSafety.ChunkAllocSafe | pool_allocator.h:200-260 | given a fresh system region, `chunk_alloc` keeps the invariant, with the returned chunk counted as handed out |
| PoolSafety.RefillSafe | pool_allocator.h:262-293 | `refill` keeps the invariant, with the returned block of `n` bytes handed out |
| PoolSafety.AllocateSafe | pool_allocator.h:153-166 | `allocate` keeps the invariant, and the new block is disjoint from everything else |
| PoolSafety.DeallocateSafe | pool_allocator.h:168-180 | returning a block that is handed out, with its own size, keeps the invariant |
| PoolSafety.ReallocateSafe | pool_allocator.h:182-198 | `reallocate` keeps the invariant, trading the old block for the new one |
| PoolSafety.RunStaysSafe | pool_allocator.h:153-180 | any sequence of allocate and deallocate calls (with fresh system regions, freeing only held blocks) keeps the invariant |
| PoolSafety.RunFromStartIsSafe | pool_allocator.h:145-180 | every state reachable from the initial pool is safe |
| Heap.PushHeapAux | heap.h:9-24 | sift-up writes only positions on the path from the hole to the top, keeps the multiset with the hole filled by `value`, and from the root yields a heap one element longer |
| Heap.PopHeapAux | heap.h:27-55 | sift-down keeps the multiset with the hole filled by `value`, leaves positions before the hole and from `len` on untouched, and yields a heap from the hole down, including the only-left-child case |
| Heap.PushHeap | heap.h:62-69 | on a heap of `n-1` elements plus a new last element, the result is a heap of `n` elements with the same multiset |
| Heap.PopHeap | heap.h:75-85 | the old root moves to position `n-1`, the first `n-1` elements form a heap, and the multiset is kept |
| Heap.MakeHeap | heap.h:89-101 | the result is a heap and a permutation of the input, and inputs shorter than 2 are unchanged |
| Heap.SortHeap | heap.h:105-112 | a heap becomes a non-decreasing permutation of itself |
| Heap.RootIsMax | heap.h:60-101 | in a heap the root is at least every element of the heap range |
| Heap.MakeHeapAsWrittenLosesElements | heap.h:98 | as written, `make_heap` on `[1, 2, 3]` gives `[3, 2, 3]`, which is not a permutation of the input |
| Heap.MakeHeapAsWritten | heap.h:89-102 | the `make_heap` loop as written keeps the length and leaves ranges shorter than 2 unchanged; the row above shows it is not a permutation |
| PriorityQueue.EmptyQueue | priority_queue.h:21 | a default-constructed queue is a valid heap of size 0 |
| PriorityQueue.FromRange | priority_queue.h:22-24 | the range constructor holds exactly the input elements as a heap, with the input's maximum on top |
| PriorityQueue.Top | priority_queue.h:27 | `top()` is a stored element at least every other stored element |
| PriorityQueue.RootDominates | priority_queue.h:27 | the container's front dominates every element of a valid queue |
| PriorityQueue.IsEmpty | priority_queue.h:28 | `empty()` holds exactly when no element is stored |
| PriorityQueue.Size | priority_queue.h:29 | `size()` is the number of stored elements |
| PriorityQueue.Push | priority_queue.h:30-33 | `push(v)` adds exactly one `v`, keeps the heap, and grows the size by 1 |
| PriorityQueue.Pop | priority_queue.h:34-37 | `pop()` removes exactly one occurrence of the maximum, keeps the heap, and shrinks the size by 1 |
| PriorityQueue.Scenario | test/test_priority_queue.h:18-31 | from `{1..5}` the top is 5; after `push(1)` the size is 6; after `push(7)` and `push(6)` the top is 7; after `pop()` the top is 6 |
| Vector.EmptyVector | vector.h:47 | the default vector has no elements and no capacity |
| Vector.Size | vector.h:95 | `size()` is the number of elements and at most the capacity |
| Vector.Capacity | vector.h:96 | `capacity()` is the number of elements plus the raw slots after them |
| Vector.IsEmpty | vector.h:100 | `empty()` holds exactly when there are no elements |
| Vector.FillInitialize | vector.h:279-291 | `fill_initialize(n, x)` yields `n` copies of `x`, with size and capacity both `n` |
| Vector.EraseRange | vector.h:131-136 | `erase(first, last)` leaves `s[..f] + s[l..]`, shrinks the size by `l-f`, keeps the capacity, and returns `first` |
| Vector.Erase | vector.h:139-146 | `erase(pos)` removes exactly the element at `pos`, and later elements shift down by one |
| Vector.EraseUndoesInsert | vector.h:131-136 | erasing the `n` elements just inserted at `i` gives the original sequence back |
| Vector.InsertNothing | vector.h:150 | inserting zero copies changes nothing |
| Vector.PopBack | vector.h:209-212 | `pop_back` removes the last element and keeps the capacity |
| Vector.InsertShiftMany | vector.h:155-161 | with more elements after `pos` than inserted, the in-place shift yields `s[..i] + [x]^n + s[i..]` |
| Vector.InsertShiftFew | vector.h:162-170 | with at most `n` elements after `pos`, the in-place fill-and-copy yields `s[..i] + [x]^n + s[i..]` |
| Vector.InsertRealloc | vector.h:178-184 | copying into a fresh buffer yields `s[..i] + [x]^n + s[i..]` |
| Vector.InsertN | vector.h:149-198 | `insert(pos, n, x)` yields `s[..i] + [x]^n + s[i..]`; it is a no-op for `n == 0`, keeps the capacity when `size()+n < capacity()`, and otherwise reallocates |
| Vector.GrowthAsWrittenCovers | vector.h:176-177 | the written capacity (10 when empty, else twice the size) holds `n` more elements exactly when `n <= 10` (empty) or `n <= size` |
| Vector.ReallocAsWritten | vector.h:175-197 | the as-written reallocation has 10 or twice the size slots and puts `finish` `size + n` past the start; the vector is well formed exactly when that capacity holds `size + n`, and then holds the intended elements |
| Vector.InsertNAsWrittenOverflows | vector.h:175-197 | as written, inserting 3 elements into a full vector of 1 gives a 2-slot buffer with `finish` at 4 |
| Vector.InsertNAsWritten | vector.h:149-198 | `insert(pos, n, x)` as written is well formed exactly when `n == 0`, the in-place test passes, or the written growth suffices, and then holds `s[..i] + [x]^n + s[i..]` |
| Vector.Growth | vector.h:176-178 | the corrected capacity always holds the new elements and agrees with the written rule whenever that rule suffices |
| Vector.InsertAux | vector.h:308-343 | `insert_aux(pos, x)` yields `s[..i] + [x] + s[i..]`, keeping the capacity when not full and growing to 10 or twice the size when full |
| Vector.InsertAsWritten | vector.h:106-113 | as written, inserting at `end()` with spare room leaves the elements unchanged, and every other insert inserts |
| Vector.Insert | vector.h:106-113 | the corrected `insert(pos, x)` yields `s[..i] + [x] + s[i..]` and returns `pos` |
| Vector.PushBackAsWritten | vector.h:215-220 | as written, `push_back` with spare room leaves the elements unchanged, and a full vector appends through `insert_aux` |
| Vector.PushBack | vector.h:215-220 | the corrected `push_back(x)` appends `x`, growing only when full |
| Vector.PopBackUndoesPushBack | vector.h:209-220 | `pop_back` after `push_back(x)` restores the elements |
| Vector.Reserve | vector.h:223-240 | `reserve(c)` keeps the elements, raises the capacity to `c` when it is smaller, and otherwise changes nothing |
| Vector.Resize | vector.h:123-128 | `resize(count, x)` truncates to the first `count` elements, or appends `count - size()` copies of `x` |
| Vector.Swap | vector.h:202-206 | `swap` keeps both vectors well formed, and each takes the other's elements and capacity |
| Vector.SwapTwice | vector.h:202-206 | swapping twice restores both vectors |
| SeqAlgorithms.Copy | vector.h:132 | `std::copy` writes the source range at the destination and leaves every other slot alone, also for overlapping ranges moving down |
| SeqAlgorithms.CopyBackward | vector.h:160 | `std::copy_backward` writes the range so that it ends at `destLast` and leaves every other slot alone, also for overlapping ranges moving up |
| SeqAlgorithms.Fill | vector.h:161 | `std::fill` sets exactly the slots of the range |
| SeqAlgorithms.CopyAcross | vector.h:182 | `uninitialized_copy` into another buffer writes exactly the destination range |
| DequeIterator.BufSize | deque.h:13-16 | a non-zero requested size wins; otherwise the buffer holds as many elements as fit in 512 bytes, or 1 for large elements, and never fewer than 1 |
| DequeIterator.Advance | deque.h:103-114 | `it += n` moves the position by exactly `n` and keeps `cur` inside the buffer, for negative `n` too |
| DequeIterator.Retreat | deque.h:122 | `it -= n` moves the position back by exactly `n` and keeps `cur` inside the buffer |
| DequeIterator.Next | deque.h:73-80 | `++` moves the position by 1, crossing onto the next buffer at the end of one |
| DequeIterator.Prev | deque.h:88-95 | `--` moves the position back by 1, crossing onto the previous buffer at the start of one |
| DequeIterator.NextPrev | deque.h:73-95 | `++` and `--` undo each other |
| DequeIterator.AdvanceOneIsNext | deque.h:103-114 | `+= 1` and `+= -1` land on the same iterator as `++` and `--` |
| DequeIterator.Distance | deque.h:63-66 | `x - y` is the difference of the abstract positions |
| DequeIterator.LessIsPositionOrder | deque.h:134-136 | for iterators inside their buffers, `<` by node and then by `cur` is the order of positions |
| Deque.SizeIsLength | deque.h:63-66 | `finish - start` counts the stored elements |
| Deque.Size | deque.h:280 | `size()` is the number of elements |
| Deque.IsEmpty | deque.h:281 | `empty()` holds exactly when there are no elements |
| Deque.Front | deque.h:248-249 | `front()` is the first element |
| Deque.Back | deque.h:250-259 | `back()` is the last element, also when `finish` is at the start of a buffer |
| Deque.CreateMapNodes | deque.h:718-744 | `create_map_nodes(n)` builds `n/B+1` buffers in a map of `max(8, n/B+3)` slots, with a spare slot on each side, and `size() == n` |
| Deque.EmptyDeque | deque.h:220 | the default deque is valid and empty, with one buffer |
| Deque.ReallocateMap | deque.h:650-686 | with the corrected copy, the node window and the elements are preserved, at least `k` spare slots exist on the requested side, and the map keeps its size when recentred or grows to `map_size + max(map_size, k) + 2` |
| Deque.Recentre | deque.h:656-666 | with the copy end of the deque.h:665-666 finding corrected, recentring inside the old map preserves the window and the elements and makes room for `k` nodes on the requested side |
| Deque.Regrow | deque.h:667-681 | moving to a larger map preserves the window and the elements and makes room for `k` nodes on the requested side |
| Deque.ReallocateMapAsWritten | deque.h:650-686 | as written, a recentre that moves the nodes up places them `k` slots past the new `start` |
| Deque.ReallocateMapAsWrittenLosesBuffer | deque.h:665-666 | a one-buffer deque in an 8-slot map, on `push_front`, ends with `start` on a free slot and its buffer one slot later |
| Deque.ReserveMapAtBack | deque.h:204-209 | afterwards at least `k` slots follow `finish`, the elements are kept, and nothing changes when there already were |
| Deque.ReserveMapAtFront | deque.h:211-216 | over the corrected `ReallocateMap` of the deque.h:665-666 finding, afterwards at least `k` slots precede `start`, the elements are kept, and nothing changes when there already were |
| Deque.PushBack | deque.h:473-495 | `push_back(v)` appends `v`; a buffer is added exactly when `finish.cur` is on the last slot |
| Deque.PushFront | deque.h:450-471 | `push_front(v)` prepends `v`; a buffer is added exactly when `start.cur` is on the first slot |
| Deque.PopBack | deque.h:424-436 | `pop_back` removes the last element, and a buffer that empties is released |
| Deque.PopFront | deque.h:438-448 | `pop_front` removes the first element, and a buffer that empties is released |
| Deque.Clear | deque.h:312-323 | `clear` leaves no elements and only the start buffer, and releases every other buffer |
| ListRing.EmptyInitialize | list.h:488-492 | the sentinel links to itself both ways, the list is empty, and no other node changes |
| ListRing.EmptyIffNoElements | list.h:203 | `empty()` (`node->next == node`) holds exactly when the list has no elements |
| ListRing.NextPrevInverse | list.h:186-191 | around the ring, `prev` undoes `next` and `next` undoes `prev` |
| ListRing.SizeIsDistance | list.h:204 | walking `next` from `begin()` reaches `end()` after exactly `size` steps, and not before |
| ListRing.FrontBack | list.h:180-183 | `front()` and `back()` read the first and last elements |
| ListRing.Insert | list.h:465-471 | the new node holds `v` and sits between `pos` and its old predecessor, linked both ways, and every other node keeps its `next`; `InsertLinks` lifts this to the ring order |
| ListRing.Erase | list.h:441-448 | `erase(pos)` returns the successor of `pos`, drops `pos` and its element, and links its two neighbours to each other; `EraseLinks` lifts this to the ring order |
| ListRing.InsertLinks | list.h:465-471 | `insert(pos, v)` links one new node right before `pos`, the ring stays well linked, the elements gain `v` at that index, and only three nodes change |
| ListRing.EraseLinks | list.h:441-448 | `erase(pos)` unlinks `pos`, returns its successor, removes that element from the sequence, and changes only `pos` and its two neighbours |
| ListRing.PushBack | list.h:219 | `push_back(v)` appends `v` |
| ListRing.PushFront | list.h:220 | `push_front(v)` prepends `v` |
| ListRing.PopBack | list.h:217 | `pop_back` removes the last element |
| ListRing.PopFront | list.h:218 | `pop_front` removes the first element |
| ListTransfer.Transfer | list.h:474-484 | nothing changes when `pos == last`; otherwise `first` follows the node that preceded `pos`, `pos` follows the node that preceded `last`, that node leads to `pos`, and no element changes |
| ListTransfer.TransferChanges | list.h:474-484 | the six assignments rewire exactly the three `next` and three `prev` links named in the source |
| ListTransfer.TransferWithin | list.h:474-484 | within one list, `transfer` moves `[first, last)` before `pos`, keeps the ring well linked, creates and destroys no node, and is a no-op when `pos == last` |
| ListTransfer.TransferAcross | list.h:474-484 | between two lists, `transfer` moves the range out of one ring into the other, both stay well linked and disjoint, and no node is created or destroyed |
| List.InsertRange | list.h:452-455 | inserting a range before position `p` yields `s[..p] + t + s[p..]` |
| List.InsertCopies | list.h:458-462 | `insert(pos, n, v)` yields `s[..p] + [v]^n + s[p..]` |
| List.EraseRange | list.h:434-438 | `erase(first, last)` removes the range and returns the position of `last` |
| List.EraseInsertRoundTrip | list.h:434-438 | putting the erased range back where it was rebuilds the list |
| List.Clear | list.h:208 | `clear` leaves no elements |
| List.Resize | list.h:421-431 | `resize(n, v)` truncates to the first `n` elements, or pads with copies of `v` |
| List.SpliceConserves | list.h:378-383 | a range splice keeps the elements of the two lists together, places the range at `pos`, and is a no-op for an empty range |
| List.SpliceOne | list.h:386-392 | splicing one element removes it from its index and reinserts it before `pos` |
| List.SpliceAll | list.h:395-399 | splicing a whole list inserts all of it at `pos` and leaves the other list empty |
| List.MoveBeforeBlock | list.h:378-383 | a spliced range inside one list arrives intact and the elements are permuted |
| List.Merge | list.h:402-418 | `merge` produces the reference merge of the two lists, and the other list ends empty |
| List.MergeSorted | list.h:402-418 | merging two sorted lists gives a sorted list |
| List.MergeStableEq | list.h:402-418 | the merge is sorted and is the multiset union; among equal keys, this list's elements come before the other's, each in its original order |
| List.Reverse | list.h:354-365 | `reverse` yields the reversed sequence |
| List.RevRev | list.h:354-365 | reversing twice gives the list back |
| List.Unique | list.h:338-351 | `unique` yields the sequence with each run of equal elements collapsed to one |
| List.DedupNoAdjacentDup | list.h:338-351 | after `unique` no two neighbours are equal |
| List.DedupSameValues | list.h:338-351 | `unique` keeps exactly the values that were present |
| List.DedupFixed | list.h:338-351 | `unique` changes nothing exactly when no two neighbours are equal |
| List.RemoveAsWritten | list.h:368-375 | whenever the as-written loop finishes, every element from `first` on has been erased |
| List.RemoveAsWrittenHangs | list.h:368-375 | as written, `remove` never finishes once it meets an element different from `value` |
| List.RemoveAsWrittenAllEqual | list.h:371-374 | as written, `remove` finishes only when every remaining element equals `value` |
| List.RemoveAsWrittenOnOne | list.h:371-374 | as written, `remove(2)` on the list `[1]` never finishes |
| List.Remove | list.h:368-375 | the corrected `remove(v)` removes every `v` and keeps the other elements in order |
| List.WithoutRemovesExactly | list.h:368-375 | the result holds no `v`, and every other value keeps its count |
| List.Sort | list.h:307-335 | `sort` yields a sorted permutation, stable among equal keys |
| List.SortedStableUnique | list.h:307-335 | a sorted, stably reordered list is unique, so `sort` has exactly one possible result |
| Lexicographic.EqualIsSame | stack.h:37-40 | element-wise container `==` is equality of the element sequences |
| Lexicographic.Trichotomy | stack.h:47-50 | exactly one of `x < y`, `x == y` and `y < x` holds |
| Lexicographic.LessTransitive | stack.h:47-50 | lexicographic `<` is transitive |
| Lexicographic.LessPrefix | stack.h:47-50 | a proper prefix is less |
| Lexicographic.LessFirstDifference | stack.h:47-50 | after a common prefix, a smaller element makes the sequence less |
| Stack.New | stack.h:26 | a fresh stack is empty |
| Stack.Top | stack.h:29-30 | `top()` is the last element pushed that is still there |
| Stack.Empty | stack.h:31 | `empty()` holds exactly when there are no elements |
| Stack.Size | stack.h:32 | `size()` is the number of elements |
| Stack.Push | stack.h:33 | `push(v)` adds `v` on top |
| Stack.Pop | stack.h:34 | `pop()` removes the top |
| Stack.PushThenTop | stack.h:29-33 | after `push(v)`, `top()` is `v` |
| Stack.PushThenPop | stack.h:33-34 | `pop()` undoes `push(v)` (LIFO) |
| Stack.Scenario | test/test_stack.h:21-31 | a fresh stack is empty; after `push(1)` the size is 1; after `push(2)` and `push(3)` the top is 3; after `pop()` the top is 2 |
| Stack.Equal | stack.h:37-40 | as for Queue: `==` holds exactly when the element sequences are equal |
| Stack.NotEqual | stack.h:42-45 | as for Queue: `!=` is the negation of `==` |
| Stack.Less | stack.h:47-50 | as for Queue: `<` is lexicographic, implies inequality, and is the negation of the reversed `<=` |
| Stack.Greater | stack.h:52-55 | as for Queue: `>` holds exactly when neither `<` nor `==` does |
| Stack.LessEq | stack.h:57-60 | as for Queue: `<=` is `<` or `==` |
| Stack.GreaterEq | stack.h:62-65 | as for Queue: `>=` is the reversed `<` or `==` |
| Queue.New | queue.h:26 | a fresh queue is empty |
| Queue.Empty | queue.h:29 | `empty()` holds exactly when there are no elements |
| Queue.Size | queue.h:30 | `size()` is the number of elements |
| Queue.Front | queue.h:31-32 | `front()` is the oldest element |
| Queue.Back | queue.h:33-34 | `back()` is the newest element |
| Queue.Push | queue.h:35 | `push(v)` appends `v` at the back |
| Queue.Pop | queue.h:36 | `pop()` removes the front |
| Queue.PushThenBack | queue.h:31-35 | after `push(v)`, `back()` is `v`, and `front()` is unchanged unless the queue was empty |
| Queue.PushPopCommute | queue.h:35-36 | FIFO: on a non-empty queue, push-then-pop equals pop-then-push |
| Queue.Scenario | test/test_queue.h:21-32 | a fresh queue is empty; after `push(1)` the size is 1; after `push(2)` and `push(3)` the front is 1 and the back is 3; after `pop()` the front is 2 |
| Queue.Equal | queue.h:39-42 | `==` holds exactly when the element sequences are equal |
| Queue.NotEqual | queue.h:44-47 | `!=` is the negation of `==` |
| Queue.Less | queue.h:49-52 | `<` is lexicographic, implies inequality, and is the negation of the reversed `<=` |
| Queue.Greater | queue.h:54-57 | `>` holds exactly when neither `<` nor `==` does |
| Queue.LessEq | queue.h:59-62 | `<=` is `<` or `==` |
| Queue.GreaterEq | queue.h:64-67 | `>=` is the reversed `<` or `==` |

## Left out

- `malloc_alloc` (pool_allocator.h:20-98) is not modelled: its malloc, realloc and free, its out-of-memory handler loop, and `exit(1)`. The system allocator is an oracle. A refusal by the fallback allocator is an `OutOfMemory` outcome, which stands for the process exiting.
- The byte contents of blocks are not modelled. This covers the `memcpy` in `reallocate` and its over-read of `max(old, new)` bytes (pool_allocator.h:194-195). Only pointers and free lists are modelled.
- The uninitialised read at pool_allocator.h:237 is not modelled. The model starts the donor scan at line 238, as intended.
- PoolAllocator.Allocate, PoolAllocator.Deallocate and PoolAllocator.Reallocate require sizes of at least 1. A size of 0 makes `get_free_list` index list -1, which is undefined behaviour. `pool_alloc` never passes 0 (see `TypedZeroIsNoCall`).
- PoolSafety lemmas require the oracle to return regions disjoint from the current footprint. The real malloc guarantees that; the model cannot observe it.
- `size_t` wrap-around is not modelled: integers are unbounded. This applies to the `heap_size` growth rule, vector sizes and deque positions.
- The `volatile` free lists and any concurrent use of the static pool are left out. The model is sequential.
- Exceptions and their rollback paths are left out: every `try`/`catch` in vector.h, deque.h and list.h. The model never throws.
- `pool_alloc::construct/destroy/address/max_size/rebind` and placement construction are left out. Construction and assignment are both modelled as writing a value.
- `vector` copy construction, `operator=` (vector.h:243-276), element access and reverse iterators are left out. `operator=` sets `finish` from the source's capacity, not its size.
- `list::operator=` (list.h:249-283) is left out: it increments the iterator twice per element. `list::swap` (list.h:222) is left out: it only exchanges the sentinel pointers.
- `deque` insert and erase in the middle, `resize`, `swap`, copy construction and `fill_initialize` are left out. Some of these are missing return values (deque.h:377-422).
- The `list::insert` overloads at list.h:457-471 fall off the end without returning. They are modelled as returning nothing.
- Deque.Clear does not state that released buffers go back to the pool. The pool and the containers are modelled separately, and a buffer release is a slot becoming `Free`.
- List.Unique states the resulting element sequence only. The source keeps the last node of each run of equal elements. This is invisible in the sequence but means node identities differ from a keep-the-first implementation.
- List.Sort requires fewer than 2^64 elements, the capacity of its 64 bins (list.h:313).
- Vector.InsertAux, Vector.Insert and Vector.InsertN take the value as a copy. The source takes `const T& value` and reads it only after the in-place path has shifted the elements (`copy_backward` at vector.h:315 before `*position = value` at vector.h:317, and at vector.h:160 before the `fill` at vector.h:161). So a reference into the vector itself sees a shifted slot: on `[1, 2, 3]` with capacity 4, `insert(begin(), v[2])` gives `[2, 1, 2, 3]` in the source, where the model gives `[3, 1, 2, 3]`. No caller inside the library passes such a reference. `list::remove(front())` is the same kind of alias: it compares against a node it has already erased (list.h:372-373), and List.Remove takes the value as a copy too.
- Vector.InsertAux requires that, when the vector is not full, `pos` lies before the last element. Its callers guarantee this, and the in-place path's `copy_backward` range is invalid otherwise.
- Heap.MakeHeapAsWritten and its helper SiftDownAliased state only that the length is kept and short ranges are unchanged. The loss of elements is exhibited by `MakeHeapAsWrittenLosesElements`.
- PriorityQueue.FromRange heapifies with the corrected `Heap.MakeHeap` of the heap.h:98 finding. The source's range constructor (priority_queue.h:22-24) calls `make_heap` as written, which turns `{1, 2, 3}` into `[3, 2, 3]`; the model states the intended behaviour.
- Vector.Resize grows through the corrected `Vector.InsertN` of the vector.h:176-178 finding. The source's `resize` (vector.h:123-128) calls `insert(finish, count - size(), x)` as written, so `resize(3, x)` on a full vector of size 1 writes past a 2-slot buffer; the model states the intended behaviour.
- Deque.ReserveMapAtFront, Deque.Recentre and Deque.PushFront reach the corrected `Deque.ReallocateMap` of the deque.h:665-666 finding. A front request that recentres in place always has `new_nstart` above `start.node`, so the source takes the `copy_backward` of deque.h:665-666 and misplaces the nodes; the model states the intended behaviour. Deque.PushBack, Stack.Push and Queue.Push are unaffected: a back request that recentres has `new_nstart` below `start.node`, so the source takes the forward `copy`, which is correct as written.
- The element types are modelled as integers. `list` sorting uses an item with a key, to make stability visible. Element comparison is `<` on those keys.
- `stack` and `queue` over `list` (test/test_stack.h:17) are not modelled. Only the default `deque` container is.
- The adapters' comparisons forward to container `==` and `<`, which deque.h does not define. They are modelled with the standard meaning: element-wise equality and lexicographic order.
- The adapters declare their comparisons as non-template friends and define them as templates. That is a linkage issue, not a behaviour, and is left out.
- The test drivers, main.cpp and the allocator benchmark are left out. Only the three container test scenarios are stated.
- Stack.Scenario and Queue.Scenario are stated for any buffer size, so they cover the 128-element buffers of a 4-byte `int`.

## Findings

| source | as written | input that shows it | evidently intended | confidence | as-written member | corrected member |
|---|---|---|---|---|---|---|
| heap.h:98 | `make_heap` passes `*(first + holeIndex)` to `pop_heap_aux`'s `const T& value`, so `value` aliases the slot overwritten at heap.h:41 | `make_heap` on `[1, 2, 3]` gives `[3, 2, 3]` | pass a copy of the element, so the result is a permutation | not executed | Heap.MakeHeapAsWrittenLosesElements | Heap.MakeHeap |
| vector.h:216-217 | `push_back` with spare room constructs at `finish` without advancing it | `push_back(x)` on a vector of size 1 and capacity 2 leaves size 1 | advance `finish` after constructing | not executed | Vector.PushBackAsWritten | Vector.PushBack |
| vector.h:108-109 | `insert(end(), x)` with spare room constructs at `finish` without advancing it | `insert(end(), x)` on a vector of size 1 and capacity 2 leaves size 1 | advance `finish` after constructing | not executed | Vector.InsertAsWritten | Vector.Insert |
| vector.h:176-178 | `insert(pos, n, x)` reallocates to 10 or twice the size, which can be fewer slots than `size + n` | inserting 3 elements into a full vector of size 1 allocates 2 slots and writes 4 | grow to at least `size + n` | not executed | Vector.InsertNAsWritten | Vector.InsertN |
| deque.h:665-666 | the in-place recentre copies the nodes to end at `new_nstart + new_nodes_num`, not `new_nstart + old_nodes_num`, while `start` and `finish` are set from `new_nstart` (deque.h:684-685) | `push_front` on a deque of one buffer at slot 0 of an 8-slot map: the buffer moves to slot 5 while `start` points at slot 4 | end the copy at `new_nstart + old_nodes_num` | not executed | Deque.ReallocateMapAsWrittenLosesBuffer | Deque.ReallocateMap |
| list.h:371-374 | `remove` advances `first` only when it erases, so it loops forever on the first element different from `value` | `remove(2)` on the list `[1]` | advance past a non-matching element | not executed | List.RemoveAsWrittenOnOne | List.Remove |
