/**
 * The two-level memory pool of pool_allocator.h: `default_alloc` (size classes,
 * free lists, arena window, chunk growth) and the `pool_alloc<T>` facade.
 *
 * Addresses are integers (0 is the null pointer).  Each free list is a sequence
 * of block addresses, head first; the arena window is `[startFree, endFree)`.
 * The system allocator is an oracle: it either grants a region at some address
 * or refuses.
 */
module PoolAllocator {

  const Align: nat := 8
  const MaxBytes: nat := 128
  const NumLists: nat := 16    // MaxBytes / Align
  const RefillBatch: nat := 20 // the n_node that refill asks chunk_alloc for

  /** `round_up`: the least multiple of 8 that is >= bytes. */
  function RoundUp(bytes: nat): (r: nat)
    ensures r % Align == 0
    ensures bytes <= r < bytes + Align
  {
    // `(bytes + 7) & ~7` on the unbounded naturals
    (bytes + Align - 1) / Align * Align
  }

  /** `get_free_list`: the index of the free list serving a request of `bytes`. */
  function FreeListIndex(bytes: nat): (i: nat)
    requires 1 <= bytes <= MaxBytes
    ensures i < NumLists
    ensures (i + 1) * Align == RoundUp(bytes)
  {
    (bytes + Align - 1) / Align - 1
  }

  /** The size in bytes of every block on free list `i`. */
  function ClassSize(i: nat): nat
  {
    (i + 1) * Align
  }

  /** A request and its rounded size select the same free list. */
  lemma SameListAsRounded(n: nat)
    requires 1 <= n <= MaxBytes
    ensures 1 <= RoundUp(n) <= MaxBytes
    ensures FreeListIndex(n) == FreeListIndex(RoundUp(n))
  {
  }

  /** The process-wide state of `default_alloc`. */
  datatype Pool = Pool(
    freeLists: seq<seq<int>>,
    startFree: int,
    endFree: int,
    heapSize: nat)

  /** Shape every operation relies on: 16 lists and an ordered window. */
  predicate Wf(p: Pool)
  {
    |p.freeLists| == NumLists && p.startFree <= p.endFree
  }

  function WindowBytes(p: Pool): int
  {
    p.endFree - p.startFree
  }

  /** The static initialisers at pool_allocator.h:145-151. */
  function InitialPool(): (p: Pool)
    ensures Wf(p) && WindowBytes(p) == 0 && p.heapSize == 0
    ensures forall i :: 0 <= i < NumLists ==> p.freeLists[i] == []
  {
    Pool(seq(NumLists, _ => []), 0, 0, 0)
  }

  /** One answer of the system allocator. */
  datatype SysReply = Granted(addr: int) | Refused

  /**
   * What the system allocator answers during one pool call: `malloc` is the raw
   * malloc of chunk_alloc (it may fail, and the pool then looks for a donor);
   * `mallocAlloc` is `malloc_alloc::allocate` / `reallocate`, whose refusal means
   * the out-of-memory path ends the process.
   */
  datatype Oracle = Oracle(malloc: SysReply, mallocAlloc: SysReply)

  /** The result of an operation that may end the process out of memory. */
  datatype Outcome<T> = Ok(value: T) | OutOfMemory

  /** An address handed to the caller together with the pool state after the call. */
  datatype Grant = Grant(addr: int, pool: Pool)

  /** What chunk_alloc returns: the chunk, how many blocks it holds, the new state. */
  datatype Chunk = Chunk(addr: int, nodes: nat, pool: Pool)

  /** The bytes chunk_alloc asks the system for when the window cannot give one block. */
  function GrowthRequest(heapSize: nat, size: nat, nodes: nat): nat
  {
    2 * (size * nodes) + RoundUp(heapSize / 16)
  }

  /** The growth request covers at least one block. */
  lemma GrowthRequestCoversOne(heapSize: nat, size: nat, nodes: nat)
    requires nodes >= 1
    ensures GrowthRequest(heapSize, size, nodes) >= size
  {
    assert size * nodes >= size * 1;
  }

  /**
   * The growth request is a whole number of 8-byte units and covers the requested
   * blocks twice over, so the grown window always gives every requested block.
   */
  lemma GrowthRequestCovers(heapSize: nat, size: nat, nodes: nat)
    requires size % Align == 0
    ensures GrowthRequest(heapSize, size, nodes) % Align == 0
    ensures GrowthRequest(heapSize, size, nodes) >= 2 * (size * nodes)
  {
    var q := size / Align;
    var extra := RoundUp(heapSize / 16);
    assert size * nodes == Align * (q * nodes);
    assert extra == Align * (extra / Align);
    assert GrowthRequest(heapSize, size, nodes) == Align * (2 * (q * nodes) + extra / Align);
  }

  /**
   * The donor scan of chunk_alloc: classes `from, from + 8, ..., 128` are tried in
   * order and the first one whose free list is non-empty is returned.
   */
  function FindDonor(lists: seq<seq<int>>, from: nat): (r: DonorScan)
    requires |lists| == NumLists
    requires from >= Align && from % Align == 0
    ensures r.Donor? ==> from <= r.size <= MaxBytes && r.size % Align == 0
    ensures r.Donor? ==> lists[FreeListIndex(r.size)] != []
    ensures EmptyClasses(lists, from, if r.Donor? then r.size else MaxBytes + 1)
    decreases MaxBytes + Align - from
  {
    if from > MaxBytes then NoDonor
    else if lists[FreeListIndex(from)] != [] then Donor(from)
    else
      var r := FindDonor(lists, from + Align);
      EmptyClassesStep(lists, from, if r.Donor? then r.size else MaxBytes + 1);
      r
  }

  /** Every class of a multiple of 8 in `[from, to)` has an empty free list. */
  ghost predicate EmptyClasses(lists: seq<seq<int>>, from: nat, to: nat)
    requires |lists| == NumLists
  {
    forall i :: from <= i < to && i <= MaxBytes && i >= 1 && i % Align == 0 ==> lists[FreeListIndex(i)] == []
  }

  /** An empty class at `from` extends the empty run that starts one class later. */
  lemma EmptyClassesStep(lists: seq<seq<int>>, from: nat, to: nat)
    requires |lists| == NumLists && 1 <= from <= MaxBytes && from % Align == 0
    requires lists[FreeListIndex(from)] == [] && EmptyClasses(lists, from + Align, to)
    ensures EmptyClasses(lists, from, to)
  {
    forall i | from <= i < to && i <= MaxBytes && i >= 1 && i % Align == 0
      ensures lists[FreeListIndex(i)] == []
    {
      if i < from + Align {
        NextMultiple(from, i);
      }
    }
  }

  /** Two multiples of 8 less than 8 apart are equal. */
  lemma NextMultiple(a: nat, b: nat)
    requires a % Align == 0 && b % Align == 0 && a <= b < a + Align
    ensures a == b
  {
  }

  datatype DonorScan = NoDonor | Donor(size: nat)

  /**
   * The salvage step of chunk_alloc: a window too small for one block is pushed,
   * as one block, on the free list of its own size.
   */
  function Salvage(p: Pool): (lists: seq<seq<int>>)
    requires Wf(p) && WindowBytes(p) <= MaxBytes
    ensures |lists| == NumLists
  {
    var bytesLeft := WindowBytes(p);
    if bytesLeft > 0 then
      var k := FreeListIndex(bytesLeft);
      p.freeLists[k := [p.startFree] + p.freeLists[k]]
    else p.freeLists
  }

  /**
   * The refilling half of chunk_alloc, taken when the window cannot give one block:
   * salvage the window's tail, then take a fresh region from malloc; failing that,
   * the smallest non-empty free list of at least `size` bytes gives up its head as
   * the new window; failing that, malloc_alloc is asked (and its refusal ends the
   * process).  The result is the pool chunk_alloc starts over on.
   */
  function Replenish(p: Pool, size: nat, nodes: nat, o: Oracle): (r: Outcome<Pool>)
    requires Wf(p)
    requires Align <= size <= MaxBytes && size % Align == 0
    requires nodes >= 1
    requires WindowBytes(p) < size
    ensures r.Ok? ==> Wf(r.value) && WindowBytes(r.value) >= size
    ensures r.Ok? ==> r.value.heapSize >= p.heapSize
    ensures r.OutOfMemory? <==> (o.malloc.Refused? && FindDonor(Salvage(p), size).NoDonor? && o.mallocAlloc.Refused?)
  {
    var lists := Salvage(p);
    var bytesToGet := GrowthRequest(p.heapSize, size, nodes);
    GrowthRequestCoversOne(p.heapSize, size, nodes);
    match o.malloc
    case Granted(a) => Ok(Pool(lists, a, a + bytesToGet, p.heapSize + bytesToGet))
    case Refused =>
      match FindDonor(lists, size)
      case Donor(i) => Ok(Donate(lists, i, p.heapSize))
      case NoDonor =>
        match o.mallocAlloc
        case Granted(a) => Ok(Pool(lists, a, a + bytesToGet, p.heapSize + bytesToGet))
        case Refused => OutOfMemory
  }

  /** The donor step: the head block of the free list for `i` bytes becomes the whole window. */
  function Donate(lists: seq<seq<int>>, i: nat, heapSize: nat): (q: Pool)
    requires |lists| == NumLists && 1 <= i <= MaxBytes && lists[FreeListIndex(i)] != []
    ensures Wf(q) && WindowBytes(q) == i && q.heapSize == heapSize
  {
    var k := FreeListIndex(i);
    var donor := lists[k][0];
    Pool(lists[k := lists[k][1..]], donor, donor + i, heapSize)
  }

  /** With malloc refusing and a donor found, replenishing is the donor step. */
  lemma ReplenishFromDonor(p: Pool, size: nat, nodes: nat, o: Oracle)
    requires Wf(p)
    requires Align <= size <= MaxBytes && size % Align == 0
    requires nodes >= 1
    requires WindowBytes(p) < size
    requires o.malloc.Refused? && FindDonor(Salvage(p), size).Donor?
    ensures Replenish(p, size, nodes, o) == Ok(Donate(Salvage(p), FindDonor(Salvage(p), size).size, p.heapSize))
  {
  }

  /**
   * `chunk_alloc(size, n_nodes)`: carve `size * nodes` bytes off the window, or as
   * many whole blocks as it holds, or replenish the window and start over.
   */
  function ChunkAlloc(p: Pool, size: nat, nodes: nat, o: Oracle): (r: Outcome<Chunk>)
    requires Wf(p)
    requires Align <= size <= MaxBytes && size % Align == 0
    requires nodes >= 1
    ensures r.Ok? ==> Wf(r.value.pool)
    ensures r.Ok? ==> 1 <= r.value.nodes <= nodes
    ensures r.Ok? ==> r.value.pool.heapSize >= p.heapSize
    decreases if WindowBytes(p) >= size then 0 else 1
  {
    var totalBytes := size * nodes;
    var bytesLeft := WindowBytes(p);
    if bytesLeft > totalBytes then
      Ok(Chunk(p.startFree, nodes, p.(startFree := p.startFree + totalBytes)))
    else if bytesLeft >= size then
      var n := bytesLeft / size;
      Ok(Chunk(p.startFree, n, p.(startFree := p.startFree + size * n)))
    else
      match Replenish(p, size, nodes, o)
      case Ok(q) => ChunkAlloc(q, size, nodes, o)
      case OutOfMemory => OutOfMemory
  }

  /**
   * Starting over: when the window cannot give one block, chunk_alloc fails exactly
   * when replenishing does, and otherwise behaves as on the replenished pool, where
   * it carves.
   */
  lemma ChunkAllocStartsOver(p: Pool, size: nat, nodes: nat, o: Oracle)
    requires Wf(p)
    requires Align <= size <= MaxBytes && size % Align == 0
    requires nodes >= 1
    requires WindowBytes(p) < size
    ensures ChunkAlloc(p, size, nodes, o).Ok? <==> Replenish(p, size, nodes, o).Ok?
    ensures Replenish(p, size, nodes, o).Ok? ==>
              ChunkAlloc(p, size, nodes, o) == ChunkAlloc(Replenish(p, size, nodes, o).value, size, nodes, o)
  {
    assert size <= size * nodes;
  }

  /**
   * Carving: with at least one block in the window, the chunk is the old window
   * start, the window start advances by exactly the chunk, and the block count is
   * kept when the window holds more than the request, else cut to what fits.
   */
  lemma ChunkAllocCarves(p: Pool, size: nat, nodes: nat, o: Oracle)
    requires Wf(p)
    requires Align <= size <= MaxBytes && size % Align == 0
    requires nodes >= 1
    requires WindowBytes(p) >= size
    ensures var r := ChunkAlloc(p, size, nodes, o);
      && r.Ok?
      && r.value.addr == p.startFree
      && r.value.pool == p.(startFree := p.startFree + size * r.value.nodes)
      && (WindowBytes(p) > size * nodes ==> r.value.nodes == nodes)
      && (WindowBytes(p) <= size * nodes ==> r.value.nodes == WindowBytes(p) / size)
      && size <= size * r.value.nodes <= WindowBytes(p)
  {
    if WindowBytes(p) <= size * nodes {
      var k := WindowBytes(p) / size;
      assert size * k <= WindowBytes(p);
    }
  }

  /**
   * Growth: when the window cannot give one block and malloc succeeds, the request
   * is `2 * total + round_up(heap_size >> 4)`, the chunk is the start of the new
   * region, every requested block is delivered, and `heap_size` grows by the request.
   */
  lemma ChunkAllocGrows(p: Pool, size: nat, nodes: nat, o: Oracle)
    requires Wf(p)
    requires Align <= size <= MaxBytes && size % Align == 0
    requires nodes >= 1
    requires WindowBytes(p) < size && o.malloc.Granted?
    ensures var r := ChunkAlloc(p, size, nodes, o);
      var req := GrowthRequest(p.heapSize, size, nodes);
      && r.Ok?
      && r.value.addr == o.malloc.addr
      && r.value.nodes == nodes
      && r.value.pool.heapSize == p.heapSize + req
      && r.value.pool.startFree == o.malloc.addr + size * nodes
      && r.value.pool.endFree == o.malloc.addr + req
  {
    var a := o.malloc.addr;
    var req := GrowthRequest(p.heapSize, size, nodes);
    GrowthRequestCovers(p.heapSize, size, nodes);
    var q := Pool(Salvage(p), a, a + req, p.heapSize + req);
    assert Replenish(p, size, nodes, o) == Ok(q);
    ChunkAllocStartsOver(p, size, nodes, o);
    assert WindowBytes(q) > size * nodes;
    assert ChunkAlloc(q, size, nodes, o) == Ok(Chunk(a, nodes, q.(startFree := a + size * nodes)));
  }

  /**
   * The donor path: when malloc fails, the smallest class of at least `size` bytes
   * whose list is non-empty gives its head as a window of exactly that class size,
   * `heap_size` is unchanged, and chunk_alloc starts over on that window.
   */
  lemma ChunkAllocUsesDonor(p: Pool, size: nat, nodes: nat, o: Oracle, i: nat)
    requires Wf(p)
    requires Align <= size <= MaxBytes && size % Align == 0
    requires nodes >= 1
    requires WindowBytes(p) < size && o.malloc.Refused?
    requires size <= i <= MaxBytes && i % Align == 0
    requires Salvage(p)[FreeListIndex(i)] != []
    requires EmptyClasses(Salvage(p), size, i)
    ensures var lists := Salvage(p);
      var k := FreeListIndex(i);
      var donated := Pool(lists[k := lists[k][1..]], lists[k][0], lists[k][0] + i, p.heapSize);
      && WindowBytes(donated) == i
      && ChunkAlloc(p, size, nodes, o) == ChunkAlloc(donated, size, nodes, o)
  {
    var lists := Salvage(p);
    FindDonorFindsFirst(lists, size, i);
    ReplenishFromDonor(p, size, nodes, o);
    ChunkAllocStartsOver(p, size, nodes, o);
  }

  /** The donor scan returns the first non-empty class, and only that one. */
  lemma FindDonorFindsFirst(lists: seq<seq<int>>, from: nat, i: nat)
    requires |lists| == NumLists
    requires from >= Align && from % Align == 0
    requires from <= i <= MaxBytes && i % Align == 0
    requires lists[FreeListIndex(i)] != []
    requires EmptyClasses(lists, from, i)
    ensures FindDonor(lists, from) == Donor(i)
  {
  }

  /** The free-list chain refill builds: `start, start + step, ...`, `count` blocks. */
  function Chain(start: int, step: nat, count: nat): (r: seq<int>)
    ensures |r| == count
    decreases count
  {
    if count == 0 then [] else [start] + Chain(start + step, step, count - 1)
  }

  /** Block `i` of a chain sits `i` steps past its start. */
  lemma {:induction false} ChainAddresses(start: int, step: nat, count: nat)
    ensures forall i :: 0 <= i < count ==> Chain(start, step, count)[i] == start + i * step
    decreases count
  {
    if count > 0 {
      ChainAddresses(start + step, step, count - 1);
      forall i | 0 < i < count
        ensures Chain(start, step, count)[i] == start + i * step
      {
        assert Chain(start, step, count)[i] == Chain(start + step, step, count - 1)[i - 1];
        assert start + step + (i - 1) * step == start + i * step;
      }
    }
  }

  /**
   * `refill(n)`: ask chunk_alloc for 20 blocks of `n` bytes, hand out the first and
   * link the rest into the free list for `n`.
   */
  function Refill(p: Pool, n: nat, o: Oracle): (r: Outcome<Grant>)
    requires Wf(p)
    requires Align <= n <= MaxBytes && n % Align == 0
    ensures r.Ok? ==> Wf(r.value.pool)
    ensures r.Ok? <==> ChunkAlloc(p, n, RefillBatch, o).Ok?
    ensures r.Ok? ==> r.value.addr == ChunkAlloc(p, n, RefillBatch, o).value.addr
  {
    match ChunkAlloc(p, n, RefillBatch, o)
    case OutOfMemory => OutOfMemory
    case Ok(c) =>
      if c.nodes == 1 then Ok(Grant(c.addr, c.pool))
      else
        var k := FreeListIndex(n);
        Ok(Grant(c.addr, c.pool.(freeLists := c.pool.freeLists[k := Chain(c.addr + n, n, c.nodes - 1)])))
  }

  /**
   * What refill leaves behind: a single block comes back with no list change;
   * otherwise the list for `n` holds exactly the other blocks of the chunk, in
   * address order, and nothing else changes.
   */
  lemma RefillLinksRest(p: Pool, n: nat, o: Oracle)
    requires Wf(p)
    requires Align <= n <= MaxBytes && n % Align == 0
    requires Refill(p, n, o).Ok?
    ensures var c := ChunkAlloc(p, n, RefillBatch, o).value;
      c.nodes == 1 ==> Refill(p, n, o).value.pool == c.pool
    ensures var c := ChunkAlloc(p, n, RefillBatch, o).value;
      var l := Refill(p, n, o).value.pool.freeLists[FreeListIndex(n)];
      c.nodes > 1 ==>
        && |l| == c.nodes - 1
        && (forall i :: 0 <= i < |l| ==> l[i] == c.addr + (i + 1) * n)
        && Refill(p, n, o).value.pool == c.pool.(freeLists := c.pool.freeLists[FreeListIndex(n) := l])
  {
    var c := ChunkAlloc(p, n, RefillBatch, o).value;
    if c.nodes > 1 {
      ChainAddresses(c.addr + n, n, c.nodes - 1);
      var l := Chain(c.addr + n, n, c.nodes - 1);
      forall i | 0 <= i < |l|
        ensures l[i] == c.addr + (i + 1) * n
      {
        assert c.addr + n + i * n == c.addr + (i + 1) * n;
      }
    }
  }

  /** `default_alloc::allocate(n)`; requests above 128 bytes go to the system. */
  function Allocate(p: Pool, n: nat, o: Oracle): (r: Outcome<Grant>)
    requires Wf(p)
    requires n >= 1
    ensures r.Ok? ==> Wf(r.value.pool)
    // large requests never touch the pool
    ensures n > MaxBytes ==> (r.Ok? <==> o.mallocAlloc.Granted?)
    ensures n > MaxBytes && r.Ok? ==> r.value == Grant(o.mallocAlloc.addr, p)
    // a non-empty list gives its head and keeps its tail; nothing else changes
    ensures n <= MaxBytes && p.freeLists[FreeListIndex(n)] != [] ==>
              var k := FreeListIndex(n);
              r == Ok(Grant(p.freeLists[k][0], p.(freeLists := p.freeLists[k := p.freeLists[k][1..]])))
  {
    if n > MaxBytes then
      match o.mallocAlloc
      case Granted(a) => Ok(Grant(a, p))
      case Refused => OutOfMemory
    else
      var k := FreeListIndex(n);
      if p.freeLists[k] == [] then Refill(p, RoundUp(n), o)
      else Ok(Grant(p.freeLists[k][0], p.(freeLists := p.freeLists[k := p.freeLists[k][1..]])))
  }

  /** `default_alloc::deallocate(ptr, n)`: push the block on its list (or free it). */
  function Deallocate(p: Pool, ptr: int, n: nat): (r: Pool)
    requires Wf(p)
    requires n >= 1
    ensures Wf(r)
    ensures n > MaxBytes ==> r == p
    ensures n <= MaxBytes ==>
              && r.freeLists[FreeListIndex(n)] == [ptr] + p.freeLists[FreeListIndex(n)]
              && (forall i :: 0 <= i < NumLists && i != FreeListIndex(n) ==> r.freeLists[i] == p.freeLists[i])
              && r.startFree == p.startFree && r.endFree == p.endFree && r.heapSize == p.heapSize
  {
    if n > MaxBytes then p
    else
      var k := FreeListIndex(n);
      p.(freeLists := p.freeLists[k := [ptr] + p.freeLists[k]])
  }

  /**
   * `default_alloc::reallocate(ptr, old, new)`: the system's realloc for two large
   * sizes, the same pointer for two sizes of one class, else allocate and free.
   */
  function Reallocate(p: Pool, ptr: int, oldSize: nat, newSize: nat, o: Oracle): (r: Outcome<Grant>)
    requires Wf(p)
    requires oldSize >= 1 && newSize >= 1
    ensures r.Ok? ==> Wf(r.value.pool)
    ensures oldSize > MaxBytes && newSize > MaxBytes ==>
              (r.Ok? <==> o.mallocAlloc.Granted?) && (r.Ok? ==> r.value.pool == p)
    ensures (oldSize <= MaxBytes || newSize <= MaxBytes) && RoundUp(oldSize) == RoundUp(newSize) ==>
              r == Ok(Grant(ptr, p))
  {
    if oldSize > MaxBytes && newSize > MaxBytes then
      match o.mallocAlloc
      case Granted(a) => Ok(Grant(a, p))
      case Refused => OutOfMemory
    else if RoundUp(oldSize) == RoundUp(newSize) then Ok(Grant(ptr, p))
    else
      match Allocate(p, newSize, o)
      case OutOfMemory => OutOfMemory
      case Ok(g) => Ok(Grant(g.addr, Deallocate(g.pool, ptr, oldSize)))
  }

  /** `deallocate(p, n)` followed by `allocate(n')` of the same class returns `p` and restores the pool. */
  lemma DeallocateThenAllocate(p: Pool, ptr: int, n: nat, n': nat, o: Oracle)
    requires Wf(p)
    requires 1 <= n <= MaxBytes && 1 <= n' <= MaxBytes
    requires FreeListIndex(n) == FreeListIndex(n')
    ensures Allocate(Deallocate(p, ptr, n), n', o) == Ok(Grant(ptr, p))
  {
    var k := FreeListIndex(n);
    var q := Deallocate(p, ptr, n);
    assert q.freeLists[k][1..] == p.freeLists[k];
    assert q.freeLists[k := q.freeLists[k][1..]] == p.freeLists;
  }

  // ---- pool_alloc<T>: the typed facade; `elemSize` is sizeof(T) ----

  /** `pool_alloc::allocate()`: one object. */
  function TypedAllocateOne(p: Pool, elemSize: nat, o: Oracle): (r: Outcome<Grant>)
    requires Wf(p) && elemSize >= 1
    ensures r.Ok? ==> Wf(r.value.pool)
    ensures elemSize > MaxBytes && r.Ok? ==> r.value.pool == p
    ensures elemSize <= MaxBytes && p.freeLists[FreeListIndex(elemSize)] != [] ==>
              var k := FreeListIndex(elemSize);
              r == Ok(Grant(p.freeLists[k][0], p.(freeLists := p.freeLists[k := p.freeLists[k][1..]])))
  {
    Allocate(p, elemSize, o)
  }

  /** `pool_alloc::allocate(n)`: `n` objects; zero objects is the null pointer and no call. */
  function TypedAllocate(p: Pool, n: nat, elemSize: nat, o: Oracle): (r: Outcome<Grant>)
    requires Wf(p) && elemSize >= 1
    ensures r.Ok? ==> Wf(r.value.pool)
    ensures n == 0 ==> r == Ok(Grant(0, p))
    ensures n * elemSize > MaxBytes && r.Ok? ==> r.value.pool == p
    ensures 0 < n && n * elemSize <= MaxBytes && p.freeLists[FreeListIndex(n * elemSize)] != [] ==>
              var k := FreeListIndex(n * elemSize);
              r == Ok(Grant(p.freeLists[k][0], p.(freeLists := p.freeLists[k := p.freeLists[k][1..]])))
  {
    if n == 0 then Ok(Grant(0, p)) else Allocate(p, n * elemSize, o)
  }

  /** `pool_alloc::deallocate(ptr)`: a null pointer is ignored. */
  function TypedDeallocateOne(p: Pool, ptr: int, elemSize: nat): (r: Pool)
    requires Wf(p) && elemSize >= 1
    ensures Wf(r)
    ensures ptr == 0 || elemSize > MaxBytes ==> r == p
    ensures ptr != 0 && elemSize <= MaxBytes ==>
              && r.freeLists[FreeListIndex(elemSize)] == [ptr] + p.freeLists[FreeListIndex(elemSize)]
              && r.freeLists[FreeListIndex(elemSize) := p.freeLists[FreeListIndex(elemSize)]] == p.freeLists
  {
    if ptr != 0 then Deallocate(p, ptr, elemSize) else p
  }

  /** `pool_alloc::deallocate(ptr, n)`: zero objects is ignored. */
  function TypedDeallocate(p: Pool, ptr: int, n: nat, elemSize: nat): (r: Pool)
    requires Wf(p) && elemSize >= 1
    ensures Wf(r)
    ensures n == 0 || n * elemSize > MaxBytes ==> r == p
    ensures 0 < n && n * elemSize <= MaxBytes ==>
              && r.freeLists[FreeListIndex(n * elemSize)] == [ptr] + p.freeLists[FreeListIndex(n * elemSize)]
              && r.freeLists[FreeListIndex(n * elemSize) := p.freeLists[FreeListIndex(n * elemSize)]] == p.freeLists
  {
    if n != 0 then Deallocate(p, ptr, n * elemSize) else p
  }

  /** Zero objects and the null pointer never reach the pool. */
  lemma TypedZeroIsNoCall(p: Pool, ptr: int, elemSize: nat, o: Oracle)
    requires Wf(p) && elemSize >= 1
    ensures TypedAllocate(p, 0, elemSize, o) == Ok(Grant(0, p))
    ensures TypedDeallocate(p, ptr, 0, elemSize) == p
    ensures TypedDeallocateOne(p, 0, elemSize) == p
  {
  }

  /**
   * Giving back `n` small objects and asking for `n` again returns the same address
   * and restores the pool; for one object likewise.
   */
  lemma TypedDeallocateThenAllocate(p: Pool, ptr: int, n: nat, elemSize: nat, o: Oracle)
    requires Wf(p) && elemSize >= 1
    requires 1 <= n && n * elemSize <= MaxBytes && ptr != 0
    ensures TypedAllocate(TypedDeallocate(p, ptr, n, elemSize), n, elemSize, o) == Ok(Grant(ptr, p))
    ensures elemSize <= MaxBytes ==>
              TypedAllocateOne(TypedDeallocateOne(p, ptr, elemSize), elemSize, o) == Ok(Grant(ptr, p))
  {
    assert n * elemSize >= 1 * elemSize;
    DeallocateThenAllocate(p, ptr, n * elemSize, n * elemSize, o);
    if elemSize <= MaxBytes {
      DeallocateThenAllocate(p, ptr, elemSize, elemSize, o);
    }
  }

  /** The concrete scenario of the allocator's design: 17 bytes are served from the 24-byte class. */
  lemma SeventeenBytesUseClassTwo()
    ensures RoundUp(17) == 24 && FreeListIndex(17) == 2
  {
  }
}
