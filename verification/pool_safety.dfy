/**
 * Memory safety of the pool of pool_allocator.h.  The footprint of the pool is
 * every block on a free list (a block on list k spans exactly 8(k+1) bytes), the
 * arena window, and every block the callers currently hold.  The invariant
 * `Safe` says these regions are non-null, non-empty and pairwise disjoint;
 * allocate, deallocate, reallocate, refill and chunk_alloc preserve it.
 */
module PoolSafety {
  import opened PoolAllocator

  /** `size` bytes of memory starting at `addr`. */
  datatype Block = Block(addr: int, size: int)

  predicate Disjoint(a: Block, b: Block)
  {
    a.addr + a.size <= b.addr || b.addr + b.size <= a.addr
  }

  predicate Within(b: Block, w: Block)
  {
    w.addr <= b.addr && b.addr + b.size <= w.addr + w.size
  }

  /** Every region of `m` lies inside `w`. */
  ghost predicate AllWithin(m: multiset<Block>, w: Block)
  {
    forall b :: b in m ==> Within(b, w)
  }

  /** Regions that share no byte: each non-null, non-empty and present once. */
  ghost predicate Separated(m: multiset<Block>)
  {
    && (forall b :: b in m ==> b.addr > 0 && b.size > 0 && m[b] == 1)
    && (forall a, b :: a in m && b in m && a != b ==> Disjoint(a, b))
  }

  /** The blocks of one free list, all of the list's class size. */
  function ListBlocks(l: seq<int>, size: int): multiset<Block>
  {
    if l == [] then multiset{} else multiset{Block(l[0], size)} + ListBlocks(l[1..], size)
  }

  /** The blocks on the free lists `0 .. k-1`. */
  function FreeBlocks(lists: seq<seq<int>>, k: nat): multiset<Block>
    requires k <= |lists|
  {
    if k == 0 then multiset{} else FreeBlocks(lists, k - 1) + ListBlocks(lists[k - 1], ClassSize(k - 1))
  }

  function WindowBlock(p: Pool): multiset<Block>
  {
    if p.startFree < p.endFree then multiset{Block(p.startFree, p.endFree - p.startFree)} else multiset{}
  }

  /** Everything the pool and its callers hold. */
  function Footprint(p: Pool, live: multiset<Block>): multiset<Block>
    requires Wf(p)
  {
    FreeBlocks(p.freeLists, |p.freeLists|) + WindowBlock(p) + live
  }

  /**
   * The global invariant: the window is a whole number of 8-byte units, and the
   * free blocks, the window and the blocks held by callers are pairwise disjoint.
   */
  ghost predicate Safe(p: Pool, live: multiset<Block>)
  {
    Wf(p) && WindowBytes(p) % Align == 0 && Separated(Footprint(p, live))
  }

  /** The block a caller holds after `allocate(n)`. */
  function BlockSize(n: nat): nat
  {
    if n > MaxBytes then n else RoundUp(n)
  }

  /** A region the system may hand out: non-null, non-empty, disjoint from everything held. */
  ghost predicate Fresh(m: multiset<Block>, b: Block)
  {
    b.addr > 0 && b.size > 0 && forall x :: x in m ==> Disjoint(x, b)
  }

  /** Every region the oracle grants for a request of `len` bytes is fresh. */
  ghost predicate OracleFresh(m: multiset<Block>, o: Oracle, len: nat)
  {
    && (o.malloc.Granted? ==> Fresh(m, Block(o.malloc.addr, len)))
    && (o.mallocAlloc.Granted? ==> Fresh(m, Block(o.mallocAlloc.addr, len)))
  }

  /** The oracle's promise for one `allocate(n)`: fresh for the bytes that call asks the system for. */
  ghost predicate AllocOracleFresh(p: Pool, live: multiset<Block>, n: nat, o: Oracle)
    requires Wf(p)
  {
    if n > MaxBytes then OracleFresh(Footprint(p, live), o, n)
    else OracleFresh(Footprint(p, live), o, GrowthRequest(p.heapSize, RoundUp(n), RefillBatch))
  }

  // ---- algebra of separated families ----

  lemma SeparatedSub(a: multiset<Block>, b: multiset<Block>)
    requires a <= b && Separated(b)
    ensures Separated(a)
  {
    forall x | x in a
      ensures a[x] == 1
    {
      assert a[x] <= b[x];
    }
  }

  lemma SeparatedUnion(a: multiset<Block>, b: multiset<Block>)
    requires Separated(a) && Separated(b)
    requires forall x, y :: x in a && y in b ==> Disjoint(x, y)
    ensures Separated(a + b)
  {
    forall x | x in a + b
      ensures (a + b)[x] == 1
    {
      assert x in a && x in b ==> Disjoint(x, x);
    }
  }

  /** Replacing one region by separated pieces inside it keeps the family separated. */
  lemma SeparatedReplace(m: multiset<Block>, w: Block, n: multiset<Block>)
    requires Separated(m) && w in m
    requires Separated(n)
    requires AllWithin(n, w)
    ensures Separated(m - multiset{w} + n)
  {
    var rest := m - multiset{w};
    SeparatedSub(rest, m);
    forall x, y | x in rest && y in n
      ensures Disjoint(x, y)
    {
      assert x != w;
      assert Disjoint(x, w);
    }
    SeparatedUnion(rest, n);
  }

  // ---- the footprint as lists change ----

  lemma ListBlocksCons(x: int, l: seq<int>, size: int)
    ensures ListBlocks([x] + l, size) == multiset{Block(x, size)} + ListBlocks(l, size)
  {
    assert ([x] + l)[1..] == l;
  }

  /** Lists at or above `k` do not contribute to the free blocks of lists `0 .. k-1`. */
  lemma {:induction false} FreeBlocksUpdateAbove(lists: seq<seq<int>>, j: nat, l: seq<int>, k: nat)
    requires k <= j < |lists|
    ensures FreeBlocks(lists[j := l], k) == FreeBlocks(lists, k)
  {
    if k > 0 {
      FreeBlocksUpdateAbove(lists, j, l, k - 1);
      assert lists[j := l][k - 1] == lists[k - 1];
    }
  }

  /** Replacing list `j` changes the free blocks by exactly the two lists' blocks. */
  lemma {:induction false} FreeBlocksUpdate(lists: seq<seq<int>>, j: nat, l: seq<int>, k: nat)
    requires j < k <= |lists|
    ensures FreeBlocks(lists[j := l], k) + ListBlocks(lists[j], ClassSize(j))
            == FreeBlocks(lists, k) + ListBlocks(l, ClassSize(j))
  {
    var lists' := lists[j := l];
    var c := ClassSize(j);
    if j == k - 1 {
      FreeBlocksUpdateAbove(lists, j, l, k - 1);
      var a := FreeBlocks(lists, k - 1);
      assert lists'[k - 1] == l;
      assert FreeBlocks(lists', k) == a + ListBlocks(l, c);
      assert FreeBlocks(lists, k) == a + ListBlocks(lists[j], c);
      UnionSwap(a, ListBlocks(l, c), ListBlocks(lists[j], c));
    } else {
      FreeBlocksUpdate(lists, j, l, k - 1);
      var a' := FreeBlocks(lists', k - 1);
      var a := FreeBlocks(lists, k - 1);
      var x := ListBlocks(lists[k - 1], ClassSize(k - 1));
      assert lists'[k - 1] == lists[k - 1];
      assert FreeBlocks(lists', k) == a' + x;
      assert FreeBlocks(lists, k) == a + x;
      UnionSwap(a', x, ListBlocks(lists[j], c));
      UnionSwap(a, ListBlocks(l, c), x);
    }
  }

  lemma UnionSwap(a: multiset<Block>, b: multiset<Block>, c: multiset<Block>)
    ensures (a + b) + c == (a + c) + b
  {
  }

  /** Popping the head of list k moves exactly that block out of the free blocks. */
  lemma FreeBlocksPop(lists: seq<seq<int>>, k: nat)
    requires |lists| == NumLists && k < NumLists && lists[k] != []
    ensures FreeBlocks(lists[k := lists[k][1..]], |lists|) + multiset{Block(lists[k][0], ClassSize(k))}
            == FreeBlocks(lists, |lists|)
  {
    var tail := lists[k][1..];
    var h := multiset{Block(lists[k][0], ClassSize(k))};
    FreeBlocksUpdate(lists, k, tail, |lists|);
    assert ListBlocks(lists[k], ClassSize(k)) == h + ListBlocks(tail, ClassSize(k));
    MultisetCancel(FreeBlocks(lists[k := tail], |lists|) + h, FreeBlocks(lists, |lists|), ListBlocks(tail, ClassSize(k)));
  }

  lemma MultisetCancel(a: multiset<Block>, b: multiset<Block>, c: multiset<Block>)
    requires a + c == b + c
    ensures a == b
  {
    assert forall x :: a[x] == (a + c)[x] - c[x];
  }

  /** Pushing `x` on list k adds exactly that block to the free blocks. */
  lemma FreeBlocksPush(lists: seq<seq<int>>, k: nat, x: int)
    requires |lists| == NumLists && k < NumLists
    ensures FreeBlocks(lists[k := [x] + lists[k]], |lists|)
            == FreeBlocks(lists, |lists|) + multiset{Block(x, ClassSize(k))}
  {
    FreeBlocksUpdate(lists, k, [x] + lists[k], |lists|);
    ListBlocksCons(x, lists[k], ClassSize(k));
    MultisetCancel(FreeBlocks(lists[k := [x] + lists[k]], |lists|),
                   FreeBlocks(lists, |lists|) + multiset{Block(x, ClassSize(k))},
                   ListBlocks(lists[k], ClassSize(k)));
  }

  lemma MulAligned(a: nat, b: nat)
    requires a % Align == 0
    ensures (a * b) % Align == 0
  {
    var q := a / Align;
    assert a * b == Align * (q * b);
  }

  /** Salvage is exact: the leftover window becomes one block of its own size. */
  lemma SalvageKeepsFootprint(p: Pool)
    requires Wf(p) && WindowBytes(p) % Align == 0 && WindowBytes(p) < MaxBytes
    ensures FreeBlocks(Salvage(p), |Salvage(p)|) == FreeBlocks(p.freeLists, |p.freeLists|) + WindowBlock(p)
  {
    var left := WindowBytes(p);
    if left > 0 {
      var k := FreeListIndex(left);
      ClassOfIndex(left);
      assert Salvage(p) == p.freeLists[k := [p.startFree] + p.freeLists[k]];
      FreeBlocksPush(p.freeLists, k, p.startFree);
      assert WindowBlock(p) == multiset{Block(p.startFree, ClassSize(k))};
    } else {
      assert WindowBlock(p) == multiset{};
    }
  }

  /** The leftover of a too-small window is a multiple of 8 below 128: it fits its list exactly. */
  lemma SalvageIsExact(p: Pool, live: multiset<Block>, size: nat)
    requires Safe(p, live)
    requires 0 < WindowBytes(p) < size <= MaxBytes
    ensures WindowBytes(p) < MaxBytes
    ensures ClassSize(FreeListIndex(WindowBytes(p))) == WindowBytes(p)
  {
  }

  // ---- chunk_alloc ----

  /** The window cut in two: the chunk of `t` bytes and what is left of the window. */
  function SplitPieces(p: Pool, t: int): multiset<Block>
  {
    multiset{Block(p.startFree, t)} + WindowBlock(p.(startFree := p.startFree + t))
  }

  /** Cutting `t` bytes off the window replaces the window by the two pieces in the footprint. */
  lemma SplitFootprint(p: Pool, live: multiset<Block>, t: int)
    requires Wf(p) && 0 < t <= WindowBytes(p)
    ensures var w := Block(p.startFree, WindowBytes(p));
      && w in Footprint(p, live)
      && Footprint(p.(startFree := p.startFree + t), live + multiset{Block(p.startFree, t)})
         == Footprint(p, live) - multiset{w} + SplitPieces(p, t)
  {
    var q := p.(startFree := p.startFree + t);
    var w := multiset{Block(p.startFree, WindowBytes(p))};
    var c := multiset{Block(p.startFree, t)};
    var f := FreeBlocks(p.freeLists, |p.freeLists|);
    assert WindowBlock(p) == w;
    FootprintOf(p, live, f, w);
    FootprintOf(q, live + c, f, WindowBlock(q));
    calc {
      Footprint(q, live + c);
      f + WindowBlock(q) + (live + c);
      { ReplaceMiddle(f, w, live, c, WindowBlock(q)); }
      f + w + live - w + (c + WindowBlock(q));
      Footprint(p, live) - w + SplitPieces(p, t);
    }
  }

  lemma ReplaceMiddle(f: multiset<Block>, w: multiset<Block>, live: multiset<Block>,
                      c: multiset<Block>, r: multiset<Block>)
    ensures f + r + (live + c) == f + w + live - w + (c + r)
  {
  }

  /** The two pieces of a non-null window are separated and inside it. */
  lemma SplitPiecesInside(p: Pool, t: int)
    requires p.startFree > 0 && 0 < t <= WindowBytes(p)
    ensures Separated(SplitPieces(p, t))
    ensures AllWithin(SplitPieces(p, t), Block(p.startFree, WindowBytes(p)))
  {
  }

  /** Cutting `t` bytes off the front of the window hands them to a caller without overlap. */
  lemma SplitWindow(p: Pool, live: multiset<Block>, t: int)
    requires Safe(p, live)
    requires 0 < t <= WindowBytes(p) && t % Align == 0
    ensures Safe(p.(startFree := p.startFree + t), live + multiset{Block(p.startFree, t)})
  {
    var w := Block(p.startFree, WindowBytes(p));
    var q := p.(startFree := p.startFree + t);
    SplitFootprint(p, live, t);
    SplitPiecesInside(p, t);
    SeparatedReplace(Footprint(p, live), w, SplitPieces(p, t));
    SubAligned(WindowBytes(p), t);
    assert WindowBytes(q) == WindowBytes(p) - t;
  }

  lemma SubAligned(a: int, b: int)
    requires a % Align == 0 && b % Align == 0
    ensures (a - b) % Align == 0
  {
    assert a - b == Align * (a / Align - b / Align);
  }

  /** Carving cases 1 and 2: the chunk is cut off the front of the window. */
  lemma CarveSafe(p: Pool, live: multiset<Block>, size: nat, nodes: nat, o: Oracle)
    requires Safe(p, live)
    requires Align <= size <= MaxBytes && size % Align == 0 && nodes >= 1
    requires WindowBytes(p) >= size
    ensures var c := ChunkAlloc(p, size, nodes, o).value;
      Safe(c.pool, live + multiset{Block(c.addr, size * c.nodes)})
  {
    ChunkAllocCarves(p, size, nodes, o);
    var c := ChunkAlloc(p, size, nodes, o).value;
    var t := size * c.nodes;
    MulAligned(size, c.nodes);
    SplitWindow(p, live, t);
    assert c.pool == p.(startFree := p.startFree + t);
    assert Block(c.addr, t) == Block(p.startFree, t);
  }

  /** A fresh region from the system becomes the window; nothing it overlaps is held. */
  lemma GrowSafe(p: Pool, live: multiset<Block>, lists: seq<seq<int>>, a: int, req: nat)
    requires Safe(p, live) && WindowBytes(p) < MaxBytes
    requires lists == Salvage(p)
    requires req % Align == 0
    requires Fresh(Footprint(p, live), Block(a, req))
    ensures Safe(Pool(lists, a, a + req, p.heapSize + req), live)
  {
    SalvageKeepsFootprint(p);
    var grown := Pool(lists, a, a + req, p.heapSize + req);
    var g := Block(a, req);
    assert Footprint(grown, live) == Footprint(p, live) + multiset{g};
    SeparatedUnion(Footprint(p, live), multiset{g});
  }

  /** A multiple of 8 up to 128 is exactly the class size of its own list. */
  lemma ClassOfIndex(i: nat)
    requires Align <= i <= MaxBytes && i % Align == 0
    ensures ClassSize(FreeListIndex(i)) == i
  {
  }

  /** Moving the head of list k into the window leaves the free blocks of `lists` and the held blocks. */
  lemma PopIntoWindow(lists: seq<seq<int>>, k: nat, i: nat, heap: nat, live: multiset<Block>)
    requires |lists| == NumLists && k < NumLists && lists[k] != [] && i == ClassSize(k)
    ensures var q := Pool(lists[k := lists[k][1..]], lists[k][0], lists[k][0] + i, heap);
      Wf(q) && Footprint(q, live) == FreeBlocks(lists, |lists|) + live
  {
    var q := Pool(lists[k := lists[k][1..]], lists[k][0], lists[k][0] + i, heap);
    var h := multiset{Block(lists[k][0], ClassSize(k))};
    FreeBlocksPop(lists, k);
    assert WindowBlock(q) == h;
    FootprintOf(q, live, FreeBlocks(q.freeLists, |q.freeLists|), h);
  }

  /** A donor block of exactly its class size becomes the window: the footprint is unchanged. */
  lemma DonateFootprint(p: Pool, live: multiset<Block>, lists: seq<seq<int>>, i: nat)
    requires Wf(p) && WindowBytes(p) % Align == 0 && WindowBytes(p) < MaxBytes
    requires lists == Salvage(p)
    requires Align <= i <= MaxBytes && i % Align == 0
    requires lists[FreeListIndex(i)] != []
    ensures Footprint(Donate(lists, i, p.heapSize), live) == Footprint(p, live)
  {
    var k := FreeListIndex(i);
    ClassOfIndex(i);
    SalvageKeepsFootprint(p);
    PopIntoWindow(lists, k, i, p.heapSize, live);
    var f := FreeBlocks(p.freeLists, |p.freeLists|);
    var w := WindowBlock(p);
    FootprintOf(p, live, f, w);
    var q := Donate(lists, i, p.heapSize);
    assert q == Pool(lists[k := lists[k][1..]], lists[k][0], lists[k][0] + i, p.heapSize);
    calc {
      Footprint(q, live);
      FreeBlocks(lists, |lists|) + live;
      { assert FreeBlocks(lists, |lists|) == f + w; }
      f + w + live;
    }
  }

  lemma DonateSafe(p: Pool, live: multiset<Block>, lists: seq<seq<int>>, i: nat)
    requires Safe(p, live) && WindowBytes(p) < MaxBytes
    requires lists == Salvage(p)
    requires Align <= i <= MaxBytes && i % Align == 0
    requires lists[FreeListIndex(i)] != []
    ensures Safe(Donate(lists, i, p.heapSize), live)
  {
    DonateFootprint(p, live, lists, i);
  }

  /** Replenishing from the system keeps the invariant when the granted region is fresh. */
  lemma ReplenishGrowSafe(p: Pool, live: multiset<Block>, size: nat, nodes: nat, o: Oracle, a: int)
    requires Safe(p, live)
    requires Align <= size <= MaxBytes && size % Align == 0 && nodes >= 1
    requires WindowBytes(p) < size
    requires o.malloc == Granted(a) || (o.malloc.Refused? && FindDonor(Salvage(p), size).NoDonor? && o.mallocAlloc == Granted(a))
    requires Fresh(Footprint(p, live), Block(a, GrowthRequest(p.heapSize, size, nodes)))
    ensures Replenish(p, size, nodes, o).Ok? && Safe(Replenish(p, size, nodes, o).value, live)
  {
    var req := GrowthRequest(p.heapSize, size, nodes);
    GrowthRequestCovers(p.heapSize, size, nodes);
    assert Replenish(p, size, nodes, o) == Ok(Pool(Salvage(p), a, a + req, p.heapSize + req));
    GrowSafe(p, live, Salvage(p), a, req);
  }

  /** Replenishing from a donor list keeps the invariant. */
  lemma ReplenishDonateSafe(p: Pool, live: multiset<Block>, size: nat, nodes: nat, o: Oracle)
    requires Safe(p, live)
    requires Align <= size <= MaxBytes && size % Align == 0 && nodes >= 1
    requires WindowBytes(p) < size
    requires o.malloc.Refused? && FindDonor(Salvage(p), size).Donor?
    ensures Replenish(p, size, nodes, o).Ok? && Safe(Replenish(p, size, nodes, o).value, live)
  {
    ReplenishFromDonor(p, size, nodes, o);
    DonateSafe(p, live, Salvage(p), FindDonor(Salvage(p), size).size);
  }

  /** Replenishing keeps the invariant when the system hands out fresh regions. */
  lemma ReplenishSafe(p: Pool, live: multiset<Block>, size: nat, nodes: nat, o: Oracle)
    requires Safe(p, live)
    requires Align <= size <= MaxBytes && size % Align == 0 && nodes >= 1
    requires WindowBytes(p) < size
    requires OracleFresh(Footprint(p, live), o, GrowthRequest(p.heapSize, size, nodes))
    ensures var r := Replenish(p, size, nodes, o);
      r.Ok? ==> Safe(r.value, live)
  {
    if o.malloc.Granted? {
      ReplenishGrowSafe(p, live, size, nodes, o, o.malloc.addr);
    } else if FindDonor(Salvage(p), size).Donor? {
      ReplenishDonateSafe(p, live, size, nodes, o);
    } else if o.mallocAlloc.Granted? {
      ReplenishGrowSafe(p, live, size, nodes, o, o.mallocAlloc.addr);
    }
  }

  /** chunk_alloc keeps the invariant, counting the chunk as held by its caller. */
  lemma ChunkAllocSafe(p: Pool, live: multiset<Block>, size: nat, nodes: nat, o: Oracle)
    requires Safe(p, live)
    requires Align <= size <= MaxBytes && size % Align == 0 && nodes >= 1
    requires OracleFresh(Footprint(p, live), o, GrowthRequest(p.heapSize, size, nodes))
    ensures var r := ChunkAlloc(p, size, nodes, o);
      r.Ok? ==> Safe(r.value.pool, live + multiset{Block(r.value.addr, size * r.value.nodes)})
  {
    if WindowBytes(p) >= size {
      CarveSafe(p, live, size, nodes, o);
    } else {
      ChunkAllocStartsOver(p, size, nodes, o);
      ReplenishSafe(p, live, size, nodes, o);
      var r := Replenish(p, size, nodes, o);
      if r.Ok? {
        CarveSafe(r.value, live, size, nodes, o);
      }
    }
  }

  // ---- refill ----

  /** The blocks of a refill chain are separated and lie inside the chunk they were cut from. */
  lemma {:induction false} ChainBlocks(start: int, n: nat, count: nat)
    requires start > 0 && n > 0
    ensures Separated(ListBlocks(Chain(start, n, count), n))
    ensures AllWithin(ListBlocks(Chain(start, n, count), n), Block(start, n * count))
    decreases count
  {
    if count > 0 {
      ChainBlocks(start + n, n, count - 1);
      ChainGrows(start, n, count);
    }
  }

  /** The induction step: one more block in front of a chain that starts right after it. */
  lemma ChainGrows(start: int, n: nat, count: nat)
    requires start > 0 && n > 0 && count > 0
    requires Separated(ListBlocks(Chain(start + n, n, count - 1), n))
    requires AllWithin(ListBlocks(Chain(start + n, n, count - 1), n), Block(start + n, n * (count - 1)))
    ensures Separated(ListBlocks(Chain(start, n, count), n))
    ensures AllWithin(ListBlocks(Chain(start, n, count), n), Block(start, n * count))
  {
    ChainCons(start, n, count);
    ChainStep(start, n, count, ListBlocks(Chain(start + n, n, count - 1), n));
  }

  /** The blocks of a chain: its first block and the blocks of the chain after it. */
  lemma ChainCons(start: int, n: nat, count: nat)
    requires count > 0
    ensures ListBlocks(Chain(start, n, count), n)
            == multiset{Block(start, n)} + ListBlocks(Chain(start + n, n, count - 1), n)
  {
    ListBlocksCons(start, Chain(start + n, n, count - 1), n);
    assert Chain(start, n, count) == [start] + Chain(start + n, n, count - 1);
  }

  /** One more block in front of a chain that starts right after it. */
  lemma ChainStep(start: int, n: nat, count: nat, rest: multiset<Block>)
    requires start > 0 && n > 0 && count > 0
    requires Separated(rest)
    requires AllWithin(rest, Block(start + n, n * (count - 1)))
    ensures Separated(multiset{Block(start, n)} + rest)
    ensures AllWithin(multiset{Block(start, n)} + rest, Block(start, n * count))
  {
    MulSplit(n, count);
    PrependBlock(start, n, n * (count - 1), n * count, rest);
  }

  /** `n * count` is one `n` more than `n * (count - 1)`. */
  lemma MulSplit(n: nat, count: nat)
    requires count > 0
    ensures n * count == n + n * (count - 1)
  {
  }

  /** A block of `n` bytes in front of separated regions inside the `m` bytes after it. */
  lemma PrependBlock(start: int, n: nat, m: nat, len: nat, rest: multiset<Block>)
    requires start > 0 && n > 0 && len == n + m
    requires Separated(rest)
    requires AllWithin(rest, Block(start + n, m))
    ensures Separated(multiset{Block(start, n)} + rest)
    ensures AllWithin(multiset{Block(start, n)} + rest, Block(start, len))
  {
    forall x, y | x in multiset{Block(start, n)} && y in rest
      ensures Disjoint(x, y)
    {
    }
    SeparatedUnion(multiset{Block(start, n)}, rest);
  }

  /** The footprint after linking a chain: covered by the old one with the chunk cut into pieces. */
  lemma LinkChainFootprint(q: Pool, live: multiset<Block>, addr: int, n: nat, count: nat, k: nat)
    requires Wf(q)
    requires k < NumLists && ClassSize(k) == n && count > 1
    ensures var q' := q.(freeLists := q.freeLists[k := Chain(addr + n, n, count - 1)]);
      Footprint(q', live + multiset{Block(addr, n)}) <= Footprint(q, live) + ListBlocks(Chain(addr, n, count), n)
  {
    var chain := Chain(addr + n, n, count - 1);
    var q' := q.(freeLists := q.freeLists[k := chain]);
    var f := FreeBlocks(q.freeLists, |q.freeLists|);
    var f' := FreeBlocks(q'.freeLists, |q'.freeLists|);
    var w := WindowBlock(q);
    var h := multiset{Block(addr, n)};
    var rest := ListBlocks(chain, n);
    ListBlocksCons(addr, chain, n);
    assert Chain(addr, n, count) == [addr] + chain;
    FreeBlocksUpdate(q.freeLists, k, chain, |q.freeLists|);
    assert f' + ListBlocks(q.freeLists[k], n) == f + rest;
    SameWindow(q, q'.freeLists);
    FootprintOf(q', live + h, f', w);
    FootprintOf(q, live, f, w);
    CoverStep(f', ListBlocks(q.freeLists[k], n), f, rest, w, live, h);
    calc {
      Footprint(q', live + h);
      f' + w + (live + h);
    <=
      f + w + live + (h + rest);
      Footprint(q, live) + ListBlocks(Chain(addr, n, count), n);
    }
  }

  lemma CoverStep(f': multiset<Block>, l: multiset<Block>, f: multiset<Block>, rest: multiset<Block>,
                  w: multiset<Block>, live: multiset<Block>, h: multiset<Block>)
    requires f' + l == f + rest
    ensures f' + w + (live + h) <= f + w + live + (h + rest)
  {
    forall x
      ensures (f' + w + (live + h))[x] <= (f + w + live + (h + rest))[x]
    {
      assert (f' + l)[x] == (f + rest)[x];
    }
  }

  /** Holding one more block adds exactly that block to the footprint. */
  lemma FootprintHolding(q: Pool, live: multiset<Block>, b: Block)
    requires Wf(q)
    ensures b in Footprint(q, live + multiset{b})
    ensures Footprint(q, live + multiset{b}) - multiset{b} == Footprint(q, live)
  {
  }

  /** Splitting a held chunk into its first block (kept) and the rest (linked on list k). */
  lemma LinkChainSafe(q: Pool, live: multiset<Block>, addr: int, n: nat, count: nat, k: nat)
    requires Safe(q, live + multiset{Block(addr, n * count)})
    requires k < NumLists && ClassSize(k) == n && count > 1
    ensures Safe(q.(freeLists := q.freeLists[k := Chain(addr + n, n, count - 1)]), live + multiset{Block(addr, n)})
  {
    var chunk := Block(addr, n * count);
    var m := Footprint(q, live + multiset{chunk});
    var pieces := ListBlocks(Chain(addr, n, count), n);
    FootprintHolding(q, live, chunk);
    ChainBlocks(addr, n, count);
    SeparatedReplace(m, chunk, pieces);
    LinkChainFootprint(q, live, addr, n, count, k);
    var q' := q.(freeLists := q.freeLists[k := Chain(addr + n, n, count - 1)]);
    SeparatedSub(Footprint(q', live + multiset{Block(addr, n)}), Footprint(q, live) + pieces);
    assert WindowBytes(q') == WindowBytes(q);
  }

  /** What refill returns, in terms of the chunk: the first block, the rest linked as a chain. */
  lemma RefillShape(p: Pool, n: nat, o: Oracle)
    requires Wf(p)
    requires Align <= n <= MaxBytes && n % Align == 0
    requires ChunkAlloc(p, n, RefillBatch, o).Ok?
    ensures var c := ChunkAlloc(p, n, RefillBatch, o).value;
      var k := FreeListIndex(n);
      Refill(p, n, o) == Ok(Grant(c.addr, if c.nodes == 1 then c.pool
                                         else c.pool.(freeLists := c.pool.freeLists[k := Chain(c.addr + n, n, c.nodes - 1)])))
  {
  }

  /** A one-block chunk is handed out as is. */
  lemma RefillOneSafe(p: Pool, live: multiset<Block>, n: nat, o: Oracle, count: nat)
    requires Wf(p)
    requires Align <= n <= MaxBytes && n % Align == 0
    requires ChunkAlloc(p, n, RefillBatch, o).Ok? && ChunkAlloc(p, n, RefillBatch, o).value.nodes == count == 1
    requires var c := ChunkAlloc(p, n, RefillBatch, o).value;
      Safe(c.pool, live + multiset{Block(c.addr, n * count)})
    ensures Refill(p, n, o).Ok?
    ensures Safe(Refill(p, n, o).value.pool, live + multiset{Block(Refill(p, n, o).value.addr, n)})
  {
    var c := ChunkAlloc(p, n, RefillBatch, o).value;
    OneBlock(c.addr, n, count);
    RefillShape(p, n, o);
    assert Refill(p, n, o) == Ok(Grant(c.addr, c.pool));
  }

  lemma OneBlock(addr: int, n: nat, count: nat)
    requires count == 1
    ensures Block(addr, n * count) == Block(addr, n)
  {
  }

  /** A chunk of several blocks: the first is handed out, the rest linked on the list for `n`. */
  lemma RefillManySafe(p: Pool, live: multiset<Block>, n: nat, o: Oracle, c: Chunk)
    requires Wf(p)
    requires Align <= n <= MaxBytes && n % Align == 0
    requires ChunkAlloc(p, n, RefillBatch, o) == Ok(c) && c.nodes > 1
    requires Safe(c.pool, live + multiset{Block(c.addr, n * c.nodes)})
    ensures Refill(p, n, o).Ok?
    ensures Safe(Refill(p, n, o).value.pool, live + multiset{Block(Refill(p, n, o).value.addr, n)})
  {
    var k := FreeListIndex(n);
    ClassOfIndex(n);
    RefillLinks(p, n, o, c, k, c.nodes);
    LinkedGrantSafe(Refill(p, n, o).value, c, live, n, k);
  }

  /** The grant refill makes from a chunk of several blocks keeps the invariant. */
  lemma LinkedGrantSafe(g: Grant, c: Chunk, live: multiset<Block>, n: nat, k: nat)
    requires k < NumLists && ClassSize(k) == n && c.nodes > 1
    requires Safe(c.pool, live + multiset{Block(c.addr, n * c.nodes)})
    requires g == Grant(c.addr, c.pool.(freeLists := c.pool.freeLists[k := Chain(c.addr + n, n, c.nodes - 1)]))
    ensures Safe(g.pool, live + multiset{Block(g.addr, n)})
  {
    LinkChainSafe(c.pool, live, c.addr, n, c.nodes, k);
  }

  /** The pool refill leaves after a chunk of several blocks. */
  lemma RefillLinks(p: Pool, n: nat, o: Oracle, c: Chunk, k: nat, count: nat)
    requires Wf(p)
    requires Align <= n <= MaxBytes && n % Align == 0
    requires ChunkAlloc(p, n, RefillBatch, o) == Ok(c) && c.nodes == count > 1 && k == FreeListIndex(n)
    ensures Refill(p, n, o).Ok?
    ensures Refill(p, n, o).value.addr == c.addr
    ensures Refill(p, n, o).value.pool == c.pool.(freeLists := c.pool.freeLists[k := Chain(c.addr + n, n, count - 1)])
  {
  }

  /** refill keeps the invariant, counting the returned block as held by the caller. */
  lemma RefillSafe(p: Pool, live: multiset<Block>, n: nat, o: Oracle)
    requires Safe(p, live)
    requires Align <= n <= MaxBytes && n % Align == 0
    requires OracleFresh(Footprint(p, live), o, GrowthRequest(p.heapSize, n, RefillBatch))
    ensures var r := Refill(p, n, o);
      r.Ok? ==> Safe(r.value.pool, live + multiset{Block(r.value.addr, n)})
  {
    ChunkAllocSafe(p, live, n, RefillBatch, o);
    if ChunkAlloc(p, n, RefillBatch, o).Ok? {
      var count := ChunkAlloc(p, n, RefillBatch, o).value.nodes;
      if count == 1 {
        RefillOneSafe(p, live, n, o, count);
      } else {
        RefillManySafe(p, live, n, o, ChunkAlloc(p, n, RefillBatch, o).value);
      }
    }
  }

  /** Popping the head of a free list moves that block from the pool to the caller. */
  lemma PopFootprint(p: Pool, live: multiset<Block>, k: nat)
    requires Wf(p) && k < NumLists && p.freeLists[k] != []
    ensures Footprint(p.(freeLists := p.freeLists[k := p.freeLists[k][1..]]),
                      live + multiset{Block(p.freeLists[k][0], ClassSize(k))})
            == Footprint(p, live)
  {
    var q := p.(freeLists := p.freeLists[k := p.freeLists[k][1..]]);
    var h := multiset{Block(p.freeLists[k][0], ClassSize(k))};
    FreeBlocksPop(p.freeLists, k);
    var f := FreeBlocks(p.freeLists, |p.freeLists|);
    var f' := FreeBlocks(q.freeLists, |q.freeLists|);
    var w := WindowBlock(p);
    SameWindow(p, q.freeLists);
    FootprintOf(q, live + h, f', w);
    FootprintOf(p, live, f, w);
    UnionMove(f', w, live, h);
  }

  /** The window does not depend on the free lists. */
  lemma SameWindow(p: Pool, lists: seq<seq<int>>)
    ensures WindowBlock(p.(freeLists := lists)) == WindowBlock(p)
  {
  }

  /** The footprint in terms of its three parts. */
  lemma FootprintOf(p: Pool, live: multiset<Block>, f: multiset<Block>, w: multiset<Block>)
    requires Wf(p)
    requires f == FreeBlocks(p.freeLists, |p.freeLists|) && w == WindowBlock(p)
    ensures Footprint(p, live) == f + w + live
  {
  }

  lemma UnionMove(a: multiset<Block>, b: multiset<Block>, c: multiset<Block>, d: multiset<Block>)
    ensures a + b + (c + d) == (a + d) + b + c
  {
  }

  lemma PopSafe(p: Pool, live: multiset<Block>, k: nat)
    requires Safe(p, live)
    requires k < NumLists && p.freeLists[k] != []
    ensures Safe(p.(freeLists := p.freeLists[k := p.freeLists[k][1..]]),
                 live + multiset{Block(p.freeLists[k][0], ClassSize(k))})
  {
    PopFootprint(p, live, k);
  }

  /** A fresh region from the system handed straight to the caller. */
  lemma TakeFreshSafe(p: Pool, live: multiset<Block>, g: Block)
    requires Safe(p, live)
    requires Fresh(Footprint(p, live), g)
    ensures Safe(p, live + multiset{g})
  {
    assert Footprint(p, live + multiset{g}) == Footprint(p, live) + multiset{g};
    SeparatedUnion(Footprint(p, live), multiset{g});
  }

  // ---- the public operations ----

  /** allocate keeps the invariant; the caller then holds a block of the rounded size. */
  lemma AllocateSafe(p: Pool, live: multiset<Block>, n: nat, o: Oracle)
    requires Safe(p, live)
    requires n >= 1
    requires AllocOracleFresh(p, live, n, o)
    ensures var r := Allocate(p, n, o);
      r.Ok? ==> Safe(r.value.pool, live + multiset{Block(r.value.addr, BlockSize(n))})
  {
    if n > MaxBytes {
      if o.mallocAlloc.Granted? {
        TakeFreshSafe(p, live, Block(o.mallocAlloc.addr, n));
      }
    } else {
      var k := FreeListIndex(n);
      SameListAsRounded(n);
      if p.freeLists[k] == [] {
        RefillSafe(p, live, RoundUp(n), o);
      } else {
        PopSafe(p, live, k);
      }
    }
  }

  /** Pushing a held block on its list moves it from the caller to the pool. */
  lemma PushFootprint(p: Pool, rest: multiset<Block>, ptr: int, n: nat)
    requires Wf(p) && 1 <= n <= MaxBytes
    ensures Footprint(Deallocate(p, ptr, n), rest) == Footprint(p, rest + multiset{Block(ptr, RoundUp(n))})
  {
    var b := multiset{Block(ptr, RoundUp(n))};
    var k := FreeListIndex(n);
    var lists := p.freeLists[k := [ptr] + p.freeLists[k]];
    var q := Deallocate(p, ptr, n);
    assert q == p.(freeLists := lists);
    FreeBlocksPush(p.freeLists, k, ptr);
    var f := FreeBlocks(p.freeLists, |p.freeLists|);
    var w := WindowBlock(p);
    SameWindow(p, lists);
    FootprintOf(q, rest, f + b, w);
    FootprintOf(p, rest + b, f, w);
    calc {
      Footprint(q, rest);
      f + b + w + rest;
      { UnionSwap(f, b, w); }
      f + w + (rest + b);
    }
  }

  lemma RemoveThenAdd(live: multiset<Block>, b: Block)
    requires b in live
    ensures live - multiset{b} + multiset{b} == live
  {
  }

  /** Dropping a held block shrinks the footprint. */
  lemma DropFootprint(p: Pool, live: multiset<Block>, b: Block)
    requires Wf(p)
    requires b in live
    ensures Footprint(p, live - multiset{b}) <= Footprint(p, live)
  {
  }

  /** deallocate of a block the caller holds keeps the invariant. */
  lemma DeallocateSafe(p: Pool, live: multiset<Block>, ptr: int, n: nat)
    requires Safe(p, live)
    requires n >= 1
    requires Block(ptr, BlockSize(n)) in live
    ensures Safe(Deallocate(p, ptr, n), live - multiset{Block(ptr, BlockSize(n))})
  {
    if n > MaxBytes {
      DropFootprint(p, live, Block(ptr, n));
      SeparatedSub(Footprint(p, live - multiset{Block(ptr, n)}), Footprint(p, live));
    } else {
      DeallocateSmallSafe(p, live, ptr, n, Block(ptr, RoundUp(n)));
    }
  }

  /** deallocate of a small block: the block moves from the caller onto its free list. */
  lemma DeallocateSmallSafe(p: Pool, live: multiset<Block>, ptr: int, n: nat, b: Block)
    requires Safe(p, live) && 1 <= n <= MaxBytes
    requires b == Block(ptr, RoundUp(n)) && b in live
    ensures Safe(Deallocate(p, ptr, n), live - multiset{b})
  {
    var q := Deallocate(p, ptr, n);
    PushFootprint(p, live - multiset{b}, ptr, n);
    RemoveThenAdd(live, b);
    assert Footprint(q, live - multiset{b}) == Footprint(p, live);
    assert WindowBytes(q) == WindowBytes(p);
  }

  lemma SwapHeld(live: multiset<Block>, b: Block, g: Block)
    requires b in live
    ensures live + multiset{g} - multiset{b} == live - multiset{b} + multiset{g}
  {
  }

  /**
   * reallocate of a block the caller holds keeps the invariant; afterwards the
   * caller holds the returned block (of the new size) instead of the old one.
   */
  lemma ReallocateSafe(p: Pool, live: multiset<Block>, ptr: int, oldSize: nat, newSize: nat, o: Oracle)
    requires Safe(p, live)
    requires oldSize >= 1 && newSize >= 1
    requires Block(ptr, BlockSize(oldSize)) in live
    requires oldSize > MaxBytes && newSize > MaxBytes ==>
               OracleFresh(Footprint(p, live - multiset{Block(ptr, oldSize)}), o, newSize)
    requires !(oldSize > MaxBytes && newSize > MaxBytes) ==> AllocOracleFresh(p, live, newSize, o)
    ensures var r := Reallocate(p, ptr, oldSize, newSize, o);
      r.Ok? ==> Safe(r.value.pool,
                     live - multiset{Block(ptr, BlockSize(oldSize))} + multiset{Block(r.value.addr, BlockSize(newSize))})
  {
    if Reallocate(p, ptr, oldSize, newSize, o).Ok? {
      if oldSize > MaxBytes && newSize > MaxBytes {
        ReallocateLargeSafe(p, live, ptr, oldSize, newSize, o);
      } else if RoundUp(oldSize) == RoundUp(newSize) {
        ReallocateInPlaceSafe(p, live, ptr, oldSize, newSize, o);
      } else {
        ReallocateMoveSafe(p, live, ptr, oldSize, newSize, o);
      }
    }
  }

  /** Two large sizes: the system moves the block; the pool is untouched. */
  lemma ReallocateLargeSafe(p: Pool, live: multiset<Block>, ptr: int, oldSize: nat, newSize: nat, o: Oracle)
    requires Safe(p, live)
    requires oldSize > MaxBytes && newSize > MaxBytes
    requires Block(ptr, oldSize) in live
    requires OracleFresh(Footprint(p, live - multiset{Block(ptr, oldSize)}), o, newSize)
    requires Reallocate(p, ptr, oldSize, newSize, o).Ok?
    ensures var r := Reallocate(p, ptr, oldSize, newSize, o);
      Safe(r.value.pool, live - multiset{Block(ptr, BlockSize(oldSize))} + multiset{Block(r.value.addr, BlockSize(newSize))})
  {
    var b := Block(ptr, oldSize);
    DropFootprint(p, live, b);
    SeparatedSub(Footprint(p, live - multiset{b}), Footprint(p, live));
    TakeFreshSafe(p, live - multiset{b}, Block(o.mallocAlloc.addr, newSize));
    assert Reallocate(p, ptr, oldSize, newSize, o) == Ok(Grant(o.mallocAlloc.addr, p));
  }

  /** The same class: the block stays where it is. */
  lemma ReallocateInPlaceSafe(p: Pool, live: multiset<Block>, ptr: int, oldSize: nat, newSize: nat, o: Oracle)
    requires Safe(p, live)
    requires oldSize >= 1 && newSize >= 1 && !(oldSize > MaxBytes && newSize > MaxBytes)
    requires RoundUp(oldSize) == RoundUp(newSize)
    requires Block(ptr, BlockSize(oldSize)) in live
    ensures var r := Reallocate(p, ptr, oldSize, newSize, o);
      r.Ok? && Safe(r.value.pool, live - multiset{Block(ptr, BlockSize(oldSize))} + multiset{Block(r.value.addr, BlockSize(newSize))})
  {
    SameRoundSameBlock(oldSize, newSize);
    RemoveThenAdd(live, Block(ptr, BlockSize(oldSize)));
  }

  lemma SameRoundSameBlock(oldSize: nat, newSize: nat)
    requires oldSize >= 1 && newSize >= 1 && !(oldSize > MaxBytes && newSize > MaxBytes)
    requires RoundUp(oldSize) == RoundUp(newSize)
    ensures BlockSize(oldSize) == BlockSize(newSize)
  {
  }

  /** A different class: a new block is allocated and the old one freed. */
  lemma ReallocateMoveSafe(p: Pool, live: multiset<Block>, ptr: int, oldSize: nat, newSize: nat, o: Oracle)
    requires Safe(p, live)
    requires oldSize >= 1 && newSize >= 1 && !(oldSize > MaxBytes && newSize > MaxBytes)
    requires RoundUp(oldSize) != RoundUp(newSize)
    requires Block(ptr, BlockSize(oldSize)) in live
    requires AllocOracleFresh(p, live, newSize, o)
    requires Reallocate(p, ptr, oldSize, newSize, o).Ok?
    ensures var r := Reallocate(p, ptr, oldSize, newSize, o);
      Safe(r.value.pool, live - multiset{Block(ptr, BlockSize(oldSize))} + multiset{Block(r.value.addr, BlockSize(newSize))})
  {
    var b := Block(ptr, BlockSize(oldSize));
    AllocateSafe(p, live, newSize, o);
    var g := Allocate(p, newSize, o).value;
    var got := Block(g.addr, BlockSize(newSize));
    DeallocateSafe(g.pool, live + multiset{got}, ptr, oldSize);
    SwapHeld(live, b, got);
    assert Reallocate(p, ptr, oldSize, newSize, o) == Ok(Grant(g.addr, Deallocate(g.pool, ptr, oldSize)));
  }

  /** The pool starts safe: no free blocks, an empty window, nothing held. */
  lemma InitialPoolSafe()
    ensures Safe(InitialPool(), multiset{})
  {
    var p := InitialPool();
    assert FreeBlocks(p.freeLists, |p.freeLists|) == multiset{} by {
      forall k | 0 <= k <= NumLists
        ensures FreeBlocks(p.freeLists, k) == multiset{}
      {
        FreeBlocksEmpty(p.freeLists, k);
      }
    }
  }

  lemma {:induction false} FreeBlocksEmpty(lists: seq<seq<int>>, k: nat)
    requires k <= |lists|
    requires forall i :: 0 <= i < k ==> lists[i] == []
    ensures FreeBlocks(lists, k) == multiset{}
  {
    if k > 0 {
      FreeBlocksEmpty(lists, k - 1);
    }
  }

  // ---- any interleaving of calls ----

  /** One call into the pool by its clients. */
  datatype Call = Alloc(n: nat, o: Oracle) | Free(ptr: int, n: nat)

  datatype State = State(pool: Pool, live: multiset<Block>)

  /**
   * Runs a sequence of calls; a call whose precondition fails (a free of a block
   * the caller does not hold, an oracle reply that is not fresh) or that ends the
   * process out of memory stops the run with `None`.
   */
  ghost function Run(s: State, calls: seq<Call>): (r: Option<State>)
    decreases |calls|
  {
    if calls == [] then Some(s)
    else if !Wf(s.pool) then None
    else match calls[0]
      case Alloc(n, o) =>
        if n >= 1 && AllocOracleFresh(s.pool, s.live, n, o) then
          match Allocate(s.pool, n, o)
          case Ok(g) => Run(State(g.pool, s.live + multiset{Block(g.addr, BlockSize(n))}), calls[1..])
          case OutOfMemory => None
        else None
      case Free(ptr, n) =>
        if n >= 1 && Block(ptr, BlockSize(n)) in s.live then
          Run(State(Deallocate(s.pool, ptr, n), s.live - multiset{Block(ptr, BlockSize(n))}), calls[1..])
        else None
  }

  datatype Option<T> = None | Some(value: T)

  /** Blocks never overlap and sizes never mismatch across any sequence of calls. */
  lemma {:induction false} RunStaysSafe(s: State, calls: seq<Call>)
    requires Safe(s.pool, s.live)
    ensures Run(s, calls).Some? ==> Safe(Run(s, calls).value.pool, Run(s, calls).value.live)
    decreases |calls|
  {
    if calls != [] && Run(s, calls).Some? {
      match calls[0]
      case Alloc(n, o) =>
        AllocateSafe(s.pool, s.live, n, o);
        var g := Allocate(s.pool, n, o).value;
        RunStaysSafe(State(g.pool, s.live + multiset{Block(g.addr, BlockSize(n))}), calls[1..]);
      case Free(ptr, n) =>
        DeallocateSafe(s.pool, s.live, ptr, n);
        RunStaysSafe(State(Deallocate(s.pool, ptr, n), s.live - multiset{Block(ptr, BlockSize(n))}), calls[1..]);
    }
  }

  /** From the initial pool, every run of calls ends in a safe state. */
  lemma RunFromStartIsSafe(calls: seq<Call>)
    ensures var r := Run(State(InitialPool(), multiset{}), calls);
      r.Some? ==> Safe(r.value.pool, r.value.live)
  {
    var s := State(InitialPool(), multiset{});
    InitialPoolSafe();
    assert Safe(s.pool, s.live);
    RunStaysSafe(s, calls);
  }
}
