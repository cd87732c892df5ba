/**
 * `MyAllocator<T, BlockSize>`: a pool of single-element blocks kept on a LIFO
 * free list, refilled `BlockSize` blocks at a time, with requests for more than
 * `BlockSize` elements served straight from the system allocator.
 */
module BlockPool {
  import opened Seqs
  import opened SystemHeap

  /** One allocator value: its batch size and its own free list (back = top). */
  datatype Pool = Pool(blockSize: nat, freeBlocks: seq<nat>)

  /** What one `allocate` call yields: the block, the successor states, and
      whether the call had to run `expand`. */
  datatype Grant = Grant(ptr: nat, pool: Pool, heap: Heap, expanded: bool)

  /** The default constructor: an empty pool. */
  function Empty(blockSize: nat): (r: Pool)
  {
    Pool(blockSize, [])
  }

  /** The converting constructor from an allocator of another element type:
      it copies nothing, so the new allocator owns an empty pool. */
  function Rebind(other: Pool): (r: Pool)
    ensures r.blockSize == other.blockSize
    ensures r.freeBlocks == []
    ensures Equal(r, other) && !NotEqual(r, other)
  {
    Empty(other.blockSize)
  }

  /** Pushes `count` blocks, each from one `::operator new(sizeof(T))`, onto
      the back of `free`, one per loop round of `expand`. */
  function PushFresh(free: seq<nat>, h: Heap, count: nat): (r: (seq<nat>, Heap))
    ensures r.0 == free + Range(h.next, count)
    ensures r.1.next == h.next + count
    decreases count
  {
    if count == 0 then (free, h)
    else
      var f := New(h);
      PushFresh(free + [f.addr], f.heap, count - 1)
  }

  /** `expand`: grows the free list by exactly `blockSize` fresh blocks. */
  function Expand(p: Pool, h: Heap): (r: (Pool, Heap))
    ensures r.0.blockSize == p.blockSize
    ensures r.0.freeBlocks == p.freeBlocks + Range(h.next, p.blockSize)
    ensures r.1.next == h.next + p.blockSize
  {
    var (free, h') := PushFresh(p.freeBlocks, h, p.blockSize);
    (Pool(p.blockSize, free), h')
  }

  /** What `allocate(n)` demands of its caller: with `BlockSize == 0` a pool
      request on an empty free list leaves it empty after `expand`, and the
      back of an empty vector must not be read. */
  predicate CanAllocate(p: Pool, n: nat)
  {
    n > p.blockSize || p.blockSize > 0 || |p.freeBlocks| > 0
  }

  /** `allocate(n)`. */
  function Allocate(p: Pool, h: Heap, n: nat): (r: Grant)
    requires CanAllocate(p, n)
    ensures r.pool.blockSize == p.blockSize
    // bypass: one system allocation, the pool is untouched
    ensures n > p.blockSize ==>
      r.pool == p && r.ptr == h.next && r.heap.next == h.next + 1 && !r.expanded
    // pool hit: the most recently pushed block, nothing else changes
    ensures n <= p.blockSize && |p.freeBlocks| > 0 ==>
      && r.ptr == p.freeBlocks[|p.freeBlocks| - 1]
      && r.pool.freeBlocks == p.freeBlocks[..|p.freeBlocks| - 1]
      && r.heap == h && !r.expanded
    // pool miss: one batch of fresh blocks, the last of which is handed out
    ensures n <= p.blockSize && |p.freeBlocks| == 0 ==>
      && r.expanded
      && r.ptr == h.next + p.blockSize - 1
      && r.pool.freeBlocks == Range(h.next, p.blockSize - 1)
      && r.heap.next == h.next + p.blockSize
  {
    if n > p.blockSize then
      var f := New(h);
      Grant(f.addr, p, f.heap, false)
    else
      var expanded := |p.freeBlocks| == 0;
      var (p1, h1) := if expanded then Expand(p, h) else (p, h);
      assert |p1.freeBlocks| > 0;
      Grant(Last(p1.freeBlocks), p1.(freeBlocks := DropLast(p1.freeBlocks)), h1, expanded)
  }

  /** `deallocate(ptr, n)`: a bypass block goes back to the system (a no-op
      on this model), a pool block is pushed onto the free list. */
  function Deallocate(p: Pool, ptr: nat, n: nat): (r: Pool)
    ensures r.blockSize == p.blockSize
    ensures n > p.blockSize ==> r.freeBlocks == p.freeBlocks
    ensures n <= p.blockSize ==>
      && |r.freeBlocks| == |p.freeBlocks| + 1
      && r.freeBlocks[..|p.freeBlocks|] == p.freeBlocks
      && Last(r.freeBlocks) == ptr
  {
    if n > p.blockSize then p else p.(freeBlocks := p.freeBlocks + [ptr])
  }

  /** `operator==` between allocators with the same `BlockSize`. */
  function Equal(a: Pool, b: Pool): (r: bool)
    requires a.blockSize == b.blockSize
    ensures r
  {
    true
  }

  /** `operator!=` between allocators with the same `BlockSize`. */
  function NotEqual(a: Pool, b: Pool): (r: bool)
    requires a.blockSize == b.blockSize
    ensures !r
  {
    false
  }

  /** The pool invariant, relative to the set `live` of blocks handed out and
      not yet given back: no block is free twice, no free block is live, and
      every free or live block came from the system allocator already. */
  predicate Valid(p: Pool, h: Heap, live: set<nat>)
  {
    && NoDup(p.freeBlocks)
    && (forall i :: 0 <= i < |p.freeBlocks| ==> p.freeBlocks[i] !in live)
    && (forall i :: 0 <= i < |p.freeBlocks| ==> p.freeBlocks[i] < h.next)
    && (forall a :: a in live ==> a < h.next)
  }

  /** Bypass isolation: an oversized allocation and its release leave the
      free list as it was, and the block handed out is not on it. */
  lemma BypassIsolated(p: Pool, h: Heap, live: set<nat>, n: nat)
    requires Valid(p, h, live)
    requires n > p.blockSize
    ensures Allocate(p, h, n).pool == p
    ensures Allocate(p, h, n).ptr !in p.freeBlocks
    ensures Allocate(p, h, n).ptr !in live
    ensures Deallocate(p, Allocate(p, h, n).ptr, n) == p
  {
  }

  /** A pool allocation on an empty free list expands once, by `blockSize`
      pairwise-distinct blocks no one has seen, and keeps `blockSize - 1`. */
  lemma ExpandOnEmpty(p: Pool, h: Heap, live: set<nat>, n: nat)
    requires Valid(p, h, live)
    requires n <= p.blockSize && p.blockSize > 0
    requires p.freeBlocks == []
    ensures Allocate(p, h, n).expanded
    ensures |Allocate(p, h, n).pool.freeBlocks| == p.blockSize - 1
    ensures Allocate(p, h, n).heap.next == h.next + p.blockSize
    ensures NoDup(Expand(p, h).0.freeBlocks)
    ensures forall i :: 0 <= i < p.blockSize ==>
      Expand(p, h).0.freeBlocks[i] !in live && Expand(p, h).0.freeBlocks[i] >= h.next
  {
  }

  /** Stack discipline: a pool allocation on a non-empty free list hands out
      the back block and drops exactly it. */
  lemma PopsLast(p: Pool, h: Heap, n: nat)
    requires n <= p.blockSize && |p.freeBlocks| > 0
    ensures Allocate(p, h, n).ptr == Last(p.freeBlocks)
    ensures Allocate(p, h, n).pool.freeBlocks + [Allocate(p, h, n).ptr] == p.freeBlocks
    ensures Allocate(p, h, n).heap == h && !Allocate(p, h, n).expanded
  {
  }

  /** Reuse: a pool block given back is the very next block handed out, and
      the allocator returns to the state it had before the release. */
  lemma DeallocateThenAllocate(p: Pool, h: Heap, ptr: nat, n: nat, m: nat)
    requires n <= p.blockSize && m <= p.blockSize
    ensures Deallocate(p, ptr, n).freeBlocks[..|p.freeBlocks|] == p.freeBlocks
    ensures Allocate(Deallocate(p, ptr, n), h, m) == Grant(ptr, p, h, false)
  {
  }

  /** Releasing a block just taken from a non-empty pool restores the pool. */
  lemma AllocateThenDeallocate(p: Pool, h: Heap, n: nat, m: nat)
    requires n <= p.blockSize && m <= p.blockSize && |p.freeBlocks| > 0
    ensures Deallocate(Allocate(p, h, n).pool, Allocate(p, h, n).ptr, m) == p
  {
  }

  /** Allocation never hands out a live block and keeps the invariant, with
      the handed-out block now live. */
  lemma AllocatePreservesValid(p: Pool, h: Heap, live: set<nat>, n: nat)
    requires Valid(p, h, live)
    requires CanAllocate(p, n)
    ensures Allocate(p, h, n).ptr !in live
    ensures Allocate(p, h, n).ptr !in Allocate(p, h, n).pool.freeBlocks
    ensures Valid(Allocate(p, h, n).pool, Allocate(p, h, n).heap, live + {Allocate(p, h, n).ptr})
  {
  }

  /** Releasing a live block keeps the invariant, with the block no longer live. */
  lemma DeallocatePreservesValid(p: Pool, h: Heap, live: set<nat>, ptr: nat, n: nat)
    requires Valid(p, h, live)
    requires ptr in live
    ensures Valid(Deallocate(p, ptr, n), h, live - {ptr})
  {
  }

  /** Allocator comparison ignores pool contents altogether. */
  lemma EqualityIgnoresPools(a: Pool, b: Pool, c: Pool, d: Pool)
    requires a.blockSize == b.blockSize && c.blockSize == d.blockSize
    ensures Equal(a, b) == Equal(c, d)
    ensures NotEqual(a, b) == !Equal(a, b)
  {
  }

  /** The implicit same-type copy keeps the free list, so two copies of a
      non-empty pool both hand out the same block. */
  lemma CopiesShareFreeBlocks(p: Pool, h1: Heap, h2: Heap, n: nat)
    requires n <= p.blockSize && |p.freeBlocks| > 0
    ensures Allocate(p, h1, n).ptr == Allocate(p, h2, n).ptr
  {
  }
}
