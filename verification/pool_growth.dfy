/**
 * Sequences of `MyAllocator` calls: how often a run of pool allocations
 * expands the pool, and why an allocate/deallocate cycle expands at most once.
 */
module PoolGrowth {
  import opened Seqs
  import opened SystemHeap
  import opened BlockPool

  /** The outcome of a run of calls: the blocks handed out in order, the final
      states, and how many calls ran `expand`. */
  datatype Run = Run(ptrs: seq<nat>, pool: Pool, heap: Heap, expansions: nat)

  /** `ceil(x / b)`. */
  function CeilDiv(x: nat, b: nat): (r: nat)
    requires b > 0
  {
    (x + b - 1) / b
  }

  /** `k` consecutive `allocate(n)` calls on the pool path, with no release. */
  function AllocateMany(p: Pool, h: Heap, n: nat, k: nat): (r: Run)
    requires n <= p.blockSize && p.blockSize > 0
    ensures |r.ptrs| == k
    ensures r.pool.blockSize == p.blockSize
    decreases k
  {
    if k == 0 then Run([], p, h, 0)
    else
      var g := Allocate(p, h, n);
      var rest := AllocateMany(g.pool, g.heap, n, k - 1);
      Run([g.ptr] + rest.ptrs, rest.pool, rest.heap, rest.expansions + if g.expanded then 1 else 0)
  }

  /** `k` rounds of `allocate(1)` immediately followed by `deallocate(ptr, 1)`. */
  function Cycle(p: Pool, h: Heap, k: nat): (r: Run)
    ensures |r.ptrs| == k
    ensures r.pool.blockSize == p.blockSize
    decreases k
  {
    if k == 0 then Run([], p, h, 0)
    else
      var g := Allocate(p, h, 1);
      var rest := Cycle(Deallocate(g.pool, g.ptr, 1), g.heap, k - 1);
      Run([g.ptr] + rest.ptrs, rest.pool, rest.heap, rest.expansions + if g.expanded then 1 else 0)
  }

  /** `c` whole batches of `b` hold at least one batch when `c >= 1`. */
  lemma MulAtLeast(c: nat, b: nat)
    requires c >= 1
    ensures c * b >= b
  {
    assert c * b == (c - 1) * b + b;
  }

  /** Whole quotient: `(q * b + m) / b == q` for a remainder `m < b`. */
  lemma DivExact(q: nat, b: nat, m: nat)
    requires m < b
    ensures (q * b + m) / b == q
  {
    var y := q * b + m;
    var d := y / b;
    var r := y % b;
    assert y == d * b + r;
    if d > q {
      MulAtLeast(d - q, b);
      assert false;
    } else if d < q {
      MulAtLeast(q - d, b);
      assert false;
    }
  }

  /** Counting the expansions of `k` pool allocations from a free list of
      length `f`: none while the list lasts, then just enough whole batches,
      with fewer than one batch left over. */
  lemma {:induction false} AllocateManyCounts(p: Pool, h: Heap, n: nat, k: nat)
    requires n <= p.blockSize && p.blockSize > 0
    ensures var r := AllocateMany(p, h, n, k);
      && |r.pool.freeBlocks| + k == |p.freeBlocks| + r.expansions * p.blockSize
      && r.heap.next == h.next + r.expansions * p.blockSize
      && (k <= |p.freeBlocks| ==> r.expansions == 0)
      && (k > |p.freeBlocks| ==> |r.pool.freeBlocks| < p.blockSize)
    decreases k
  {
    if k > 0 {
      var g := Allocate(p, h, n);
      var rest := AllocateMany(g.pool, g.heap, n, k - 1);
      AllocateManyCounts(g.pool, g.heap, n, k - 1);
      if g.expanded {
        assert (rest.expansions + 1) * p.blockSize == rest.expansions * p.blockSize + p.blockSize;
      }
    }
  }

  /** Starting from an empty pool, `k` pool allocations with no release run
      `expand` exactly `ceil(k / BlockSize)` times, each buying one batch. */
  lemma ExpansionsFromEmpty(p: Pool, h: Heap, n: nat, k: nat)
    requires n <= p.blockSize && p.blockSize > 0
    requires p.freeBlocks == []
    ensures AllocateMany(p, h, n, k).expansions == CeilDiv(k, p.blockSize)
    ensures AllocateMany(p, h, n, k).heap.next == h.next + CeilDiv(k, p.blockSize) * p.blockSize
  {
    AllocateManyCounts(p, h, n, k);
    var r := AllocateMany(p, h, n, k);
    var b := p.blockSize;
    var left := |r.pool.freeBlocks|;
    if k > 0 {
      assert k + b - 1 == (r.expansions - 1) * b + (b - 1 - left) + b by {
        assert left + k == r.expansions * b;
      }
      assert k + b - 1 == r.expansions * b + (b - 1 - left);
      DivExact(r.expansions, b, b - 1 - left);
    }
  }

  /** The batch-growth scenario: a full batch of pool allocations from an
      empty pool triggers one expansion and uses every block it bought;
      the next allocation triggers the second. */
  lemma OneBatchOneExpansion(p: Pool, h: Heap)
    requires p.blockSize > 0 && p.freeBlocks == []
    ensures AllocateMany(p, h, 1, p.blockSize).expansions == 1
    ensures AllocateMany(p, h, 1, p.blockSize).pool.freeBlocks == []
    ensures AllocateMany(p, h, 1, p.blockSize + 1).expansions == 2
  {
    ExpansionsFromEmpty(p, h, 1, p.blockSize);
    AllocateManyCounts(p, h, 1, p.blockSize);
    ExpansionsFromEmpty(p, h, 1, p.blockSize + 1);
    assert CeilDiv(p.blockSize, p.blockSize) == 1 by {
      DivExact(1, p.blockSize, p.blockSize - 1);
    }
    assert CeilDiv(p.blockSize + 1, p.blockSize) == 2 by {
      DivExact(2, p.blockSize, 0);
    }
  }

  /** On a non-empty pool one allocate(1)/deallocate(1) round is invisible:
      it hands out the back block and puts it straight back. */
  lemma {:induction false} CycleOnNonEmpty(p: Pool, h: Heap, k: nat)
    requires p.blockSize > 0 && |p.freeBlocks| > 0
    ensures Cycle(p, h, k) == Run(seq(k, i => Last(p.freeBlocks)), p, h, 0)
    decreases k
  {
    if k > 0 {
      var g := Allocate(p, h, 1);
      AllocateThenDeallocate(p, h, 1, 1);
      CycleOnNonEmpty(p, h, k - 1);
      assert [g.ptr] + seq(k - 1, i => Last(p.freeBlocks)) == seq(k, i => Last(p.freeBlocks));
    }
  }

  /** Pool reuse: however many allocate(1)/deallocate(1) rounds run, at most
      one expansion happens, so at most `BlockSize` system allocations, and
      every round receives the same block. */
  lemma CycleExpandsAtMostOnce(p: Pool, h: Heap, k: nat)
    requires p.blockSize > 0
    ensures Cycle(p, h, k).expansions <= 1
    ensures Cycle(p, h, k).heap.next <= h.next + p.blockSize
    ensures forall i :: 0 <= i < k ==> Cycle(p, h, k).ptrs[i] == Cycle(p, h, k).ptrs[0]
    ensures |p.freeBlocks| > 0 ==> Cycle(p, h, k).expansions == 0 && Cycle(p, h, k).pool == p
  {
    if |p.freeBlocks| > 0 {
      CycleOnNonEmpty(p, h, k);
    } else if k > 0 {
      var g := Allocate(p, h, 1);
      var q := Deallocate(g.pool, g.ptr, 1);
      assert |q.freeBlocks| > 0;
      CycleOnNonEmpty(q, g.heap, k - 1);
      assert q.freeBlocks[|q.freeBlocks| - 1] == g.ptr;
    }
  }
}
