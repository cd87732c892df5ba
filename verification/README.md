# Block-pool allocator and owning container

A functional model of `MyAllocator<T, BlockSize>` and `MyContainer<T, Allocator>`
from `main.cpp`.

`MyAllocator` keeps single-element blocks on a LIFO free list, `free_blocks`.
- A request for more than `BlockSize` elements bypasses the pool and goes to
  `::operator new`.
- A pool request on an empty free list first runs `expand`, which pushes
  `BlockSize` fresh blocks.
- A pool request then pops the back block.
- `deallocate` either hands the block back to the system or pushes it onto the
  free list.

`MyContainer` holds its own copy of the allocator.
- `push_back` takes one block with `allocate(1)`, constructs the value into it,
  and records the address.
- The destructor destroys and deallocates every recorded block, front to back.

Modules:
- `Seqs` holds sequence vocabulary: no duplicates, back element, address ranges.
- `SystemHeap` models `::operator new` as a counter `next` of the lowest address
  not yet handed out. Every call therefore yields an address never seen before.
  `::operator delete` is a no-op, so addresses are never reused.
- `BlockPool` models the allocator.
  - `Pool(blockSize, freeBlocks)` is one allocator value with its own pool.
  - `Allocate` and `Deallocate` are the two calls.
  - `Expand` and `PushFresh` model `expand` and its loop.
  - `Rebind` is the converting constructor.
  - `Equal` and `NotEqual` are the comparison operators.
  - `Valid` is the pool invariant relative to the set of live blocks.
- `PoolGrowth` models runs of calls. `AllocateMany` is `k` pool allocations
  with no release. `Cycle` is `k` rounds of allocate(1) followed by deallocate(1).
- `OwningContainer` models the container.
  - `Container(alloc, elements, size)` is the container state.
  - `Env` holds the system heap and the constructed objects, keyed by address.
  - `PushBack`, `Size` and `IsEmpty` are the member functions.
  - `Teardown` and `ReleaseAll` model the destructor. They return the call log
    of `destroy` and `deallocate` calls.

Behaviour of `main.cpp` that the model keeps as written:
- `allocate(n)` for `2 <= n <= BlockSize` pops one single-element block from
  the free list, like `allocate(1)` (main.cpp:37-47).
- `~MyContainer` releases its blocks front to back, in `elements_` order
  (main.cpp:127-130).
- `OwningContainer.TenIntoBatchOfTen` models `container2`, a
  `MyContainer<int, MyAllocator<int, 10>>` filled with 0..9 (main.cpp:182-187).
- The implicit same-type copy of an allocator copies `free_blocks` (main.cpp:81).
  This is what `alloc_(alloc)` does at main.cpp:104. A copy of an allocator with
  a non-empty pool hands out the same next block as the original
  (`BlockPool.CopiesShareFreeBlocks`). "No live block is handed out twice"
  (`BlockPool.AllocatePreservesValid`) therefore holds for one allocator value,
  not across copies of it.

## Model

| member | source | states |
|---|---|---|
| BlockPool.Allocate | main.cpp:35-48 | Three cases. Bypass (`n > BlockSize`): one fresh system block, pool untouched, no expansion. Pool hit: returns the back block and leaves the prefix without it, heap untouched. Pool miss: expands once; returns the last of `BlockSize` fresh addresses and keeps the other `BlockSize - 1` as the free list. |
| BlockPool.Deallocate | main.cpp:51-59 | Bypass leaves the free list as it was. A pool release appends `ptr` at the back and leaves earlier entries untouched. |
| BlockPool.PushFresh | main.cpp:75-79 | The `expand` loop, round by round, equals the closed form: old free list followed by `count` consecutive fresh addresses, with the heap advanced by `count`. |
| BlockPool.Expand | main.cpp:75-79 | Grows the free list by exactly `BlockSize` fresh addresses, appended after the existing entries. |
| BlockPool.Rebind | main.cpp:31-32 | The converting constructor copies nothing. The new allocator has the same block size, an empty pool, and compares equal to its source. |
| BlockPool.Equal | main.cpp:85-88 | `operator==` is true for any two allocators with the same `BlockSize`. |
| BlockPool.NotEqual | main.cpp:90-93 | `operator!=` is false for any two allocators with the same `BlockSize`. |
| BlockPool.EqualityIgnoresPools | main.cpp:85-93 | The comparison result does not depend on pool contents, and `!=` is the negation of `==`. |
| BlockPool.BypassIsolated | main.cpp:37-54 | An oversized allocate leaves the free list unchanged, and so does its release. The address handed out is neither on the free list nor live. |
| BlockPool.ExpandOnEmpty | main.cpp:41-46 | A pool allocate on an empty list expands once. It adds `BlockSize` pairwise-distinct, never-seen blocks, none of them live, and leaves `BlockSize - 1` blocks free. |
| BlockPool.PopsLast | main.cpp:44-47 | LIFO: on a non-empty list the back block is handed out. The remaining list plus that block is the old list. No expansion happens and the heap is untouched. |
| BlockPool.DeallocateThenAllocate | main.cpp:51-58 | Reuse round trip: a pool release keeps earlier entries. The very next pool allocate returns the released block and restores the earlier allocator, without expansion. |
| BlockPool.AllocateThenDeallocate | main.cpp:44-57 | Releasing the block just popped from a non-empty pool restores the pool exactly. |
| BlockPool.AllocatePreservesValid | main.cpp:35-48 | The free list stays duplicate-free and disjoint from the live blocks. The block handed out was not live and is not left on the free list, so no live block is handed out twice. |
| BlockPool.DeallocatePreservesValid | main.cpp:51-59 | Releasing a live block on either path keeps the invariant, and the block is no longer live. |
| BlockPool.CopiesShareFreeBlocks | main.cpp:81 | The implicit same-type copy keeps `free_blocks`. Two copies of a non-empty pool both hand out the same block next. |
| PoolGrowth.AllocateManyCounts | main.cpp:35-48 | `k` pool allocations starting from `f` free blocks: no expansion while `k <= f`. The free-list length plus `k` equals `f` plus expansions times `BlockSize`, the heap grows by the same amount, and fewer than `BlockSize` blocks remain once expansion was needed. |
| PoolGrowth.ExpansionsFromEmpty | main.cpp:41-43 | From an empty pool, `k` pool allocations expand exactly `ceil(k / BlockSize)` times, taking that many batches from the system. |
| PoolGrowth.OneBatchOneExpansion | main.cpp:41-46 | From an empty pool, `BlockSize` allocations expand once and leave the pool empty. One more allocation triggers the second expansion. |
| PoolGrowth.CycleOnNonEmpty | main.cpp:44-57 | On a non-empty pool, any number of allocate(1)/deallocate(1) rounds hand out the back block every time and leave pool and heap unchanged. |
| PoolGrowth.CycleExpandsAtMostOnce | main.cpp:35-58 | Any number of allocate(1)/deallocate(1) rounds expand at most once. They make at most `BlockSize` system allocations, and every round gets the same block. |
| OwningContainer.PushBack | main.cpp:107-112 | Increments `size_` by one and appends exactly one address after the untouched earlier ones. |
| OwningContainer.ReleaseAll | main.cpp:126-130 | The destructor loop calls `destroy(p)` then `deallocate(p, 1)` for each address in order. With `BlockSize >= 1` the free list becomes the old list followed by the addresses. Exactly those objects are destroyed and all others are kept. |
| OwningContainer.CreateValid | main.cpp:104 | A container built over an allocator with nothing handed out satisfies the container invariant, and `size()` is 0. |
| OwningContainer.SizeAndEmpty | main.cpp:122-123 | Under the invariant, `size()` equals the number of recorded addresses and elements. `empty()` holds exactly when there are none. |
| OwningContainer.PushBackAppends | main.cpp:107-112 | `push_back` appends the block `allocate(1)` hands out. That block is not already owned. The invariant holds afterwards, and the contents become the old contents followed by the value. The only object constructed is the one at the new block, and every earlier object keeps its address and value. |
| OwningContainer.PushAllIsAllocateMany | main.cpp:107-112 | A run of `push_back`s equals a run of `allocate(1)` calls: same addresses in order, same final pool and heap. The contents grow by exactly the pushed values. |
| OwningContainer.PushAllFrame | main.cpp:107-112 | A run of `push_back`s constructs objects exactly at the blocks the matching run of `allocate(1)` calls hands out. Every earlier object keeps its address and value. |
| OwningContainer.TenIntoBatchOfTen | main.cpp:182-187 | Pushing 0..9 into a container over a fresh `MyAllocator<int, 10>` gives size 10 and contents `[0..9]`. Exactly one expansion of ten blocks occurs, and the pool ends empty. |
| OwningContainer.TeardownReleasesEachOnce | main.cpp:126-130 | For any block size, every element is released exactly once with `n == 1`, no block is free twice, every element is destroyed, other objects are untouched, and nothing stays live. With `BlockSize >= 1` the free list grows by exactly `size()` entries: the elements, in order. With `BlockSize == 0` the pool is unchanged. |
| OwningContainer.ReleasedInOrder | main.cpp:127-129 | The destroy/deallocate log of the destructor releases exactly the recorded addresses, in order. |

## Left out

- `print`, `main`, the `std::map` instantiations through `rebind`, and `factorial`
  are left out. They are console output and demo driver code; `std::map`'s node
  allocation pattern is standard-library code that is not part of this model.
- The default `std::allocator` path of `MyContainer` and the type machinery
  (`allocator_traits`, typedefs, `rebind` as a type) are left out. The container
  is modelled over `MyAllocator` only.
- Real memory and object lifetimes are not modelled. `construct` and `destroy`
  are modelled only as adding and removing the value at an address in
  `Env.objects`.
- An element copy constructor that throws inside `construct` (main.cpp:109) is
  not modelled. In the source that exception leaves `push_back` after
  `allocate(1)` (main.cpp:108) has taken a block. That block is then neither
  recorded in `elements_` nor returned to `free_blocks`, so it leaks, and
  `size_` is unchanged. In the model, `construct` always succeeds.
- Out-of-memory (`std::bad_alloc`) is left out. The system allocator always
  succeeds.
- The byte count `n * sizeof(T)` of a bypass request, and its possible `size_t`
  overflow, are left out. Only the fact that one system call happens is kept.
- `::operator delete` is a no-op. A bypass block is forgotten, not returned for
  reuse; the real system allocator may reuse it.
- Pool blocks are never given back to the system because the allocator has no
  destructor. The model does not reclaim them either. `Teardown` returns the
  container's allocator copy so its free list can be stated, although in the
  source that copy is destroyed with the container.
- `BlockPool.Allocate` requires `CanAllocate`. With `BlockSize == 0`, a pool
  request (`n == 0`) on an empty free list reads the back of an empty vector.
  That is undefined behaviour the caller must avoid.
- PoolGrowth.AllocateMany and the cycle lemmas assume `BlockSize >= 1`. With
  `BlockSize == 0` every `allocate(1)` bypasses the pool, so there is no pool
  growth to count.
- OwningContainer.ReleaseAll states the free-list growth only for
  `BlockSize >= 1`. With `BlockSize == 0` every release bypasses the pool and the
  free list is unchanged.
- `size_` is modelled as an unbounded count. Wrap-around of `size_t` is
  unreachable in practice.
- Mismatched releases (a bypass block released with a pool count, or the other
  way round) are not flagged. The invariant only needs the released block to be
  live.
