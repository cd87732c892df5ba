/**
 * `MyContainer<T, MyAllocator<T, BlockSize>>`: each `push_back` takes one
 * block from the container's own allocator copy, constructs the value into
 * it and records the address; destruction destroys and releases every
 * recorded block.
 */
module OwningContainer {
  import opened Seqs
  import opened SystemHeap
  import opened BlockPool
  import opened PoolGrowth

  /** The container's own allocator, its element addresses in insertion
      order, and its element count `size_`. */
  datatype Container = Container(alloc: Pool, elements: seq<nat>, size: nat)

  /** Everything outside the container that its operations touch: the system
      allocator and the objects currently constructed, by address. */
  datatype Env<T> = Env(heap: Heap, objects: map<nat, T>)

  /** One allocator call made during teardown. */
  datatype Call = Destroy(ptr: nat) | Release(ptr: nat, n: nat)

  /** The constructor, holding a copy of the given allocator. */
  function Create(alloc: Pool): (r: Container)
  {
    Container(alloc, [], 0)
  }

  function Size(c: Container): (r: nat)
  {
    c.size
  }

  function IsEmpty(c: Container): (r: bool)
  {
    c.size == 0
  }

  /** The container invariant: the count matches the addresses, every
      address is a distinct live block holding a constructed element, no
      block on the allocator's free list holds an object, and objects live
      only in memory the system allocator has handed out. */
  predicate Valid<T>(c: Container, env: Env<T>)
  {
    && c.size == |c.elements|
    && NoDup(c.elements)
    && BlockPool.Valid(c.alloc, env.heap, Elems(c.elements))
    && (forall i :: 0 <= i < |c.elements| ==> c.elements[i] in env.objects)
    && (forall i :: 0 <= i < |c.alloc.freeBlocks| ==> c.alloc.freeBlocks[i] !in env.objects)
    && (forall a :: a in env.objects ==> a < env.heap.next)
  }

  /** The elements in insertion order (what `print` walks). */
  function Contents<T>(c: Container, env: Env<T>): (r: seq<T>)
    requires forall i :: 0 <= i < |c.elements| ==> c.elements[i] in env.objects
    ensures |r| == |c.elements|
  {
    seq(|c.elements|, i requires 0 <= i < |c.elements| => env.objects[c.elements[i]])
  }

  /** `push_back(v)`: `allocate(1)`, `construct`, record, count. */
  function PushBack<T>(c: Container, env: Env<T>, v: T): (r: (Container, Env<T>))
    ensures r.0.alloc.blockSize == c.alloc.blockSize
    ensures r.0.size == c.size + 1
    ensures |r.0.elements| == |c.elements| + 1
    ensures r.0.elements[..|c.elements|] == c.elements
    ensures r.1.heap.next >= env.heap.next
  {
    var g := Allocate(c.alloc, env.heap, 1);
    (Container(g.pool, c.elements + [g.ptr], c.size + 1), Env(g.heap, env.objects[g.ptr := v]))
  }

  /** `push_back` for each value of `vs` in turn. */
  function PushAll<T>(c: Container, env: Env<T>, vs: seq<T>): (r: (Container, Env<T>))
    ensures r.0.size == c.size + |vs|
    decreases |vs|
  {
    if |vs| == 0 then (c, env)
    else
      var (c1, env1) := PushBack(c, env, vs[0]);
      PushAll(c1, env1, vs[1..])
  }

  /** The loop of `~MyContainer` over `ptrs`: `destroy(ptr)`, then
      `deallocate(ptr, 1)`, front to back, with the calls made. */
  function ReleaseAll<T>(alloc: Pool, objects: map<nat, T>, ptrs: seq<nat>): (r: (Pool, map<nat, T>, seq<Call>))
    ensures r.0.blockSize == alloc.blockSize
    ensures alloc.blockSize >= 1 ==> r.0.freeBlocks == alloc.freeBlocks + ptrs
    ensures alloc.blockSize == 0 ==> r.0 == alloc
    ensures forall a :: a in r.1 <==> a in objects && a !in ptrs
    ensures forall a :: a in r.1 ==> r.1[a] == objects[a]
    ensures |r.2| == 2 * |ptrs|
    ensures forall i :: 0 <= i < |ptrs| ==> r.2[2 * i] == Destroy(ptrs[i]) && r.2[2 * i + 1] == Release(ptrs[i], 1)
    decreases |ptrs|
  {
    if |ptrs| == 0 then (alloc, objects, [])
    else
      var p := ptrs[0];
      var rest := ReleaseAll(Deallocate(alloc, p, 1), objects - {p}, ptrs[1..]);
      assert forall a :: a in ptrs <==> a == p || a in ptrs[1..];
      (rest.0, rest.1, [Destroy(p), Release(p, 1)] + rest.2)
  }

  /** `~MyContainer`: the allocator and objects left behind, and the calls made. */
  function Teardown<T>(c: Container, env: Env<T>): (r: (Pool, map<nat, T>, seq<Call>))
  {
    ReleaseAll(c.alloc, env.objects, c.elements)
  }

  /** A new container over an allocator that hands out nothing yet is valid
      and empty. */
  lemma CreateValid<T>(alloc: Pool, env: Env<T>)
    requires BlockPool.Valid(alloc, env.heap, {})
    requires forall i :: 0 <= i < |alloc.freeBlocks| ==> alloc.freeBlocks[i] !in env.objects
    requires forall a :: a in env.objects ==> a < env.heap.next
    ensures Valid(Create(alloc), env)
    ensures IsEmpty(Create(alloc)) && Size(Create(alloc)) == 0
  {
  }

  /** `size()` counts the recorded addresses, and `empty()` holds exactly
      when there are none. */
  lemma SizeAndEmpty<T>(c: Container, env: Env<T>)
    requires Valid(c, env)
    ensures Size(c) == |c.elements| == |Contents(c, env)|
    ensures IsEmpty(c) <==> c.elements == []
  {
  }

  /** `push_back` records one new block, taken with `allocate(1)`, at the
      end, holding the value; the earlier elements and every other object
      are untouched, and the invariant is kept. */
  lemma PushBackAppends<T>(c: Container, env: Env<T>, v: T)
    requires Valid(c, env)
    ensures var (c', env') := PushBack(c, env, v);
      && c'.elements == c.elements + [Allocate(c.alloc, env.heap, 1).ptr]
      && c'.alloc == Allocate(c.alloc, env.heap, 1).pool
      && Allocate(c.alloc, env.heap, 1).ptr !in c.elements
      && Valid(c', env')
      && Contents(c', env') == Contents(c, env) + [v]
      && env'.objects.Keys == env.objects.Keys + {Allocate(c.alloc, env.heap, 1).ptr}
      && (forall a :: a in env.objects ==> a in env'.objects && env'.objects[a] == env.objects[a])
  {
  }

  /** Pushing values one by one on the pool path is a run of `allocate(1)`
      calls: the new addresses are exactly the blocks that run hands out,
      and the contents grow by exactly the values, in order. */
  lemma {:induction false} PushAllIsAllocateMany<T>(c: Container, env: Env<T>, vs: seq<T>)
    requires Valid(c, env)
    requires c.alloc.blockSize >= 1
    ensures var (c', env') := PushAll(c, env, vs);
      var run := AllocateMany(c.alloc, env.heap, 1, |vs|);
      && c'.elements == c.elements + run.ptrs
      && c'.alloc == run.pool
      && env'.heap == run.heap
      && Valid(c', env')
      && Contents(c', env') == Contents(c, env) + vs
    decreases |vs|
  {
    if |vs| > 0 {
      PushBackAppends(c, env, vs[0]);
      var (c1, env1) := PushBack(c, env, vs[0]);
      PushAllIsAllocateMany(c1, env1, vs[1..]);
      assert vs == [vs[0]] + vs[1..];
    }
  }

  /** A run of `push_back`s constructs objects only at the blocks the
      matching run of `allocate(1)` calls hands out; every object that
      existed before keeps its address and value. */
  lemma {:induction false} PushAllFrame<T>(c: Container, env: Env<T>, vs: seq<T>)
    requires Valid(c, env)
    requires c.alloc.blockSize >= 1
    ensures var env' := PushAll(c, env, vs).1;
      && env'.objects.Keys == env.objects.Keys + Elems(AllocateMany(c.alloc, env.heap, 1, |vs|).ptrs)
      && (forall a :: a in env.objects ==> a in env'.objects && env'.objects[a] == env.objects[a])
    decreases |vs|
  {
    if |vs| > 0 {
      PushBackAppends(c, env, vs[0]);
      var (c1, env1) := PushBack(c, env, vs[0]);
      PushAllFrame(c1, env1, vs[1..]);
      var g := Allocate(c.alloc, env.heap, 1);
      var rest := AllocateMany(g.pool, g.heap, 1, |vs| - 1);
      assert AllocateMany(c.alloc, env.heap, 1, |vs|).ptrs == [g.ptr] + rest.ptrs;
      assert Elems([g.ptr] + rest.ptrs) == {g.ptr} + Elems(rest.ptrs);
    }
  }

  /** The demo scenario: ten values pushed into a fresh container over a
      fresh pool of batch size 10 come back in order, and the pool expanded
      exactly once and handed out its whole batch. */
  lemma TenIntoBatchOfTen(env: Env<int>)
    requires forall a :: a in env.objects ==> a < env.heap.next
    ensures var (c, env') := PushAll(Create(Empty(10)), env, [0, 1, 2, 3, 4, 5, 6, 7, 8, 9]);
      && Size(c) == 10
      && Contents(c, env') == [0, 1, 2, 3, 4, 5, 6, 7, 8, 9]
      && AllocateMany(Empty(10), env.heap, 1, 10).expansions == 1
      && env'.heap.next == env.heap.next + 10
      && c.alloc.freeBlocks == []
  {
    CreateValid(Empty(10), env);
    var vs := [0, 1, 2, 3, 4, 5, 6, 7, 8, 9];
    PushAllIsAllocateMany(Create(Empty(10)), env, vs);
    OneBatchOneExpansion(Empty(10), env.heap);
    AllocateManyCounts(Empty(10), env.heap, 1, 10);
  }

  /** Teardown gives every element's block back exactly once, with
      `deallocate(ptr, 1)` right after `destroy(ptr)`: no block is free twice,
      every element is destroyed and nothing is live any more. On the pool
      path the free list grows by exactly `size()` blocks, the elements in
      order; with `BlockSize == 0` every release bypasses the pool. */
  lemma TeardownReleasesEachOnce<T>(c: Container, env: Env<T>)
    requires Valid(c, env)
    ensures var (pool, objects, calls) := Teardown(c, env);
      && (c.alloc.blockSize >= 1 ==> pool.freeBlocks == c.alloc.freeBlocks + c.elements)
      && (c.alloc.blockSize >= 1 ==> |pool.freeBlocks| == |c.alloc.freeBlocks| + Size(c))
      && (c.alloc.blockSize == 0 ==> pool == c.alloc)
      && BlockPool.Valid(pool, env.heap, {})
      && (forall i :: 0 <= i < |c.elements| ==> c.elements[i] !in objects)
      && (forall a :: a in objects ==> a in env.objects && objects[a] == env.objects[a])
      && multiset(ReleasedBlocks(calls)) == multiset(c.elements)
      && (forall i :: 0 <= i < |c.elements| ==> multiset(ReleasedBlocks(calls))[c.elements[i]] == 1)
  {
    var (pool, objects, calls) := Teardown(c, env);
    var live := Elems(c.elements);
    ReleasedInOrder(c.elements, calls);
    forall i | 0 <= i < |c.elements|
      ensures multiset(c.elements)[c.elements[i]] == 1
    {
      CountDistinct(c.elements, i);
    }
    var free := pool.freeBlocks;
    assert NoDup(free) by {
      forall i, j | 0 <= i < j < |free|
        ensures free[i] != free[j]
      {
        var n := |c.alloc.freeBlocks|;
        if i < n && j >= n {
          assert free[j] == c.elements[j - n];
          assert free[j] in live;
        }
      }
    }
    forall i | 0 <= i < |free|
      ensures free[i] < env.heap.next
    {
      var n := |c.alloc.freeBlocks|;
      if i >= n {
        assert free[i] == c.elements[i - n];
        assert free[i] in live;
      }
    }
  }

  /** The blocks handed to `deallocate`, in call order. */
  function ReleasedBlocks(calls: seq<Call>): (r: seq<nat>)
  {
    if |calls| == 0 then []
    else (if calls[0].Release? then [calls[0].ptr] else []) + ReleasedBlocks(calls[1..])
  }

  /** A destroy/release log of `ptrs` releases exactly `ptrs`, in order. */
  lemma {:induction false} ReleasedInOrder(ptrs: seq<nat>, calls: seq<Call>)
    requires |calls| == 2 * |ptrs|
    requires forall i :: 0 <= i < |ptrs| ==> calls[2 * i] == Destroy(ptrs[i]) && calls[2 * i + 1] == Release(ptrs[i], 1)
    ensures ReleasedBlocks(calls) == ptrs
    decreases |ptrs|
  {
    if |ptrs| > 0 {
      var tail := calls[2..];
      assert calls[0] == Destroy(ptrs[0]) && calls[1] == Release(ptrs[0], 1);
      forall i | 0 <= i < |ptrs[1..]|
        ensures tail[2 * i] == Destroy(ptrs[1..][i]) && tail[2 * i + 1] == Release(ptrs[1..][i], 1)
      {
        assert tail[2 * i] == calls[2 * (i + 1)];
        assert tail[2 * i + 1] == calls[2 * (i + 1) + 1];
      }
      ReleasedInOrder(ptrs[1..], tail);
      assert calls[1..][1..] == tail;
      assert ptrs == [ptrs[0]] + ptrs[1..];
    }
  }

  /** In a sequence without duplicates each element occurs once. */
  lemma {:induction false} CountDistinct(s: seq<nat>, i: nat)
    requires NoDup(s) && i < |s|
    ensures multiset(s)[s[i]] == 1
    decreases |s|
  {
    assert s == [s[0]] + s[1..];
    if i == 0 {
      assert s[0] !in s[1..];
    } else {
      CountDistinct(s[1..], i - 1);
      assert s[i] != s[0];
    }
  }
}
