/**
 * The system allocator (`::operator new`) seen only through the addresses
 * it hands out. Every call yields an address that was never handed out
 * before; `::operator delete` is a no-op here, so no address is ever reused.
 */
module SystemHeap {

  /** `next` is the lowest address the system allocator has not yet handed out. */
  datatype Heap = Heap(next: nat)

  datatype Fresh = Fresh(addr: nat, heap: Heap)

  /** One call of `::operator new`, whatever the byte count. */
  function New(h: Heap): (r: Fresh)
    ensures r.addr >= h.next
    ensures r.addr < r.heap.next == h.next + 1
  {
    Fresh(h.next, Heap(h.next + 1))
  }
}
