/** Small sequence vocabulary shared by the allocator and container models. */
module Seqs {

  /** No element occurs twice in `s`. */
  predicate NoDup<T(==)>(s: seq<T>)
  {
    forall i, j :: 0 <= i < j < |s| ==> s[i] != s[j]
  }

  /** The elements of `s`, as a set. */
  function Elems<T>(s: seq<T>): (r: set<T>)
  {
    set x | x in s
  }

  /** The back element of a non-empty sequence (`std::vector::back`). */
  function Last<T>(s: seq<T>): (r: T)
    requires |s| > 0
  {
    s[|s| - 1]
  }

  /** `s` without its back element (`std::vector::pop_back`). */
  function DropLast<T>(s: seq<T>): (r: seq<T>)
    requires |s| > 0
  {
    s[..|s| - 1]
  }

  /** The `count` consecutive addresses `start, start + 1, ...`. */
  function Range(start: nat, count: nat): (r: seq<nat>)
    ensures |r| == count
    ensures forall i :: 0 <= i < count ==> r[i] == start + i
  {
    seq(count, i requires 0 <= i < count => start + i)
  }
}
