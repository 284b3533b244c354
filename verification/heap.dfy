/**
 * The element both greedy strategies keep in their `BinaryHeap`: a table index and the
 * estimate it is ordered by. Each strategy has its own `Ord` on it.
 */
module Heaps {
  import opened Prelude

  datatype Element = Element(index: nat, estimate: nat)

  /** The table indices on the heap, in heap order. */
  function Indices(heap: seq<Element>): (r: seq<nat>)
    ensures |r| == |heap| && forall k :: 0 <= k < |heap| ==> r[k] == heap[k].index
  {
    seq(|heap|, k requires 0 <= k < |heap| => heap[k].index)
  }

  /** Taking an element off the heap takes its index off the index sequence. */
  lemma IndicesRemove(heap: seq<Element>, k: nat)
    requires k < |heap|
    ensures Indices(Remove(heap, k)) == Remove(Indices(heap), k)
  {
  }
}
