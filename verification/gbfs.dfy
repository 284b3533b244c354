/**
 * Eager greedy best-first search: a max-heap of (index, estimate) elements whose order
 * puts the smallest estimate on top; every generated successor is evaluated.
 */
module Gbfs {
  import opened Prelude
  import opened Planning
  import opened SearchErrors
  import opened StateTable
  import opened Heaps

  /** `Ord for Element`: the smaller estimate is the greater element, then the larger index. */
  function Cmp(a: Element, b: Element): (o: Ordering)
    ensures o == Greater <==> a.estimate < b.estimate || (a.estimate == b.estimate && a.index > b.index)
    ensures o == Less <==> a.estimate > b.estimate || (a.estimate == b.estimate && a.index < b.index)
  {
    Compare(b.estimate, a.estimate).ThenWith(Compare(a.index, b.index))
  }

  /** The order is a total order on elements: antisymmetric, transitive, and equal only on equal elements. */
  lemma CmpIsTotalOrder(a: Element, b: Element, c: Element)
    ensures Cmp(a, b) == Cmp(b, a).Reverse()
    ensures Cmp(a, b) == Equal <==> a == b
    ensures Cmp(a, b) != Less && Cmp(b, c) != Less ==> Cmp(a, c) != Less
  {
  }

  /**
   * The position of the element `BinaryHeap::pop` returns: one that no other element
   * is greater than.
   */
  function Top(heap: seq<Element>): (k: nat)
    requires heap != []
    ensures k < |heap|
    ensures forall j :: 0 <= j < |heap| ==> Cmp(heap[k], heap[j]) != Less
  {
    if |heap| == 1 then 0
    else
      var k := Top(heap[..|heap| - 1]);
      if Cmp(heap[|heap| - 1], heap[k]) == Greater then |heap| - 1 else k
  }

  /**
   * The element popped has the smallest estimate, and among the elements with that
   * estimate the largest (most recently discovered) index.
   */
  lemma TopIsSmallestEstimateLatestIndex(heap: seq<Element>, j: nat)
    requires heap != [] && j < |heap|
    ensures heap[Top(heap)].estimate <= heap[j].estimate
    ensures heap[Top(heap)].estimate == heap[j].estimate ==> heap[Top(heap)].index >= heap[j].index
  {
    assert Cmp(heap[Top(heap)], heap[j]) != Less;
  }

  /** With distinct indices on the heap, any element no other beats is the one `Top` picks. */
  lemma TopIsUnique(heap: seq<Element>, k: nat)
    requires k < |heap|
    requires forall i, j :: 0 <= i < j < |heap| ==> heap[i].index != heap[j].index
    requires forall j :: 0 <= j < |heap| ==> Cmp(heap[k], heap[j]) != Less
    ensures k == Top(heap)
  {
    var t := Top(heap);
    assert Cmp(heap[k], heap[t]) != Less && Cmp(heap[t], heap[k]) != Less;
  }

  /** The elements pushed for entries `from ..` of `t`, each with its own state's estimate. */
  function Pushed<S(==)>(t: Table<S>, from: nat, h: S -> nat): (r: seq<Element>)
    ensures |r| == if from <= |t.states| then |t.states| - from else 0
    ensures forall j :: 0 <= j < |r| ==> r[j] == Element(from + j, h(t.states[from + j]))
  {
    if from <= |t.states|
    then seq(|t.states| - from, j requires 0 <= j < |t.states| - from => Element(from + j, h(t.states[from + j])))
    else []
  }

  lemma PushedPush<S>(heap: seq<Element>, t: Table<S>, from: nat, h: S -> nat, x: S, parent: nat)
    requires from <= |t.states|
    ensures heap + Pushed(t, from, h) + [Element(|t.states|, h(x))] == heap + Pushed(t.Push(x, parent), from, h)
  {
    var u := t.Push(x, parent);
    assert u.states[|t.states|] == x;
    assert Pushed(u, from, h) == Pushed(t, from, h) + [Element(|t.states|, h(x))];
    assert heap + (Pushed(t, from, h) + [Element(|t.states|, h(x))]) == heap + Pushed(t, from, h) + [Element(|t.states|, h(x))];
  }

  lemma PushedIndices<S>(heap: seq<Element>, t: Table<S>, from: nat, h: S -> nat)
    requires from <= |t.states|
    ensures Indices(heap + Pushed(t, from, h)) == Indices(heap) + Range(from, |t.states|)
  {
  }

  /** Each element carries its own state's estimate, except the root's 0. */
  ghost predicate Estimated<S>(heap: seq<Element>, t: Table<S>, h: S -> nat) {
    forall k :: 0 <= k < |heap| ==>
      heap[k].index < |t.states| &&
      heap[k].estimate == if heap[k].index == 0 then 0 else h(t.states[heap[k].index])
  }

  lemma EstimatedRemove<S>(heap: seq<Element>, t: Table<S>, h: S -> nat, k: nat)
    requires Estimated(heap, t, h) && k < |heap|
    ensures Estimated(Remove(heap, k), t, h)
  {
  }

  /** Pushing the elements of new entries, each with its own estimate, keeps every element's estimate right. */
  lemma EstimatedExtend<S>(heap: seq<Element>, t: Table<S>, u: Table<S>, h: S -> nat)
    requires Estimated(heap, t, h) && t.states <= u.states && |t.states| >= 1
    ensures Estimated(heap + Pushed(u, |t.states|, h), u, h)
  {
    var r := heap + Pushed(u, |t.states|, h);
    forall k | 0 <= k < |r|
      ensures r[k].index < |u.states|
      ensures r[k].estimate == if r[k].index == 0 then 0 else h(u.states[r[k].index])
    {
      if k < |heap| {
        assert r[k] == heap[k];
        assert u.states[heap[k].index] == t.states[heap[k].index];
      }
    }
  }

  /** A valid table whose entries include every index on the heap. */
  ghost predicate Fits<S>(task: Task<S>, table: Table<S>, heap: seq<Element>) {
    table.Valid(task.successors) && forall k :: 0 <= k < |heap| ==> heap[k].index < table.Size()
  }

  /**
   * What one step does with a heap and a table, and what it reports, for the heuristic
   * `h`. An empty heap is Unsolvable and changes nothing. Otherwise the top element is
   * popped; a goal-covering node is solved with its trace and nothing is generated; any
   * other node has every successor not yet in the table appended to it, with the
   * expanded index as parent, and pushed with its own estimate; the step is then not
   * finished (`None`).
   */
  function Next<S>(task: Task<S>, h: S -> nat, table: Table<S>, heap: seq<Element>)
    : (Option<SearchResult<S>>, Table<S>, seq<Element>)
    requires Fits(task, table, heap)
  {
    if heap == [] then (Some(Err(Unsolvable)), table, heap)
    else
      var k := Top(heap);
      var index := heap[k].index;
      var node := table.states[index];
      if task.Covers(node) then (Some(Ok(table.Trace(index))), table, Remove(heap, k))
      else
        var t := table.InsertAll(task.successors(node), index);
        (None, t, Remove(heap, k) + Pushed(t, table.Size(), h))
  }

  /** How many times a step calls the heuristic: once per successor of an expanded node. */
  function Evaluations<S>(task: Task<S>, table: Table<S>, heap: seq<Element>): nat
    requires Fits(task, table, heap)
  {
    if heap == [] || task.Covers(table.states[heap[Top(heap)].index]) then 0
    else |task.successors(table.states[heap[Top(heap)].index])|
  }

  /** A step keeps the table valid and every heap index an entry of it. */
  lemma NextFits<S>(task: Task<S>, h: S -> nat, table: Table<S>, heap: seq<Element>)
    requires Fits(task, table, heap)
    ensures var (_, t, q) := Next(task, h, table, heap); Fits(task, t, q)
  {
    if heap != [] {
      var index := heap[Top(heap)].index;
      if !task.Covers(table.states[index]) {
        InsertAllValid(table, task.successors, task.successors(table.states[index]), index);
      }
    }
  }

  class GBFS<S(==)> {
    /** The `BinaryHeap` of elements still to expand, as an unordered sequence. */
    var heap: seq<Element>
    /** The `parents` map. */
    var table: Table<S>
    /** Indices already popped. */
    ghost var closed: set<nat>
    /** The heuristic. */
    const h: S -> nat
    /** How many times the heuristic has been called. */
    ghost var evaluations: nat

    ghost predicate Valid(task: Task<S>)
      reads this
    {
      Fits(task, table, heap) && Frontier(Indices(heap), closed, table.Size()) && Estimated(heap, table, h)
    }

    /** The table holds only the initial state at index 0; the heap holds (0, 0). */
    constructor (initial: S, heuristic: S -> nat)
      ensures table == Root(initial) && heap == [Element(0, 0)] && closed == {}
      ensures h == heuristic && evaluations == 0
    {
      table := Root(initial);
      heap := [Element(0, 0)];
      closed := {};
      h := heuristic;
      evaluations := 0;
    }

    /**
     * Expands the top of the heap: the result, table and heap are the ones `Next` gives,
     * and every successor of an expanded node is evaluated, duplicates included.
     */
    method Step(task: Task<S>) returns (r: Option<SearchResult<S>>)
      requires Valid(task)
      modifies this
      ensures Valid(task)
      ensures (r, table, heap) == Next(task, h, old(table), old(heap))
      ensures evaluations == old(evaluations) + Evaluations(task, old(table), old(heap))
    {
      if heap == [] {
        return Some(Err(Unsolvable));
      }
      var k := Top(heap);
      var index := heap[k].index;
      IndicesRemove(heap, k);
      FrontierRemove(Indices(heap), closed, table.Size(), k);
      EstimatedRemove(heap, table, h, k);
      heap := Remove(heap, k);
      closed := closed + {index};
      var node := table.states[index];
      if task.Covers(node) {
        return Some(Ok(table.Trace(index)));
      }
      var successors := task.successors(node);
      ghost var t0, h0 := table, heap;
      Insert(successors, index);
      InsertAllValid(t0, task.successors, successors, index);
      PushedIndices(h0, table, t0.Size(), h);
      EstimatedExtend(h0, t0, table, h);
      FrontierExtend(Indices(h0), closed, t0.Size(), table.Size());
      return None;
    }

    /**
     * The successor loop of `Step`: each successor is evaluated first; one not yet in
     * the table is then inserted with parent `index` and pushed with that estimate.
     */
    method Insert(successors: seq<S>, index: nat)
      requires |table.states| == |table.parents|
      modifies this`table, this`heap, this`evaluations
      ensures table == old(table).InsertAll(successors, index)
      ensures heap == old(heap) + Pushed(table, old(table).Size(), h)
      ensures evaluations == old(evaluations) + |successors|
    {
      ghost var t0, h0, e0 := table, heap, evaluations;
      for k := 0 to |successors|
        invariant table == t0.InsertAll(successors[..k], index)
        invariant heap == h0 + Pushed(table, t0.Size(), h)
        invariant evaluations == e0 + k
      {
        var successor := successors[k];
        InsertAllStep(t0, successors, k, index);
        var estimate := h(successor);
        evaluations := evaluations + 1;
        if successor in table.states {
          continue;
        }
        var n := table.Size();
        PushedPush(h0, table, t0.Size(), h, successor, index);
        table := table.Push(successor, index);
        heap := heap + [Element(n, estimate)];
      }
      assert successors[..|successors|] == successors;
    }
  }
}
