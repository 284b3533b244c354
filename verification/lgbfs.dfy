/**
 * Lazy greedy best-first search: a max-heap ordered by estimate alone; the heuristic is
 * called once per expansion, on the expanded node, and every child it inserts shares
 * that estimate.
 */
module Lgbfs {
  import opened Prelude
  import opened Planning
  import opened SearchErrors
  import opened StateTable
  import opened Heaps

  /** `Ord for Element`: the smaller estimate is the greater element; the index plays no part. */
  function Cmp(a: Element, b: Element): (o: Ordering)
    ensures o == Greater <==> a.estimate < b.estimate
    ensures o == Less <==> a.estimate > b.estimate
  {
    Compare(b.estimate, a.estimate)
  }

  /** Elements with the same estimate are equal in this order whatever their indices. */
  lemma CmpIgnoresIndex(a: Element, b: Element)
    ensures Cmp(a, b) == Equal <==> a.estimate == b.estimate
    ensures Cmp(a, b) == Cmp(b, a).Reverse()
  {
  }

  /**
   * The position of the element `BinaryHeap::pop` returns: one with the smallest
   * estimate. Which of several such elements the real heap returns depends on its
   * layout; this picks the earliest.
   */
  function Top(heap: seq<Element>): (k: nat)
    requires heap != []
    ensures k < |heap|
    ensures forall j :: 0 <= j < |heap| ==> heap[k].estimate <= heap[j].estimate
  {
    if |heap| == 1 then 0
    else
      var k := Top(heap[..|heap| - 1]);
      if Cmp(heap[|heap| - 1], heap[k]) == Greater then |heap| - 1 else k
  }

  /** The elements pushed for entries `from .. to - 1`, all with the same estimate. */
  function Shared(from: nat, to: nat, estimate: nat): (r: seq<Element>)
    ensures |r| == if from <= to then to - from else 0
    ensures forall j :: 0 <= j < |r| ==> r[j] == Element(from + j, estimate)
  {
    if from <= to then seq(to - from, j requires 0 <= j < to - from => Element(from + j, estimate)) else []
  }

  lemma SharedPush(heap: seq<Element>, from: nat, to: nat, estimate: nat)
    requires from <= to
    ensures heap + Shared(from, to, estimate) + [Element(to, estimate)] == heap + Shared(from, to + 1, estimate)
  {
    assert Shared(from, to + 1, estimate) == Shared(from, to, estimate) + [Element(to, estimate)];
    assert heap + (Shared(from, to, estimate) + [Element(to, estimate)]) == heap + Shared(from, to, estimate) + [Element(to, estimate)];
  }

  lemma SharedIndices(heap: seq<Element>, from: nat, to: nat, estimate: nat)
    requires from <= to
    ensures Indices(heap + Shared(from, to, estimate)) == Indices(heap) + Range(from, to)
  {
  }

  /** Each element carries its parent's estimate, except the root's 0. */
  ghost predicate Inherited<S>(heap: seq<Element>, t: Table<S>, h: S -> nat) {
    forall k :: 0 <= k < |heap| ==>
      && heap[k].index < |t.states| && heap[k].index < |t.parents|
      && (heap[k].index == 0 ==> heap[k].estimate == 0)
      && (heap[k].index > 0 ==>
            t.parents[heap[k].index] < |t.states| && heap[k].estimate == h(t.states[t.parents[heap[k].index]]))
  }

  lemma InheritedRemove<S>(heap: seq<Element>, t: Table<S>, h: S -> nat, k: nat)
    requires Inherited(heap, t, h) && k < |heap|
    ensures Inherited(Remove(heap, k), t, h)
  {
  }

  /** Children pushed with the estimate of the node they were generated from keep the invariant. */
  lemma InheritedExtend<S>(heap: seq<Element>, t: Table<S>, u: Table<S>, h: S -> nat, parent: nat)
    requires Inherited(heap, t, h) && t.states <= u.states && t.parents <= u.parents
    requires |t.states| == |t.parents| >= 1 && |u.states| == |u.parents| && parent < |t.states|
    requires forall j :: |t.states| <= j < |u.states| ==> u.parents[j] == parent
    ensures Inherited(heap + Shared(|t.states|, |u.states|, h(t.states[parent])), u, h)
  {
    var r := heap + Shared(|t.states|, |u.states|, h(t.states[parent]));
    forall k | 0 <= k < |r|
      ensures r[k].index < |u.states| && r[k].index < |u.parents|
      ensures r[k].index == 0 ==> r[k].estimate == 0
      ensures r[k].index > 0 ==>
                u.parents[r[k].index] < |u.states| && r[k].estimate == h(u.states[u.parents[r[k].index]])
    {
      if k < |heap| {
        assert r[k] == heap[k];
        var i := heap[k].index;
        if i > 0 {
          assert u.parents[i] == t.parents[i];
          assert u.states[t.parents[i]] == t.states[t.parents[i]];
        }
      } else {
        assert u.states[parent] == t.states[parent];
      }
    }
  }

  /** A valid table whose entries include every index on the heap. */
  ghost predicate Fits<S>(task: Task<S>, table: Table<S>, heap: seq<Element>) {
    table.Valid(task.successors) && forall k :: 0 <= k < |heap| ==> heap[k].index < table.Size()
  }

  /**
   * What one step does with a heap and a table, and what it reports, for the heuristic
   * `h`. An empty heap is `Err(Unsolvable)` and changes nothing. Otherwise the top
   * element is popped; a goal-covering node is solved with its trace; any other node has
   * every successor not yet in the table appended to it, with the expanded index as
   * parent, and pushed with the expanded node's one estimate; the step then reports
   * `Err(Unfinished)`.
   */
  function Next<S>(task: Task<S>, h: S -> nat, table: Table<S>, heap: seq<Element>)
    : (SearchResult<S>, Table<S>, seq<Element>)
    requires Fits(task, table, heap)
  {
    if heap == [] then (Err(Unsolvable), table, heap)
    else
      var k := Top(heap);
      var index := heap[k].index;
      var node := table.states[index];
      if task.Covers(node) then (Ok(table.Trace(index)), table, Remove(heap, k))
      else
        var t := table.InsertAll(task.successors(node), index);
        (Err(Unfinished), t, Remove(heap, k) + Shared(table.Size(), t.Size(), h(node)))
  }

  /** How many times a step calls the heuristic: once, on an expanded node that is not a goal. */
  function Evaluations<S>(task: Task<S>, table: Table<S>, heap: seq<Element>): nat
    requires Fits(task, table, heap)
  {
    if heap == [] || task.Covers(table.states[heap[Top(heap)].index]) then 0 else 1
  }

  /** A step keeps the table valid and every heap index an entry of it. */
  lemma NextFits<S>(task: Task<S>, h: S -> nat, table: Table<S>, heap: seq<Element>)
    requires Fits(task, table, heap)
    ensures var (_, t, q) := Next(task, h, table, heap); Fits(task, t, q)
  {
    if heap != [] {
      var index := heap[Top(heap)].index;
      if !task.Covers(table.states[index]) {
        InsertAllValid(table, task.successors, task.successors(table.states[index]), index);
      }
    }
  }

  class LGBFS<S(==)> {
    /** The `BinaryHeap` of elements still to expand, as an unordered sequence. */
    var heap: seq<Element>
    /** The `parents` map. */
    var table: Table<S>
    /** Indices already popped. */
    ghost var closed: set<nat>
    /** The heuristic, reached through the evaluator. */
    const h: S -> nat
    /** How many times the heuristic has been called. */
    ghost var evaluations: nat

    ghost predicate Valid(task: Task<S>)
      reads this
    {
      Fits(task, table, heap) && Frontier(Indices(heap), closed, table.Size()) && Inherited(heap, table, h)
    }

    /** The table holds only the initial state at index 0; the heap holds (0, 0). */
    constructor (initial: S, heuristic: S -> nat)
      ensures table == Root(initial) && heap == [Element(0, 0)] && closed == {}
      ensures h == heuristic && evaluations == 0
    {
      table := Root(initial);
      heap := [Element(0, 0)];
      closed := {};
      h := heuristic;
      evaluations := 0;
    }

    /**
     * Expands the top of the heap: the result, table and heap are the ones `Next` gives,
     * and the node is evaluated only when it is expanded, once.
     */
    method Step(task: Task<S>) returns (r: SearchResult<S>)
      requires Valid(task)
      modifies this
      ensures Valid(task)
      ensures (r, table, heap) == Next(task, h, old(table), old(heap))
      ensures evaluations == old(evaluations) + Evaluations(task, old(table), old(heap))
    {
      if heap == [] {
        return Err(Unsolvable);
      }
      var k := Top(heap);
      var index := heap[k].index;
      IndicesRemove(heap, k);
      FrontierRemove(Indices(heap), closed, table.Size(), k);
      InheritedRemove(heap, table, h, k);
      heap := Remove(heap, k);
      closed := closed + {index};
      var node := table.states[index];
      if task.Covers(node) {
        return Ok(table.Trace(index));
      }
      var estimate := h(node);
      evaluations := evaluations + 1;
      var successors := task.successors(node);
      ghost var t0, h0 := table, heap;
      Insert(successors, index, estimate);
      InsertAllValid(t0, task.successors, successors, index);
      SharedIndices(h0, t0.Size(), table.Size(), estimate);
      InheritedExtend(h0, t0, table, h, index);
      FrontierExtend(Indices(h0), closed, t0.Size(), table.Size());
      return Err(Unfinished);
    }

    /**
     * The successor loop of `Step`: each successor not yet in the table is inserted with
     * parent `index` and pushed with the expanded node's `estimate`.
     */
    method Insert(successors: seq<S>, index: nat, estimate: nat)
      requires |table.states| == |table.parents|
      modifies this`table, this`heap
      ensures table == old(table).InsertAll(successors, index)
      ensures heap == old(heap) + Shared(old(table).Size(), table.Size(), estimate)
    {
      ghost var t0, h0 := table, heap;
      for k := 0 to |successors|
        invariant table == t0.InsertAll(successors[..k], index)
        invariant heap == h0 + Shared(t0.Size(), table.Size(), estimate)
      {
        var successor := successors[k];
        InsertAllStep(t0, successors, k, index);
        if successor in table.states {
          continue;
        }
        var n := table.Size();
        SharedPush(h0, t0.Size(), n, estimate);
        table := table.Push(successor, index);
        heap := heap + [Element(n, estimate)];
      }
      assert successors[..|successors|] == successors;
    }
  }
}
