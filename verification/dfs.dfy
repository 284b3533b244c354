/** Depth-first search: a LIFO stack of table indices over the deduplicated state table. */
module Dfs {
  import opened Prelude
  import opened Planning
  import opened SearchErrors
  import opened StateTable

  /** The index `Vec::pop` returns. */
  function Top(stack: seq<nat>): nat
    requires stack != []
  {
    stack[|stack| - 1]
  }

  /** The stack `Vec::pop` leaves. */
  function Pop(stack: seq<nat>): seq<nat>
    requires stack != []
  {
    stack[..|stack| - 1]
  }

  /**
   * Last in, first out: after an expansion that discovered entries `lo .. hi - 1`, the
   * next index popped is the last one discovered, whatever lay below it.
   */
  lemma LastDiscoveredIsNext(rest: seq<nat>, lo: nat, hi: nat)
    requires lo < hi
    ensures Top(rest + Range(lo, hi)) == hi - 1
    ensures Pop(rest + Range(lo, hi)) == rest + Range(lo, hi - 1)
  {
    assert Range(lo, hi) == Range(lo, hi - 1) + [hi - 1];
  }

  /** A valid table whose entries include every index on the stack. */
  ghost predicate Fits<S>(task: Task<S>, table: Table<S>, stack: seq<nat>) {
    table.Valid(task.successors) && forall k :: 0 <= k < |stack| ==> stack[k] < table.Size()
  }

  /**
   * What one step does with a stack and a table, and what it reports. An empty stack is
   * Unsolvable and changes nothing. Otherwise the top index is popped; a goal-covering
   * node is solved with its trace and nothing is generated; any other node has every
   * successor not yet in the table appended to it, with the expanded index as parent,
   * and the new indices pushed on the stack in discovery order, so the last one
   * discovered is expanded next; the step is then not finished (`None`).
   */
  function Next<S>(task: Task<S>, table: Table<S>, stack: seq<nat>): (Option<SearchResult<S>>, Table<S>, seq<nat>)
    requires Fits(task, table, stack)
  {
    if stack == [] then (Some(Err(Unsolvable)), table, stack)
    else
      var index := Top(stack);
      var node := table.states[index];
      if task.Covers(node) then (Some(Ok(table.Trace(index))), table, Pop(stack))
      else
        var t := table.InsertAll(task.successors(node), index);
        (None, t, Pop(stack) + Range(table.Size(), t.Size()))
  }

  /** A step keeps the table valid and every stacked index an entry of it. */
  lemma NextFits<S>(task: Task<S>, table: Table<S>, stack: seq<nat>)
    requires Fits(task, table, stack)
    ensures var (_, t, q) := Next(task, table, stack); Fits(task, t, q)
  {
    if stack != [] && !task.Covers(table.states[Top(stack)]) {
      InsertAllValid(table, task.successors, task.successors(table.states[Top(stack)]), Top(stack));
    }
  }

  class DFS<S(==)> {
    /** The `Vec` of indices still to expand; its last element is the top. */
    var stack: seq<nat>
    /** The `parents` map. */
    var table: Table<S>
    /** Indices already taken off the stack. */
    ghost var closed: set<nat>

    ghost predicate Valid(task: Task<S>)
      reads this
    {
      Fits(task, table, stack) && Frontier(stack, closed, table.Size())
    }

    /** The table holds only the initial state, at index 0 with parent 0; the stack is `[0]`. */
    constructor (initial: S)
      ensures table == Root(initial) && stack == [0] && closed == {}
    {
      table := Root(initial);
      stack := [0];
      closed := {};
    }

    /**
     * Expands the node on top of the stack: the result, table and stack are the ones
     * `Next` gives, and the frontier bookkeeping is kept.
     */
    method Step(task: Task<S>) returns (r: Option<SearchResult<S>>)
      requires Valid(task)
      modifies this
      ensures Valid(task)
      ensures (r, table, stack) == Next(task, old(table), old(stack))
    {
      if stack == [] {
        return Some(Err(Unsolvable));
      }
      var index := stack[|stack| - 1];
      FrontierRemove(stack, closed, table.Size(), |stack| - 1);
      stack := stack[..|stack| - 1];
      closed := closed + {index};
      var node := table.states[index];
      if task.Covers(node) {
        return Some(Ok(table.Trace(index)));
      }
      var successors := task.successors(node);
      ghost var t0, q0 := table, stack;
      Insert(successors, index);
      InsertAllValid(t0, task.successors, successors, index);
      FrontierExtend(q0, closed, t0.Size(), table.Size());
      return None;
    }

    /**
     * The successor loop of `Step`: each successor not yet in the table is inserted with
     * parent `index` and its new index pushed on the stack.
     */
    method Insert(successors: seq<S>, index: nat)
      requires |table.states| == |table.parents|
      modifies this`table, this`stack
      ensures table == old(table).InsertAll(successors, index)
      ensures stack == old(stack) + Range(old(table).Size(), table.Size())
    {
      ghost var t0, q0 := table, stack;
      for k := 0 to |successors|
        invariant table == t0.InsertAll(successors[..k], index)
        invariant stack == q0 + Range(t0.Size(), table.Size())
      {
        var successor := successors[k];
        InsertAllStep(t0, successors, k, index);
        if successor in table.states {
          continue;
        }
        var n := table.Size();
        RangePush(q0, t0.Size(), n);
        table := table.Push(successor, index);
        stack := stack + [n];
      }
      assert successors[..|successors|] == successors;
    }
  }
}
