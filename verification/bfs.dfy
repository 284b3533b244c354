/** Breadth-first search: a FIFO queue of table indices over the deduplicated state table. */
module Bfs {
  import opened Prelude
  import opened Planning
  import opened SearchErrors
  import opened StateTable

  /** A valid table whose entries include every index on the queue. */
  ghost predicate Fits<S>(task: Task<S>, table: Table<S>, queue: seq<nat>) {
    table.Valid(task.successors) && forall k :: 0 <= k < |queue| ==> queue[k] < table.Size()
  }

  /**
   * What one step does with a queue and a table, and what it reports. An empty queue is
   * Unsolvable and changes nothing. Otherwise the front index is taken off; a
   * goal-covering node is solved with its trace and nothing is generated; any other
   * node has every successor not yet in the table appended to it, with the expanded
   * index as parent, and the new indices pushed at the back of the queue in discovery
   * order; the step is then not finished (`None`).
   */
  function Next<S>(task: Task<S>, table: Table<S>, queue: seq<nat>): (Option<SearchResult<S>>, Table<S>, seq<nat>)
    requires Fits(task, table, queue)
  {
    if queue == [] then (Some(Err(Unsolvable)), table, queue)
    else
      var index := queue[0];
      var node := table.states[index];
      if task.Covers(node) then (Some(Ok(table.Trace(index))), table, queue[1..])
      else
        var t := table.InsertAll(task.successors(node), index);
        (None, t, queue[1..] + Range(table.Size(), t.Size()))
  }

  /** A step keeps the table valid and every queued index an entry of it. */
  lemma NextFits<S>(task: Task<S>, table: Table<S>, queue: seq<nat>)
    requires Fits(task, table, queue)
    ensures var (_, t, q) := Next(task, table, queue); Fits(task, t, q)
  {
    if queue != [] && !task.Covers(table.states[queue[0]]) {
      InsertAllValid(table, task.successors, task.successors(table.states[queue[0]]), queue[0]);
    }
  }

  class BFS<S(==)> {
    /** The `VecDeque` of indices still to expand, front first. */
    var queue: seq<nat>
    /** The `parents` map. */
    var table: Table<S>
    /** Indices already taken off the queue. */
    ghost var closed: set<nat>

    ghost predicate Valid(task: Task<S>)
      reads this
    {
      Fits(task, table, queue) && Frontier(queue, closed, table.Size())
    }

    /** The table holds only the initial state, at index 0 with parent 0; the queue is `[0]`. */
    constructor (initial: S)
      ensures table == Root(initial) && queue == [0] && closed == {}
    {
      table := Root(initial);
      queue := [0];
      closed := {};
    }

    /**
     * Expands the node at the front of the queue: the result, table and queue are the
     * ones `Next` gives, and the frontier bookkeeping is kept.
     */
    method Step(task: Task<S>) returns (r: Option<SearchResult<S>>)
      requires Valid(task)
      modifies this
      ensures Valid(task)
      ensures (r, table, queue) == Next(task, old(table), old(queue))
    {
      if queue == [] {
        return Some(Err(Unsolvable));
      }
      var index := queue[0];
      FrontierRemove(queue, closed, table.Size(), 0);
      queue := queue[1..];
      closed := closed + {index};
      var node := table.states[index];
      if task.Covers(node) {
        return Some(Ok(table.Trace(index)));
      }
      var successors := task.successors(node);
      ghost var t0, q0 := table, queue;
      Insert(successors, index);
      InsertAllValid(t0, task.successors, successors, index);
      FrontierExtend(q0, closed, t0.Size(), table.Size());
      return None;
    }

    /**
     * The successor loop of `Step`: each successor not yet in the table is inserted with
     * parent `index` and its new index pushed at the back of the queue.
     */
    method Insert(successors: seq<S>, index: nat)
      requires |table.states| == |table.parents|
      modifies this`table, this`queue
      ensures table == old(table).InsertAll(successors, index)
      ensures queue == old(queue) + Range(old(table).Size(), table.Size())
    {
      ghost var t0, q0 := table, queue;
      for k := 0 to |successors|
        invariant table == t0.InsertAll(successors[..k], index)
        invariant queue == q0 + Range(t0.Size(), table.Size())
      {
        var successor := successors[k];
        InsertAllStep(t0, successors, k, index);
        if successor in table.states {
          continue;
        }
        var n := table.Size();
        RangePush(q0, t0.Size(), n);
        table := table.Push(successor, index);
        queue := queue + [n];
      }
      assert successors[..|successors|] == successors;
    }
  }
}
