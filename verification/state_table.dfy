/**
 * The deduplicated state table every strategy keeps (`FxIndexMap<State, usize>`):
 * an insertion-ordered map from a state to the index of the state it was first
 * generated from. Position in `states` is the map's entry index; `parents` holds
 * the mapped value. Hashing is not modelled: state equality stands for it.
 */
module StateTable {
  import opened Prelude
  import opened Planning

  datatype Table<S(==)> = Table(states: seq<S>, parents: seq<nat>) {

    function Size(): nat {
      |states|
    }

    /** Entry 0 is the root, stored as its own parent; every other parent comes earlier. */
    ghost predicate Linked() {
      && |states| == |parents|
      && |states| >= 1
      && parents[0] == 0
      && forall i :: 0 < i < |parents| ==> parents[i] < i
    }

    /** No state is stored twice (first discoverer wins). */
    ghost predicate Distinct() {
      forall i, j :: 0 <= i < j < |states| ==> states[i] != states[j]
    }

    /** Every non-root entry is a successor of its parent's state. */
    ghost predicate Generated(successors: S -> seq<S>)
      requires Linked()
    {
      forall i :: 0 < i < |parents| ==> states[i] in successors(states[parents[i]])
    }

    ghost predicate Valid(successors: S -> seq<S>) {
      Linked() && Distinct() && Generated(successors)
    }

    /** A vacant entry filled in: the new state gets the next index. */
    function Push(s: S, parent: nat): Table<S> {
      Table(states + [s], parents + [parent])
    }

    /**
     * The table after offering every state of `succs`, in order, with parent `parent`:
     * a state already present is skipped, any other is appended.
     */
    function InsertAll(succs: seq<S>, parent: nat): (t: Table<S>)
      requires |states| == |parents|
      ensures |t.states| == |t.parents|
      ensures states <= t.states && parents <= t.parents
      ensures forall j :: |states| <= j < |t.states| ==>
                t.parents[j] == parent && t.states[j] in succs && t.states[j] !in states
      ensures forall x :: x in succs ==> x in t.states
      ensures (forall x :: x in succs ==> x in states) ==> t == this
    {
      if succs == [] then this
      else
        var t := InsertAll(succs[..|succs| - 1], parent);
        var x := succs[|succs| - 1];
        if x in t.states then t else t.Push(x, parent)
    }

    /**
     * The plan to entry `i`: the states met walking parent links from `i` back to the
     * root, in root-to-`i` order.
     */
    function Trace(i: nat): (plan: seq<S>)
      requires Linked() && i < |states|
      ensures 1 <= |plan| <= i + 1
      ensures plan[0] == states[0] && plan[|plan| - 1] == states[i]
      decreases i
    {
      if i == 0 then [states[0]] else Trace(parents[i]) + [states[i]]
    }
  }

  /** The table a search starts from: the initial state at index 0, its own parent. */
  function Root<S(==)>(initial: S): (t: Table<S>)
    ensures t.Size() == 1 && t.states[0] == initial && t.Linked()
  {
    Table([initial], [0])
  }

  /** The root table is valid whatever the successor relation. */
  lemma RootValid<S>(initial: S, successors: S -> seq<S>)
    ensures Root(initial).Valid(successors)
  {
  }

  /** Inserting the successors of a stored state keeps the table valid. */
  lemma {:induction false} InsertAllValid<S>(t: Table<S>, successors: S -> seq<S>, succs: seq<S>, parent: nat)
    requires t.Valid(successors) && parent < t.Size()
    requires forall x :: x in succs ==> x in successors(t.states[parent])
    ensures t.InsertAll(succs, parent).Valid(successors)
  {
    if succs != [] {
      var prefix := succs[..|succs| - 1];
      InsertAllValid(t, successors, prefix, parent);
      var u := t.InsertAll(prefix, parent);
      var x := succs[|succs| - 1];
      if x !in u.states {
        var v := u.Push(x, parent);
        assert v.states[parent] == t.states[parent];
        forall i | 0 < i < |v.parents|
          ensures v.states[i] in successors(v.states[v.parents[i]])
        {
          if i < |u.parents| {
            assert v.states[i] == u.states[i] && v.parents[i] == u.parents[i];
            assert v.states[v.parents[i]] == u.states[u.parents[i]];
          }
        }
      }
    }
  }

  /** A traced plan is a path: each state is a successor of the one before it. */
  lemma {:induction false} TraceIsPath<S>(t: Table<S>, successors: S -> seq<S>, i: nat)
    requires t.Valid(successors) && i < t.Size()
    ensures forall k :: 0 <= k < |t.Trace(i)| - 1 ==> t.Trace(i)[k + 1] in successors(t.Trace(i)[k])
    decreases i
  {
    if i > 0 {
      var p := t.parents[i];
      TraceIsPath(t, successors, p);
      var head := t.Trace(p);
      assert t.Trace(i) == head + [t.states[i]];
      assert head[|head| - 1] == t.states[p];
    }
  }

  /** Offering one more successor: the table grows by it exactly when it is not there yet. */
  lemma InsertAllStep<S>(t: Table<S>, succs: seq<S>, k: nat, parent: nat)
    requires |t.states| == |t.parents| && k < |succs|
    ensures var u := t.InsertAll(succs[..k], parent);
            t.InsertAll(succs[..k + 1], parent) == if succs[k] in u.states then u else u.Push(succs[k], parent)
  {
    assert succs[..k + 1][..k] == succs[..k];
  }

  /** The trace to a goal-covering entry of a table rooted at the initial state is a plan. */
  lemma SolvedTraceIsPlan<S>(t: Table<S>, task: Task<S>, i: nat)
    requires t.Valid(task.successors) && i < t.Size()
    requires t.states[0] == task.init && task.Covers(t.states[i])
    ensures IsPlan(task, t.Trace(i))
  {
    TraceIsPath(t, task.successors, i);
  }

  /**
   * Frontier bookkeeping for `n` discovered entries: every index on the frontier is
   * discovered, none is on it twice, and each discovered index is either still on the
   * frontier or already taken off it (`closed`), never both.
   */
  ghost predicate Frontier(frontier: seq<nat>, closed: set<nat>, n: nat) {
    && (forall k :: 0 <= k < |frontier| ==> frontier[k] < n)
    && (forall k, l :: 0 <= k < l < |frontier| ==> frontier[k] != frontier[l])
    && (forall i :: i in closed ==> i < n)
    && (forall i :: 0 <= i < n ==> (i in closed <==> i !in frontier))
  }

  /** Taking any entry off the frontier moves its index to the closed set. */
  lemma FrontierRemove(frontier: seq<nat>, closed: set<nat>, n: nat, k: nat)
    requires Frontier(frontier, closed, n) && k < |frontier|
    ensures Frontier(Remove(frontier, k), closed + {frontier[k]}, n)
  {
    var r := Remove(frontier, k);
    forall i | 0 <= i < n
      ensures i in closed + {frontier[k]} <==> i !in r
    {
      if i in r {
        var j :| 0 <= j < |r| && r[j] == i;
        if j < k { assert frontier[j] == i; } else { assert frontier[j + 1] == i; }
      }
    }
  }

  /** Appending the indices of freshly discovered entries keeps the bookkeeping. */
  lemma FrontierExtend(frontier: seq<nat>, closed: set<nat>, n: nat, m: nat)
    requires Frontier(frontier, closed, n) && n <= m
    ensures Frontier(frontier + Range(n, m), closed, m)
  {
    var f := frontier + Range(n, m);
    forall i | 0 <= i < m
      ensures i in closed <==> i !in f
    {
      if n <= i {
        assert f[|frontier| + (i - n)] == i;
      }
    }
  }
}
