/**
 * The Add heuristic as this code base has it: a count of the unmet goal literals,
 * not an additive delete-relaxation estimate.
 */
module AddHeuristic {
  import opened Planning

  /** An empty struct: it holds no state. */
  datatype Add = Add {
    function Estimate<S>(task: Task<S>, s: S): (r: nat)
      ensures r <= |task.goal|
      ensures r == 0 <==> task.Covers(s)
    {
      Unmet(task, task.goal, s)
    }
  }

  /** The estimate is the number of goal literals whose fact has the wrong truth value in `s`. */
  lemma EstimateCountsUnmetGoals<S>(a: Add, task: Task<S>, s: S)
    ensures a.Estimate(task, s) == |set k | 0 <= k < |task.goal| && !task.Holds(s, task.goal[k])|
  {
    UnmetIsCardinality(task, task.goal, s);
  }
}
