/** The Constant heuristic: a stored value, whatever the task and state. */
module ConstantHeuristic {
  import opened Planning

  /** `Constant::new(value)` is the constructor `Constant(value)`: it stores `value`. */
  datatype Constant = Constant(value: nat) {
    function Estimate<S>(task: Task<S>, s: S): (r: nat)
      ensures r == value
    {
      value
    }
  }

  /** The estimate depends on neither the task nor the state. */
  lemma EstimateIgnoresTaskAndState<S>(c: Constant, task: Task<S>, s: S, task': Task<S>, s': S)
    ensures c.Estimate(task, s) == c.Estimate(task', s')
  {
  }
}
