/**
 * The heuristic dispatch: the closed set of heuristic kinds a search can be given and
 * the factory that builds one. GoalGraph is not one of the kinds.
 */
module Heuristics {
  import opened Prelude
  import opened Planning
  import C = ConstantHeuristic
  import G = GoalCountHeuristic
  import A = AddHeuristic

  datatype HeuristicKind = Constant(value: nat) | GoalCount | Add

  /** The `Constant` kind as parsed from the command line: the value defaults to 0. */
  function ConstantKind(value: Option<nat>): (kind: HeuristicKind)
    ensures kind.Constant?
    ensures value.None? ==> kind.value == 0
    ensures value.Some? ==> kind.value == value.value
  {
    match value
    case None => Constant(0)
    case Some(v) => Constant(v)
  }

  /** A built heuristic (`Box<dyn Heuristic>`): one of the three implementations. */
  datatype Heuristic =
    | ConstantHeuristic(constant: C.Constant)
    | GoalCountHeuristic(goalCount: G.GoalCount)
    | AddHeuristic(add: A.Add)

  /**
   * The value a heuristic gives through the `Heuristic` trait. The GoalCount counters are
   * only updated by `GoalCount.Estimate`, which this function does not run; see the
   * heuristics' own modules for the counters.
   */
  function Estimate<S>(h: Heuristic, task: Task<S>, s: S): nat {
    match h
    case ConstantHeuristic(c) => c.Estimate(task, s)
    case GoalCountHeuristic(_) => Unmet(task, task.goal, s)
    case AddHeuristic(a) => a.Estimate(task, s)
  }

  /** What each kind promises: the constant, or the number of unmet goal literals. */
  function Expected<S>(kind: HeuristicKind, task: Task<S>, s: S): (r: nat)
    ensures kind.Constant? ==> r == kind.value
    ensures !kind.Constant? ==> r == |UnmetPositions(task, task.goal, s)|
  {
    UnmetIsCardinality(task, task.goal, s);
    match kind
    case Constant(v) => v
    case GoalCount => Unmet(task, task.goal, s)
    case Add => Unmet(task, task.goal, s)
  }

  /**
   * `heuristic::generate`: Constant keeps its value, GoalCount is built with `Default`
   * (both counters 0) and Add with `Add::new`; the task is not consulted.
   */
  method Generate<S>(task: Task<S>, kind: HeuristicKind) returns (h: Heuristic)
    ensures kind.Constant? ==> h == ConstantHeuristic(C.Constant(kind.value))
    ensures kind.GoalCount? ==>
              && h.GoalCountHeuristic? && fresh(h.goalCount)
              && h.goalCount.bestEstimate == 0 && h.goalCount.estimates == 0
    ensures kind.Add? ==> h == AddHeuristic(A.Add)
    ensures forall s :: Estimate(h, task, s) == Expected(kind, task, s)
  {
    if kind.Constant? {
      h := ConstantHeuristic(C.Constant(kind.value));
    } else if kind.GoalCount? {
      var g := new G.GoalCount.Default();
      h := GoalCountHeuristic(g);
    } else {
      h := AddHeuristic(A.Add);
    }
  }

  /** A built heuristic's value depends only on its kind, the task's goal and the state. */
  lemma EstimateDependsOnGoalOnly<S>(h: Heuristic, task: Task<S>, task': Task<S>, s: S)
    requires task.goal == task'.goal && task.hasFact == task'.hasFact
    ensures Estimate(h, task, s) == Estimate(h, task', s)
  {
    if !h.ConstantHeuristic? {
      UnmetIsCardinality(task, task.goal, s);
      UnmetIsCardinality(task', task'.goal, s);
      assert UnmetPositions(task, task.goal, s) == UnmetPositions(task', task'.goal, s);
    }
  }
}
