/**
 * The interface of the planning library the core runs on (pddllib): ground facts,
 * lifted action atoms, and a task. The library's own state representation, its
 * successor generator and its fact query are not part of this model; a task carries
 * them as functions over an abstract state type `S`.
 */
module Planning {

  /** A ground fact: a predicate index applied to object indices. */
  datatype Fact = Fact(pred: nat, args: seq<nat>)

  /** A goal or precondition literal: a fact and the truth value it must have. */
  type Literal = (Fact, bool)

  /** An argument of a lifted atom: a parameter position of its action, or an object. */
  datatype Argument = Index(param: nat) | Const(object: nat)

  datatype Atom = Atom(pred: nat, args: seq<Argument>, value: bool)

  datatype Parameter = Parameter(typeIndex: nat)

  datatype Action = Action(parameters: seq<Parameter>, precondition: seq<Atom>, effect: seq<Atom>)

  /**
   * A grounded task. `hasFact` is the library's fact query on a state and
   * `successors` its successor generator (every state one applicable action away).
   */
  datatype Task<!S> = Task(
    goal: seq<Literal>,
    actions: seq<Action>,
    staticPredicates: set<nat>,
    objectsTyped: seq<seq<nat>>,
    init: S,
    hasFact: (S, Fact) -> bool,
    successors: S -> seq<S>)
  {
    /** The state gives the literal's fact the literal's truth value. */
    predicate Holds(s: S, literal: Literal) {
      hasFact(s, literal.0) == literal.1
    }

    /** `State::covers`: every goal literal holds. */
    predicate Covers(s: S) {
      forall k :: 0 <= k < |goal| ==> Holds(s, goal[k])
    }
  }

  /**
   * A plan for `task`: a state sequence from the initial state, each state a successor
   * of the one before it, ending in a state that covers the goal.
   */
  ghost predicate IsPlan<S>(task: Task<S>, plan: seq<S>) {
    && |plan| >= 1
    && plan[0] == task.init
    && (forall k :: 0 <= k < |plan| - 1 ==> plan[k + 1] in task.successors(plan[k]))
    && task.Covers(plan[|plan| - 1])
  }

  /**
   * The number of literals of `goal` whose fact does not have the required truth value
   * in `s` (the filter/count shared by the GoalCount and Add heuristics).
   */
  function Unmet<S>(task: Task<S>, goal: seq<Literal>, s: S): (r: nat)
    ensures r <= |goal|
    ensures r == 0 <==> forall k :: 0 <= k < |goal| ==> task.Holds(s, goal[k])
  {
    if goal == [] then 0
    else Unmet(task, goal[..|goal| - 1], s) + (if task.Holds(s, goal[|goal| - 1]) then 0 else 1)
  }

  /** The positions of the unmet literals, the reference definition `Unmet` is checked against. */
  function UnmetPositions<S>(task: Task<S>, goal: seq<Literal>, s: S): set<nat> {
    set k | 0 <= k < |goal| && !task.Holds(s, goal[k])
  }

  /** The count is the number of unmet positions. */
  lemma {:induction false} UnmetIsCardinality<S>(task: Task<S>, goal: seq<Literal>, s: S)
    ensures Unmet(task, goal, s) == |UnmetPositions(task, goal, s)|
  {
    if goal != [] {
      var n := |goal| - 1;
      var prefix := goal[..n];
      UnmetIsCardinality(task, prefix, s);
      var before := UnmetPositions(task, prefix, s);
      var after := UnmetPositions(task, goal, s);
      assert n !in before;
      if task.Holds(s, goal[n]) {
        assert after == before;
      } else {
        assert after == before + {n};
      }
    }
  }

  /** With the task's own goal, the count is zero exactly on covering states. */
  lemma UnmetZeroIffCovers<S>(task: Task<S>, s: S)
    ensures Unmet(task, task.goal, s) == 0 <==> task.Covers(s)
  {
  }
}
