/**
 * The GoalCount heuristic: the number of goal literals the state does not satisfy,
 * with two counters the heuristic keeps for its log lines.
 */
module GoalCountHeuristic {
  import opened Planning

  /** `usize::MAX` on a 64-bit target. */
  const USIZE_MAX: nat := 0xFFFF_FFFF_FFFF_FFFF

  class GoalCount {
    /** The smallest estimate returned so far (a "new best" line is logged when it drops). */
    var bestEstimate: nat
    /** How many estimates have been computed. */
    var estimates: nat

    /** `GoalCount::new`: no best yet, so the best starts at `usize::MAX`. */
    constructor New()
      ensures bestEstimate == USIZE_MAX && estimates == 0
    {
      bestEstimate := USIZE_MAX;
      estimates := 0;
    }

    /** The derived `Default`: both counters start at 0, so the best can never drop. */
    constructor Default()
      ensures bestEstimate == 0 && estimates == 0
    {
      bestEstimate := 0;
      estimates := 0;
    }

    /**
     * Counts the goal literals whose fact does not have the required truth value in
     * `s`; the state's fact query is the task's `hasFact`. The best estimate becomes the
     * smaller of itself and the result, and the estimate count grows by one.
     */
    method Estimate<S>(s: S, goal: seq<Literal>, task: Task<S>) returns (r: nat)
      modifies this
      ensures r == |set k | 0 <= k < |goal| && !task.Holds(s, goal[k])|
      ensures r <= |goal| && (r == 0 <==> forall k :: 0 <= k < |goal| ==> task.Holds(s, goal[k]))
      ensures bestEstimate == if r < old(bestEstimate) then r else old(bestEstimate)
      ensures bestEstimate <= old(bestEstimate) && bestEstimate <= r
      ensures estimates == old(estimates) + 1
    {
      r := Unmet(task, goal, s);
      UnmetIsCardinality(task, goal, s);
      if r < bestEstimate {
        bestEstimate := r;
      }
      estimates := estimates + 1;
    }
  }
}

/** The gripper fixtures: four balls to carry from room A to room B. */
module Gripper {
  import opened Planning

  /** Predicate indices in declaration order. */
  const AT: nat := 4
  /** Objects in declaration order. */
  const ROOM_A: nat := 0
  const ROOM_B: nat := 1
  const BALLS: seq<nat> := [2, 3, 4, 5]

  function At(ball: nat, room: nat): Fact {
    Fact(AT, [ball, room])
  }

  /** A state is its set of true facts; only the goal matters for the counts here. */
  function Task(init: set<Fact>): Task<set<Fact>> {
    Planning.Task(
      [(At(2, ROOM_B), true), (At(3, ROOM_B), true), (At(4, ROOM_B), true), (At(5, ROOM_B), true)],
      [], {}, [], init,
      (s: set<Fact>, f: Fact) => f in s,
      (s: set<Fact>) => [])
  }

  /** The facts every fixture shares: rooms, balls, grippers, the robot in room A, both hands free. */
  function Common(): set<Fact> {
    {Fact(0, [0]), Fact(0, [1]), Fact(1, [2]), Fact(1, [3]), Fact(1, [4]), Fact(1, [5]),
     Fact(2, [6]), Fact(2, [7]), Fact(3, [0]), Fact(5, [6]), Fact(5, [7])}
  }

  function Unsolved(): set<Fact> {
    Common() + {At(2, ROOM_A), At(3, ROOM_A), At(4, ROOM_A), At(5, ROOM_A)}
  }

  function HalfSolved(): set<Fact> {
    Common() + {At(2, ROOM_A), At(3, ROOM_A), At(4, ROOM_B), At(5, ROOM_B)}
  }

  function Solved(): set<Fact> {
    Common() + {At(2, ROOM_B), At(3, ROOM_B), At(4, ROOM_B), At(5, ROOM_B)}
  }

  /** A ball is in at most one room in every fixture state. */
  lemma AtFacts(b: nat)
    requires b in BALLS
    ensures (At(b, ROOM_B) in Unsolved()) == false
    ensures (At(b, ROOM_B) in HalfSolved()) == (b == 4 || b == 5)
    ensures (At(b, ROOM_B) in Solved()) == true
  {
    assert At(b, ROOM_B).args[1] == ROOM_B;
    assert At(b, ROOM_B) !in Common();
    assert forall c :: At(c, ROOM_A) != At(b, ROOM_B) by {
      forall c ensures At(c, ROOM_A).args[1] != At(b, ROOM_B).args[1] {}
    }
    assert forall c :: At(c, ROOM_B) == At(b, ROOM_B) ==> c == b by {
      forall c | At(c, ROOM_B) == At(b, ROOM_B) ensures c == b {
        assert At(c, ROOM_B).args[0] == c;
      }
    }
  }

  /** 1 when the literal is unmet in `s`, else 0. */
  function Miss<S>(task: Task<S>, s: S, literal: Literal): nat {
    if task.Holds(s, literal) then 0 else 1
  }

  /** A four-literal goal's count is the sum of its literals' misses. */
  lemma UnmetOfFour<S>(task: Task<S>, goal: seq<Literal>, s: S)
    requires |goal| == 4
    ensures Unmet(task, goal, s) == Miss(task, s, goal[0]) + Miss(task, s, goal[1]) + Miss(task, s, goal[2]) + Miss(task, s, goal[3])
  {
    assert goal[..3][..2] == goal[..2];
    assert goal[..2][..1] == goal[..1];
    assert goal[..1][..0] == [];
    assert Unmet(task, goal[..1], s) == Miss(task, s, goal[0]);
    assert Unmet(task, goal[..2], s) == Unmet(task, goal[..1], s) + Miss(task, s, goal[1]);
    assert Unmet(task, goal[..3], s) == Unmet(task, goal[..2], s) + Miss(task, s, goal[2]);
  }

  /** The unsolved fixture: all four balls are in room A, so all four goals are unmet. */
  lemma UnsolvedCount()
    ensures Unmet(Task(Unsolved()), Task(Unsolved()).goal, Unsolved()) == 4
  {
    AtFacts(2);
    AtFacts(3);
    AtFacts(4);
    AtFacts(5);
    UnmetOfFour(Task(Unsolved()), Task(Unsolved()).goal, Unsolved());
  }

  /** The half-solved fixture: balls 3 and 4 are already in room B, so two goals are unmet. */
  lemma HalfSolvedCount()
    ensures Unmet(Task(HalfSolved()), Task(HalfSolved()).goal, HalfSolved()) == 2
  {
    AtFacts(2);
    AtFacts(3);
    AtFacts(4);
    AtFacts(5);
    UnmetOfFour(Task(HalfSolved()), Task(HalfSolved()).goal, HalfSolved());
  }

  /** The solved fixture: every ball is in room B, so no goal is unmet. */
  lemma SolvedCount()
    ensures Unmet(Task(Solved()), Task(Solved()).goal, Solved()) == 0
  {
    AtFacts(2);
    AtFacts(3);
    AtFacts(4);
    AtFacts(5);
    UnmetOfFour(Task(Solved()), Task(Solved()).goal, Solved());
  }
}
