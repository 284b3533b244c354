/**
 * The GoalGraph heuristic: one backward-chaining tree per goal literal. A node's
 * children are the non-static preconditions, grounded over the objects of their types,
 * of the actions that can achieve its literal; the node's weight is split evenly among
 * them while there is enough of it. A state is estimated by walking the trees: a node
 * whose literal holds contributes nothing, an unmet leaf contributes its weight, and an
 * unmet inner node is replaced by its children.
 */
module GoalGraphHeuristic {
  import opened Prelude
  import opened Planning

  datatype Node = Node(fact: Literal, weight: nat, children: seq<Node>)

  datatype GoalGraph = GoalGraph(goals: seq<Node>)

  /** Every parameter index an atom mentions names a parameter of its action. */
  ghost predicate ParamsInRange(args: seq<Argument>, parameters: nat) {
    forall i :: 0 <= i < |args| && args[i].Index? ==> args[i].param < parameters
  }

  /** The action's parameter types exist and its preconditions only mention its parameters. */
  ghost predicate ActionFits(action: Action, types: nat) {
    && (forall p :: 0 <= p < |action.parameters| ==> action.parameters[p].typeIndex < types)
    && (forall k :: 0 <= k < |action.precondition| ==> ParamsInRange(action.precondition[k].args, |action.parameters|))
  }

  /** What a translated task guarantees and the lookups below rely on. */
  ghost predicate WellFormed<S>(task: Task<S>) {
    forall a :: 0 <= a < |task.actions| ==> ActionFits(task.actions[a], |task.objectsTyped|)
  }

  /** An effect atom that can achieve the literal: same predicate, same truth value. */
  predicate Achieves(atom: Atom, literal: Literal) {
    atom.pred == literal.0.pred && atom.value == literal.1
  }

  /** `Iterator::find` over an action's effect: the position of the first achieving atom. */
  function FindEffect(effect: seq<Atom>, literal: Literal): (r: Option<nat>)
    ensures r.Some? ==> r.value < |effect| && Achieves(effect[r.value], literal)
    ensures r.Some? ==> forall j :: 0 <= j < r.value ==> !Achieves(effect[j], literal)
    ensures r.None? ==> forall j :: 0 <= j < |effect| ==> !Achieves(effect[j], literal)
  {
    if effect == [] then None
    else if Achieves(effect[0], literal) then Some(0)
    else
      match FindEffect(effect[1..], literal)
      case None => None
      case Some(k) => Some(k + 1)
  }

  /**
   * The binding of action parameters the effect atom's arguments fix: a parameter at
   * position `i` is bound to the fact's `i`-th object, a later position overriding an
   * earlier one. Positions past the end of the fact's objects bind nothing.
   */
  function Fixed(args: seq<Argument>, objects: seq<nat>): map<nat, nat> {
    if args == [] then map[]
    else
      var n := |args| - 1;
      var m := Fixed(args[..n], objects);
      if args[n].Index? && n < |objects| then m[args[n].param := objects[n]] else m
  }

  /** Every parameter argument within the fact's objects binds its parameter. */
  lemma {:induction false} FixedBindsEveryParameter(args: seq<Argument>, objects: seq<nat>)
    ensures forall i :: 0 <= i < |args| && i < |objects| && args[i].Index? ==> args[i].param in Fixed(args, objects)
  {
    if args != [] {
      var n := |args| - 1;
      FixedBindsEveryParameter(args[..n], objects);
      forall i | 0 <= i < n && i < |objects| && args[i].Index?
        ensures args[i].param in Fixed(args, objects)
      {
        assert args[..n][i] == args[i];
      }
    }
  }

  /** Every binding comes from a parameter argument at a position within the fact's objects. */
  lemma {:induction false} FixedComesFromArguments(args: seq<Argument>, objects: seq<nat>)
    ensures forall p :: p in Fixed(args, objects) ==>
              exists i :: 0 <= i < |args| && i < |objects| && args[i] == Index(p) && Fixed(args, objects)[p] == objects[i]
  {
    if args != [] {
      var n := |args| - 1;
      FixedComesFromArguments(args[..n], objects);
      var m0 := Fixed(args[..n], objects);
      var m := Fixed(args, objects);
      forall p | p in m
        ensures exists i :: 0 <= i < |args| && i < |objects| && args[i] == Index(p) && m[p] == objects[i]
      {
        if args[n].Index? && n < |objects| && p == args[n].param {
          assert args[n] == Index(p) && m[p] == objects[n];
        } else {
          assert p in m0 && m[p] == m0[p];
          var i :| 0 <= i < |args[..n]| && i < |objects| && args[..n][i] == Index(p) && m0[p] == objects[i];
          assert args[i] == Index(p);
        }
      }
    }
  }

  /** A parameter argument that no later position repeats binds its parameter to its own position's object. */
  lemma {:induction false} FixedLastPositionWins(args: seq<Argument>, objects: seq<nat>, i: nat)
    requires i < |args| && i < |objects| && args[i].Index?
    requires forall j :: i < j < |args| && j < |objects| ==> args[j] != args[i]
    ensures args[i].param in Fixed(args, objects) && Fixed(args, objects)[args[i].param] == objects[i]
  {
    var n := |args| - 1;
    if i < n {
      assert args[..n][i] == args[i];
      forall j | i < j < |args[..n]| && j < |objects|
        ensures args[..n][j] != args[..n][i]
      {
        assert args[..n][j] == args[j];
      }
      FixedLastPositionWins(args[..n], objects, i);
    }
  }

  /** Each tuple of `tails` with each element of `heads` in front, the first head varying slowest. */
  function Prepend(heads: seq<nat>, tails: seq<seq<nat>>): seq<seq<nat>> {
    if heads == [] then []
    else seq(|tails|, j requires 0 <= j < |tails| => [heads[0]] + tails[j]) + Prepend(heads[1..], tails)
  }

  /** `multi_cartesian_product`: every tuple taking its `i`-th element from `choices[i]`, the last position varying fastest. */
  function Product(choices: seq<seq<nat>>): seq<seq<nat>> {
    if choices == [] then [[]] else Prepend(choices[0], Product(choices[1..]))
  }

  lemma {:induction false} PrependMembership(heads: seq<nat>, tails: seq<seq<nat>>, t: seq<nat>)
    ensures t in Prepend(heads, tails) <==> |t| >= 1 && t[0] in heads && t[1..] in tails
  {
    if heads != [] {
      PrependMembership(heads[1..], tails, t);
      var front := seq(|tails|, j requires 0 <= j < |tails| => [heads[0]] + tails[j]);
      assert Prepend(heads, tails) == front + Prepend(heads[1..], tails);
      if t in front {
        var j :| 0 <= j < |tails| && front[j] == t;
        assert t[1..] == tails[j];
      }
      if |t| >= 1 && t[0] == heads[0] && t[1..] in tails {
        var j :| 0 <= j < |tails| && tails[j] == t[1..];
        assert front[j] == t;
      }
    }
  }

  /** A tuple is in the product exactly when it has one element per position, each from its position's choices. */
  lemma {:induction false} ProductMembership(choices: seq<seq<nat>>, t: seq<nat>)
    ensures t in Product(choices) <==> |t| == |choices| && forall i :: 0 <= i < |t| ==> t[i] in choices[i]
  {
    if choices != [] {
      PrependMembership(choices[0], Product(choices[1..]), t);
      if |t| >= 1 {
        ProductMembership(choices[1..], t[1..]);
        if |t| == |choices| && forall i :: 0 <= i < |t| ==> t[i] in choices[i] {
          assert forall i :: 0 <= i < |t[1..]| ==> t[1..][i] == t[i + 1];
        }
      }
    }
  }

  /** The objects one argument position can take: its binding, its constant, or every object of its parameter's type. */
  function Choices<S>(task: Task<S>, parameters: seq<Parameter>, arg: Argument, fixed: map<nat, nat>): seq<nat>
    requires arg.Index? ==> arg.param < |parameters| && parameters[arg.param].typeIndex < |task.objectsTyped|
  {
    match arg
    case Index(p) => if p in fixed then [fixed[p]] else task.objectsTyped[parameters[p].typeIndex]
    case Const(o) => [o]
  }

  /** `populate_atom`: every grounding of the atom's arguments consistent with `fixed`. */
  function Populate<S>(task: Task<S>, parameters: seq<Parameter>, atom: Atom, fixed: map<nat, nat>): seq<seq<nat>>
    requires ParamsInRange(atom.args, |parameters|)
    requires forall p :: 0 <= p < |parameters| ==> parameters[p].typeIndex < |task.objectsTyped|
  {
    Product(seq(|atom.args|, i requires 0 <= i < |atom.args| => Choices(task, parameters, atom.args[i], fixed)))
  }

  /**
   * A grounding is produced exactly when it has one object per argument: the constant at
   * a constant position, the bound object at a fixed parameter, and any object of the
   * parameter's type at a free one.
   */
  lemma PopulateMembership<S>(task: Task<S>, parameters: seq<Parameter>, atom: Atom, fixed: map<nat, nat>, t: seq<nat>)
    requires ParamsInRange(atom.args, |parameters|)
    requires forall p :: 0 <= p < |parameters| ==> parameters[p].typeIndex < |task.objectsTyped|
    ensures t in Populate(task, parameters, atom, fixed) <==>
              && |t| == |atom.args|
              && forall i :: 0 <= i < |t| ==>
                   match atom.args[i]
                   case Const(o) => t[i] == o
                   case Index(p) =>
                     if p in fixed then t[i] == fixed[p] else t[i] in task.objectsTyped[parameters[p].typeIndex]
  {
    var choices := seq(|atom.args|, i requires 0 <= i < |atom.args| => Choices(task, parameters, atom.args[i], fixed));
    ProductMembership(choices, t);
  }

  /** The literals of one precondition atom's groundings, each with the atom's truth value. */
  function Ground(atom: Atom, tuples: seq<seq<nat>>): (r: seq<Literal>)
    ensures |r| == |tuples|
    ensures forall j :: 0 <= j < |r| ==> r[j] == (Fact(atom.pred, tuples[j]), atom.value)
  {
    seq(|tuples|, j requires 0 <= j < |tuples| => (Fact(atom.pred, tuples[j]), atom.value))
  }

  /** The grounded non-static preconditions among `pres`, in order. */
  function FromPreconditions<S>(task: Task<S>, parameters: seq<Parameter>, pres: seq<Atom>, fixed: map<nat, nat>): seq<Literal>
    requires forall p :: 0 <= p < |parameters| ==> parameters[p].typeIndex < |task.objectsTyped|
    requires forall k :: 0 <= k < |pres| ==> ParamsInRange(pres[k].args, |parameters|)
  {
    if pres == [] then []
    else
      var head := if pres[0].pred in task.staticPredicates then []
                  else Ground(pres[0], Populate(task, parameters, pres[0], fixed));
      head + FromPreconditions(task, parameters, pres[1..], fixed)
  }

  /** Every literal produced has a non-static predicate, and the predicate and truth value of one of the preconditions. */
  lemma {:induction false} FromPreconditionsSource<S>(task: Task<S>, parameters: seq<Parameter>, pres: seq<Atom>, fixed: map<nat, nat>)
    requires forall p :: 0 <= p < |parameters| ==> parameters[p].typeIndex < |task.objectsTyped|
    requires forall k :: 0 <= k < |pres| ==> ParamsInRange(pres[k].args, |parameters|)
    ensures forall j :: 0 <= j < |FromPreconditions(task, parameters, pres, fixed)| ==>
              && FromPreconditions(task, parameters, pres, fixed)[j].0.pred !in task.staticPredicates
              && exists k :: 0 <= k < |pres| && pres[k].pred == FromPreconditions(task, parameters, pres, fixed)[j].0.pred
                                              && pres[k].value == FromPreconditions(task, parameters, pres, fixed)[j].1
  {
    if pres != [] {
      FromPreconditionsSource(task, parameters, pres[1..], fixed);
      var head: seq<Literal> := if pres[0].pred in task.staticPredicates then []
                                else Ground(pres[0], Populate(task, parameters, pres[0], fixed));
      var tail := FromPreconditions(task, parameters, pres[1..], fixed);
      var r := FromPreconditions(task, parameters, pres, fixed);
      assert r == head + tail;
      forall j | 0 <= j < |r|
        ensures r[j].0.pred !in task.staticPredicates
        ensures exists k :: 0 <= k < |pres| && pres[k].pred == r[j].0.pred && pres[k].value == r[j].1
      {
        if j < |head| {
          assert pres[0].pred !in task.staticPredicates;
          assert r[j] == head[j] == (Fact(pres[0].pred, Populate(task, parameters, pres[0], fixed)[j]), pres[0].value);
        } else {
          var t := j - |head|;
          assert r[j] == tail[t];
          assert tail[t].0.pred !in task.staticPredicates;
          var k :| 0 <= k < |pres[1..]| && pres[1..][k].pred == tail[t].0.pred && pres[1..][k].value == tail[t].1;
          assert pres[k + 1] == pres[1..][k];
        }
      }
    }
  }

  /** `extract_facts`: the literals the action needs before it can achieve `fact` through `atom`. */
  function ExtractFacts<S>(task: Task<S>, fact: Fact, action: Action, atom: Atom): seq<Literal>
    requires ActionFits(action, |task.objectsTyped|)
  {
    FromPreconditions(task, action.parameters, action.precondition, Fixed(atom.args, fact.args))
  }

  /** The candidate literals one action contributes: those of its first achieving effect only, if any. */
  function Contribution<S>(task: Task<S>, literal: Literal, action: Action): seq<Literal>
    requires ActionFits(action, |task.objectsTyped|)
  {
    match FindEffect(action.effect, literal)
    case None => []
    case Some(k) => ExtractFacts(task, literal.0, action, action.effect[k])
  }

  /** No literal an action contributes has a static predicate. */
  lemma ContributionNonStatic<S>(task: Task<S>, literal: Literal, action: Action)
    requires ActionFits(action, |task.objectsTyped|)
    ensures forall j :: 0 <= j < |Contribution(task, literal, action)| ==>
              Contribution(task, literal, action)[j].0.pred !in task.staticPredicates
  {
    var found := FindEffect(action.effect, literal);
    if found.Some? {
      FromPreconditionsSource(task, action.parameters, action.precondition, Fixed(action.effect[found.value].args, literal.0.args));
    }
  }

  /** The candidate literals contributed by actions `a ..`, action by action. */
  function CandidatesFrom<S>(task: Task<S>, literal: Literal, a: nat): seq<Literal>
    requires WellFormed(task)
    decreases |task.actions| - a
  {
    if a >= |task.actions| then []
    else Contribution(task, literal, task.actions[a]) + CandidatesFrom(task, literal, a + 1)
  }

  /** No candidate literal has a static predicate. */
  lemma {:induction false} CandidatesNonStatic<S>(task: Task<S>, literal: Literal, a: nat)
    requires WellFormed(task)
    ensures forall j :: 0 <= j < |CandidatesFrom(task, literal, a)| ==>
              CandidatesFrom(task, literal, a)[j].0.pred !in task.staticPredicates
    decreases |task.actions| - a
  {
    if a < |task.actions| {
      assert ActionFits(task.actions[a], |task.objectsTyped|);
      var own: seq<Literal> := Contribution(task, literal, task.actions[a]);
      var rest: seq<Literal> := CandidatesFrom(task, literal, a + 1);
      ContributionNonStatic(task, literal, task.actions[a]);
      CandidatesNonStatic(task, literal, a + 1);
      assert CandidatesFrom(task, literal, a) == own + rest;
      forall j | 0 <= j < |own + rest|
        ensures (own + rest)[j].0.pred !in task.staticPredicates
      {
        if j >= |own| {
          assert (own + rest)[j] == rest[j - |own|];
        } else {
          assert (own + rest)[j] == own[j];
        }
      }
    }
  }

  /** The literals a node for `literal` gets as children (the `facts` of `generate`). */
  function Candidates<S>(task: Task<S>, literal: Literal): seq<Literal>
    requires WellFormed(task)
  {
    CandidatesFrom(task, literal, 0)
  }

  /** An action without an effect achieving the literal contributes no candidate. */
  lemma NonAchievingActionContributesNothing<S>(task: Task<S>, literal: Literal, a: nat)
    requires WellFormed(task) && a < |task.actions|
    requires forall j :: 0 <= j < |task.actions[a].effect| ==> !Achieves(task.actions[a].effect[j], literal)
    ensures CandidatesFrom(task, literal, a) == CandidatesFrom(task, literal, a + 1)
  {
  }

  /** A candidate function: the literals a node for a literal gets as children. */
  type CandidateFn = Literal --> seq<Literal>

  /** `c` is defined on every literal. */
  ghost predicate Total(c: CandidateFn) {
    forall l :: c.requires(l)
  }

  /** The candidate function of a well-formed task. */
  function CandidatesOf<S>(task: Task<S>): (c: CandidateFn)
    ensures WellFormed(task) ==> Total(c) && forall l :: c(l) == Candidates(task, l)
  {
    l requires WellFormed(task) => Candidates(task, l)
  }

  /**
   * `generate`, with at most `fuel` levels of nesting (`None` when that is not enough),
   * for the candidate function `c`; `New` passes the task's own, `CandidatesOf(task)`.
   * The node keeps the literal and weight it was made with; it has children exactly when
   * there is at least one candidate and no more candidates than weight, one child per
   * candidate, in order, each with the weight divided evenly (rounding down).
   */
  function Generate(c: CandidateFn, literal: Literal, weight: nat, fuel: nat): (r: Option<Node>)
    requires Total(c)
    ensures r.Some? ==> r.value.fact == literal && r.value.weight == weight
    ensures r.Some? ==>
              var facts := c(literal);
              if 0 < |facts| <= weight then
                && |r.value.children| == |facts|
                && forall i :: 0 <= i < |facts| ==>
                     r.value.children[i].fact == facts[i] && r.value.children[i].weight == weight / |facts|
              else r.value.children == []
    decreases fuel, 0
  {
    if fuel == 0 then None
    else
      var facts := c(literal);
      if weight >= |facts| && facts != [] then
        match GenerateAll(c, facts, weight / |facts|, fuel - 1)
        case None => None
        case Some(children) => Some(Node(literal, weight, children))
      else Some(Node(literal, weight, []))
  }

  /** One node per literal, in order, each made by `Generate` with the same weight and fuel. */
  function GenerateAll(c: CandidateFn, literals: seq<Literal>, weight: nat, fuel: nat): (r: Option<seq<Node>>)
    requires Total(c)
    ensures r.Some? ==>
              && |r.value| == |literals|
              && forall i :: 0 <= i < |literals| ==> r.value[i].fact == literals[i] && r.value[i].weight == weight
    decreases fuel, 1, |literals|
  {
    if literals == [] then Some([])
    else
      match Generate(c, literals[0], weight, fuel)
      case None => None
      case Some(node) =>
        match GenerateAll(c, literals[1..], weight, fuel)
        case None => None
        case Some(rest) => Some([node] + rest)
  }

  /** `GoalGraph::new`: one tree per goal literal, each with the full weight. */
  function New<S>(task: Task<S>, weight: nat, fuel: nat): (g: Option<GoalGraph>)
    requires WellFormed(task)
    ensures g.Some? ==>
              && |g.value.goals| == |task.goal|
              && forall i :: 0 <= i < |task.goal| ==> g.value.goals[i].fact == task.goal[i] && g.value.goals[i].weight == weight
  {
    match GenerateAll(CandidatesOf(task), task.goal, weight, fuel)
    case None => None
    case Some(goals) => Some(GoalGraph(goals))
  }

  /** The number of nodes in a forest. */
  function Size(ns: seq<Node>): nat
    decreases ns
  {
    if ns == [] then 0 else 1 + Size(ns[0].children) + Size(ns[1..])
  }

  /** The total weight of the leaves of a forest. */
  function LeafWeight(ns: seq<Node>): nat
    decreases ns
  {
    if ns == [] then 0
    else (if ns[0].children == [] then ns[0].weight else LeafWeight(ns[0].children)) + LeafWeight(ns[1..])
  }

  /**
   * What a forest contributes to the estimate of `s`, node by node: nothing for a node
   * whose literal holds (its subtree is not visited), its weight for an unmet leaf, its
   * children's contributions for an unmet inner node.
   */
  function Remaining<S>(ns: seq<Node>, task: Task<S>, s: S): nat
    decreases ns
  {
    if ns == [] then 0
    else
      (if task.Holds(s, ns[0].fact) then 0
       else if ns[0].children == [] then ns[0].weight
       else Remaining(ns[0].children, task, s))
      + Remaining(ns[1..], task, s)
  }

  lemma {:induction false} SizeAppend(a: seq<Node>, b: seq<Node>)
    ensures Size(a + b) == Size(a) + Size(b)
    decreases a
  {
    if a != [] {
      assert (a + b)[0] == a[0] && (a + b)[1..] == a[1..] + b;
      SizeAppend(a[1..], b);
      assert Size(a + b) == 1 + Size(a[0].children) + Size(a[1..] + b);
    } else {
      assert a + b == b;
    }
  }

  lemma {:induction false} RemainingAppend<S>(a: seq<Node>, b: seq<Node>, task: Task<S>, s: S)
    ensures Remaining(a + b, task, s) == Remaining(a, task, s) + Remaining(b, task, s)
    decreases a
  {
    if a != [] {
      assert (a + b)[0] == a[0] && (a + b)[1..] == a[1..] + b;
      RemainingAppend(a[1..], b, task, s);
    } else {
      assert a + b == b;
    }
  }

  /** The estimate does not depend on the order the trees are walked in. */
  lemma RemainingOrderFree<S>(a: seq<Node>, b: seq<Node>, task: Task<S>, s: S)
    ensures Remaining(a + b, task, s) == Remaining(b + a, task, s)
  {
    RemainingAppend(a, b, task, s);
    RemainingAppend(b, a, task, s);
  }

  /** Every unmet leaf contributes at most its weight, so a forest contributes at most its leaf weight. */
  lemma {:induction false} RemainingAtMostLeafWeight<S>(ns: seq<Node>, task: Task<S>, s: S)
    ensures Remaining(ns, task, s) <= LeafWeight(ns)
    decreases ns
  {
    if ns != [] {
      RemainingAtMostLeafWeight(ns[0].children, task, s);
      RemainingAtMostLeafWeight(ns[1..], task, s);
    }
  }

  /** A forest whose root literals all hold in `s` contributes nothing. */
  lemma {:induction false} RemainingZeroWhenRootsHold<S>(ns: seq<Node>, task: Task<S>, s: S)
    requires forall i :: 0 <= i < |ns| ==> task.Holds(s, ns[i].fact)
    ensures Remaining(ns, task, s) == 0
    decreases ns
  {
    if ns != [] {
      RemainingZeroWhenRootsHold(ns[1..], task, s);
    }
  }

  /**
   * `GoalGraph::estimate`: pops nodes off a stack seeded with the goal trees, skipping a
   * node whose literal holds, adding an unmet leaf's weight and pushing an unmet inner
   * node's children.
   */
  method Estimate<S>(graph: GoalGraph, task: Task<S>, s: S) returns (estimate: nat)
    ensures estimate == Remaining(graph.goals, task, s)
  {
    estimate := 0;
    var stack := graph.goals;
    while stack != []
      invariant estimate + Remaining(stack, task, s) == Remaining(graph.goals, task, s)
      decreases Size(stack)
    {
      var node := stack[|stack| - 1];
      var rest := stack[..|stack| - 1];
      assert stack == rest + [node];
      RemainingAppend(rest, [node], task, s);
      SizeAppend(rest, [node]);
      stack := rest;
      if task.Holds(s, node.fact) {
        continue;
      }
      if node.children == [] {
        estimate := estimate + node.weight;
      } else {
        RemainingAppend(rest, node.children, task, s);
        SizeAppend(rest, node.children);
        stack := rest + node.children;
      }
    }
  }

  /** `GoalGraph::size`: pops nodes off a stack seeded with the goal trees, counting each and pushing its children. */
  method CountNodes(graph: GoalGraph) returns (size: nat)
    ensures size == Size(graph.goals)
  {
    size := 0;
    var stack := graph.goals;
    while stack != []
      invariant size + Size(stack) == Size(graph.goals)
      decreases Size(stack)
    {
      var node := stack[|stack| - 1];
      var rest := stack[..|stack| - 1];
      assert stack == rest + [node];
      SizeAppend(rest, [node]);
      SizeAppend(rest, node.children);
      size := size + 1;
      stack := rest + node.children;
    }
  }

  /** Every child in the forest has weight at least 1, and every node of weight 0 is a leaf. */
  ghost predicate Weighted(ns: seq<Node>)
    decreases ns
  {
    ns == [] ||
    (&& (ns[0].weight == 0 ==> ns[0].children == [])
     && (forall i :: 0 <= i < |ns[0].children| ==> ns[0].children[i].weight >= 1)
     && Weighted(ns[0].children)
     && Weighted(ns[1..]))
  }

  lemma {:induction false} WeightedAppend(a: seq<Node>, b: seq<Node>)
    requires Weighted(a) && Weighted(b)
    ensures Weighted(a + b)
    decreases a
  {
    if a != [] {
      assert (a + b)[0] == a[0] && (a + b)[1..] == a[1..] + b;
      WeightedAppend(a[1..], b);
    } else {
      assert a + b == b;
    }
  }

  /** `n` shares of `w`, as repeated addition (keeps the inductive proofs linear). */
  function Shares(n: nat, w: nat): nat {
    if n == 0 then 0 else w + Shares(n - 1, w)
  }

  lemma {:induction false} SharesIsProduct(n: nat, w: nat)
    ensures Shares(n, w) == n * w
  {
    if n > 0 {
      SharesIsProduct(n - 1, w);
    }
  }

  /** Dividing a weight among `c` children leaves each at least 1 and loses nothing to rounding up. */
  lemma EvenShare(weight: nat, c: nat)
    requires 0 < c <= weight
    ensures weight / c >= 1 && Shares(c, weight / c) <= weight
  {
    SharesIsProduct(c, weight / c);
  }

  /** A single tree's leaf weight and weighting, in terms of its root. */
  lemma OneNode(n: Node)
    ensures LeafWeight([n]) == if n.children == [] then n.weight else LeafWeight(n.children)
    ensures Weighted([n]) <==>
              && (n.weight == 0 ==> n.children == [])
              && (forall i :: 0 <= i < |n.children| ==> n.children[i].weight >= 1)
              && Weighted(n.children)
  {
    assert [n][1..] == [];
  }

  /** `Generate` unfolded one level, for the inductive proofs below. */
  lemma GenerateUnfold(c: CandidateFn, literal: Literal, weight: nat, fuel: nat)
    requires Total(c) && fuel > 0
    ensures var facts := c(literal);
            Generate(c, literal, weight, fuel) ==
              if 0 < |facts| <= weight then
                match GenerateAll(c, facts, weight / |facts|, fuel - 1)
                case None => None
                case Some(children) => Some(Node(literal, weight, children))
              else Some(Node(literal, weight, []))
  {
  }

  /** `GenerateAll` on a non-empty list unfolded one level. */
  lemma GenerateAllUnfold(c: CandidateFn, literals: seq<Literal>, weight: nat, fuel: nat)
    requires Total(c) && literals != []
    requires GenerateAll(c, literals, weight, fuel).Some?
    ensures Generate(c, literals[0], weight, fuel).Some?
    ensures GenerateAll(c, literals[1..], weight, fuel).Some?
    ensures GenerateAll(c, literals, weight, fuel).value ==
              [Generate(c, literals[0], weight, fuel).value] + GenerateAll(c, literals[1..], weight, fuel).value
  {
  }

  /** Weight conservation: the leaves of a generated tree weigh at most the tree's weight in total. */
  lemma {:induction false} GenerateConservesWeight(c: CandidateFn, literal: Literal, weight: nat, fuel: nat)
    requires Total(c)
    ensures Generate(c, literal, weight, fuel).Some? ==>
              LeafWeight([Generate(c, literal, weight, fuel).value]) <= weight
    decreases fuel, 0
  {
    if fuel > 0 {
      GenerateUnfold(c, literal, weight, fuel);
      var facts := c(literal);
      var r := Generate(c, literal, weight, fuel);
      if r.Some? {
        OneNode(r.value);
        if 0 < |facts| <= weight {
          GenerateAllConservesWeight(c, facts, weight / |facts|, fuel - 1);
          EvenShare(weight, |facts|);
        }
      }
    }
  }

  /** A forest generated with weight `w` per literal has leaves weighing at most `w` per literal. */
  lemma {:induction false} GenerateAllConservesWeight(c: CandidateFn, literals: seq<Literal>, weight: nat, fuel: nat)
    requires Total(c)
    ensures GenerateAll(c, literals, weight, fuel).Some? ==>
              LeafWeight(GenerateAll(c, literals, weight, fuel).value) <= Shares(|literals|, weight)
    decreases fuel, 1, |literals|
  {
    if literals != [] && GenerateAll(c, literals, weight, fuel).Some? {
      GenerateAllUnfold(c, literals, weight, fuel);
      var node := Generate(c, literals[0], weight, fuel).value;
      var rest := GenerateAll(c, literals[1..], weight, fuel).value;
      GenerateConservesWeight(c, literals[0], weight, fuel);
      GenerateAllConservesWeight(c, literals[1..], weight, fuel);
      LeafWeightAppend([node], rest);
    }
  }

  lemma {:induction false} LeafWeightAppend(a: seq<Node>, b: seq<Node>)
    ensures LeafWeight(a + b) == LeafWeight(a) + LeafWeight(b)
    decreases a
  {
    if a != [] {
      assert (a + b)[0] == a[0] && (a + b)[1..] == a[1..] + b;
      LeafWeightAppend(a[1..], b);
    } else {
      assert a + b == b;
    }
  }

  /** In a generated tree every child weighs at least 1, and a node of weight 0 is a leaf. */
  lemma {:induction false} GenerateWeighted(c: CandidateFn, literal: Literal, weight: nat, fuel: nat)
    requires Total(c)
    ensures Generate(c, literal, weight, fuel).Some? ==> Weighted([Generate(c, literal, weight, fuel).value])
    decreases fuel, 0
  {
    if fuel > 0 {
      GenerateUnfold(c, literal, weight, fuel);
      var facts := c(literal);
      var r := Generate(c, literal, weight, fuel);
      if r.Some? {
        OneNode(r.value);
        if 0 < |facts| <= weight {
          GenerateAllWeighted(c, facts, weight / |facts|, fuel - 1);
          EvenShare(weight, |facts|);
        }
      }
    }
  }

  lemma {:induction false} GenerateAllWeighted(c: CandidateFn, literals: seq<Literal>, weight: nat, fuel: nat)
    requires Total(c)
    ensures GenerateAll(c, literals, weight, fuel).Some? ==> Weighted(GenerateAll(c, literals, weight, fuel).value)
    decreases fuel, 1, |literals|
  {
    if literals != [] && GenerateAll(c, literals, weight, fuel).Some? {
      GenerateAllUnfold(c, literals, weight, fuel);
      GenerateWeighted(c, literals[0], weight, fuel);
      GenerateAllWeighted(c, literals[1..], weight, fuel);
      WeightedAppend([Generate(c, literals[0], weight, fuel).value], GenerateAll(c, literals[1..], weight, fuel).value);
    }
  }

  /** A goal graph's estimate of any state is at most the number of goals times the weight. */
  lemma EstimateBound<S>(task: Task<S>, weight: nat, fuel: nat, s: S)
    requires WellFormed(task) && New(task, weight, fuel).Some?
    ensures Remaining(New(task, weight, fuel).value.goals, task, s) <= |task.goal| * weight
    ensures task.Covers(s) ==> Remaining(New(task, weight, fuel).value.goals, task, s) == 0
  {
    var goals := New(task, weight, fuel).value.goals;
    GenerateAllConservesWeight(CandidatesOf(task), task.goal, weight, fuel);
    SharesIsProduct(|task.goal|, weight);
    RemainingAtMostLeafWeight(goals, task, s);
    if task.Covers(s) {
      RemainingZeroWhenRootsHold(goals, task, s);
    }
  }

  /** More fuel builds the same tree: the fuel bound only cuts off, never changes, a result. */
  lemma {:induction false} GenerateFuelMonotone(c: CandidateFn, literal: Literal, weight: nat, fuel: nat)
    requires Total(c)
    ensures Generate(c, literal, weight, fuel).Some? ==>
              Generate(c, literal, weight, fuel + 1) == Generate(c, literal, weight, fuel)
    decreases fuel, 0
  {
    if fuel > 0 {
      var facts := c(literal);
      if weight >= |facts| && facts != [] {
        GenerateAllFuelMonotone(c, facts, weight / |facts|, fuel - 1);
      }
    }
  }

  lemma {:induction false} GenerateAllFuelMonotone(c: CandidateFn, literals: seq<Literal>, weight: nat, fuel: nat)
    requires Total(c)
    ensures GenerateAll(c, literals, weight, fuel).Some? ==>
              GenerateAll(c, literals, weight, fuel + 1) == GenerateAll(c, literals, weight, fuel)
    decreases fuel, 1, |literals|
  {
    if literals != [] {
      GenerateFuelMonotone(c, literals[0], weight, fuel);
      GenerateAllFuelMonotone(c, literals[1..], weight, fuel);
    }
  }
}
