/**
 * The search driver: the strategy factory and the `solve` loop that steps a strategy
 * until it solves the task or a time or memory limit is exceeded. Wall-clock time and
 * the process's memory reading are inputs: `elapsed(n)` and `usage(n)` are what the
 * clock and `memory_stats` report right after the `n`-th step.
 */
module Search {
  import opened Prelude
  import opened Planning
  import opened SearchErrors
  import opened StateTable
  import opened Bfs
  import Gbfs
  import Lgbfs
  import Heuristics
  import Heaps

  /** The strategies the driver can build. DFS is not one of them. */
  datatype SearchKind =
    | BFS
    | GBFS(heuristic: Heuristics.HeuristicKind)
    | LGBFS(heuristic: Heuristics.HeuristicKind)

  /** The state a strategy's `step` reads and changes: its table and frontier, and the heuristic it evaluates with. */
  datatype Snapshot<!S(==)> =
    | BreadthState(table: Table<S>, queue: seq<nat>)
    | GreedyState(h: S -> nat, table: Table<S>, heap: seq<Heaps.Element>)
    | LazyState(h: S -> nat, table: Table<S>, heap: seq<Heaps.Element>)

  /** The snapshot is one a step can start from: a valid table holding every frontier index. */
  ghost predicate Fits<S>(task: Task<S>, snapshot: Snapshot<S>) {
    match snapshot
    case BreadthState(t, q) => Bfs.Fits(task, t, q)
    case GreedyState(_, t, heap) => Gbfs.Fits(task, t, heap)
    case LazyState(_, t, heap) => Lgbfs.Fits(task, t, heap)
  }

  /**
   * One strategy step on a snapshot, in the `Result` encoding: the step result and the
   * snapshot after it, as the strategy's own `Next` gives them.
   */
  function Advance<S(==)>(task: Task<S>, snapshot: Snapshot<S>): (SearchResult<S>, Snapshot<S>)
    requires Fits(task, snapshot)
  {
    match snapshot
    case BreadthState(t, q) =>
      var next := Bfs.Next(task, t, q);
      (Flatten(next.0), BreadthState(next.1, next.2))
    case GreedyState(h, t, heap) =>
      var next := Gbfs.Next(task, h, t, heap);
      (Flatten(next.0), GreedyState(h, next.1, next.2))
    case LazyState(h, t, heap) =>
      var next := Lgbfs.Next(task, h, t, heap);
      (next.0, LazyState(h, next.1, next.2))
  }

  /** A step leaves a snapshot a further step can start from. */
  lemma AdvanceFits<S>(task: Task<S>, snapshot: Snapshot<S>)
    requires Fits(task, snapshot)
    ensures Fits(task, Advance(task, snapshot).1)
  {
    match snapshot
    case BreadthState(t, q) => Bfs.NextFits(task, t, q);
    case GreedyState(h, t, heap) => Gbfs.NextFits(task, h, t, heap);
    case LazyState(h, t, heap) => Lgbfs.NextFits(task, h, t, heap);
  }

  /**
   * The step results in `history` are those of stepping from `snapshots[0]` one step
   * at a time, and `snapshots[k]` is the state after the first `k` steps.
   */
  ghost predicate Follows<S>(task: Task<S>, history: seq<SearchResult<S>>, snapshots: seq<Snapshot<S>>)
    decreases |history|
  {
    var n := |history|;
    && |snapshots| == n + 1
    && (n == 0 ||
        (&& Follows(task, history[..n - 1], snapshots[..n])
         && Fits(task, snapshots[n - 1])
         && Advance(task, snapshots[n - 1]) == (history[n - 1], snapshots[n])))
  }

  /** One more step from the last snapshot extends the run. */
  lemma FollowsExtend<S>(task: Task<S>, history: seq<SearchResult<S>>, snapshots: seq<Snapshot<S>>,
                              history': seq<SearchResult<S>>, snapshot: Snapshot<S>)
    requires Follows(task, history, snapshots)
    requires |history'| == |history| + 1 && history'[..|history|] == history
    requires Fits(task, snapshots[|history|]) && Advance(task, snapshots[|history|]) == (history'[|history|], snapshot)
    ensures Follows(task, history', snapshots + [snapshot])
  {
    AppendLast(snapshots, snapshot);
  }

  /** A built strategy (`Box<dyn SearchAlgorithm>`). */
  datatype Searcher<S(==)> =
    | Breadth(bfs: Bfs.BFS<S>)
    | Greedy(gbfs: Gbfs.GBFS<S>)
    | Lazy(lgbfs: Lgbfs.LGBFS<S>)
  {
    ghost function Repr(): set<object> {
      match this
      case Breadth(b) => {b}
      case Greedy(g) => {g}
      case Lazy(l) => {l}
    }

    /** The strategy's state. */
    ghost function State(): Snapshot<S>
      reads Repr()
    {
      match this
      case Breadth(b) => BreadthState(b.table, b.queue)
      case Greedy(g) => GreedyState(g.h, g.table, g.heap)
      case Lazy(l) => LazyState(l.h, l.table, l.heap)
    }

    /** The strategy's own invariant, with its table rooted at the task's initial state. */
    ghost predicate Valid(task: Task<S>)
      reads Repr()
    {
      match this
      case Breadth(b) => b.Valid(task) && b.table.states[0] == task.init
      case Greedy(g) => g.Valid(task) && g.table.states[0] == task.init
      case Lazy(l) => l.Valid(task) && l.table.states[0] == task.init
    }
  }

  /**
   * `search::generate`: a strategy rooted at the task's initial state; the greedy ones
   * evaluate states with the heuristic the kind names.
   */
  method Generate<S(==)>(task: Task<S>, kind: SearchKind) returns (searcher: Searcher<S>)
    ensures searcher.Valid(task) && fresh(searcher.Repr())
    ensures kind.BFS? ==>
              && searcher.Breadth?
              && searcher.bfs.table == Root(task.init) && searcher.bfs.queue == [0]
    ensures kind.GBFS? ==>
              && searcher.Greedy?
              && searcher.gbfs.table == Root(task.init) && searcher.gbfs.heap == [Heaps.Element(0, 0)]
              && searcher.gbfs.evaluations == 0
              && forall s :: searcher.gbfs.h(s) == Heuristics.Expected(kind.heuristic, task, s)
    ensures kind.LGBFS? ==>
              && searcher.Lazy?
              && searcher.lgbfs.table == Root(task.init) && searcher.lgbfs.heap == [Heaps.Element(0, 0)]
              && searcher.lgbfs.evaluations == 0
              && forall s :: searcher.lgbfs.h(s) == Heuristics.Expected(kind.heuristic, task, s)
  {
    RootValid(task.init, task.successors);
    if kind.BFS? {
      var b := new Bfs.BFS(task.init);
      searcher := Breadth(b);
    } else {
      var heuristic := Heuristics.Generate(task, kind.heuristic);
      var h := s => Heuristics.Estimate(heuristic, task, s);
      if kind.GBFS? {
        var g := new Gbfs.GBFS(task.init, h);
        assert Heaps.Indices(g.heap) == [0];
        searcher := Greedy(g);
      } else {
        var l := new Lgbfs.LGBFS(task.init, h);
        assert Heaps.Indices(l.heap) == [0];
        searcher := Lazy(l);
      }
    }
  }

  /**
   * One call of the strategy's `step`, in the `Result` encoding: the result and the
   * strategy's new state are what `Advance` gives. A plan it returns is a plan for the
   * task, and the only errors it reports are `Unfinished` and `Unsolvable`.
   */
  method Step<S(==)>(searcher: Searcher<S>, task: Task<S>) returns (r: SearchResult<S>)
    requires searcher.Valid(task)
    modifies searcher.Repr()
    ensures searcher.Valid(task)
    ensures Fits(task, old(searcher.State())) && (r, searcher.State()) == Advance(task, old(searcher.State()))
    ensures r.Ok? ==> IsPlan(task, r.plan)
    ensures r.Err? ==> r.error == Unfinished || r.error == Unsolvable
  {
    match searcher
    case Breadth(b) =>
      ghost var t, q := b.table, b.queue;
      if q != [] && task.Covers(t.states[q[0]]) {
        SolvedTraceIsPlan(t, task, q[0]);
      }
      var o := b.Step(task);
      assert t.states <= b.table.states;
      r := Flatten(o);
    case Greedy(g) =>
      ghost var t, heap := g.table, g.heap;
      if heap != [] {
        var index := heap[Gbfs.Top(heap)].index;
        assert index == Heaps.Indices(heap)[Gbfs.Top(heap)];
        if task.Covers(t.states[index]) {
          SolvedTraceIsPlan(t, task, index);
        }
      }
      var o := g.Step(task);
      assert t.states <= g.table.states;
      r := Flatten(o);
    case Lazy(l) =>
      ghost var t, heap := l.table, l.heap;
      if heap != [] {
        var index := heap[Lgbfs.Top(heap)].index;
        assert index == Heaps.Indices(heap)[Lgbfs.Top(heap)];
        if task.Covers(t.states[index]) {
          SolvedTraceIsPlan(t, task, index);
        }
      }
      r := l.Step(task);
      assert t.states <= l.table.states;
  }

  /**
   * The limit checks after the `n`-th step did not solve the task: the time limit first
   * (exceeded only when strictly passed), then, on every sixteenth step only and when the
   * memory reading is available, the memory limit in megabytes.
   */
  function LimitCheck(n: nat, elapsed: nat, usage: Option<nat>, timeLimit: Option<nat>, memoryLimit: Option<nat>): (e: Option<Error>)
    ensures e.Some? ==> e.value == OutOfTime || e.value == OutOfMemory
    ensures e == Some(OutOfTime) <==> timeLimit.Some? && elapsed > timeLimit.value
    ensures e == Some(OutOfMemory) <==>
              && (timeLimit.None? || elapsed <= timeLimit.value)
              && n % 16 == 0 && usage.Some? && memoryLimit.Some?
              && usage.value > memoryLimit.value * 1000000
  {
    if timeLimit.Some? && elapsed > timeLimit.value then Some(OutOfTime)
    else if n % 16 == 0 && usage.Some? && memoryLimit.Some? && usage.value > memoryLimit.value * 1000000 then Some(OutOfMemory)
    else None
  }

  /**
   * What the loop does with the result `r` of its `n`-th step, as written: `Ok` is
   * returned at once, any error goes on to the limit checks, and the loop continues
   * (`None`) unless one of them is exceeded.
   */
  function Outcome<S>(r: SearchResult<S>, n: nat, elapsed: nat, usage: Option<nat>, timeLimit: Option<nat>, memoryLimit: Option<nat>): (o: Option<SearchResult<S>>)
    ensures r.Ok? ==> o == Some(r)
    ensures r.Err? ==> o == if LimitCheck(n, elapsed, usage, timeLimit, memoryLimit).Some? then Some(Err(LimitCheck(n, elapsed, usage, timeLimit, memoryLimit).value)) else None
    ensures o != Some(Err(Unsolvable)) && o != Some(Err(Unfinished))
  {
    if r.Ok? then Some(r)
    else
      match LimitCheck(n, elapsed, usage, timeLimit, memoryLimit)
      case Some(e) => Some(Err(e))
      case None => None
  }

  /**
   * What the loop was meant to do with the result `r` of its `n`-th step: `Ok` and
   * `Unsolvable` are both final and returned at once; only `Unfinished` goes on to the
   * limit checks.
   */
  function IntendedOutcome<S>(r: SearchResult<S>, n: nat, elapsed: nat, usage: Option<nat>, timeLimit: Option<nat>, memoryLimit: Option<nat>): (o: Option<SearchResult<S>>)
    ensures r.Ok? || r == Err(Unsolvable) ==> o == Some(r)
    ensures o.None? ==> r.Err? && r.error != Unsolvable
    ensures o != Some(Err(Unfinished))
  {
    if r.Ok? || r == Err(Unsolvable) then Some(r)
    else Outcome(r, n, elapsed, usage, timeLimit, memoryLimit)
  }

  /**
   * The largest memory reading taken during the first `n` steps (readings are taken on
   * every sixteenth step, when available), or 0 when none was taken.
   */
  function Peak(usage: nat -> Option<nat>, n: nat): nat {
    if n == 0 then 0
    else
      var before := Peak(usage, n - 1);
      if n % 16 == 0 && usage(n).Some? && usage(n).value > before then usage(n).value else before
  }

  /** `Peak` is the maximum of the readings taken, and is one of them unless none was. */
  lemma {:induction false} PeakIsMaximum(usage: nat -> Option<nat>, n: nat)
    ensures forall j :: 1 <= j <= n && j % 16 == 0 && usage(j).Some? ==> usage(j).value <= Peak(usage, n)
    ensures Peak(usage, n) == 0 || exists j :: 1 <= j <= n && j % 16 == 0 && usage(j) == Some(Peak(usage, n))
  {
    if n > 0 {
      PeakIsMaximum(usage, n - 1);
    }
  }

  /** With neither limit set, the loop as written stops only on a plan. */
  lemma NoLimitsStopOnlyOnPlan<S>(r: SearchResult<S>, n: nat, elapsed: nat, usage: Option<nat>)
    ensures Outcome(r, n, elapsed, usage, None, None).Some? <==> r.Ok?
  {
  }

  /**
   * The loop as written never ends on `Unsolvable`: once a strategy's frontier is empty
   * and it reports `Unsolvable` on every step, the loop goes on as long as no limit is
   * exceeded, and forever when none is set.
   */
  lemma UnsolvableDoesNotStop<S>(n: nat, elapsed: nat, usage: Option<nat>, timeLimit: Option<nat>, memoryLimit: Option<nat>)
    requires LimitCheck(n, elapsed, usage, timeLimit, memoryLimit).None?
    ensures Outcome<S>(Err(Unsolvable), n, elapsed, usage, timeLimit, memoryLimit).None?
    ensures IntendedOutcome<S>(Err(Unsolvable), n, elapsed, usage, timeLimit, memoryLimit) == Some(Err(Unsolvable))
  {
  }

  /** The intended loop stops exactly on a final step result or an exceeded limit. */
  lemma IntendedStopsOnFinalResult<S>(r: SearchResult<S>, n: nat, elapsed: nat, usage: Option<nat>, timeLimit: Option<nat>, memoryLimit: Option<nat>)
    requires r.Ok? || r.error == Unfinished || r.error == Unsolvable
    ensures IntendedOutcome(r, n, elapsed, usage, timeLimit, memoryLimit).None? <==>
              r == Err(Unfinished) && LimitCheck(n, elapsed, usage, timeLimit, memoryLimit).None?
  {
  }

  /**
   * The limit checks after step `n`, in their order: the time limit; then, on every
   * sixteenth step, the memory reading (when available) raises the peak and is compared
   * with the memory limit.
   */
  method CheckLimits(n: nat, peak: nat, elapsed: nat, usage: nat -> Option<nat>, timeLimit: Option<nat>, memoryLimit: Option<nat>)
    returns (e: Option<Error>, peak': nat)
    requires n >= 1 && peak == Peak(usage, n - 1)
    ensures e == LimitCheck(n, elapsed, usage(n), timeLimit, memoryLimit)
    ensures peak' == if e == Some(OutOfTime) then Peak(usage, n - 1) else Peak(usage, n)
  {
    peak' := peak;
    if timeLimit.Some? && elapsed > timeLimit.value {
      return Some(OutOfTime), peak';
    }
    if n % 16 == 0 {
      var reading := usage(n);
      if reading.Some? {
        if reading.value > peak' {
          peak' := reading.value;
        }
        if memoryLimit.Some? && reading.value > memoryLimit.value * 1000000 {
          return Some(OutOfMemory), peak';
        }
      }
    }
    return None, peak';
  }

  /**
   * The rest of the loop body once the `n`-th step returned `r`: a plan is returned at
   * once; anything else goes through the limit checks, and the loop goes on (`None`)
   * unless one is exceeded.
   */
  method Decide<S>(r: SearchResult<S>, n: nat, peak: nat, elapsed: nat, usage: nat -> Option<nat>,
                   timeLimit: Option<nat>, memoryLimit: Option<nat>)
    returns (o: Option<SearchResult<S>>, peak': nat)
    requires n >= 1 && peak == Peak(usage, n - 1)
    ensures o == Outcome(r, n, elapsed, usage(n), timeLimit, memoryLimit)
    ensures peak' == Peak(usage, Checked(o, n))
  {
    if r.Ok? {
      return Some(r), peak;
    }
    var e;
    e, peak' := CheckLimits(n, peak, elapsed, usage, timeLimit, memoryLimit);
    o := if e.Some? then Some(Err(e.value)) else None;
  }

  /** `Decide` for the intended loop, which also returns `Unsolvable` at once. */
  method IntendedDecide<S>(r: SearchResult<S>, n: nat, peak: nat, elapsed: nat, usage: nat -> Option<nat>,
                           timeLimit: Option<nat>, memoryLimit: Option<nat>)
    returns (o: Option<SearchResult<S>>, peak': nat)
    requires n >= 1 && peak == Peak(usage, n - 1)
    ensures o == IntendedOutcome(r, n, elapsed, usage(n), timeLimit, memoryLimit)
    ensures peak' == Peak(usage, IntendedChecked(o, n))
  {
    if r.Ok? || r == Err(Unsolvable) {
      return Some(r), peak;
    }
    var e;
    e, peak' := CheckLimits(n, peak, elapsed, usage, timeLimit, memoryLimit);
    o := if e.Some? then Some(Err(e.value)) else None;
  }

  /**
   * How many of the `steps` taken reached the memory check: all of them, unless the
   * loop ended on a plan or on the time limit, which return before it.
   */
  function Checked<S>(result: Option<SearchResult<S>>, steps: nat): nat {
    if result.Some? && steps >= 1 && (result.value.Ok? || result.value == Err(OutOfTime)) then steps - 1 else steps
  }

  /** `Checked` for the intended loop, where a step reporting `Unsolvable` also returns before the check. */
  function IntendedChecked<S>(result: Option<SearchResult<S>>, steps: nat): nat {
    if result.Some? && steps >= 1 && (result.value.Ok? || result.value == Err(Unsolvable) || result.value == Err(OutOfTime))
    then steps - 1
    else steps
  }

  /** A step result a strategy can report: a plan for the task, `Unfinished` or `Unsolvable`. */
  ghost predicate Reportable<S>(task: Task<S>, r: SearchResult<S>) {
    && (r.Ok? ==> IsPlan(task, r.plan))
    && (r.Err? ==> r.error == Unfinished || r.error == Unsolvable)
  }

  /** Every step result recorded is one a strategy can report. */
  ghost predicate Reported<S>(task: Task<S>, history: seq<SearchResult<S>>)
    decreases |history|
  {
    history == [] || (Reported(task, history[..|history| - 1]) && Reportable(task, history[|history| - 1]))
  }

  /** The loop as written went on after each of the recorded steps (step `n` is `history[n - 1]`). */
  ghost predicate Continued<S>(history: seq<SearchResult<S>>, elapsed: nat -> nat, usage: nat -> Option<nat>,
                               timeLimit: Option<nat>, memoryLimit: Option<nat>)
    decreases |history|
  {
    var n := |history|;
    n == 0 ||
    (&& Continued(history[..n - 1], elapsed, usage, timeLimit, memoryLimit)
     && Outcome(history[n - 1], n, elapsed(n), usage(n), timeLimit, memoryLimit).None?)
  }

  /** The intended loop went on after each of the recorded steps. */
  ghost predicate IntendedContinued<S>(history: seq<SearchResult<S>>, elapsed: nat -> nat, usage: nat -> Option<nat>,
                                       timeLimit: Option<nat>, memoryLimit: Option<nat>)
    decreases |history|
  {
    var n := |history|;
    n == 0 ||
    (&& IntendedContinued(history[..n - 1], elapsed, usage, timeLimit, memoryLimit)
     && IntendedOutcome(history[n - 1], n, elapsed(n), usage(n), timeLimit, memoryLimit).None?)
  }

  /** `Continued` says of every recorded step that the loop as written went on after it. */
  lemma {:induction false} ContinuedEveryStep<S>(history: seq<SearchResult<S>>, elapsed: nat -> nat, usage: nat -> Option<nat>,
                                                 timeLimit: Option<nat>, memoryLimit: Option<nat>)
    ensures Continued(history, elapsed, usage, timeLimit, memoryLimit) <==>
              forall n :: 1 <= n <= |history| ==> Outcome(history[n - 1], n, elapsed(n), usage(n), timeLimit, memoryLimit).None?
    decreases |history|
  {
    if history != [] {
      var m := |history| - 1;
      ContinuedEveryStep(history[..m], elapsed, usage, timeLimit, memoryLimit);
      assert forall k :: 0 <= k < m ==> history[..m][k] == history[k];
    }
  }

  /**
   * The loop as written is still going after the steps recorded in `history`: each was
   * one a strategy can report, the loop went on after each, and `peak` is the largest
   * memory reading taken so far.
   */
  ghost predicate Running<S>(task: Task<S>, history: seq<SearchResult<S>>, peak: nat, elapsed: nat -> nat,
                             usage: nat -> Option<nat>, timeLimit: Option<nat>, memoryLimit: Option<nat>)
  {
    && Reported(task, history)
    && Continued(history, elapsed, usage, timeLimit, memoryLimit)
    && peak == Peak(usage, |history|)
  }

  /**
   * The loop as written returned `result` after the steps recorded in `history`: it went
   * on after every step but the last, `result` is the `Outcome` of the last, a plan it
   * returns is a plan for the task, and `peak` is the largest reading taken.
   */
  ghost predicate Stopped<S>(task: Task<S>, history: seq<SearchResult<S>>, result: SearchResult<S>, peak: nat,
                             elapsed: nat -> nat, usage: nat -> Option<nat>, timeLimit: Option<nat>, memoryLimit: Option<nat>)
  {
    var n := |history|;
    && n >= 1
    && Reported(task, history)
    && Continued(history[..n - 1], elapsed, usage, timeLimit, memoryLimit)
    && Some(result) == Outcome(history[n - 1], n, elapsed(n), usage(n), timeLimit, memoryLimit)
    && (result.Ok? ==> IsPlan(task, result.plan))
    && peak == Peak(usage, Checked(Some(result), n))
  }

  /** `Running` for the intended loop. */
  ghost predicate IntendedRunning<S>(task: Task<S>, history: seq<SearchResult<S>>, peak: nat, elapsed: nat -> nat,
                                     usage: nat -> Option<nat>, timeLimit: Option<nat>, memoryLimit: Option<nat>)
  {
    && Reported(task, history)
    && IntendedContinued(history, elapsed, usage, timeLimit, memoryLimit)
    && peak == Peak(usage, |history|)
  }

  /** `Stopped` for the intended loop, which returns `Unsolvable` only when the last step reported it. */
  ghost predicate IntendedStopped<S>(task: Task<S>, history: seq<SearchResult<S>>, result: SearchResult<S>, peak: nat,
                                     elapsed: nat -> nat, usage: nat -> Option<nat>, timeLimit: Option<nat>, memoryLimit: Option<nat>)
  {
    var n := |history|;
    && n >= 1
    && Reported(task, history)
    && IntendedContinued(history[..n - 1], elapsed, usage, timeLimit, memoryLimit)
    && Some(result) == IntendedOutcome(history[n - 1], n, elapsed(n), usage(n), timeLimit, memoryLimit)
    && (result.Ok? ==> IsPlan(task, result.plan))
    && (result == Err(Unsolvable) ==> history[n - 1] == Err(Unsolvable))
    && peak == Peak(usage, IntendedChecked(Some(result), n))
  }

  /**
   * Recording a reportable step `r` whose outcome is `o` moves a running loop on: it is
   * still running when `o` is `None`, and has stopped with `o`'s result otherwise.
   */
  lemma Record<S>(task: Task<S>, history: seq<SearchResult<S>>, r: SearchResult<S>, o: Option<SearchResult<S>>,
                  peak: nat, peak': nat, elapsed: nat -> nat, usage: nat -> Option<nat>,
                  timeLimit: Option<nat>, memoryLimit: Option<nat>)
    requires Running(task, history, peak, elapsed, usage, timeLimit, memoryLimit) && Reportable(task, r)
    requires o == Outcome(r, |history| + 1, elapsed(|history| + 1), usage(|history| + 1), timeLimit, memoryLimit)
    requires peak' == Peak(usage, Checked(o, |history| + 1))
    ensures (history + [r])[..|history|] == history
    ensures o.None? ==> Running(task, history + [r], peak', elapsed, usage, timeLimit, memoryLimit)
    ensures o.Some? ==> Stopped(task, history + [r], o.value, peak', elapsed, usage, timeLimit, memoryLimit)
  {
    AppendLast(history, r);
  }

  /** `Record` for the intended loop. */
  lemma IntendedRecord<S>(task: Task<S>, history: seq<SearchResult<S>>, r: SearchResult<S>, o: Option<SearchResult<S>>,
                          peak: nat, peak': nat, elapsed: nat -> nat, usage: nat -> Option<nat>,
                          timeLimit: Option<nat>, memoryLimit: Option<nat>)
    requires IntendedRunning(task, history, peak, elapsed, usage, timeLimit, memoryLimit) && Reportable(task, r)
    requires o == IntendedOutcome(r, |history| + 1, elapsed(|history| + 1), usage(|history| + 1), timeLimit, memoryLimit)
    requires peak' == Peak(usage, IntendedChecked(o, |history| + 1))
    ensures (history + [r])[..|history|] == history
    ensures o.None? ==> IntendedRunning(task, history + [r], peak', elapsed, usage, timeLimit, memoryLimit)
    ensures o.Some? ==> IntendedStopped(task, history + [r], o.value, peak', elapsed, usage, timeLimit, memoryLimit)
  {
    AppendLast(history, r);
  }

  /**
   * One pass of the loop body after the steps recorded in `history`: step `n`, then the
   * limit checks unless it returned a plan. The step is appended to the record, and `o`
   * is what the loop does next.
   */
  method Iteration<S(==)>(searcher: Searcher<S>, task: Task<S>, n: nat, peak: nat, ghost history: seq<SearchResult<S>>,
                          elapsed: nat -> nat, usage: nat -> Option<nat>, timeLimit: Option<nat>, memoryLimit: Option<nat>)
    returns (o: Option<SearchResult<S>>, peak': nat, ghost history': seq<SearchResult<S>>)
    requires searcher.Valid(task) && n == |history| + 1
    requires Running(task, history, peak, elapsed, usage, timeLimit, memoryLimit)
    modifies searcher.Repr()
    ensures searcher.Valid(task)
    ensures |history'| == n && history'[..n - 1] == history
    ensures Fits(task, old(searcher.State())) && Advance(task, old(searcher.State())) == (history'[n - 1], searcher.State())
    ensures o.None? ==> Running(task, history', peak', elapsed, usage, timeLimit, memoryLimit)
    ensures o.Some? ==> Stopped(task, history', o.value, peak', elapsed, usage, timeLimit, memoryLimit)
  {
    var r := Step(searcher, task);
    o, peak' := Decide(r, n, peak, elapsed(n), usage, timeLimit, memoryLimit);
    Record(task, history, r, o, peak, peak', elapsed, usage, timeLimit, memoryLimit);
    history' := history + [r];
  }

  /** `Iteration` for the intended loop. */
  method IntendedIteration<S(==)>(searcher: Searcher<S>, task: Task<S>, n: nat, peak: nat, ghost history: seq<SearchResult<S>>,
                                  elapsed: nat -> nat, usage: nat -> Option<nat>, timeLimit: Option<nat>, memoryLimit: Option<nat>)
    returns (o: Option<SearchResult<S>>, peak': nat, ghost history': seq<SearchResult<S>>)
    requires searcher.Valid(task) && n == |history| + 1
    requires IntendedRunning(task, history, peak, elapsed, usage, timeLimit, memoryLimit)
    modifies searcher.Repr()
    ensures searcher.Valid(task)
    ensures |history'| == n && history'[..n - 1] == history
    ensures Fits(task, old(searcher.State())) && Advance(task, old(searcher.State())) == (history'[n - 1], searcher.State())
    ensures o.None? ==> IntendedRunning(task, history', peak', elapsed, usage, timeLimit, memoryLimit)
    ensures o.Some? ==> IntendedStopped(task, history', o.value, peak', elapsed, usage, timeLimit, memoryLimit)
  {
    var r := Step(searcher, task);
    o, peak' := IntendedDecide(r, n, peak, elapsed(n), usage, timeLimit, memoryLimit);
    IntendedRecord(task, history, r, o, peak, peak', elapsed, usage, timeLimit, memoryLimit);
    history' := history + [r];
  }

  /**
   * `search::solve`, for at most `fuel` steps (`None` when they are used up), with the
   * step results recorded in `history`. When the fuel runs out the loop is still
   * `Running`; otherwise it has `Stopped` with the result it returns: the `Outcome` of its
   * last step, after going on after every earlier one. `peakMemory` is the largest
   * reading taken; the step that ends the loop with a plan or on the time limit takes
   * no reading.
   */
  method Solve<S(==)>(task: Task<S>, timeLimit: Option<nat>, memoryLimit: Option<nat>, searcher: Searcher<S>,
                      elapsed: nat -> nat, usage: nat -> Option<nat>, fuel: nat)
    returns (result: Option<SearchResult<S>>, steps: nat, peakMemory: nat,
             ghost history: seq<SearchResult<S>>, ghost snapshots: seq<Snapshot<S>>)
    requires searcher.Valid(task)
    modifies searcher.Repr()
    ensures searcher.Valid(task)
    ensures steps == |history| <= fuel
    ensures Follows(task, history, snapshots)
    ensures snapshots[0] == old(searcher.State()) && snapshots[steps] == searcher.State()
    ensures result.None? ==> steps == fuel && Running(task, history, peakMemory, elapsed, usage, timeLimit, memoryLimit)
    ensures result.Some? ==> Stopped(task, history, result.value, peakMemory, elapsed, usage, timeLimit, memoryLimit)
  {
    result := None;
    steps := 0;
    peakMemory := 0;
    history := [];
    snapshots := [searcher.State()];
    while steps < fuel && result.None?
      invariant searcher.Valid(task)
      invariant steps == |history| <= fuel
      invariant Follows(task, history, snapshots)
      invariant snapshots[0] == old(searcher.State()) && snapshots[steps] == searcher.State()
      invariant result.None? ==> Running(task, history, peakMemory, elapsed, usage, timeLimit, memoryLimit)
      invariant result.Some? ==> Stopped(task, history, result.value, peakMemory, elapsed, usage, timeLimit, memoryLimit)
    {
      ghost var before := history;
      result, peakMemory, history := Iteration(searcher, task, steps + 1, peakMemory, history, elapsed, usage, timeLimit, memoryLimit);
      FollowsExtend(task, before, snapshots, history, searcher.State());
      snapshots := snapshots + [searcher.State()];
      steps := steps + 1;
    }
  }

  /**
   * The loop as it was meant to be: it also stops as soon as a step reports
   * `Unsolvable`, and returns it; otherwise it is `Solve`.
   */
  method SolveIntended<S(==)>(task: Task<S>, timeLimit: Option<nat>, memoryLimit: Option<nat>, searcher: Searcher<S>,
                              elapsed: nat -> nat, usage: nat -> Option<nat>, fuel: nat)
    returns (result: Option<SearchResult<S>>, steps: nat, peakMemory: nat,
             ghost history: seq<SearchResult<S>>, ghost snapshots: seq<Snapshot<S>>)
    requires searcher.Valid(task)
    modifies searcher.Repr()
    ensures searcher.Valid(task)
    ensures steps == |history| <= fuel
    ensures Follows(task, history, snapshots)
    ensures snapshots[0] == old(searcher.State()) && snapshots[steps] == searcher.State()
    ensures result.None? ==> steps == fuel && IntendedRunning(task, history, peakMemory, elapsed, usage, timeLimit, memoryLimit)
    ensures result.Some? ==> IntendedStopped(task, history, result.value, peakMemory, elapsed, usage, timeLimit, memoryLimit)
  {
    result := None;
    steps := 0;
    peakMemory := 0;
    history := [];
    snapshots := [searcher.State()];
    while steps < fuel && result.None?
      invariant searcher.Valid(task)
      invariant steps == |history| <= fuel
      invariant Follows(task, history, snapshots)
      invariant snapshots[0] == old(searcher.State()) && snapshots[steps] == searcher.State()
      invariant result.None? ==> IntendedRunning(task, history, peakMemory, elapsed, usage, timeLimit, memoryLimit)
      invariant result.Some? ==> IntendedStopped(task, history, result.value, peakMemory, elapsed, usage, timeLimit, memoryLimit)
    {
      ghost var before := history;
      result, peakMemory, history := IntendedIteration(searcher, task, steps + 1, peakMemory, history, elapsed, usage, timeLimit, memoryLimit);
      FollowsExtend(task, before, snapshots, history, searcher.State());
      snapshots := snapshots + [searcher.State()];
      steps := steps + 1;
    }
  }

  /** A task whose initial state is not a goal and has no successors. */
  ghost predicate DeadEnd<S>(task: Task<S>) {
    !task.Covers(task.init) && task.successors(task.init) == []
  }

  /** The state `Generate` gives the lazy greedy strategy. */
  function LazyStart<S(==)>(task: Task<S>, h: S -> nat): Snapshot<S> {
    LazyState(h, Root(task.init), [Heaps.Element(0, 0)])
  }

  /**
   * The lazy greedy strategy stepped on a dead end: the first step expands the initial
   * state and finds nothing new (`Unfinished`), leaving the heap empty; every later step
   * finds it empty (`Unsolvable`).
   */
  lemma {:induction false} DeadEndSteps<S>(task: Task<S>, h: S -> nat, history: seq<SearchResult<S>>, snapshots: seq<Snapshot<S>>)
    requires DeadEnd(task) && Follows(task, history, snapshots) && snapshots[0] == LazyStart(task, h)
    ensures forall k :: 1 <= k <= |history| ==> snapshots[k] == LazyState(h, Root(task.init), [])
    ensures forall k :: 0 <= k < |history| ==> history[k] == if k == 0 then Err(Unfinished) else Err(Unsolvable)
    decreases |history|
  {
    if history != [] {
      var n := |history|;
      DeadEndSteps(task, h, history[..n - 1], snapshots[..n]);
      assert forall k :: 0 <= k < n - 1 ==> history[..n - 1][k] == history[k];
      assert forall k :: 0 <= k < n ==> snapshots[..n][k] == snapshots[k];
      if n == 1 {
        var heap := [Heaps.Element(0, 0)];
        assert Lgbfs.Top(heap) == 0;
        assert Root(task.init).InsertAll([], 0) == Root(task.init);
        assert Remove(heap, 0) + Lgbfs.Shared(1, 1, h(task.init)) == [];
      }
    }
  }

  /**
   * On a dead end with neither limit set, the loop as written goes on after every step
   * of the strategy `Generate` builds for LGBFS: it never stops, so `Solve` ends only
   * when its fuel runs out.
   */
  lemma SolveNeverReturnsOnDeadEnd<S>(task: Task<S>, h: S -> nat, history: seq<SearchResult<S>>, snapshots: seq<Snapshot<S>>,
                                      elapsed: nat -> nat, usage: nat -> Option<nat>)
    requires DeadEnd(task) && Follows(task, history, snapshots) && snapshots[0] == LazyStart(task, h)
    ensures Continued(history, elapsed, usage, None, None)
    ensures forall result, peak :: !Stopped(task, history, result, peak, elapsed, usage, None, None)
  {
    DeadEndSteps(task, h, history, snapshots);
    ContinuedEveryStep(history, elapsed, usage, None, None);
  }

  /**
   * On the same dead end the intended loop cannot go on after its second step, whatever
   * the limits: `SolveIntended` given fuel for two steps returns.
   */
  lemma {:induction false} SolveIntendedStopsOnDeadEnd<S>(task: Task<S>, h: S -> nat, history: seq<SearchResult<S>>,
                                                         snapshots: seq<Snapshot<S>>, elapsed: nat -> nat, usage: nat -> Option<nat>,
                                                         timeLimit: Option<nat>, memoryLimit: Option<nat>)
    requires DeadEnd(task) && Follows(task, history, snapshots) && snapshots[0] == LazyStart(task, h)
    requires |history| >= 2
    ensures !IntendedContinued(history, elapsed, usage, timeLimit, memoryLimit)
    decreases |history|
  {
    var n := |history|;
    if n == 2 {
      DeadEndSteps(task, h, history, snapshots);
    } else {
      SolveIntendedStopsOnDeadEnd(task, h, history[..n - 1], snapshots[..n], elapsed, usage, timeLimit, memoryLimit);
    }
  }

  /**
   * The dead end run end to end: `generate` builds the lazy greedy strategy and the loop
   * runs with no limits. The loop as written returns nothing whatever the fuel; the
   * intended loop, given fuel for two steps, returns `Unsolvable` after exactly two.
   */
  method SolveDeadEnd<S(==)>(task: Task<S>, heuristic: Heuristics.HeuristicKind, elapsed: nat -> nat,
                             usage: nat -> Option<nat>, fuel: nat)
    returns (written: Option<SearchResult<S>>, intended: Option<SearchResult<S>>, intendedSteps: nat)
    requires DeadEnd(task)
    ensures written == None
    ensures fuel >= 2 ==> intended == Some(Err(Unsolvable)) && intendedSteps == 2
  {
    var searcher := Generate(task, LGBFS(heuristic));
    var steps, peak;
    ghost var history, snapshots;
    written, steps, peak, history, snapshots := Solve(task, None, None, searcher, elapsed, usage, fuel);
    SolveNeverReturnsOnDeadEnd(task, searcher.lgbfs.h, history, snapshots, elapsed, usage);

    searcher := Generate(task, LGBFS(heuristic));
    intended, intendedSteps, peak, history, snapshots := SolveIntended(task, None, None, searcher, elapsed, usage, fuel);
    DeadEndSteps(task, searcher.lgbfs.h, history, snapshots);
    if intendedSteps >= 2 {
      SolveIntendedStopsOnDeadEnd(task, searcher.lgbfs.h, history, snapshots, elapsed, usage, None, None);
    }
  }
}
