# seeker search core in Dafny

A model of the search-and-heuristic engine of the seeker classical planner. It covers:

- the four frontier strategies over a deduplicated state table. Breadth-first (`BFS`, a FIFO queue), depth-first (`DFS`, a LIFO stack), eager greedy best-first (`GBFS`, a heap ordered by each successor's own estimate) and lazy greedy best-first (`LGBFS`, a heap in which a node's children share the estimate of the node they were generated from);
- the resource-bounded `solve` driver and the `generate` factory that builds a strategy;
- the search `Error` type and its display texts;
- the GoalCount, Add and Constant heuristics and the heuristic factory;
- the GoalGraph heuristic: weighted backward-chaining trees, one per goal literal, estimated by a stack walk.

The planning library underneath (pddllib) is not modelled. A state is an abstract type `S` with equality. A task carries the library's fact query `hasFact` and its successor generator `successors` as functions (`Planning.Task`). `Covers` means that every goal literal holds.

The `FxIndexMap<State, usize>` every strategy keeps is `StateTable.Table`. A state's position in the map is its index, and the mapped value is its parent's index. The root is stored as its own parent, index 0. Each strategy is a class whose `Step` updates the table and the frontier in place. `Step` is proved equal to the strategy's `Next`, one step as a function of the table and the frontier, which is built on `Table.InsertAll`, a function that offers the successors in order and keeps the first discoverer of each state. `Valid` is preserved: every parent comes before its child, no state is stored twice, every entry is a successor of its parent, and the frontier holds each discovered but unexpanded index exactly once. A trace to a goal-covering entry is a plan for the task (`Planning.IsPlan`).

The driver reads the wall clock and the process's memory usage. Here they are the inputs `elapsed(n)` and `usage(n)`: the readings right after the `n`-th step. `Search.Advance` is one strategy step on a `Snapshot` of the strategy's state. `solve` is proved to record exactly the results of stepping the strategy from its state on entry (`Search.Follows`).

GBFS ties go to the larger index, although one might expect the lower (earlier discovered) index to win among equal estimates. The code's `Ord` (src/search/gbfs.rs:13-19) compares `self.index` with `other.index` in a max-heap, so the larger index is popped first. The model follows the code (`Gbfs.TopIsSmallestEstimateLatestIndex`).

One would expect `solve` to return `Unsolvable` as soon as a strategy reports it, since no later step can find a plan. The loop in src/search/mod.rs does not; see Findings.

## Model

| member | source | states |
|---|---|---|
| Planning.Unmet | src/heuristic/goal_count.rs:22-25 | the number of unmet goal literals is at most the goal's length, and is 0 exactly when every literal holds |
| Planning.UnmetIsCardinality | src/heuristic/goal_count.rs:22-25 | the filter/count equals the size of the set of positions whose literal has the wrong truth value in the state |
| Planning.UnmetZeroIffCovers | src/heuristic/add.rs:14-17 | on the task's own goal, the count is 0 exactly on states that cover the goal |
| SearchErrors.DisplayTexts | src/search/error.rs:13-21 | the four variants display as "Unfinished", "Unsolvable", "Out of time" and "Out of memory", and two variants display alike only when they are the same variant |
| SearchErrors.Error.Display | src/search/error.rs:13-21 | each variant's text; its partner `DisplayTexts` shows the four texts and that no two variants share one |
| SearchErrors.Flatten | src/search/bfs.rs:51 | a strategy's `None` (not finished) becomes `Err(Unfinished)`; `Some(result)` becomes `result` |
| StateTable.Root | src/search/bfs.rs:17-24 | a new table holds exactly the initial state, at index 0 with parent 0 |
| StateTable.RootValid | src/search/bfs.rs:19-21 | the new table satisfies the table invariant |
| StateTable.Table.InsertAll | src/search/bfs.rs:40-50 | the successor loop: the old table is a prefix of the new one; every new entry is a successor that was not stored before, with the expanded index as parent; every successor is stored afterwards; when all were already stored, the table is unchanged |
| StateTable.InsertAllStep | src/search/bfs.rs:41-49 | one more successor: a stored state is skipped; any other state is appended at the next index with the expanded index as parent |
| StateTable.InsertAllValid | src/search/bfs.rs:40-50 | inserting the successors of a stored state keeps parents before children, stored states distinct and every entry a successor of its parent |
| StateTable.Table.Trace | src/search/bfs.rs:36 | the trace to entry `i` starts at the root's state, ends at entry `i`'s state, and has at most `i + 1` states |
| StateTable.TraceIsPath | src/search/bfs.rs:36 | each state of a trace is a successor of the state before it |
| StateTable.SolvedTraceIsPlan | src/search/bfs.rs:34-37 | the trace to a goal-covering entry of a table rooted at the initial state is a plan for the task |
| StateTable.FrontierRemove | src/search/bfs.rs:29-32 | popping any frontier entry keeps every discovered index either on the frontier or closed, never both |
| StateTable.FrontierExtend | src/search/bfs.rs:40-50 | pushing the indices of newly discovered entries keeps the frontier duplicate-free and in range |
| Bfs.BFS.constructor | src/search/bfs.rs:17-24 | the table is the root table and the queue is `[0]` |
| Bfs.Next | src/search/bfs.rs:28-52 | one step as a function of table and queue: an empty queue gives Unsolvable and changes nothing; a goal-covering front gives the trace to it and is dequeued; otherwise the front's successors are inserted, their new indices are queued at the back in discovery order, and the result is `None`. Its partners are `NextFits` and `BFS.Step` |
| Bfs.NextFits | src/search/bfs.rs:28-52 | a step from a valid table whose queue holds stored indices leaves the same true of the new table and queue |
| Bfs.BFS.Step | src/search/bfs.rs:28-52 | the result, the new table and the new queue are exactly `Next` of the old table and queue; the table invariant and the frontier bookkeeping are preserved |
| Bfs.BFS.Insert | src/search/bfs.rs:40-50 | the loop builds exactly `InsertAll` and appends the new indices to the queue |
| Dfs.LastDiscoveredIsNext | src/search/dfs.rs:27-47 | after an expansion that discovered entries, the next index popped is the last one discovered |
| Dfs.DFS.constructor | src/search/dfs.rs:15-22 | the table is the root table and the stack is `[0]` |
| Dfs.Next | src/search/dfs.rs:26-50 | as `Bfs.Next`, but the index is popped from the top of the stack and new indices are pushed on the same end |
| Dfs.NextFits | src/search/dfs.rs:26-50 | a step from a valid table whose stack holds stored indices leaves the same true of the new table and stack |
| Dfs.DFS.Step | src/search/dfs.rs:26-50 | the result, the new table and the new stack are exactly `Next` of the old ones; the invariants are preserved |
| Dfs.DFS.Insert | src/search/dfs.rs:38-48 | the loop builds exactly `InsertAll` and pushes the new indices in discovery order |
| Gbfs.Cmp | src/search/gbfs.rs:13-19 | an element is greater, so popped first, exactly when its estimate is smaller, or equal with a larger index; it is less in the mirrored case |
| Gbfs.CmpIsTotalOrder | src/search/gbfs.rs:13-19 | the element order is antisymmetric and transitive, and equal only on equal elements |
| Gbfs.Top | src/search/gbfs.rs:51-54 | the popped element is one no other element is greater than |
| Gbfs.TopIsSmallestEstimateLatestIndex | src/search/gbfs.rs:13-19 | the popped element has the smallest estimate, and the largest index among elements with that estimate |
| Gbfs.TopIsUnique | src/search/gbfs.rs:13-19 | with distinct indices on the heap, the element popped is determined |
| Gbfs.EstimatedExtend | src/search/gbfs.rs:64-78 | pushing each new entry with its own state's estimate keeps every heap element's estimate equal to its state's |
| Gbfs.GBFS.constructor | src/search/gbfs.rs:35-46 | the table is the root table and the heap is `[(0, 0)]` |
| Gbfs.Next | src/search/gbfs.rs:50-81 | one step: an empty heap gives Unsolvable and changes nothing; a goal-covering top gives its trace and is removed; otherwise the top's successors are inserted, the new ones are pushed with their own estimates, and the result is `None`. Its partners are `NextFits` and `GBFS.Step` |
| Gbfs.NextFits | src/search/gbfs.rs:50-81 | a step from a valid table whose heap holds stored indices leaves the same true of the new table and heap |
| Gbfs.GBFS.Step | src/search/gbfs.rs:50-81 | the result, the new table and the new heap are exactly `Next` of the old ones, and the heuristic is called `Evaluations` times: once per successor of an expanded node, duplicates included, and not at all otherwise. The invariants, including every heap estimate being its own state's, are preserved |
| Gbfs.GBFS.Insert | src/search/gbfs.rs:64-78 | the loop builds exactly `InsertAll`, pushes one element per new entry, and calls the heuristic once per successor |
| Lgbfs.Cmp | src/search/lgbfs.rs:14-18 | an element is greater, so popped first, exactly when its estimate is smaller, and less exactly when it is larger |
| Lgbfs.CmpIgnoresIndex | src/search/lgbfs.rs:14-18 | the element order compares estimates only: two elements are equal in it exactly when their estimates are equal |
| Lgbfs.Top | src/search/lgbfs.rs:46 | the popped element has the smallest estimate on the heap |
| Lgbfs.InheritedExtend | src/search/lgbfs.rs:53-65 | children pushed with the estimate of the node they were generated from keep every element's estimate equal to its parent's estimate |
| Lgbfs.LGBFS.constructor | src/search/lgbfs.rs:33-41 | the table is the root table and the heap is `[(0, 0)]` |
| Lgbfs.Next | src/search/lgbfs.rs:45-67 | one step: an empty heap gives `Err(Unsolvable)`; a goal-covering top gives its trace without being evaluated; otherwise the top's new successors are inserted and pushed with the top's one estimate, and the result is `Err(Unfinished)`. Its partners are `NextFits` and `LGBFS.Step` |
| Lgbfs.NextFits | src/search/lgbfs.rs:45-67 | a step from a valid table whose heap holds stored indices leaves the same true of the new table and heap |
| Lgbfs.LGBFS.Step | src/search/lgbfs.rs:45-67 | the result, the new table and the new heap are exactly `Next` of the old ones, and the heuristic is called once for an expanded node and never otherwise. The invariants, including every heap estimate being its parent's, are preserved |
| Lgbfs.LGBFS.Insert | src/search/lgbfs.rs:53-65 | the loop builds exactly `InsertAll` and pushes every new entry with the same estimate |
| Search.Generate | src/search/mod.rs:40-46 | BFS, GBFS and LGBFS each build their strategy, rooted at the task's initial state; the greedy ones evaluate with the heuristic the kind names; there is no DFS |
| Search.Advance | src/search/mod.rs:59 | one `step` of whichever strategy the searcher holds, as that strategy's `Next`, with `None` read as Unfinished; its partners are `AdvanceFits` and `Search.Step` |
| Search.AdvanceFits | src/search/mod.rs:59 | a step leaves a strategy state a further step can start from |
| Search.FollowsExtend | src/search/mod.rs:58-85 | a run of steps, each the `Advance` of the state before it, is extended by one more such step |
| Search.Step | src/search/mod.rs:59 | the result and the strategy's new state are `Advance` of its old state; the strategy stays valid; a plan it returns is a plan for the task; its only errors are Unfinished and Unsolvable |
| Search.LimitCheck | src/search/mod.rs:64-84 | OutOfTime exactly when a time limit is set and strictly exceeded. Otherwise OutOfMemory exactly when the step number is a multiple of 16, a reading is available, a limit is set, and the reading exceeds the limit times 1000000 |
| Search.CheckLimits | src/search/mod.rs:64-84 | the checks in code order give `LimitCheck`; the peak takes this step's reading unless the time limit ended the loop first |
| Search.Outcome | src/search/mod.rs:59-85 | `Ok` ends the loop with no limit checked; an error ends it only through a limit, so the loop never returns Unsolvable or Unfinished |
| Search.NoLimitsStopOnlyOnPlan | src/search/mod.rs:59-85 | with no limit set, a step ends the loop exactly when it returns `Ok` |
| Search.Peak | src/search/mod.rs:71-76 | the running maximum of the readings on steps 16, 32, …; its partner `PeakIsMaximum` states it |
| Search.PeakIsMaximum | src/search/mod.rs:71-76 | the peak is at least every reading taken on steps 16, 32, …, and is one of those readings unless it is 0 |
| Search.Decide | src/search/mod.rs:61-84 | the rest of the loop body, given the step result: what the loop does next is the step's `Outcome`, and the peak takes this step's reading unless a plan or the time limit ended the loop first |
| Search.ContinuedEveryStep | src/search/mod.rs:58-85 | the loop went on after a run of steps exactly when it went on after each of them |
| Search.Record | src/search/mod.rs:58-85 | a step a strategy can report, taken while the loop is running, leaves it running when its outcome is `None` and stopped with that outcome's result otherwise; the earlier record is unchanged |
| Search.Iteration | src/search/mod.rs:59-84 | one pass of the loop body appends the step's result, which with the strategy's new state is `Advance` of its old state, to the record and keeps the strategy valid: the loop is still running when the pass goes on, and has stopped with the returned result otherwise |
| Search.Solve | src/search/mod.rs:48-89 | within `fuel` steps, the recorded results are those of stepping the strategy from its state on entry to its state on return (`Follows`); when the loop returns, it went on after every step but the last, its result is the `Outcome` of the last step, a returned plan is a plan for the task, and the peak is the largest reading taken; when the fuel runs out, it went on after every step |
| Search.UnsolvableDoesNotStop | src/search/mod.rs:61-63 | a step reporting Unsolvable does not end the loop when no limit is exceeded |
| Search.IntendedOutcome | src/search/mod.rs:59-85 | the corrected loop ends on `Ok` and on Unsolvable, and only Unfinished goes on to the limit checks |
| Search.IntendedStopsOnFinalResult | src/search/mod.rs:59-85 | the corrected loop goes on exactly when the step is Unfinished and no limit is exceeded |
| Search.IntendedDecide | src/search/mod.rs:61-84 | `Decide` for the corrected loop, which also returns Unsolvable before the limit checks |
| Search.IntendedRecord | src/search/mod.rs:58-85 | `Record` for the corrected loop: a stop on Unsolvable is the step's own report |
| Search.IntendedIteration | src/search/mod.rs:59-84 | one pass of the corrected loop body, as for `Iteration` |
| Search.SolveIntended | src/search/mod.rs:48-89 | `Solve` with the corrected loop, with the same tie to the strategy's steps: it also returns Unsolvable, and only when the last step reported it |
| Search.DeadEndSteps | src/search/lgbfs.rs:45-67 | on a task whose initial state is not a goal and has no successors, the lazy greedy strategy `generate` builds reports Unfinished on its first step and Unsolvable on every later one, with an empty heap |
| Search.SolveNeverReturnsOnDeadEnd | src/search/mod.rs:58-85 | on that dead end with no limits, the loop as written goes on after every step and never stops, whatever the run |
| Search.SolveIntendedStopsOnDeadEnd | src/search/mod.rs:58-85 | on that dead end the intended loop cannot go on after two steps, whatever the limits |
| Search.SolveDeadEnd | src/search/mod.rs:40-89 | end to end from `generate`: with no limits the loop as written returns nothing for any fuel, and the intended loop returns Unsolvable after exactly two steps |
| ConstantHeuristic.Constant.Estimate | src/heuristic/constant.rs:16-18 | the estimate is the stored value |
| ConstantHeuristic.EstimateIgnoresTaskAndState | src/heuristic/constant.rs:16 | the estimate is the same for every task and state |
| AddHeuristic.Add.Estimate | src/heuristic/add.rs:13-18 | the estimate is at most the goal's length, and is 0 exactly when the state covers the goal |
| AddHeuristic.EstimateCountsUnmetGoals | src/heuristic/add.rs:13-18 | the estimate is the number of goal literals whose `has_fact` value differs from the required one |
| GoalCountHeuristic.GoalCount.New | src/heuristic/goal_count.rs:12-17 | the best estimate starts at `usize::MAX` and the estimate count at 0 |
| GoalCountHeuristic.GoalCount.Default | src/heuristic/goal_count.rs:5 | both counters start at 0 |
| GoalCountHeuristic.GoalCount.Estimate | src/heuristic/goal_count.rs:21-32 | the result is the number of goal literals that do not hold: at most the goal's length, and 0 exactly when all hold. The best estimate becomes the minimum of itself and the result, and the count grows by one |
| Gripper.UnmetOfFour | src/heuristic/goal_count.rs:22-25 | the count over a four-literal goal is the number of its four literals that do not hold |
| Gripper.UnsolvedCount | tests/heuristic/goal_count.rs:7 | on the unsolved gripper state, four goals are unmet |
| Gripper.HalfSolvedCount | tests/heuristic/goal_count.rs:8 | on the half-solved gripper state, two goals are unmet |
| Gripper.SolvedCount | tests/heuristic/goal_count.rs:9 | on the solved gripper state, no goal is unmet |
| Heuristics.ConstantKind | src/heuristic/mod.rs:12-15 | the Constant kind's value is 0 when none is given |
| Heuristics.Expected | src/heuristic/mod.rs:25-31 | a Constant kind promises its value; GoalCount and Add promise the number of unmet goal literals |
| Heuristics.Generate | src/heuristic/mod.rs:25-31 | Constant keeps its value, GoalCount is built by `Default` with both counters 0, and Add by `Add::new`. The built heuristic's estimate is what its kind promises, for every state |
| Heuristics.Estimate | src/heuristic/mod.rs:21-23 | the value of the `Heuristic` trait's `estimate` for each kind; its partner `Heuristics.Generate` states it is what the kind promises |
| Heuristics.EstimateDependsOnGoalOnly | src/heuristic/mod.rs:25 | a built heuristic's estimate depends only on the goal, the fact query and the state, not on the rest of the task |
| GoalGraphHeuristic.FindEffect | src/heuristic/goal_graph.rs:67-71 | the position of the first effect atom with the literal's predicate and truth value, or none when no atom has both |
| GoalGraphHeuristic.Fixed | src/heuristic/goal_graph.rs:90-98 | the parameter bindings an effect atom fixes from the achieved fact; its partners `FixedBindsEveryParameter`, `FixedComesFromArguments` and `FixedLastPositionWins` state them |
| GoalGraphHeuristic.FixedBindsEveryParameter | src/heuristic/goal_graph.rs:90-98 | every parameter argument of the effect atom binds its parameter |
| GoalGraphHeuristic.FixedComesFromArguments | src/heuristic/goal_graph.rs:90-98 | every binding is to the fact's object at a position where the atom has that parameter |
| GoalGraphHeuristic.FixedLastPositionWins | src/heuristic/goal_graph.rs:90-98 | a parameter is bound to the object at its last position in the atom: a later position overrides an earlier one |
| GoalGraphHeuristic.ProductMembership | src/heuristic/goal_graph.rs:127 | a tuple is in the Cartesian product exactly when it takes each position's element from that position's choices |
| GoalGraphHeuristic.Populate | src/heuristic/goal_graph.rs:112-129 | `populate_atom`: the groundings of an atom; its partner `PopulateMembership` states exactly which are produced |
| GoalGraphHeuristic.PopulateMembership | src/heuristic/goal_graph.rs:112-129 | a grounding is produced exactly when it has one object per argument: the constant, the fixed object, or any object of the parameter's type |
| GoalGraphHeuristic.Ground | src/heuristic/goal_graph.rs:106 | each grounding becomes a fact of the atom's predicate with the atom's truth value |
| GoalGraphHeuristic.ExtractFacts | src/heuristic/goal_graph.rs:89-110 | `extract_facts`: the grounded non-static preconditions of an action under the bindings the achieving atom fixes; its partners `FromPreconditionsSource` and `ContributionNonStatic` state their shape |
| GoalGraphHeuristic.FromPreconditionsSource | src/heuristic/goal_graph.rs:99-109 | every produced literal has a non-static predicate and the predicate and truth value of one of the action's preconditions |
| GoalGraphHeuristic.Contribution | src/heuristic/goal_graph.rs:66-76 | what one action adds to the candidates: the facts of its first achieving effect, or nothing; its partners `ContributionNonStatic` and `NonAchievingActionContributesNothing` state it |
| GoalGraphHeuristic.ContributionNonStatic | src/heuristic/goal_graph.rs:66-76 | the literals one action contributes through its first achieving effect never have a static predicate |
| GoalGraphHeuristic.Candidates | src/heuristic/goal_graph.rs:63-77 | the candidate literals over all actions in order; its partners `CandidatesNonStatic` and `CandidatesOf` state them |
| GoalGraphHeuristic.CandidatesNonStatic | src/heuristic/goal_graph.rs:63-77 | no candidate literal, over all actions, has a static predicate |
| GoalGraphHeuristic.NonAchievingActionContributesNothing | src/heuristic/goal_graph.rs:66-75 | an action with no effect achieving the literal adds no candidate |
| GoalGraphHeuristic.CandidatesOf | src/heuristic/goal_graph.rs:63-77 | on a well-formed task the candidate function is defined for every literal and gives that literal's candidates |
| GoalGraphHeuristic.Generate | src/heuristic/goal_graph.rs:62-87 | the node keeps its literal and weight. It has children exactly when `0 < #candidates <= weight`, one per candidate in order, each with weight `weight / #candidates` |
| GoalGraphHeuristic.GenerateAll | src/heuristic/goal_graph.rs:82 | one node per literal, in order, each with the given weight |
| GoalGraphHeuristic.New | src/heuristic/goal_graph.rs:25-30 | one tree per goal literal, each rooted at that literal with the full weight |
| GoalGraphHeuristic.GenerateConservesWeight | src/heuristic/goal_graph.rs:78-86 | the leaves of a generated tree weigh at most the tree's weight in total |
| GoalGraphHeuristic.GenerateAllConservesWeight | src/heuristic/goal_graph.rs:78-86 | the leaves of a generated forest weigh at most the weight times the number of literals |
| GoalGraphHeuristic.EvenShare | src/heuristic/goal_graph.rs:80-81 | splitting a weight among at most that many candidates gives each at least 1 and loses nothing |
| GoalGraphHeuristic.GenerateWeighted | src/heuristic/goal_graph.rs:80-82 | in a generated tree a node of weight 0 is a leaf and every child weighs at least 1 |
| GoalGraphHeuristic.GenerateAllWeighted | src/heuristic/goal_graph.rs:80-82 | the same for every tree of a generated forest |
| GoalGraphHeuristic.GenerateFuelMonotone | src/heuristic/goal_graph.rs:62-87 | more nesting depth builds the same tree, so the depth bound only cuts off a result and never changes one |
| GoalGraphHeuristic.GenerateAllFuelMonotone | src/heuristic/goal_graph.rs:62-87 | the same for a forest |
| GoalGraphHeuristic.Estimate | src/heuristic/goal_graph.rs:44-59 | the stack walk returns the recursive sum: 0 for a node whose literal holds (its subtree is not visited), the weight of an unmet leaf, and the children's sum for an unmet inner node |
| GoalGraphHeuristic.Remaining | src/heuristic/goal_graph.rs:44-58 | the recursive sum the estimate walk computes; its partners `Estimate` and the `Remaining…` lemmas state it |
| GoalGraphHeuristic.RemainingAppend | src/heuristic/goal_graph.rs:44-58 | the sum over two forests is the sum of their sums |
| GoalGraphHeuristic.RemainingOrderFree | src/heuristic/goal_graph.rs:44-58 | the estimate does not depend on the order the trees are walked in |
| GoalGraphHeuristic.RemainingAtMostLeafWeight | src/heuristic/goal_graph.rs:44-58 | the estimate is at most the total leaf weight |
| GoalGraphHeuristic.RemainingZeroWhenRootsHold | src/heuristic/goal_graph.rs:47-51 | a forest whose root literals all hold contributes nothing |
| GoalGraphHeuristic.EstimateBound | src/heuristic/goal_graph.rs:44-58 | a goal graph's estimate is at most the number of goals times the weight, and 0 on a state that covers the goal |
| GoalGraphHeuristic.Size | src/heuristic/goal_graph.rs:32-40 | the recursive node count of a forest; its partners `CountNodes` and `SizeAppend` state it |
| GoalGraphHeuristic.CountNodes | src/heuristic/goal_graph.rs:32-40 | the stack walk counts every node of every tree exactly once |
| GoalGraphHeuristic.SizeAppend | src/heuristic/goal_graph.rs:32-40 | the node count of two forests is the sum of their counts |

## Left out

- pddllib is not part of this model: its `State`, `Task`, successor generator, `covers`, `has_fact` and `has_nary` become an abstract state type and two functions carried by the task. State equality stands for hashing in the `FxIndexMap`.
- The `trace` function the strategies call is not part of this model. `Table.Trace` walks the parent links back to index 0 and returns the states in root-to-node order.
- indexmap, `VecDeque`, `Vec` and `BinaryHeap` are sequences. A heap pop is `Top`, the position of a maximal element under the element order. Heap layout is not modelled.
- Lgbfs.Top: among several elements with the smallest estimate, the real heap returns one that depends on its layout. The model picks the earliest, and every contract about a step relies only on the smallest-estimate property.
- Wall-clock time and `memory_stats` are the inputs `elapsed` and `usage`.
- Search.Solve: the loop is bounded by a `fuel` step count and returns `None` when the fuel runs out. A run that does not terminate is described by `Running` holding after every step taken, not by divergence.
- GoalGraphHeuristic.Generate: `generate` may recurse forever. One candidate keeps the weight unchanged, so a self-supporting literal never shrinks. The model bounds the nesting depth by `fuel` and returns `None` when it is not enough; `GenerateFuelMonotone` shows the bound never changes a tree it does build.
- GoalGraphHeuristic.Fixed: a fact with fewer objects than the effect atom has arguments makes `fact.args()[i]` panic. The model skips those positions instead.
- GoalGraphHeuristic.Generate: the candidate list is passed in as a function (`CandidatesOf(task)` in `New`), so that the tree-building proofs do not depend on how candidates are found.
- GoalGraphHeuristic.Populate: the Cartesian product of zero argument lists is one empty tuple, the mathematical product. Some itertools versions yield no tuple there.
- GoalGraphHeuristic.WellFormed: the model requires what a translated task guarantees, namely that parameter indices and type indices are in range. A task breaking it makes the source panic.
- The GoalGraph `new` prints the graph size; printing is left out everywhere, including every other `println!` and the `Drop` reports.
- The evaluator's hit counts and latency histograms come from the metered crate and are left out. The evaluator is modelled as the heuristic function itself, because `Evaluator::estimate` forwards the heuristic's value. The ghost `evaluations` counters of the greedy strategies count its calls.
- Heuristics.Estimate: the dispatch reads GoalCount's count as a value and does not update its `best_estimate` and `estimates` counters. In the source the `Heuristic` trait takes `&self` and GoalCount's `estimate(&mut self, state, goal)` does not match it. The counters are modelled only by `GoalCount.Estimate`.
- The snapshot's trait `step` returns `Result`, but BFS, DFS and GBFS return `Option<Result>`. `Search.Step` maps the second encoding onto the first with `Flatten`. GBFS takes a `Box<dyn Heuristic>` while `generate` passes an `Evaluator`; both are the heuristic function here.
- `usize` arithmetic is unbounded: no overflow of step counts, weights, estimates or `memory_limit * 1000000` is modelled.
- Bfs.BFS.Step: the shortest-plan property of breadth-first search is not proved; the model proves that a returned plan is a plan.
- The command-line front end, PDDL translation and plan output are left out.

## Findings

| source | as written | input that shows it | evidently intended | confidence | as-written member | corrected member |
|---|---|---|---|---|---|---|
| src/search/mod.rs:61-63 | only `Ok` ends the loop; an `Err(Unsolvable)` from the strategy goes on to the limit checks and the loop steps again | an initial state with no successors that does not cover the goal, with no time or memory limit: step 1 is Unfinished, every later step is Unsolvable, and `solve` never returns (`Search.SolveDeadEnd` runs it end to end) | `solve` returns `Err(Unsolvable)` as soon as a step reports it | high that the code behaves so; not executed | Search.SolveNeverReturnsOnDeadEnd | Search.SolveIntended |
