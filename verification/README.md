# Canon algorithms, IR and event log: a verified model

This project models the algorithmic core of the Canon workspace in Dafny and proves what that core is
relied on for. Two layers are covered.

**The `algorithms` crate.** Push-relabel maximum flow, Kosaraju components, the Kahn-style cycle report and
layering, A\*, Dijkstra and Bellman-Ford, dominators, reaching definitions and use-def chains, AC-3,
union-find and the equality solver on top of it, KMP and Rabin-Karp, delta debugging, the LRU cache and the
bucket CSR. Each mutable loop of the source is a Dafny method or class with the same steps, and is proved
against a declarative definition: flows and cuts, paths, walks and their costs, greatest and least fixpoints,
equivalence closures, naive search, subsequences.

**The Canon IR and the rustc event log.** Type interning as hash-consing, the two other CSR builders with
their validator, and the event state machine with its writer, reader and replay check.

How the files fit together:

- `FlowNetwork`, `ResidualLists`, `PushRelabel`: max-flow/min-cut theory, the residual lists as a carrier of
  a preflow, and the algorithm.
- `Digraph`, `Scc`, `Kahn`, `CycleReport`, `Scheduling`: paths, components, peeling by in-degree, cycles,
  layers.
- `WeightedPaths`, `SearchFrontier`, `AStar`, `ShortestPaths`: walks with costs, the invariant shared by the
  lazy-heap searches, and the three algorithms.
- `Dominators`, `Dataflow`, `UseDef`: fixpoints over control-flow graphs and their path meaning.
- `Ac3`, `UnionFind`, `Unification`, `StringSearch`, `DeltaDebug`, `Lru`: one component each.
- `PathForm`, `TypeArena`, `TypeIntern`: the stored form of a path, what a type node denotes, and interning.
- `CsrRows`, `Csr`: rows of an edge list and the stable sort; three builders, readers, transposition, validation.
- `EventLog`: events, states, numbering, replay.
- `Machine`, `Options`, `Finite`, `Sums`, `Lists`: shared vocabulary.

`dafny verify dfyconfig.toml` checks everything.

Conventions of the model:

- Machine integers are written out. Where the code can overflow, the bound is a precondition
  (`PushRelabel.Bounded`, `ShortestPaths.NoOverflow`, the `U32_MAX` limit of the counting
  CSR builder); where it saturates or truncates, so does the model (`SaturatingAdd`, `AsU32`, `AsI32`).
- An index that the source would panic on is a precondition; an index that the source tests for is a branch.
- A binary heap is a multiset with a pop that returns a first entry; ties that the source's ordering leaves
  open are open here too. The iteration order of a hash map or hash set is an arbitrary choice, so every
  result holds for all orders.
- The local buffers of an algorithm are fields of a class (`Solver`, `FinishPass`, `CollectPass`, `Peeler`)
  where several source functions share them, and local sequences elsewhere.

Findings about the code, each stated as a member of the model:

- `verify_replay` does not clear `removed_edges`, so a log without a session start verifies exactly when
  every edge it removes is also defined in it (`EventLog.FreshLogVerified`).
- A session start does not reset the phase, and a writer in a capture mode without a session start carries
  on an earlier log under its own numbers. A log appended to an earlier one verifies exactly when no session
  overflows the counter, the earlier log did not finish alone, and a session start separates the two
  (`EventLog.AppendedLogVerified`).
- `ac3` never queues the opposite of the arc it revised. On two opposite arcs, every run from every domains
  that answers yes leaves an arc consistent exactly when the arc is skippable: whenever revising the opposite
  arc keeps anything, it keeps a support for each value (`Ac3.SkippableIsExact`, with the condition spelled
  out on at most five values in `Ac3.Skippable`). Transposed arcs are skippable; `Ac3.SkippedArcNeedsTranspose`
  is a run that answers yes with an inconsistent arc. `Ac3.ArcConsistency` says what holds for every
  constraint graph, arc by arc.
- `solve_constraints_cpu` truncates labels to 32 bits. The labels are right exactly when there are at most
  2^33 variables and none below the number of variables beyond 2^32 represents its class
  (`Unification.CutIsExact`): always up to 2^32 variables, and never with fewer constraints than variables
  beyond (`Unification.SolveConstraints`).
- `Csr::from_adj` and `to_adj` pass through `i32`: the lists come back exactly when there are at most i32::MAX
  edges and every neighbour is below 2^31 or is restored by sign extension (`Csr.AdjRoundTrip`).
- `build_csr` cuts row starts to 32 bits. Beyond u32::MAX edges `validate_csr` still accepts whenever the cut
  row starts happen to rise (`Csr.GlobalValid`).
- The comment of `bellman_ford` promises `None` on a negative cycle; over unsigned weights there is none, and
  the result is always `Some` (`ShortestPaths.BellmanFord`).
- Up to u32::MAX edges `validate_csr` rejects what `build_csr` built exactly when an edge has one end in range
  and the other out of range (`Csr.RebuildAndValidate`); an edge with both ends out of range disappears
  silently.
- Interning forgets more than spelling: an array of unknown length is stored as a slice, a path that cannot be
  brought into form becomes a sanitised or a fixed one, and arguments that name the global allocator are left
  out, so types that differ only there cannot be told apart afterwards (`TypeArena.Norm`). `TypeArena.NormIsIdentity` says exactly when nothing is forgotten.
- `add_edge` gives a self-loop's slots reverse indices that point the forward slot at itself, so a self-loop
  never moves flow (`ResidualLists.SlotStores`).

## Model

| member | source | states |
|---|---|---|
| FlowNetwork.Network.FlowAtMostCut | algorithms/src/graph/max_flow.rs:10-51 | No feasible flow is worth more than the capacity of any source-sink cut. |
| FlowNetwork.Network.SaturatedCut | algorithms/src/graph/max_flow.rs:10-51 | A flow whose residual arcs do not cross a cut is worth exactly that cut. |
| FlowNetwork.Network.SourceSendsValue | algorithms/src/graph/max_flow.rs:50 | Conservation: what the sink receives is what the source sends. |
| FlowNetwork.Network.ExcessEscapes | algorithms/src/graph/max_flow.rs:107-117 | A vertex set that holds excess but not the source has a residual arc leaving it. |
| FlowNetwork.Network.ExcessReachesSource | algorithms/src/graph/max_flow.rs:79-117 | In every preflow, a vertex with excess has a residual path to the source. |
| FlowNetwork.HeightGap | algorithms/src/graph/max_flow.rs:25-27 | Pigeonhole: between two vertices n levels apart some level is empty. |
| FlowNetwork.NothingCrossesGap | algorithms/src/graph/max_flow.rs:84 | With a valid labelling no residual arc crosses an empty level. |
| FlowNetwork.HeightBound | algorithms/src/graph/max_flow.rs:107-117 | With a valid labelling and the source at n, a vertex with excess is no higher than 2n - 1. |
| FlowNetwork.HaltingStateIsMaximum | algorithms/src/graph/max_flow.rs:46-50 | A flow with a valid labelling, source at n and sink at 0, equals some cut and is at least every feasible flow. |
| ResidualLists.MateOf | algorithms/src/graph/max_flow.rs:72-77 | The two slots of an arc point at each other and together hold its capacity. |
| ResidualLists.MoveKeepsStore | algorithms/src/graph/max_flow.rs:86-88 | Moving capacity from a slot to its mate keeps the lists in step with the flow, which stays within capacities. |
| ResidualLists.MoveShiftsSurplus | algorithms/src/graph/max_flow.rs:86-90 | A push moves the pushed amount from one end to the other and changes no other balance. |
| ResidualLists.SlotForResidual | algorithms/src/graph/max_flow.rs:84 | Every residual arc of the flow is found as a slot with positive capacity. |
| ResidualLists.MoveKeepsBalance | algorithms/src/graph/max_flow.rs:85-90 | After a push the excess array is again the surplus of the flow. |
| ResidualLists.MoveKeepsLabelling | algorithms/src/graph/max_flow.rs:84-88 | A push one level down keeps the labelling valid. |
| ResidualLists.RaiseKeepsLabelling | algorithms/src/graph/max_flow.rs:107-117 | Raising to one above the lowest residual neighbour keeps the labelling valid. |
| ResidualLists.ExcessHasExit | algorithms/src/graph/max_flow.rs:108-114 | A vertex with excess has a slot with capacity, so relabel always finds a neighbour. |
| ResidualLists.ExcessFits | algorithms/src/graph/max_flow.rs:28-90 | Every excess is bounded by the capacities out of the source, so no addition to an excess overflows i64. |
| ResidualLists.AddKeepsStore | algorithms/src/graph/max_flow.rs:72-77 | add_edge extends the lists by exactly one arc, also for self-loops and parallel arcs. |
| ResidualLists.PrimedLabelling | algorithms/src/graph/max_flow.rs:25-37 | After saturating the source's arcs the labelling with the source at n is valid. |
| PushRelabel.Solver.AddEdge | algorithms/src/graph/max_flow.rs:72-77 | The lists store one more arc. |
| PushRelabel.Solver.PrimeSlot | algorithms/src/graph/max_flow.rs:28-37 | Saturating one source slot keeps store and balance. |
| PushRelabel.Solver.Push | algorithms/src/graph/max_flow.rs:85-93 | A push keeps preflow, labelling and queue invariants, empties the vertex or the slot, and lowers the potential by what it moved. |
| PushRelabel.Solver.Activate | algorithms/src/graph/max_flow.rs:91-93 | After the test on the new excess the queue holds exactly the active vertices, once each. |
| PushRelabel.Solver.Relabel | algorithms/src/graph/max_flow.rs:107-117 | When no slot is admissible, relabel strictly raises the vertex, keeps every invariant, and stays within 2n - 1. |
| PushRelabel.Solver.Discharge | algorithms/src/graph/max_flow.rs:79-105 | The vertex ends without excess, invariants kept, with strict progress in labels or potential. |
| PushRelabel.Solver.Build | algorithms/src/graph/max_flow.rs:17-23 | The lists store exactly the usable input arcs. |
| PushRelabel.Solver.Prime | algorithms/src/graph/max_flow.rs:25-44 | All invariants hold when the main loop starts. |
| PushRelabel.Solver.Drain | algorithms/src/graph/max_flow.rs:46-48 | The main loop terminates with an empty queue and all invariants. |
| PushRelabel.PushKeeps | algorithms/src/graph/max_flow.rs:84-93 | One push: store, balance, labelling, 64-bit range and the drop of the potential. |
| PushRelabel.PrimeKeeps | algorithms/src/graph/max_flow.rs:28-37 | One step of priming: store, balance and 64-bit range, self-loops at the source included. |
| PushRelabel.DrainedIsMaximum | algorithms/src/graph/max_flow.rs:46-50 | With no active vertex left the sink's excess is the value of a maximum flow and of a cut. |
| PushRelabel.MaxFlowPushRelabel | algorithms/src/graph/max_flow.rs:13-51 | The result is the value of a feasible flow and the capacity of a cut, so no feasible flow is larger, as long as the capacities out of the source sum within i64, whatever the others are; 0 for improper terminals. |
| Scc.FinishDominates | algorithms/src/graph/scc.rs:15-29 | Whatever a vertex reaches was finished no later than some vertex of its own component. |
| Scc.FinishPass.DfsFinish | algorithms/src/graph/scc.rs:15-23 | The recursion extends the finish order and keeps its snapshots, with the recursion stack as open vertices. |
| Scc.FinishLast | algorithms/src/graph/scc.rs:15-23 | Appending a vertex whose successors are finished or open extends a finish order. |
| Scc.CollectPass.DfsCollect | algorithms/src/graph/scc.rs:43-51 | What is collected is reachable, newly visited and closed up to visited vertices. |
| Scc.CollectedIsComponent | algorithms/src/graph/scc.rs:39-59 | What is collected in the reversed graph from the latest unvisited vertex is exactly its mutual-reachability class. |
| Scc.ComponentsExtend | algorithms/src/graph/scc.rs:53-59 | A new class extends the partition and no edge enters an earlier part from it. |
| Scc.FinishOrderOf | algorithms/src/graph/scc.rs:11-29 | The first pass lists every vertex in a finish order. |
| Scc.ReverseGraph | algorithms/src/graph/scc.rs:31-37 | The reversed lists hold exactly the reversed edges. |
| Scc.KosarajuScc | algorithms/src/graph/scc.rs:5-62 | The parts are exactly the mutual-reachability classes, each vertex once, and no edge goes from a later part to an earlier one. |
| Kahn.PeeledIsUntangled | algorithms/src/graph/cycle_report.rs:21-34 | Nothing in an order with predecessors first is reachable from a cycle. |
| Kahn.RemainderIsTangled | algorithms/src/graph/cycle_report.rs:21-34 | Where every vertex has a predecessor inside the set, every vertex is reachable from a cycle. |
| Kahn.PendingRelease | algorithms/src/graph/cycle_report.rs:25-33 | Releasing a vertex lowers each in-degree by the number of its edges there. |
| Kahn.Peeler.Count | algorithms/src/graph/cycle_report.rs:12-22 | In-degrees count in-range edges with multiplicity and the queue holds the vertices without any. |
| Kahn.Peeler.Release | algorithms/src/graph/cycle_report.rs:25-33 | Removing a vertex keeps in-degrees and queue exact; what joins the queue is a successor. |
| CycleReport.LeftOverIsTangled | algorithms/src/graph/cycle_report.rs:21-38 | When nothing is queued, the order omits exactly the vertices a cycle reaches. |
| CycleReport.Peel | algorithms/src/graph/cycle_report.rs:12-34 | The order is duplicate-free, has predecessors first and holds exactly the vertices no cycle reaches. |
| CycleReport.ReportedIsCyclic | algorithms/src/graph/cycle_report.rs:41-51 | A component holds a cycle iff it has two vertices or a self-loop. |
| CycleReport.CyclicComponents | algorithms/src/graph/cycle_report.rs:40-51 | The report is exactly the components whose vertices lie on cycles. |
| CycleReport.OrderComplete | algorithms/src/graph/cycle_report.rs:36-38 | The order is complete iff no vertex lies on a cycle. |
| CycleReport.TopologicalSortWithCycles | algorithms/src/graph/cycle_report.rs:6-54 | Order, omissions and reported components as above; no cycle is reported iff the order is complete. |
| Scheduling.LayerIsLongest | algorithms/src/graph/scheduling.rs:23-44 | A vertex of layer d has a path of d edges into it and none longer. |
| Scheduling.LayersAreLongest | algorithms/src/graph/scheduling.rs:6-45 | At the end the layers are exactly the longest-path classes; vertices with unboundedly long paths are in none. |
| Scheduling.RunLevel | algorithms/src/graph/scheduling.rs:23-42 | Releasing a whole level leaves queued exactly the next one, each fed by the level released. |
| Scheduling.TopologicalLayers | algorithms/src/graph/scheduling.rs:6-45 | Layer d holds exactly the vertices whose longest incoming path has d edges. |
| SearchFrontier.FrontierOnWalk | algorithms/src/graph/a_star.rs:23-40 | On any walk either its end is scored as well, or some vertex before is queued at its score with the rest of the walk to go. |
| SearchFrontier.RelaxKeepsFrontier | algorithms/src/graph/a_star.rs:31-38 | A relaxation that queues the head keeps every scored vertex queued or relaxed, stale entries notwithstanding. |
| AStar.ReparentKeepsTrail | algorithms/src/graph/a_star.rs:33-36 | Changing a parent on strict improvement leaves every came_from chain acyclic and leading to the start, zero weights included. |
| AStar.RelaxKeepsExplained | algorithms/src/graph/a_star.rs:32-36 | Scores stay costs of real walks and parents keep accounting for them. |
| AStar.GoalIsOptimal | algorithms/src/graph/a_star.rs:23-26 | With an admissible heuristic the goal's score, when its entry comes out first, is at most the cost of any walk. |
| AStar.DryHeap | algorithms/src/graph/a_star.rs:23-41 | An empty heap means no walk to the goal below the sentinel. |
| AStar.TrailCosts | algorithms/src/graph/a_star.rs:44-53 | A parent chain can be walked at no more than its end's score. |
| AStar.ReconstructPath | algorithms/src/graph/a_star.rs:44-53 | The loop terminates and returns the parent chain from start to goal. |
| AStar.Expand | algorithms/src/graph/a_star.rs:27-39 | Expanding a vertex keeps all invariants and lowers the scores or changes nothing, which bounds re-expansion. |
| AStar.AStarSearch | algorithms/src/graph/a_star.rs:10-42 | Some iff the goal is reachable below u64::MAX; with an admissible heuristic, consistent or not, the cost is the shortest distance and the path is walked at exactly that cost. |
| ShortestPaths.DistancesAreShortest | algorithms/src/graph/dijkstra.rs:22-43 | Below the cut-off the entries are exactly the shortest distances. |
| ShortestPaths.CutoffsAgree | algorithms/src/graph/bellman_ford.rs:21-62 | Two cut-offs of the same distances differ only by the cut-off. |
| ShortestPaths.SettledIsShortest | algorithms/src/graph/dijkstra.rs:29-32 | A heap entry that is not stale carries the shortest distance. |
| ShortestPaths.Dijkstra | algorithms/src/graph/dijkstra.rs:22-43 | Every entry is the shortest distance, or u64::MAX where there is no walk; no addition overflows. |
| ShortestPaths.PassSettlesOne | algorithms/src/graph/bellman_ford.rs:33-49 | While some entry can be improved, a pass makes one more entry final. |
| ShortestPaths.PassGrows | algorithms/src/graph/bellman_ford.rs:33-49 | A pass keeps final entries final and adds one unless all are. |
| ShortestPaths.RelaxAll | algorithms/src/graph/bellman_ford.rs:34-44 | An in-place pass relaxes every edge against the entries before it. |
| ShortestPaths.BellmanFord | algorithms/src/graph/bellman_ford.rs:25-62 | Never None; every entry is the shortest distance cut off at INF, early exit included. |
| ShortestPaths.ShortestBothWays | algorithms/src/graph/bellman_ford.rs:21-62 | Run on one graph, Bellman-Ford's result is Dijkstra's cut off at INF, vertex by vertex. |
| Dominators.FixpointIsSound | algorithms/src/control_flow/dominators.rs:43-73 | At a fixpoint, what is recorded at the end of a path lies on the path. |
| Dominators.EquationKeepsDominators | algorithms/src/control_flow/dominators.rs:57-65 | The equation never removes a true dominator. |
| Dominators.FixpointIsDominance | algorithms/src/control_flow/dominators.rs:43-73 | At a fixpoint reached from above, the recorded sets are exactly dominance. |
| Dominators.Sweep | algorithms/src/control_flow/dominators.rs:53-70 | A sweep shrinks some set or has solved every equation. |
| Dominators.ComputeDominators | algorithms/src/control_flow/dominators.rs:43-73 | dom[n] is the set of vertices on every path from the entry to n along the edges that the caller's map lists, and all vertices for an unreachable n. |
| Dataflow.FixpointIsComplete | algorithms/src/control_flow/dataflow.rs:25-39 | At a fixpoint every definition carried along a path is recorded at its end. |
| Dataflow.FixpointIsReaching | algorithms/src/control_flow/dataflow.rs:18-41 | At a fixpoint reached from below, out and in are exactly the definitions some path carries. |
| Dataflow.Sweep | algorithms/src/control_flow/dataflow.rs:28-38 | A sweep records a missing definition or has solved every equation. |
| Dataflow.ReachingDefinitions | algorithms/src/control_flow/dataflow.rs:18-41 | d is in out[b] iff a path along the listed predecessors from a block whose gen entry holds d reaches b, with d in no later block's kill entry; in[b] likewise for the start of b. |
| UseDef.ExhaustedSearch | algorithms/src/control_flow/use_def.rs:59-81 | A search that ran dry proves that no clear path exists. |
| UseDef.CanReachWithoutRedef | algorithms/src/control_flow/use_def.rs:59-81 | True iff the blocks are equal or a path of at least one edge avoids redefinitions on its inside. |
| UseDef.ChainAt | algorithms/src/control_flow/use_def.rs:46-51 | The chain of one use holds exactly the definitions that reach it. |
| UseDef.BuildUseDefChains | algorithms/src/control_flow/use_def.rs:34-57 | Chains for exactly the defined variables and the uses their map entries list, whatever the iteration order. |
| UseDef.ChainIsReachingDefinitions | algorithms/src/control_flow/use_def.rs:34-81 | A definition is in the chain at u iff a path carries it to the start of u, or u itself defines the variable. |
| UseDef.ChainsAndReachingDefinitions | algorithms/src/control_flow/use_def.rs:34-57 | Run on one graph, the chain at every use is what `reaching_definitions` gives in its in-set, plus the use itself when it defines the variable. |
| Ac3.ReviseKeepsGreatest | algorithms/src/constraints/ac3.rs:212-236 | Revision keeps every arc-consistent choice inside the domains. |
| Ac3.ReviseKeepsArc | algorithms/src/constraints/ac3.rs:30-41 | After a revision that leaves something, a consistent arc that is skippable, or not the opposite one, and is not queued again is still consistent. |
| Ac3.SkippableIsExact | algorithms/src/constraints/ac3.rs:25-44 | On two opposite arcs (or one arc from a variable to itself): over all runs, orders and domains inside the given ones, every yes leaves the arc consistent iff the arc is skippable. |
| Ac3.OppositeArcHarms | algorithms/src/constraints/ac3.rs:36-39 | Where an arc is not skippable, the offending values alone are domains from which a run answers yes with the arc inconsistent. |
| Ac3.TransposedIsSkippable | algorithms/src/constraints/ac3.rs:36-39 | If opposite arcs are transposes of each other, every arc is skippable. |
| Ac3.YesSettles | algorithms/src/constraints/ac3.rs:25-44 | However a run goes, on any constraint graph, a yes leaves every skippable arc consistent. |
| Ac3.SkippedArcNeedsTranspose | algorithms/src/constraints/ac3.rs:25-44 | A concrete run that answers yes with all domains filled and an inconsistent arc. |
| Ac3.SolutionSurvives | algorithms/src/constraints/ac3.rs:25-44 | No value of a solution is removed. |
| Ac3.SettledIsGreatest | algorithms/src/constraints/ac3.rs:25-44 | If every arc is skippable, the settled domains are the greatest arc-consistent ones. |
| Ac3.Revise | algorithms/src/constraints/ac3.rs:212-236 | Exactly the unsupported values of one domain go; revised iff one did. |
| Ac3.KeepIsFilter | algorithms/src/constraints/ac3.rs:212-236 | Each value is judged on its own: those kept stay in their places, as often as they were there. |
| Ac3.ArcConsistency | algorithms/src/constraints/ac3.rs:25-44 | For every queue order: yes leaves filled domains in which each skippable arc is consistent and every arc-consistent choice survives, the greatest ones if all arcs are skippable; no means every arc-consistent choice has an empty part. |
| UnionFind.CompressKeepsRoot | algorithms/src/data_structures/union_find.rs:27-41 | Pointing a vertex at its root changes no root. |
| UnionFind.LinkMerges | algorithms/src/data_structures/union_find.rs:43-59 | Hanging one root below another merges exactly their two sets. |
| UnionFind.LinkKeepsHeavy | algorithms/src/data_structures/union_find.rs:43-59 | A root of rank r has at least 2^r members. |
| UnionFind.RankStaysSmall | algorithms/src/data_structures/union_find.rs:43-59 | So ranks stay below 64 and the u8 never saturates. |
| UnionFind.RootsAreReps | algorithms/src/data_structures/union_find.rs:23-25 | The roots are exactly the labels in use. |
| UnionFind.Sets.Find | algorithms/src/data_structures/union_find.rs:27-41 | Returns the representative and leaves every representative as it was. |
| UnionFind.Sets.Union | algorithms/src/data_structures/union_find.rs:43-59 | True iff the sets were different; then exactly those two labels merge and components falls by one. |
| UnionFind.Sets.Components | algorithms/src/data_structures/union_find.rs:23-25 | The count is the number of labels in use. |
| UnionFind.Sets.Labels | algorithms/src/data_structures/union_find.rs:61-63 | The labelling of all elements. |
| Unification.ValidateConstraints | algorithms/src/constraints/unification.rs:62-69 | Accepts iff every constraint is in range; otherwise names the first that is not. |
| Unification.MergeKeepsSolving | algorithms/src/constraints/unification.rs:18-20 | Merging along a constraint keeps every label equated with its element. |
| Unification.SolvedLabels | algorithms/src/constraints/unification.rs:15-22 | Once all constraints are merged, labels agree iff the equivalence closure links the variables. |
| Unification.CutIsExact | algorithms/src/constraints/unification.rs:21 | The labels cut to 32 bits agree exactly on linked variables iff no variable beyond 2^32 shares its cut label with a representative or with another one beyond. |
| Unification.TooFewConstraints | algorithms/src/constraints/unification.rs:15-22 | With fewer constraints than variables beyond 2^32 the cut is never safe. |
| Unification.SolveConstraints | algorithms/src/constraints/unification.rs:15-22 | Rejects iff a constraint is out of range; the values are the class labels cut to 32 bits, and agree exactly on linked variables iff the cut is safe: always up to 2^32 variables, never with fewer constraints than variables beyond. |
| StringSearch.NaiveIsExact | algorithms/src/string_algorithms/kmp.rs:1-39 | The naive list is exactly the match positions, ascending. |
| StringSearch.BorderExtends | algorithms/src/string_algorithms/kmp.rs:8-20 | Borders of a longer prefix are one-byte extensions of borders. |
| StringSearch.FailureTable | algorithms/src/string_algorithms/kmp.rs:8-20 | Every entry is the longest border of its prefix. |
| StringSearch.FallBack | algorithms/src/string_algorithms/kmp.rs:30-36 | Falling back to the longest border skips no match. |
| StringSearch.KmpSearch | algorithms/src/string_algorithms/kmp.rs:1-39 | The result is the list of occurrences; none for an empty pattern. |
| StringSearch.PolySlide | algorithms/src/string_algorithms/rabin_karp.rs:30-33 | The polynomial of the next window from this one. |
| StringSearch.RollStep | algorithms/src/string_algorithms/rabin_karp.rs:31-32 | The reduced update equals the full one modulo 1_000_000_007. |
| StringSearch.Roll | algorithms/src/string_algorithms/rabin_karp.rs:31-32 | The rolled hash is the hash of the next window and no step leaves 64 bits. |
| StringSearch.RabinKarp | algorithms/src/string_algorithms/rabin_karp.rs:1-36 | The same list of occurrences. |
| StringSearch.SearchBothWays | algorithms/src/string_algorithms/rabin_karp.rs:1-36 | Run on one text, both searches return the same ascending list, exactly the match positions of a nonempty pattern. |
| DeltaDebug.ChunkSize | algorithms/src/optimization/delta_debug.rs:13-14 | A chunk is a proper part, and one element once the granularity reaches the length. |
| DeltaDebug.TryChunks | algorithms/src/optimization/delta_debug.rs:15-31 | Either a shorter failing subsequence, or no chunk can go. |
| DeltaDebug.Ddmin | algorithms/src/optimization/delta_debug.rs:1-42 | Terminates with a failing subsequence of a failing input; with two or more elements, dropping any one stops the failure. |
| Lru.AlwaysSound | algorithms/src/memory_systems/lru.rs:14-34 | After every run the order is duplicate-free, equal to the keys and within capacity. |
| Lru.CachedIsLastPut | algorithms/src/memory_systems/lru.rs:14-34 | A cached value is the one put last under its key. |
| Lru.HoldsMostRecent | algorithms/src/memory_systems/lru.rs:14-34 | The cache holds exactly the capacity most recently used keys, in order of last use, where use is defined without looking at any cache. |
| Lru.ByLastUseInOrder | algorithms/src/memory_systems/lru.rs:14-34 | The reference list holds exactly the keys used, and an earlier one was last used earlier. |
| Lru.LookupIsExact | algorithms/src/memory_systems/lru.rs:28-34 | Over every run, a lookup yields v iff the key is among the most recently used and v was put last under it. |
| Lru.Inclusion | algorithms/src/memory_systems/lru.rs:14-34 | Over every run, the smaller cache is included in the larger one with the same values and relative recency. |
| Lru.HitsAgree | algorithms/src/memory_systems/lru.rs:28-34 | A hit in the smaller cache is the same hit in the larger. |
| Lru.LruCache.PutEntry | algorithms/src/memory_systems/lru.rs:14-26 | The new cache state, invariant kept; the key is present iff the capacity is positive. |
| Lru.LruCache.GetEntry | algorithms/src/memory_systems/lru.rs:28-34 | The stored value or nothing; a hit becomes most recent. |
| Lru.Run | algorithms/src/memory_systems/lru.rs:9-34 | Any sequence of puts and gets on a new cache: every get answers as the preceding operations alone determine. |
| TypeArena.ReadStable | canon-ir/src/ir.rs:183-187 | A node denotes the same expression in every later arena. |
| TypeArena.EqualStructureEqualIds | canon-ir/src/ir.rs:239-247 | In a deduplicated arena equal shareable structure means equal ids. |
| TypeArena.StoredKind | canon-ir/src/ir.rs:239-247 | Content that denotes a stored shareable type is already stored. |
| TypeArena.ReadDenotes | canon-ir/src/ir.rs:183-187 | A node's own fields are those of the type it denotes, and its children read as that type's parts, in order. |
| TypeArena.NormIsIdentity | canon-rustc/src/capture/assembler.rs:229-311 | Interning forgets nothing of a type iff every array has a length, every path is in form and no argument is left out. |
| TypeArena.KeptIsFilter | canon-rustc/src/capture/assembler.rs:291-302 | Of the arguments exactly the paths that name the global allocator go, and the rest keep their order. |
| PathForm.NamesAreStored | canon-rustc/src/capture/assembler.rs:313-482 | A path of identifiers, none of them reserved, is stored as itself, and so it is with generic arguments after it. |
| PathForm.CrateIsNamed | canon-rustc/src/capture/assembler.rs:313-323 | The `$crate::` prefix becomes `crate::`. |
| PathForm.GenericsAreStripped | canon-rustc/src/capture/assembler.rs:371-419 | Matching brackets and what they enclose are dropped, and nothing else. |
| PathForm.TrimIsCore | canon-rustc/src/capture/assembler.rs:313-314 | Only white space is trimmed, and none is left at either end. |
| PathForm.JoinSegments | canon-rustc/src/capture/assembler.rs:332-341 | Joining what was split gives the string back. |
| PathForm.SegmentsOfJoin | canon-rustc/src/capture/assembler.rs:332-341 | Splitting what was joined gives the segments back. |
| PathForm.FragmentIsInForm | canon-rustc/src/capture/assembler.rs:313-369 | For every raw path the form is free of what the capture refuses, and is the trimmed path without generic arguments unless that had to be sanitised. |
| PathForm.SanitizedIsWords | canon-rustc/src/capture/assembler.rs:421-452 | A sanitised path consists of identifiers only. |
| PathForm.StoredIsAcceptable | canon-ir/src/ir.rs:389-407 | Whatever the raw path, what is stored passes every test of the IR, spelled out on the string and its segments. |
| PathForm.LastResortIsAccepted | canon-ir/src/ir.rs:389-407 | The fixed path of last resort is accepted, so interning a path never fails. |
| TypeIntern.CanonIR.InternName | canon-rustc/src/capture/assembler.rs:222-227 | Rejects exactly artifact names; the id reads back to the name; a known name adds nothing. |
| TypeIntern.ArtifactNames | canon-rustc/src/capture/assembler.rs:212-220 | A name is an artifact iff it is one of three prefixes and a rest, or has one of four strings inside. |
| TypeIntern.CanonIR.InternPath | canon-rustc/src/capture/assembler.rs:454-482 | A path gets the id of its stored form, which reads back; a known form adds nothing. |
| TypeIntern.CanonIR.PushNode | canon-ir/src/ir.rs:183-187 | The node is appended under the next id. |
| TypeIntern.CanonIR.InternType | canon-ir/src/ir.rs:239-247 | Known content gets its node back, new content one new node, and the index stays exact. |
| TypeIntern.CanonIR.InternTyExpr | canon-rustc/src/capture/assembler.rs:229-311 | Succeeds iff all names are acceptable; the id reads back to the expression up to what interning forgets, and to the very expression iff it forgets nothing; children have smaller ids; unshareable types are new, known shareable ones add nothing. All constructors are covered. |
| TypeIntern.CanonIR.InternFnPtr | canon-rustc/src/capture/assembler.rs:262-275 | The same for function pointers, whose parameter nodes carry the made-up names in order. |
| TypeIntern.CanonIR.InternApplied | canon-rustc/src/capture/assembler.rs:287-304 | The same for applied paths, whose base is an external type and whose allocator arguments are left out. |
| TypeIntern.IdsAreStructure | canon-rustc/src/capture/assembler.rs:229-311 | For a shareable type, ids are equal iff the expressions are equal up to what interning forgets; where it forgets nothing, iff they are equal. |
| TypeIntern.InternBoth | canon-rustc/src/capture/assembler.rs:229-311 | Two types interned one after the other: both ids read back, and for a shareable type they are equal iff the types are equal up to what interning forgets. Where it forgets nothing both read back as they are, and only equal types share an id. |
| TypeIntern.ArgNamesAreClean | canon-rustc/src/capture/assembler.rs:212-227 | The made-up parameter names are never rejected. |
| TypeIntern.ArgNamesDiffer | canon-rustc/src/capture/assembler.rs:262-271 | No two of them are the same. |
| TypeIntern.DecimalReads | canon-rustc/src/capture/assembler.rs:262-271 | Their digits read back to the parameter's number, without leading zeros. |
| TypeIntern.IndexIsUnique | canon-ir/src/ir.rs:260-268 | The type index is determined by the nodes. |
| TypeIntern.TableIndexIsUnique | canon-ir/src/intern.rs:56-62 | The index of a string table is determined by the table. |
| TypeIntern.RestoreIndex | canon-ir/src/intern.rs:56-62 | The rebuilt index inverts the table. |
| TypeIntern.CanonIR.Restore | canon-ir/src/ir.rs:253-268 | The three rebuilt indices are valid and equal to those before saving. |
| CsrRows.RowsArePrefix | canon-ir/src/ir.rs:306-331 | In a sorted edge list the first rows are a prefix that ends where the sources reach the next row. |
| Csr.BuildCsr | canon-ir/src/ir.rs:306-331 | The sweep holds exactly the rows of the (possibly reversed) edges, in input order within a row, with row starts cut to 32 bits; nothing is cut iff the rows hold at most u32::MAX edges. Up to that many edges, read back it holds as many edges from u to v of each kind as were given, ends exchanged in the reverse direction, for every row there is. |
| Csr.CountRows | canon-ir/src/csr_graph.rs:46-49 | The counting loop counts each row. |
| Csr.SumRows | canon-ir/src/csr_graph.rs:50-52 | The prefix sums are the row starts. |
| Csr.FromEdges | canon-ir/src/csr_graph.rs:42-58 | The counting builder lists the same rows. |
| Csr.FromAdj | algorithms/src/graph/csr.rs:25-39 | Row starts and columns of the concatenated neighbour lists, each cut to 32 bits. |
| Csr.NeighboursAreList | algorithms/src/graph/csr.rs:50-54 | Up to i32::MAX edges, the slice of a vertex is its neighbour list, each entry cut to 32 bits. |
| Csr.ToAdj | algorithms/src/graph/csr.rs:68-76 | The lists read back are the slices, sign-extended. |
| Csr.AdjRoundTrip | algorithms/src/graph/csr.rs:25-76 | Where to_adj succeeds, it undoes from_adj iff there are at most i32::MAX edges and every entry survives the detour through i32. |
| Machine.CastRoundTrip | algorithms/src/graph/csr.rs:33-72 | `as i32` and back leaves a number alone iff it is below 2^31 or among the top 2^31. |
| Csr.FromEdgeList | algorithms/src/graph/csr.rs:57-65 | The bucket builder lists the rows of the edges with both ends in range, each number cut to 32 bits. |
| Csr.InsideCount | algorithms/src/graph/csr.rs:57-65 | The edges with both ends in range are kept, each as often as given. |
| Csr.BuildersAgree | canon-ir/src/csr_graph.rs:42-58 | On edges in range the three builders give the same row starts and columns. |
| Csr.BuildThrice | canon-ir/src/csr_graph.rs:42-58 | Run on the same edges, the three builders give equal arrays. |
| Csr.SliceIsRow | canon-ir/src/ir.rs:356-362 | The slices of a node are the targets and kinds of its edges in input order. |
| Csr.ReadBackIsRows | canon-ir/src/ir.rs:306-331 | Reading the arrays back gives the edges row by row. |
| Csr.ReverseIsTranspose | canon-ir/src/ir.rs:271-274 | Between vertices in range, the reverse CSR holds as many edges of each kind from v to u as the forward one from u to v, and both as many as given, whatever other edges there are. |
| Csr.ValidateCsr | canon-ir/src/ir.rs:364-387 | Accepts iff the arrays are well formed. |
| Csr.BuiltIsValid | canon-ir/src/ir.rs:306-387 | A built CSR is accepted iff its cut row starts rise and no listed edge points out of range. |
| Csr.GlobalValid | canon-ir/src/ir.rs:299-303 | Both directions are accepted iff the cut row starts rise, as they do up to u32::MAX edges, and every edge has both ends in range or neither. |
| Csr.RebuildAndValidate | canon-ir/src/ir.rs:271-303 | Both directions built and validated: accepted as above. Up to u32::MAX edges, what is accepted is a graph and its transpose, edge counts and kinds included, and between vertices in range it is the graph given. |
| EventLog.RustcState.ApplyDelta | canon-rustc/src/event_stream/event_engine.rs:7-69 | A stale id changes nothing; otherwise each component is updated independently of the others. |
| EventLog.ReplayNeedsRisingIds | canon-rustc/src/event_stream/event_engine.rs:8-16 | Deltas with any ids go through iff the ids rise strictly within each session. |
| EventLog.HashIsCurrent | canon-rustc/src/event_stream/event_engine.rs:65-67 | After any event the hash is that of the numbers of nodes and edges known then, in this order. |
| EventLog.HashIsOfCounts | canon-rustc/src/event_stream/event_engine.rs:65-67 | From a blank state on, these are the number of symbols whose last event defines them and of lasting edge records. |
| EventLog.ReplayKeepsSeparate | canon-rustc/src/event_stream/event_engine.rs:7-69 | In every reachable state known and removed symbols, and known and removed edges, are disjoint. |
| EventLog.EdgesAreSurvivors | canon-rustc/src/event_stream/event_engine.rs:34-43 | The edge lists are exactly the records no later event takes back, in log order with multiplicity. |
| EventLog.SymbolsAreLastWords | canon-rustc/src/event_stream/event_engine.rs:18-33 | A symbol is known or removed as its last event since the session start says, and neither without one. |
| EventLog.FilesAreSeen | canon-rustc/src/event_stream/event_engine.rs:44-46 | The known files are those seen since the session start. |
| EventLog.ReadDeltas | canon-rustc/src/event_stream/event_replay.rs:47-80 | The reader numbers events by their distance from the session start, skipping foreign lines. |
| EventLog.SinceIsDistance | canon-rustc/src/event_stream/event_replay.rs:47-80 | The count is the distance from the last session start, or from the beginning. |
| EventLog.NumberedAt | canon-rustc/src/event_stream/event_replay.rs:47-80 | Each event keeps its place and carries its own count, saturated, as id and as tick. |
| EventLog.EventsAreCodeLines | canon-rustc/src/event_stream/event_replay.rs:47-80 | Foreign lines count for nothing and every other line for its event. |
| EventLog.RustcState.ReplayEvents | canon-rustc/src/event_stream/event_replay.rs:18-36 | Applies all deltas or stops at the first rejected one. |
| EventLog.ReplayAccepts | canon-rustc/src/event_stream/event_replay.rs:47-80 | Renumbered events are accepted iff no session overflows the counter, and the last id is then the distance from the session start. |
| EventLog.TickIsLastId | canon-rustc/src/event_stream/event_engine.rs:15-16 | Tick and last event id stay equal. |
| EventLog.TlogWriter.constructor | canon-rustc/src/log/tlog_writer.rs:26-52 | The opened writer has written nothing. |
| EventLog.TlogWriter.Emit | canon-rustc/src/log/tlog_writer.rs:165-203 | The writer's state is always the replay of what it wrote; an event is refused iff the counter has saturated, and then nothing changes. |
| EventLog.VerifyReplay | canon-rustc/src/event_stream/replay_verify.rs:6-26 | Accepts iff every component of the state is what the log tells, with no reference to replaying it. |
| EventLog.VerifiedIsTold | canon-rustc/src/event_stream/replay_verify.rs:6-26 | Replay from the partly cleared state gives the state back iff no session overflows, tick and id are the distance from the session start, the edge lists are the lasting records, symbols follow their last events, files are those seen, and phase, hash and earlier removals fit. |
| EventLog.StartMatters | canon-rustc/src/event_stream/replay_verify.rs:7-14 | Of the fields not cleared, only phase and removals can influence the replayed state, and which removed edges stay behind. |
| EventLog.SessionForgets | canon-rustc/src/event_stream/event_engine.rs:52-59 | After a session start neither the starting state nor earlier events matter, phase and version aside. |
| EventLog.StartsOver | canon-rustc/src/event_stream/event_engine.rs:52-59 | What follows a session start is numbered and recorded as in a fresh log, phase and version aside. |
| EventLog.FreshLogVerified | canon-rustc/src/event_stream/replay_verify.rs:6-26 | A writer's own log verifies iff it holds a session start or defines every edge it removes. |
| EventLog.AppendedLogVerified | canon-rustc/src/event_stream/replay_verify.rs:6-26 | A log appended to an earlier one verifies iff no session overflows, the earlier log did not finish alone, and a session start lies in the new part or ends the earlier one (a writer with nothing written also needs the hash of the empty state to be empty); for no earlier log, as above. |
| EventLog.WriteThenVerify | canon-rustc/src/log/tlog_writer.rs:165-203 | A whole run: a writer appends to any earlier log, foreign lines included, and `verify_replay` accepts the result iff the condition above holds; nothing is refused unless a session overflows. |
| EventLog.LoneRemovalBreaksReplay | canon-rustc/src/event_stream/replay_verify.rs:6-26 | A single removal of an undefined edge is a log that fails verification. |
| EventLog.EarlierFinishBreaksReplay | canon-rustc/src/event_stream/replay_verify.rs:6-26 | An earlier finished log followed by a bare session start fails verification. |

## Left out

- CUDA kernels and their wrappers: the kernels are foreign code.
- `post_dominators`: it feeds forward predecessors to `dominators`, so it does not compute what its comment says.
- `HashTable::remove`, SAT by an external solver, Merkle trees, sorting and the small data structures: foreign code or easier than what is here.
- Later passes of `canon_assemble`: they need rustc's `TyCtxt`, and one of them rewrites type nodes without updating the index, so interning is stated for the state before it.
- Primitive types on the two sides of `prim_to_canon` are one enumeration here; the mapping is a renaming.
- Edge kinds are their numeric codes; the payload of a branch kind, which `edge_kind_code` drops, is not modelled.
- JSON encoding, files and the wire format of the log: writing and reading a line is the identity, and a failed write is not modelled.
- The hash of node and edge counts in the event state is an arbitrary function, and payload fields that `apply_delta` ignores are absent.
- Capture modes, spans, labels and artifact writing in `tlog_writer.rs`, and the records that `assembler.rs` keeps of paths it had to sanitise.
- PushRelabel.MaxFlowPushRelabel: networks whose capacities out of the source sum beyond i64 are excluded, because there an excess can overflow.
- ShortestPaths.Dijkstra: inputs on which a settled distance plus an edge exceeds u64 are excluded, because there the code's addition overflows.
- AStar.AStarSearch: without an admissible heuristic the reported cost is only an upper bound for the returned path, as in the source.
- Ac3.ArcConsistency: whether an arc that is not skippable ends up consistent depends on the queue order and on the other arcs; the exact condition is for runs on the two opposite arcs.
- Csr.BuildThrice: more than i32::MAX edges or 2^31 vertices are excluded, because the bucket builder then cuts numbers that the others keep.
- DeltaDebug.Ddmin: the failure test is a function of its argument; a test with state of its own is not modelled.
