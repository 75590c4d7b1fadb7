# Bike-rebalancing route optimiser, modelled in Dafny

This project models the optimisation engine of a capacitated vehicle-rebalancing solver.

- Each station carries a signed integer demand: a pickup or a delivery.
- A fleet of at most `m` vehicles of capacity `Q` serves the stations.
- A route is a sequence of node ids from depot 0 back to depot 0.

A route is feasible when some initial load keeps every running load within `[0, Q]`.

The engine has five parts, and each is modelled in its own module:

- **Capacity feasibility** (`Feasibility`). The prefix-sum test of one route, including its start-load derivation, and the whole-solution check: vehicle budget plus exactly-once coverage.
- **Costs and constructive builders** (`Costs`, `Constructive`, `Construction`). Greedy nearest-feasible, greedy best insertion, and GRASP with a restricted candidate list.
- **The single relocate move with its cost delta** (`Relocate`). The move itself, plus the structural checks of its unit-test file, stated as lemmas.
- **Neighbourhood operators and descent controllers.**
  - `Moves` holds the four first-improvement scans: 2-opt, relocate, swap and or-opt-2. Each does its trial edits in place and reverts them.
  - `LocalSearch` holds the step-wise operators and the cursor VND.
  - `Vnd` holds the operators that report their changed routes, the targeted intra-route mini-descent, and the partitioned inter/intra VND.
- **Iterated local search** (`Ils`). The three random perturbations with their reverts, and the best/current/stall loop.

The supporting modules are:

- `Instance`: the read-only problem data.
- `Routes`: route edits and node multisets.
- `Solutions`: the solution object, with its routes and recorded total cost.
- `Random`: the random-number stream, modelled as a fixed supplied sequence of draws.

In-place code is modelled imperatively:

- A solution is a `class` whose `routes` and `totalCost` fields the operators update.
- Every trial is made on the field and undone on failure, as in the code. The move lemmas prove that each undo restores the route exactly.
- The builders keep the `unvisited` flags in an `array<bool>` and count `remaining_stations` alongside.
- Each loop is a `while` loop with its invariants.
- The insertion builders also return a ghost run: their states, and what each pass did. `BestRun` and `GraspRun` state each pass's choice rule against the state before it. The nearest builder states the same for each of its routes, through `NearestBuilt`.
- Every method is tied to a specification predicate or function. The properties the code promises are proved about that predicate or function: node multisets kept, route ends kept, feasibility kept, strict cost decrease, local optimality on exit, and the exact result of the relocate move.

A few conventions hold throughout:

- Costs are integers. The integer cost functions of `src/Constructive.cpp` are the model of all three copies of the cost functions.
- Randomness is the oracle `Random.Rng`, a fixed sequence of raw draws.
- `uniform_int_distribution(lo, hi)` is `lo + raw % (hi - lo + 1)`.
- `std::shuffle` is a Fisher-Yates pass over the same stream.

`RVND`, which `src/ILS.cpp:181,201` calls, is defined in none of the files modelled here. Dafny has no method-valued parameters. For that reason, the refinement step of the ILS is the partitioned `Vnd.VND` over `GetAllNeighborhoods()`: no definition of `RVND` is available to model instead. `Ils.Refined` states everything the ILS relies on: the route set is shaped, the recorded total is the true cost, and no operator improves the solution.

Two behaviours depart from what the code evidently intends. Each is modelled as written and exhibited, and then corrected; the partitioned VND and the ILS use the corrected member (see "## Findings"):

- **Or-opt-2 overwrites the recorded total.** `Vnd.ImproveOrOpt2` (`src/VND.cpp:155-205`) sets `total_cost` to `SolutionCost` and then, two lines later, to the cost of the single route it changed. `Vnd.OrOptRecordedTotalTooLow` shows that this total falls below the solution cost whenever another route costs anything. `Vnd.ImproveOrOpt2Corrected` keeps `total_cost == SolutionCost`, and with it the partitioned VND records the exact cost of its result.
- **Perturbation case 0 does not recheck the source route** (`src/ILS.cpp:52-73`). `Ils.OutcomeFeasibility` proves that the source route is the only one that can become infeasible. `Ils.BlockMoveCanBreakSource` exhibits a feasible route that this case makes infeasible: demands `+5, -5, +5, -5`, `Q = 5`, with the second station cut out. An infeasible perturbed solution with a lower total can then be accepted (`src/ILS.cpp:203-210`), against the header's promise of the best feasible solution (`src/ILS.h:18`). `Ils.PerturbBlockCorrected` puts both routes back when the shortened source route is infeasible, and with it the ILS keeps every route feasible.

Two further points where the code may surprise a reader:

- The partitioned `VND` ignores its `neighborhoods` argument (`src/VND.cpp:207-215`).
- `GreedyBestInsertion` and GRASP always keep their first route, even when `m <= 0`.

## Model

| member | source | states |
|---|---|---|
| Feasibility.NodeDemand | src/Feasibility.cpp:4-9 | 0 at the depot; otherwise the demand of station `node - 1`, which is 0 when that index lies outside the demand vector |
| Feasibility.MaxPrefix | src/Feasibility.cpp:26-34 | the running maximum of the interior prefix sums is never negative |
| Feasibility.MinPrefix | src/Feasibility.cpp:26-34 | the running minimum of the interior prefix sums is never positive |
| Feasibility.PrefixBounds | src/Feasibility.cpp:26-34 | every prefix sum lies between MinPrefix and MaxPrefix, and both bounds are attained by some prefix: the scan computes the true maximum and minimum |
| Feasibility.RouteFeasibility | src/Feasibility.cpp:11-52 | the record's ok flag is exactly Feasible: a well-formed route whose interior prefix sums span at most Q |
| Feasibility.RouteFeasibilityRecord | src/Feasibility.cpp:11-52 | a malformed route (empty, not 0 at both ends, or a node outside 0..n) gives the all-zero record with ok false; max_prefix and min_prefix are the extremes of the interior prefix sums, max_prefix >= 0 >= min_prefix; ok iff max_prefix - min_prefix <= Q; when ok, cap_violation is 0 and 0 <= suggested_L0 == L0_min <= L0_max <= Q; otherwise cap_violation is (max - min) - Q > 0 |
| Feasibility.FeasibleIsWellFormed | src/Feasibility.cpp:14-24 | a feasible route is non-empty, runs from depot to depot and holds node ids only |
| Feasibility.SuggestedLoadKeepsCapacity | src/Feasibility.cpp:38-48 | starting at suggested_L0, every running load along the route stays within [0, Q] |
| Feasibility.FeasibleIffSomeStartLoad | src/Feasibility.cpp:38-41 | a well-formed route passes the test if and only if some initial load keeps every running load within [0, Q]: the test is exact in both directions |
| Feasibility.EmptyRouteInfo | src/Feasibility.cpp:26-41 | for [0, 0] both prefix fields are 0, the route is feasible iff Q >= 0, and then L0_max == Q |
| Feasibility.CheckRouteFeasible | src/Feasibility.cpp:11-52 | the shape checks and the prefix loop return exactly the RouteFeasibility record, so ok is Feasible |
| Feasibility.CountVisits | src/Feasibility.cpp:74-83 | counting a route's non-depot nodes either adds them to the visit counts with every count still at most 1, or returns false exactly when a node is out of range or a station is counted twice |
| Feasibility.CheckNextRoute | src/Feasibility.cpp:67-84 | one round of the outer loop: on success the route is feasible and the counts are those of the routes so far with none above 1; on failure the solution is not feasible |
| Feasibility.CheckSolutionFeasible | src/Feasibility.cpp:54-94 | true iff the route count is at most m, every route passes the route test, and every station 1..n occurs exactly once as a non-depot node |
| Costs.RouteCost | src/Constructive.cpp:6-21 | the sum of cost[u][v] over consecutive pairs, 0 for fewer than two nodes; non-negative when travel costs are |
| Costs.SolutionCost | src/Constructive.cpp:23-31 | the sum of the route costs; non-negative when travel costs are |
| Costs.ComputeRouteCost | src/Construction.cpp:6-19 | the accumulating loop returns RouteCost |
| Costs.ComputeSolutionCost | src/Construction.cpp:21-29 | the accumulating loop returns SolutionCost |
| Costs.RouteCostAppend | src/Constructive.cpp:6-21 | cost is additive along a path: joining two routes adds the connecting leg |
| Costs.SolutionCostUpdate | src/LocalSearch.cpp:14-29 | replacing one route changes the total by exactly the difference of the two route costs, so comparing one route's cost decides the total |
| Costs.RouteCostAtMostSolutionCost | src/VND.cpp:183-190 | with non-negative costs, no single route costs more than the whole set (what remains true after or-opt-2 writes one route's cost as the total) |
| Costs.TwoRouteCostsAtMostSolutionCost | src/VND.cpp:187-190 | with non-negative costs, two different routes together cost no more than the whole set |
| Routes.InsertAtNodes | src/Construction.cpp:152-155 | inserting a node adds exactly that node to the route's multiset |
| Routes.RemoveAtNodes | src/LocalSearch.cpp:59 | erasing a node removes exactly that node from the route's multiset |
| Routes.RemoveRangeNodes | src/ILS.cpp:52-55 | erasing a block removes exactly the block's nodes |
| Routes.InsertSeqAtNodes | src/ILS.cpp:59-65 | inserting a block adds exactly the block's nodes |
| Routes.ReverseSegmentNodes | src/LocalSearch.cpp:20 | a segment reversal keeps the route's multiset |
| Routes.RemoveInsert | src/LocalSearch.cpp:74-90 | erasing the node just inserted at i restores the route |
| Routes.InsertRemove | src/LocalSearch.cpp:59-95 | reinserting an erased node at its position restores the route |
| Routes.RemoveInsertSeq | src/LocalSearch.cpp:169-183 | erasing a block just inserted at i restores the route |
| Routes.InsertSeqRemove | src/ILS.cpp:54-73 | reinserting an extracted block at its start restores the route |
| Routes.ReverseSegmentTwice | src/LocalSearch.cpp:20-35 | reversing the same segment twice restores the route |
| Routes.NodesUpdate | src/LocalSearch.cpp:59-95 | replacing one route changes the solution's node multiset by exactly that route's difference |
| Constructive.CountTrueClear | src/Constructive.cpp:88-89 | clearing one set unvisited flag lowers the count of unvisited stations by exactly one, so remaining_stations stays that count |
| Constructive.CountTrueZero | src/Constructive.cpp:44 | remaining_stations is 0 exactly when no station is unvisited |
| Constructive.CountTrueInitial | src/Constructive.cpp:39-41 | the initial pool (all flags set but the depot's) counts n stations |
| Constructive.NearestFeasible | src/Constructive.cpp:55-80 | returns -1 iff no unvisited station keeps the closed route feasible; otherwise a feasible unvisited station of least travel cost from the current node, the lowest id among ties (strict `<`) |
| Constructive.ExtendRoute | src/Constructive.cpp:51-92 | the open route gains stations only through the pool, each station is taken out of the pool once, remaining drops by the number added, and an empty result means no unvisited station fits a route of its own; every station of the route was the nearest feasible pick (lowest id on ties) from the pool left before it, and the route closes only when no station fits |
| Constructive.CloseRoute | src/Constructive.cpp:95-100 | closing a non-empty open route at the depot and appending it keeps the routes within budget, each of length >= 3, feasible and without repeated stations |
| Constructive.AllPlacedIsFeasible | src/Constructive.cpp:44 | when every station is placed once, the routes pass CheckSolutionFeasible |
| Constructive.GreedyNearestFeasible | src/Constructive.cpp:33-114 | at most m routes, each 0..0 with at least one station and feasible, no station twice; it stops only when all stations are placed, the vehicles are used up, or a fresh route admits no station; full coverage implies CheckSolutionFeasible; totalCost == SolutionCost; the copy with an unused generator in src/Construction.cpp:31-95 is the same builder; route k of the result is, in order, the nearest feasible picks from the pool the first k routes leave, closed once no station fits |
| Constructive.ChainStep | src/Constructive.cpp:80-92 | taking a nearest pick extends the nearest chain and clears exactly that station's flag in the pool |
| Constructive.NearestBuiltEach | src/Constructive.cpp:44-114 | route k of a nearest-built list was built from the pool the first k routes leave |
| Constructive.NextRoute | src/Constructive.cpp:45-113 | one round of the outer loop appends one nearest-built route that holds a station, or appends none and then no unvisited station fits [0, v, 0] |
| Constructive.NearestRounds | src/Constructive.cpp:39-113 | from a full pool the outer loop ends with routes within budget, stopped for one of the three reasons, and each nearest-built from the pool its predecessors leave |
| Constructive.RoundsStopped | src/Constructive.cpp:44-107 | leaving the route loop with no station left, no vehicle left, or an empty route means Stopped: all placed, the budget used, or no unplaced station fits a route of its own |
| Constructive.CountTrueIsSetSize | src/Constructive.cpp:41 | the count of set flags is the number of indices whose flag is set |
| Construction.BestInsertion | src/Construction.cpp:109-148 | returns no choice iff no unvisited station has a feasible insertion; otherwise a feasible insertion of least delta, the first in scan order among ties |
| Construction.Place | src/Construction.cpp:151-158 | inserting the chosen station clears its flag, lowers the unvisited count by one and keeps the routes feasible over stations |
| Construction.OpenOrStop | src/Construction.cpp:159-197 | with no feasible insertion: stops when the route count reached m or no unvisited station fits [0, v, 0]; otherwise opens [0, v, 0] for the feasible singleton nearest the depot (lowest id on ties) |
| Construction.InsertStep | src/Construction.cpp:151-158 | an insertion at a feasible slot keeps a partial result and the pool in step with the placed stations |
| Construction.SeedStep | src/Construction.cpp:187-192 | opening a fitting singleton route keeps a partial result and the pool in step |
| Construction.PoolPlacesOnce | src/Construction.cpp:156-157 | a pool in step with the placed stations means no station is placed twice |
| Construction.InsertionRoutesFeasible | src/Construction.cpp:106-108 | with Q >= 0 the kept initial [0, 0] route is feasible too, so every route is |
| Construction.PoolStoppedIsStopped | src/Construction.cpp:160-196 | the builder's stop condition read as a property of the routes: no feasible insertion, and no vehicle or no fitting singleton left |
| Construction.EmptyPoolIsStopped | src/Construction.cpp:109 | an empty pool means every station is placed exactly once |
| Construction.GreedyBestInsertion | src/Construction.cpp:97-203 | one to max(1, m) routes over stations, every one feasible when Q >= 0, no station twice; it stops only with every station placed or no feasible insertion and no vehicle or singleton left; full coverage implies CheckSolutionFeasible when m >= 1; totalCost == SolutionCost; the ghost run from the start state to the result is a BestRun, so every pass was the least-delta feasible insertion (first on ties) or, with none left, the seed rule |
| Construction.StartBuild | src/Construction.cpp:102-108 | every station pooled, remaining == n, and one empty route |
| Construction.CollectCandidates | src/Construction.cpp:228-252 | the candidate list holds exactly the feasible insertions, each with its true delta, in scan order |
| Construction.MinDelta | src/Construction.cpp:260 | the least delta of the candidates, attained by one of them |
| Construction.MaxDelta | src/Construction.cpp:261 | the greatest delta of the candidates, attained by one of them |
| Construction.RclMembers | src/Construction.cpp:264-269 | a candidate is in the restricted list iff its delta is within the threshold |
| Construction.Restrict | src/Construction.cpp:264-269 | the filtering loop builds that restricted list |
| Construction.Threshold | src/Construction.cpp:262 | the threshold min + alpha * (max - min) is at least the least delta for alpha >= 0 |
| Construction.RclNonEmpty | src/Construction.cpp:254-272 | the restricted list is never empty: it contains a minimum-delta candidate |
| Construction.PickCandidate | src/Construction.cpp:271-272 | the draw indexes the restricted list; the pick is a candidate with min <= delta <= threshold |
| Construction.GraspChoice | src/Construction.cpp:226-272 | no choice iff no feasible insertion exists; otherwise a feasible insertion whose delta lies in [min, min + alpha (max - min)] over all feasible insertions, consuming one draw |
| Construction.ChoiceWithinThreshold | src/Construction.cpp:254-272 | the chosen candidate read back over all feasible insertions lies within the GRASP window |
| Construction.BuildInitialGrasp | src/Construction.cpp:205-325 | the same guarantees as GreedyBestInsertion; the ghost run from the start state to the result is a GraspRun, so every pass inserted a feasible insertion whose delta lies in [min, min + alpha (max - min)] over the feasible insertions of that state, or, with none left, followed the seed rule |
| Construction.StartSnapshot | src/Construction.cpp:102-108 | the start state of both insertion builders: every station pooled, the depot not, and the single route [0, 0] |
| Construction.StartIsSnapshot | src/Construction.cpp:102-108 | the start state is the snapshot of the route set [[0, 0]] |
| Construction.BestInsertionStep | src/Construction.cpp:109-197 | one pass of the greedy loop extends the trace by exactly one best pass from the current snapshot, or, placing nothing, leaves routes, pool and trace unchanged with the stop condition holding |
| Construction.BestTraceIsRun | src/Construction.cpp:109-200 | a trace of best passes read out as its states and passes is a BestRun from its start |
| Construction.BestRunEach | src/Construction.cpp:109-200 | in a BestRun, pass k is a best pass from state k to state k + 1, for every k |
| Construction.GraspLoop | src/Construction.cpp:225-320 | the loop keeps the routes and pool in step, ends with an empty pool or the stop condition, and its trace leads by GRASP passes from the start routes to the final ones |
| Construction.GraspStep | src/Construction.cpp:226-319 | one pass of the GRASP loop extends the trace by exactly one GRASP pass from the current snapshot, or, placing nothing, leaves routes, pool and trace unchanged with the stop condition holding |
| Construction.GraspTraceIsRun | src/Construction.cpp:225-320 | a trace of GRASP passes read out as its states and passes is a GraspRun from its start |
| Construction.GraspRunEach | src/Construction.cpp:225-320 | in a GraspRun, pass k is a GRASP pass from state k to state k + 1, for every k |
| Construction.BestRunIsGraspRun | src/Construction.cpp:254-269 | every greedy run is a GRASP run for any alpha >= 0: the least delta always lies in the window |
| Construction.BestPassIsGraspPass | src/Construction.cpp:254-269 | one best pass is a GRASP pass for any alpha >= 0 |
| Construction.GraspPassAtZero | src/Construction.cpp:262-269 | with alpha = 0 a GRASP insertion has the least delta of all feasible insertions |
| Construction.Insertions | src/Construction.cpp:228-252 | the set of slots is exactly the feasible insertions of a state |
| Construction.ExtremesIn | src/Construction.cpp:260-261 | a non-empty set of feasible insertions holds a least-delta and a greatest-delta member over all feasible insertions |
| Construction.WindowEveryPair | src/Construction.cpp:260-262 | a delta inside the window of one least/greatest pair is inside the window of every such pair |
| Construction.SameExtremes | src/Construction.cpp:260-261 | any two least/greatest pairs have the same least and the same greatest delta |
| Relocate.Relocation | src/relocate.cpp:21-123 | a rejected move reports delta 0 and leaves every route as it was; the route count never changes |
| Relocate.TryRelocate | src/relocate.cpp:21-123 | result and delta are those of Relocation; with apply the vector becomes Relocation's routes, without apply it is unchanged |
| Relocate.RelocationRejects | src/relocate.cpp:17-49 | an invalid route index, from_idx outside [1, size-2], to_idx outside [1, size-1] or a depot node: false, delta 0, nothing changes |
| Relocate.RelocationNoOp | src/relocate.cpp:54-57 | in one route, to_idx == from_idx or from_idx + 1 is accepted with delta 0 and changes nothing |
| Relocate.EraseInsertIsMoved | src/relocate.cpp:63-75 | erase at from_idx then insert at to_idx - 1 (from < to) or at to_idx places the node before the node that was at to_idx |
| Relocate.RelocationIntra | src/relocate.cpp:59-89 | the same-route move succeeds iff the moved route is feasible; then the route becomes it and delta is its change of cost |
| Relocate.RelocationInter | src/relocate.cpp:92-122 | the two-route move succeeds iff both changed routes are feasible; then the source loses exactly the node and the target gains it at to_idx |
| Relocate.RelocationFeasible | src/relocate.cpp:78-80 | an accepted move that is not a no-op leaves both touched routes feasible |
| Relocate.RelocationKeepsOthers | src/relocate.cpp:86-120 | no route other than the two named ones changes |
| Relocate.RelocationKeepsNodes | src/relocate.cpp:63-120 | the move keeps the multiset of all nodes |
| Relocate.RelocationDelta | src/relocate.cpp:83-120 | the new total cost is the old total plus delta_cost |
| Relocate.TestInterRoute | src/test_relocate.cpp:59-71 | moving station 5 into route 0 succeeds, empties route 2 and gives [0, 1, 5, 2, 0] |
| Relocate.TestIntraForward | src/test_relocate.cpp:96-106 | moving station 6 forward in route 3 gives [0, 7, 8, 6, 9, 0] |
| Relocate.TestIntraBackward | src/test_relocate.cpp:108-118 | moving station 9 back in route 3 gives [0, 6, 9, 7, 8, 0] |
| Relocate.TestDepotStart | src/test_relocate.cpp:124-126 | moving the opening depot fails and changes nothing |
| Relocate.TestDepotEndAsWritten | src/test_relocate.cpp:128-130 | the case as written moves station 2, succeeds and changes the solution |
| Relocate.TestDepotEnd | src/test_relocate.cpp:128-130 | the closing depot (from_idx 3) is rejected and nothing changes |
| Relocate.TestIntoEmptyRoute | src/test_relocate.cpp:133-149 | moving station 2 into an added empty route gives [0, 1, 0] and [0, 2, 0] |
| Moves.TwoOptEffect | src/LocalSearch.cpp:17-31 | an improving reversal of [i..j], 1 <= i < j <= size-2, keeps the nodes, the route ends and feasibility and strictly lowers the total cost |
| Moves.TwoOptTry | src/LocalSearch.cpp:20-35 | one trial keeps the reversal if the route is feasible and cheaper, and otherwise restores the route exactly |
| Moves.TwoOptSearch | src/LocalSearch.cpp:6-41 | false: routes and total unchanged and no route in scope has an improving reversal; true: the first improving reversal in scan order was applied and total == SolutionCost |
| Moves.OrOptEffect | src/LocalSearch.cpp:156-180 | an improving move of a 2-node block in a route of >= 5 nodes keeps the nodes, ends and feasibility and strictly lowers the cost |
| Moves.OrOptTry | src/LocalSearch.cpp:169-183 | one trial keeps the block if feasible and cheaper, else removes it again |
| Moves.OrOptStart | src/LocalSearch.cpp:156-188 | the block is cut, tried at every other position and put back at its start when nothing improves |
| Moves.OrOptSearch | src/LocalSearch.cpp:145-192 | false: unchanged and no improving block move in scope; true: the first improving block move was applied and total == SolutionCost |
| Moves.RelocateEffect | src/LocalSearch.cpp:55-87 | an improving relocation moves one interior node, touches no other route, keeps the nodes, ends and feasibility, and brings the total below the recorded total |
| Moves.RelocateTry | src/LocalSearch.cpp:73-90 | one trial keeps the insertion if both routes are feasible and the total is below the recorded total, else erases it again |
| Moves.RelocateClient | src/LocalSearch.cpp:55-95 | the client is cut, tried in every route and position, and reinserted at its place when nothing improves |
| Moves.RelocateSearch | src/LocalSearch.cpp:43-100 | false: unchanged and no relocation beats the recorded total; true: the first improving relocation was applied with total == SolutionCost |
| Moves.SwapEffect | src/LocalSearch.cpp:117-131 | an improving exchange of interior nodes of routes r1 < r2 keeps the nodes, ends and feasibility, touches no other route and beats the recorded total |
| Moves.SwapTry | src/LocalSearch.cpp:120-136 | one trial keeps the exchange if both routes are feasible and cheaper, else swaps back |
| Moves.SwapSearch | src/LocalSearch.cpp:102-143 | false: unchanged and no exchange beats the recorded total; true: the first improving exchange was applied with total == SolutionCost |
| Moves.SwapNodesAt | src/LocalSearch.cpp:120-136 | an exchange changes exactly the two positions, and exchanging again restores the routes |
| Moves.TwoOptChanges | src/VND.cpp:8-42 | the first improving reversal changes route r only and lowers the total |
| Moves.OrOptChanges | src/VND.cpp:157-204 | the first improving block move changes route r only and lowers the total |
| Moves.RelocateChanges | src/VND.cpp:45-92 | the first improving relocation changes routes f and t only and beats the recorded total |
| Moves.SwapChanges | src/VND.cpp:112-146 | the first improving exchange changes routes r1 and r2 only and beats the recorded total |
| Moves.EvolvesTrans | src/LocalSearch.cpp:203-212 | applied moves chain: what one move keeps (nodes, ends, feasibility) is kept by any sequence of them |
| LocalSearch.TwoOptStep | src/LocalSearch.cpp:6-41 | false leaves routes and total unchanged and no route has an improving reversal; true applied the first improving reversal and total == SolutionCost |
| LocalSearch.RelocateStep | src/LocalSearch.cpp:43-100 | false leaves everything unchanged and no relocation beats the recorded total; true applied the first one and total == SolutionCost |
| LocalSearch.SwapStep | src/LocalSearch.cpp:102-143 | false leaves everything unchanged and no exchange beats the recorded total; true applied the first one and total == SolutionCost |
| LocalSearch.OrOpt2Step | src/LocalSearch.cpp:145-192 | false leaves everything unchanged and no block move improves; true applied the first one and total == SolutionCost |
| LocalSearch.Apply | src/LocalSearch.cpp:204 | an operator of the list either fails and is stalled on the unchanged solution, or keeps nodes, ends and feasibility and strictly lowers SolutionCost |
| LocalSearch.VND | src/LocalSearch.cpp:194-215 | the result keeps the start's nodes, route ends and feasibility, records its exact cost, costs no more than the start, and every listed operator fails on it (k reset on improvement, advanced on failure) |
| LocalSearch.GetDefaultNeighborhoods | src/LocalSearch.cpp:217-224 | the list holds relocate, swap, 2-opt and or-opt-2 |
| LocalSearch.DefaultListStallsAll | src/LocalSearch.cpp:217-224 | after VND with the default list, no operator at all improves the solution |
| Vnd.ImproveTwoOpt | src/VND.cpp:6-43 | not improved: the empty result and nothing changed, no improving reversal; improved: modified_routes == {route_idx} of the first improving reversal |
| Vnd.ImproveRelocate | src/VND.cpp:45-106 | not improved: nothing changed, no relocation beats the recorded total; improved: modified_routes == {from, to} of the first improving relocation |
| Vnd.ImproveSwap | src/VND.cpp:108-153 | not improved: nothing changed; improved: modified_routes == {r1, r2} of the first improving exchange between two non-empty routes |
| Vnd.ImproveOrOpt2 | src/VND.cpp:155-205 | as written: not improved: nothing changed; improved: modified_routes == {route_idx} of the first improving block move, and totalCost is that one route's cost, which is at most SolutionCost |
| Vnd.OrOptRecordedTotalTooLow | src/VND.cpp:187-190 | a total set to one route's cost is strictly below SolutionCost whenever another route has positive cost |
| Vnd.ImproveOrOpt2Corrected | src/VND.cpp:155-205 | as ImproveOrOpt2, but on an improvement totalCost == SolutionCost of the improved routes |
| Vnd.TwoOptTargeted | src/VND.cpp:273-313 | only routes of target_routes are searched and changed (out-of-range indices skipped); not improved: unchanged and no target route has an improving reversal |
| Vnd.OrOpt2Targeted | src/VND.cpp:316-368 | only target routes are searched and changed; not improved: unchanged and no target route has an improving block move |
| Vnd.ChangesWiden | src/VND.cpp:237-240 | a change confined to some routes is confined to any superset of them |
| Vnd.Improve | src/VND.cpp:231 | one operator call, with the corrected or-opt-2: stalled and unchanged, or a change confined to modified_routes that strictly lowers SolutionCost and records it as the total |
| Vnd.TargetedRound | src/VND.cpp:393-400 | one pass of the mini-RVND: an improvement confined to the targets, or every targeted operator stalled on the unchanged solution |
| Vnd.IntraRouteRVND | src/VND.cpp:371-404 | an empty target set returns false and changes nothing; routes outside the targets never change; true iff some targeted improvement was applied; on return neither targeted operator improves a target route |
| Vnd.InterRound | src/VND.cpp:230-244 | the first improving inter-route operator of the order, followed by the mini-RVND on its modified routes, with the new cost recorded as the total; or every inter-route operator stalled |
| Vnd.IntraRound | src/VND.cpp:256-264 | the first improving intra-route operator of the order, with the new cost recorded as the total; or every intra-route operator stalled |
| Vnd.Phase | src/VND.cpp:223-245 | repeats shuffled passes while one improves; the list stays a permutation of itself; a change records the new cost as the total; on exit every operator of the list is stalled |
| Vnd.AllStalled | src/VND.cpp:247-267 | once both the inter-route and the intra-route list are stalled, every operator is |
| Vnd.VND | src/VND.cpp:207-270 | the inter-route phase runs first, and the global intra-route phase only after a pass of it changed nothing; the result keeps nodes, ends and feasibility, costs no more than the start, records exactly its cost as the total, and no operator improves it |
| Vnd.GetInterRouteNeighborhoods | src/VND.cpp:406-411 | exactly the two inter-route operators, relocate and swap |
| Vnd.GetIntraRouteNeighborhoods | src/VND.cpp:413-418 | exactly the two intra-route operators, 2-opt and or-opt-2 |
| Vnd.GetAllNeighborhoods | src/VND.cpp:420-432 | the inter-route list followed by the intra-route list |
| Vnd.AllNeighborhoodsOnce | src/VND.cpp:420-432 | every operator occurs exactly once in the full list |
| Ils.FirstFeasibleInsertion | src/ILS.cpp:58-68 | the first position 1..size-1 at which inserting the block gives a feasible route, or none exists |
| Ils.PerturbBlock | src/ILS.cpp:23-75 | skipped only with fewer than 2 routes or a source route without stations; otherwise a contiguous interior block of size in [1, min(strength, max(1, avail/2))] moves to the first feasible position of the other route, or the source route is restored exactly |
| Ils.BlockMovedOutcome | src/ILS.cpp:52-68 | a block inserted at the first feasible position is the moved outcome |
| Ils.BlockReturnedOutcome | src/ILS.cpp:70-73 | with no feasible position the routes are back to the originals |
| Ils.PerturbBlockCorrected | src/ILS.cpp:23-75 | the draws of PerturbBlock; a moved block also leaves a feasible source route, and otherwise both routes are back to their originals |
| Ils.MoveBlockChecked | src/ILS.cpp:50-73 | cut, first feasible insertion, and both edits undone unless a position fits and the cut route is feasible |
| Ils.CheckedOutcomeFeasible | src/ILS.cpp:52-154 | with the corrected case 0, every branch leaves all routes of a feasible solution feasible |
| Ils.LongRoutes | src/ILS.cpp:82-87 | valid_routes holds, in ascending order, exactly the routes with more than two nodes |
| Ils.FewLongRoutes | src/ILS.cpp:89 | fewer than two such indices means at most one route holds a station |
| Ils.PerturbSwap | src/ILS.cpp:77-125 | skipped only with fewer than two routes holding a station; otherwise afterwards either both routes are back to their originals or both are feasible with the two stations exchanged |
| Ils.SwapOrRevert | src/ILS.cpp:108-123 | exchange, check both routes, and put both stations back unless both are feasible |
| Ils.PerturbReverse | src/ILS.cpp:127-154 | skipped only when the chosen route has < 5 nodes; otherwise a segment 1 <= pos1 < pos2 <= size-2 of at most strength+1 nodes is reversed, or reversed back if the route became infeasible |
| Ils.ReverseOrRevert | src/ILS.cpp:144-152 | reverse, check, and restore the route exactly if infeasible |
| Ils.OutcomeKeeps | src/ILS.cpp:52-154 | every branch keeps the multiset of nodes, the node ranges and the 0..0 route ends |
| Ils.OutcomeFeasibility | src/ILS.cpp:52-154 | from a feasible solution, every route except the source route of a moved block stays feasible |
| Ils.BlockMoveCanBreakSource | src/ILS.cpp:52-73 | a concrete case-0 move from a feasible solution whose source route [0, 1, 3, 4, 0] is infeasible |
| Ils.PerturbOnce | src/ILS.cpp:18-154 | the drawn case, with case 0 corrected: nodes, ranges and route ends kept, and a feasible solution stays feasible |
| Ils.ApplyRandomPerturbation | src/ILS.cpp:14-159 | nothing on an empty solution; otherwise the outcome of the drawn case, with nodes and route ends kept, a feasible solution kept feasible, and total_cost == SolutionCost whenever a case ran to its end |
| Ils.PerturbAndRefine | src/ILS.cpp:197-201 | a perturbed copy refined by the VND keeps the nodes, is refined, and stays feasible when the copied solution was |
| Ils.BuildAndRefine | src/ILS.cpp:178-181 | a GRASP solution refined by the VND is refined, and every route is feasible when Q >= 0 |
| Ils.Intensify | src/ILS.cpp:191-218 | best only improves and stays <= current and the entry best; every attempt costs at least best; the loop exits after max_iter_ils attempts in a row that did not beat current; a feasible entry best keeps best and current feasible |
| Ils.ILS | src/ILS.cpp:161-230 | a best solution exists iff max_iter >= 1; it is refined, its recorded total is its cost, that cost is one of the costs seen and no seen cost is lower, and with Q >= 0 every route is feasible (ILS.h:18), given the corrected case 0 |

## Left out

- Floating point. Travel costs, route costs and deltas are `double` in the code. The model uses integers, as `src/Constructive.cpp` does. Alpha is an exact `real`.
- Integer width. `long long` prefix sums and `size_t` indices are unbounded integers here. Wrap-around on overflow is not modelled.
- `SampleAlpha` (`src/ILS.cpp:8-11`). The real uniform draw becomes the parameter `alphaOf(t)`, bounded by `[alpha_min, alpha_max]`. It consumes no draw from the stream.
- Ils.ILS: the `+infinity` initial best is the `found` flag. The verbose console output is left out. Route feasibility of the result is proved only with Q >= 0: with Q < 0 no route passes the test, so no solution is feasible. It holds with the corrected case 0 of the perturbation; the code as written can return an infeasible solution (see "## Findings").
- RVND at `src/ILS.cpp:181,201` is defined in none of the files modelled here. The model refines with the partitioned `Vnd.VND` over `GetAllNeighborhoods()`.
- RNG internals. `mt19937` and the exact `uniform_int_distribution` and `std::shuffle` algorithms are replaced by `lo + raw % width` and a Fisher-Yates pass over a supplied stream. Uniformity is not stated.
- Random.Rng.Shuffle: states only that the result is a permutation of its input, not which permutation `std::shuffle` produces.
- Rejection loops. The `do ... while (a == b)` draws of two distinct indices (`src/ILS.cpp:30-33, 94-96`) become one draw of the second index among the others. That reaches the same pairs, but it consumes different draws.
- Construction.PickCandidate: `std::sort` (`src/Construction.cpp:255`) is not stable and its order is not modelled. The restricted list keeps scan order, so the contract states that the pick lies in the GRASP window, not which candidate a given draw selects.
- Console warnings of the builders. They become the stop condition (`InsertionStopped`, `Stopped`).
- The unused parameters: the `rng` of the operators; the rng of `GreedyNearestFeasible` and `GreedyBestInsertion` in `src/Construction.cpp`; `improvements_count` of the cursor VND (`src/LocalSearch.cpp:201`); and the ignored `neighborhoods` argument of the partitioned VND.
- Operator lists. The `std::function` lists become the `LocalSearch.Operator` and `Vnd.Neighborhood` datatypes, dispatched by a `match`.
- Non-negative travel costs. The cursor VND, the partitioned VND and the ILS require them (`Instance.NonNegativeCosts`), and the termination measure of every descent loop decreases `SolutionCost`.
- LocalSearch.RelocateStep: requires every route to be non-empty, as do Vnd.ImproveRelocate and Moves.RelocateSearch. On an empty route, `to_route.nodes.size() - 1` (`src/LocalSearch.cpp:67`, `src/VND.cpp:69`) wraps around in `size_t` and the code misbehaves.
- Ils.PerturbBlock, Ils.PerturbBlockCorrected, Ils.PerturbReverse, Ils.PerturbOnce, Ils.ApplyRandomPerturbation, Ils.PerturbAndRefine, Ils.Intensify and Ils.ILS: require a perturbation strength of at least 1. With a strength of 0 or less the code is undefined: the distribution `size_dist(1, min(block_size, ...))` at `src/ILS.cpp:44` gets an upper bound below its lower bound, and with a strength of 0 `rng() % min(strength, ...)` at `src/ILS.cpp:140` divides by zero.
- Feasibility.Clamp: `std::clamp(L0_min, 0, Q)` (`src/Feasibility.cpp:48`) is undefined when Q < 0. The model returns the value the usual library implementation computes instead.
- Relocate.TryRelocate: the solution is an `array<Route>` and the move returns its result together with `delta_cost`. The position checks after the erase (`src/relocate.cpp:71-73, 103-105`) can never fail, which RelocationIntra and RelocationInter prove.
- Ils.PerturbReverse: the guard `pos2 >= size - 1` (`src/ILS.cpp:142`) can never fire, because the draw at line 140 keeps `pos2 <= size - 2`.
- Relocate test instance. The instance file of the unit tests is not part of this model. The tests are stated over every instance whose stations 1..9 carry the demands the tests' comments list, with Q = 20. The cost checks of the tests are covered by RelocationDelta in general.
- Console output, file I/O, command-line parsing, instance reading and the driver (`main`) are not part of this model.

## Findings

| source | as written | input that shows it | evidently intended | confidence | as-written member | corrected member |
|---|---|---|---|---|---|---|
| src/test_relocate.cpp:128-130 | the "depot at the end" case relocates `from_idx = 2` of route `[0, 1, 2, 0]` and expects failure with the solution unchanged | `TryRelocate(sol, 0, 2, 1, 1)` on the initial solution: index 2 holds station 2, all guards pass, both routes stay feasible with Q = 20, so the move succeeds and route 0 becomes `[0, 1, 0]` | `from_idx = 3`, the closing depot, which the guard at relocate.cpp:38 rejects with nothing changed | not executed | Relocate.TestDepotEndAsWritten | Relocate.TestDepotEnd |
| src/VND.cpp:187-190 | or-opt-2 sets `total_cost = SolutionCost(data, solution)` and then overwrites it with `new_cost`, the cost of the one changed route | any solution with an improving block move in route r and another route of positive cost: the recorded total becomes `RouteCost(route r) < SolutionCost` (Vnd.OrOptRecordedTotalTooLow), and relocate and swap then compare against that low total | `total_cost` stays `SolutionCost`, as the other three operators leave it | not executed | Vnd.ImproveOrOpt2 | Vnd.ImproveOrOpt2Corrected |
| src/ILS.cpp:52-73 | case 0 cuts the block out of the source route and checks only the target route | routes `[0, 1, 2, 3, 4, 0]` and `[0, 0]`, demands `+5, -5, +5, -5`, Q = 5, block `[2]` moved to the empty route: the source becomes `[0, 1, 3, 4, 0]`, whose loads span 10 > Q, and the ILS can accept it (`src/ILS.cpp:203-210`) although `src/ILS.h:18` promises a feasible result | the source route is rechecked too and both routes are restored when it fails, as cases 1 and 2 recheck and revert | not executed | Ils.BlockMoveCanBreakSource | Ils.PerturbBlockCorrected |
