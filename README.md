# Hashiwokakero solvers, modelled in Dafny

Hashiwokakero ("Bridges") is a logic puzzle. A rectangular board holds islands, and each island
carries a number. A solution joins the islands with horizontal and vertical bridges so that:

- each island has exactly as many bridge ends as its number;
- any two islands are joined by at most two bridges;
- no two bridges cross;
- all islands form one connected group.

The repository solves the puzzle in two ways.

- **As a SAT problem.** `generate_cnf` turns a board into CNF clauses. Each candidate edge gets two
  variables: "at least one bridge" and "two bridges". Four solvers then search for a model:
  - a backtracking DPLL search with unit propagation;
  - an A* search over partial assignments;
  - a brute-force enumeration of 0/1/2 bridges per edge;
  - the Glucose SAT solver, with a loop that blocks disconnected models.
- **As a graph search.** Three solvers search lists of bridges directly:
  - an A* search over bridge lists;
  - two edge-by-edge backtracking searches.

This project models the parts of that code that hold the logic, module by module:

- `Hashi` (hashi.dfy): the shared vocabulary.
  - An island is `(r, c, val)` and is identified by its index.
  - An edge is `HEdge` or `VEdge`, and carries the span between its two islands.
  - A bridge is `(u, v, count, dir)`.
  - The predicates: crossing, degree sums, exact degrees, and crossing-freedom.
- `Islands` (islands.dfy): the row-major island scans. `find_islands` keeps every non-zero cell;
  `generate_cnf` keeps every positive cell.
- `Edges` (edges.dfy): the three variants of the candidate-edge enumeration. Edges are proved
  equal on boards without negative cells and with row-major islands.
- `CnfBuilder` and `CnfCorrect` (cnf.dfy, cnf_correct.dfy): `generate_cnf` in both of its copies.
  The encoding is proved sound and complete with respect to "every island has its degree, no two
  used edges cross".
- `Sat` (sat.dfy): what the DPLL and A* SAT solvers share:
  - literal semantics;
  - `is_satisfied`;
  - unit propagation, proved to keep every model and to report a conflict only when there is no model;
  - `format_model`.
- `BacktrackingSolver`, `AStarSolver` and `BruteForceSolver`: the three hand-written SAT solvers.
  Each is proved sound, and proved complete whenever it gives up without timing out.
- `Graph` (graph.dfy): reachability over a list of links, and the DFS/BFS sweeps. A sweep visits
  exactly the islands reachable from its start.
- `PySat` (pysat.dfy): `check_connectivity_from_model`, `model_to_bridges` and the `run_pysat`
  blocking loop. The SAT solver is a function parameter (an oracle).
- `BridgeGraph` (bridge_graph.dfy): degrees, `is_solved`, the per-pair bridge count and
  `check_connectivity`, as the graph solvers share them.
- `AStarGraph`, `BacktrakingGraph` and `BacktrackingGraph`: the three graph-search solvers. The
  module names follow the file names `solver_backtraking_graph.py` and
  `solver_backtracking_graph.py`.
- `Render` (render.dfy): `build_output_grid` and the rendering loop of `test.py`.
  - Both are on a two-dimensional array of strings.
  - The two are proved to draw the same strokes for the same model.

How effects are modelled:

- Wall-clock timeouts become a step budget:
  - `fuel` or `budget` for A* and `run_pysat`;
  - a call clock for `solver_backtraking_graph.py`;
  - the node counter itself for `solver_backtracking_graph.py`.
- The mutable bridge list of the graph backtrackers is a value passed in and handed back.
- The node counter shared by reference becomes an `array<nat>` of length one.
- Where the source compares a float heuristic, the model keeps twice its value as an integer,
  with `None` for infinity.

Facts about the code that the model keeps:

- `AStarSAT` branches on SAT variables, with h = the number of unassigned variables, and keys its
  visited set on the propagated assignment.
- `run_astar` branches on the edges of the first unfinished island, and keys its visited set on
  the sorted bridge triples.
- `helper_02.generate_cnf` adds an empty clause for an island whose value is more than twice its
  number of edges. The copy in `test.py` adds nothing there; its cardinality constraint alone
  cannot be met. Both CNFs have the same models (`CnfCorrect.CapacityCheckEquivalent`).
- `solver_backtraking_graph.py` calls its own `check_connectivity`, which raises `KeyError` on an
  empty island list; the model of that solver reports this as `raised`.

## Model

| member | source | states |
|---|---|---|
| Hashi.CrossesSymmetric | Source/helper_02.py:89-96 | The crossing test does not depend on the order of the two edges, and only a horizontal edge can cross a vertical one. |
| Islands.FindIslands | Source/helper_01.py:27-36 | The loop returns the island list defined by the row-major scan. |
| Islands.IslandsExactly | Source/helper_01.py:31-35 | An island is in the scan result exactly when its cell is on the board and passes the test (non-zero here, positive in `generate_cnf`), with its value. |
| Islands.IslandsRowMajor | Source/helper_02.py:13-17 | The scan lists islands in strict row-major order. |
| Islands.NoIslands | Source/helper_01.py:31-36 | A board with no qualifying cell yields no islands. |
| Islands.ScansAgree | Source/test.py:10-15 | On a board without negative cells, the `!= 0` scan and the `> 0` scan give the same list. |
| Edges.FindEdges | Source/helper_02.py:19-40 | The nested pair loops return the candidate-edge list: for each pair i < j, a horizontal edge, then a vertical one, when their cells are in line and the cells between are clear. |
| Edges.ScanRow | Source/helper_02.py:32 | The row scan answers whether every cell strictly between the two columns is clear. |
| Edges.ScanCol | Source/helper_02.py:39 | The column scan answers whether every cell strictly between the two rows is clear. |
| Edges.CandidatesExactly | Source/test.py:20-38 | An edge is a candidate exactly when it joins two in-line islands i < j, spans their sorted coordinates, and has a clear span. |
| Edges.CandidatesOrdered | Source/helper_02.py:22-40 | Candidate edges come in (u, v) order, with a pair's horizontal edge before its vertical one. |
| Edges.PairEdgesRowMajor | Source/helper_02.py:27-40 | With row-major islands, a pair yields at most one edge, and its first island is left of or above its second. |
| Edges.RulesAgree | Source/test.py:30 | On a board without negative cells, "all between are 0" and "none between is positive" select the same edges. |
| Edges.ParserEdgesAgree | Source/solver_astar_graph.py:230-252 | The `parse_input_file` edge loop (one `if`/`elif`, unsorted ranges) yields the same edges as the `generate_cnf` loop with the "none positive" rule, for row-major islands. |
| Edges.GuardedEdgesAgree | Source/solver_backtraking_graph.py:174-189 | The `parse_input_file` loop guarded by `xi < xj` / `yi < yj` yields the same edges as the `generate_cnf` loop with the "none positive" rule, for row-major islands. |
| CnfBuilder.VarsOwned | Source/helper_02.py:46-53 | Edge k owns the variables 2k+1 and 2k+2: they are positive and distinct, and no two edges share a variable. |
| CnfBuilder.GenerateCnf | Source/helper_02.py:8-105 | The islands are the positive cells; the edges are the candidates; the variable map pairs edge k with (2k+1, 2k+2); the clauses are the implications, then the per-island cardinality constraints, then the crossing exclusions. |
| CnfBuilder.DeclareVars | Source/helper_02.py:46-57 | One implication clause `[-v2, v1]` per edge, with the variable map. |
| CnfBuilder.BuildCards | Source/helper_02.py:59-82 | One cardinality constraint per island over the variables of its edges. With the capacity check, an empty clause replaces it when there are fewer literals than the island's value. |
| CnfBuilder.CollectLits | Source/helper_02.py:62-70 | The literals of island i are v1 and v2 of every edge touching i, in edge order. |
| CnfBuilder.BuildCrossings | Source/helper_02.py:84-103 | One clause `[-v1(i), -v1(j)]` for each pair i < j of crossing edges, in pair order. |
| CnfBuilder.CollectCrossings | Source/test.py:75-94 | The exclusion clauses contributed by edge i against every later edge. |
| CnfBuilder.TrueVarsMembers | Source/solver_pysat.py:20 | A variable is true in a model exactly when it occurs positively in the model list. |
| CnfCorrect.DecodeEncode | Source/helper_02.py:55-57 | Writing 0/1/2 bridges per edge as its two variables and reading them back gives the same counts. |
| CnfCorrect.IslandCount | Source/helper_02.py:65-70 | The number of true literals of island i is the number of bridge ends at i under the decoded counts. |
| CnfCorrect.CrossingClausesExactly | Source/helper_02.py:85-103 | A clause is among the crossing clauses exactly when it excludes the first variables of a crossing pair i < j. |
| CnfCorrect.EncodingSound | Source/helper_02.py:8-105 | Every assignment satisfying the CNF decodes to bridge counts that give each island its value and use no two crossing edges. |
| CnfCorrect.EncodingComplete | Source/test.py:5-95 | Every 0/1/2 choice per edge with exact degrees and no used crossing pair satisfies the CNF when encoded, and decodes back to itself. |
| CnfCorrect.CapacityCheckEquivalent | Source/test.py:64-67 | The CNF with the capacity check (an empty clause) and without it (the source's no-op check) have the same models. |
| CnfCorrect.CapacityEmptyClause | Source/helper_02.py:72-77 | When an island has fewer literals than its value, the CNF holds an empty clause and nothing satisfies it. |
| Sat.ScanClause | Source/solver_backtracking.py:44-58 | The literal scan reports whether the clause is satisfied and, when it is not, its unassigned literals in order. |
| Sat.ConflictClause | Source/solver_backtracking.py:60-62 | An unsatisfied clause with no unassigned literal is false under every extension. |
| Sat.UnitForced | Source/solver_backtracking.py:64-69 | An unsatisfied clause with one unassigned literal forces that literal in every extension that satisfies it. |
| Sat.UnitPropagate | Source/solver_backtracking.py:33-71 | On success, the result extends the input, settles every clause, and keeps every model of the input. On conflict, the input has no model. `AStarSAT.unit_propagate` (solver_astar.py:31-69) is the same loop. |
| Sat.IsSatisfied | Source/solver_backtracking.py:77-93 | True exactly when every clause has a literal made true by the assignment. `AStarSAT.is_satisfied` (solver_astar.py:85-99) is the same test. |
| Sat.FirstUnassigned | Source/solver_astar.py:105-112 | The least variable in 1..n that is not assigned; `None` exactly when all of 1..n are assigned. |
| Sat.FormatModel | Source/solver_backtracking.py:200-209 | The model list is the assignment's DIMACS list (see ModelListRoundTrip). `AStarSAT.format_model` (solver_astar.py:197-204) gives the same list, with unassigned variables read as false. |
| Sat.ModelList | Source/solver_astar.py:201-204 | The list has n entries, and entry i is i+1 or -(i+1). |
| Sat.ModelListRoundTrip | Source/solver_backtracking.py:204-209 | For a complete assignment of 1..n, reading the model list back gives the assignment. |
| Sat.CompleteBySize | Source/solver_backtracking.py:170 | Over the variables 1..n, an assignment has n entries exactly when it assigns all of 1..n. This is the goal test. |
| BacktrackingSolver.CountVars | Source/solver_backtracking.py:104-119 | The counted variables are exactly those with an unassigned occurrence in an unsatisfied clause, each with its number of such occurrences, and the insertion order is their order of first occurrence. |
| BacktrackingSolver.FirstMax | Source/solver_backtracking.py:129 | The chosen variable has the highest count, and it is the first in insertion order among those with that count: every variable before it has a lower count. |
| BacktrackingSolver.BranchNoModel | Source/solver_backtracking.py:180-194 | When neither value of the branch variable leads to a model, the assignment has none. |
| BacktrackingSolver.BacktrackingSAT.constructor | Source/solver_backtracking.py:15-27 | Stores the clauses and the variable count; the node counter starts at zero. |
| BacktrackingSolver.BacktrackingSAT.SelectVariable | Source/solver_backtracking.py:99-129 | If some unsatisfied clause has an unassigned variable, the result has the most such occurrences, and among equals it is the one that occurs first in the clauses. Otherwise it is the first unassigned variable of 1..n, and `None` when all are assigned. |
| BacktrackingSolver.BacktrackingSAT.Backtrack | Source/solver_backtracking.py:154-194 | A model it returns has n entries, satisfies every clause and extends the input. `None` means no extension of the input is a model. The node counter grows. |
| BacktrackingSolver.BacktrackingSAT.Solve | Source/solver_backtracking.py:135-152 | Success exactly when a model is returned. The model satisfies every clause, and failure means no assignment satisfies them. |
| AStarSolver.HeuristicGoal | Source/solver_astar.py:75-79 | The heuristic is never negative, and it is zero exactly on complete assignments. |
| AStarSolver.MinIndex | Source/solver_astar.py:137 | The popped entry has the least `(f, h, g)` key in the queue. |
| AStarSolver.Expand | Source/solver_astar.py:137-181 | One pop: a returned model satisfies every clause and extends the popped assignment, and the queue is left as it was. A failed propagation or an already visited assignment just drops the popped entry. A complete assignment that fails the clauses is dropped too. Otherwise the queue is the rest plus the two children of the smallest unassigned variable. The queue stays well formed, and every complete model is still reachable through the queue or the visited set. |
| AStarSolver.PushBranches | Source/solver_astar.py:166-181 | The new queue is the rest plus exactly the two children on the smallest unassigned variable (`Branches`), and they keep every complete model reachable. |
| AStarSolver.BranchesExtend | Source/solver_astar.py:170-181 | Each child extends the parent by exactly that one variable, true first and then false, with g+1, one unassigned variable fewer and f = g + h. |
| AStarSolver.Exhausted | Source/solver_astar.py:132 | When the queue empties, no complete assignment satisfies the clauses. |
| AStarSolver.Solve | Source/solver_astar.py:118-191 | A returned model satisfies every clause. Giving up before the budget is spent means there is no model. No state is expanded twice. |
| BruteForceSolver.FindCrossingPairs | Source/solver_bruteforce.py:34-44 | The pair list holds exactly the index pairs i < j whose edges cross. |
| BruteForceSolver.ModelOfEncodes | Source/solver_bruteforce.py:163-173 | The formatted model has two entries per edge, and its true variables are the encoding of the 0/1/2 counts. |
| BruteForceSolver.BruteForceSAT.constructor | Source/solver_bruteforce.py:15-28 | Stores the puzzle and the variable map; the node counter starts at zero. |
| BruteForceSolver.BruteForceSAT.HasConflictCrossing | Source/solver_bruteforce.py:111-122 | True exactly when an earlier edge that crosses edge idx already has a bridge. |
| BruteForceSolver.BruteForceSAT.IsIslandOverflow | Source/solver_bruteforce.py:124-144 | True exactly when an end of edge idx has more bridge ends than its value, counting edges 0..idx. |
| BruteForceSolver.BruteForceSAT.IsValidSolution | Source/solver_bruteforce.py:150-161 | True exactly when every island's degree equals its value. |
| BruteForceSolver.BruteForceSAT.FormatModel | Source/solver_bruteforce.py:163-173 | The model is the per-edge `[±v1, ±v2]` list (see ModelOfEncodes). |
| BruteForceSolver.BruteForceSAT.Dfs | Source/solver_bruteforce.py:74-105 | A result is a 0/1/2 choice with exact degrees and no used crossing pair, and it is the model returned. Every smaller value at each edge from `idx` on, with the earlier edges as in the result, leads to no solution. `None` restores the array and means no completion of the prefix is a solution. |
| BruteForceSolver.FirstInOrder | Source/solver_bruteforce.py:88-105 | When every smaller value tried before a solution is dead, no completion of the prefix that comes before the solution in lexicographic order is a solution. |
| BruteForceSolver.BruteForceSAT.CrossingDead | Source/solver_bruteforce.py:92-94 | Pruning on a crossing loses no solution. |
| BruteForceSolver.BruteForceSAT.OverflowDead | Source/solver_bruteforce.py:96-98 | Pruning on an island overflow loses no solution. |
| BruteForceSolver.BruteForceSAT.Solve | Source/solver_bruteforce.py:50-68 | A returned model satisfies the CNF and decodes to a valid, crossing-free choice, and no choice before it in the 0, 1, 2 search order is a solution. Failure means the CNF has no model. |
| Graph.FullIffConnected | Source/solver_pysat.py:45 | The set reachable from island 0 has all n islands exactly when the graph is connected. |
| Graph.BridgeAdjacency | Source/solver_astar_graph.py:16-20 | The adjacency map represents exactly the links of the bridge list. |
| Graph.Flood | Source/solver_pysat.py:35-43 | The stack sweep visits exactly the islands reachable from the root, together with those already seen. |
| Graph.Sweep | Source/solver_astar_graph.py:22-33 | The queue sweep visits exactly the islands reachable from the start, and counts them. |
| Graph.ReachesSymmetric | Source/solver_astar_graph.py:19-20 | Links are added in both directions, so reachability is symmetric. |
| PySat.CountDecodes | Source/solver_pysat.py:62-65 | The count read off the model for edge k is the decoded bridge count of edge k. |
| PySat.CountOfModel | Source/solver_pysat.py:63-69 | Reading the count back from a model that encodes a 0/1/2 choice gives the choice. |
| PySat.ModelAdjacency | Source/solver_pysat.py:23-32 | The adjacency map represents the edges whose v1 or v2 is true in the model. |
| PySat.CheckConnectivityFromModel | Source/solver_pysat.py:10-45 | True exactly when the islands are connected through the edges used by the model, including the cases n <= 1. |
| PySat.ModelToBridges | Source/solver_pysat.py:51-80 | The bridge list is the list read off the model edge by edge. |
| PySat.ModelBridgesMembers | Source/solver_pysat.py:62-78 | A bridge is listed exactly when its edge has a positive count in the model, with that count, the edge's ends and its direction. |
| PySat.ModelBridgesBounds | Source/solver_pysat.py:63-70 | At most one bridge per edge, each with count 1 or 2. |
| PySat.BlockingClause | Source/solver_pysat.py:125 | The blocking clause holds exactly when some literal of the model is false. |
| PySat.BlockRejects | Source/solver_pysat.py:123-125 | The blocking clause rules out the model it was built from. |
| PySat.RunPysat | Source/solver_pysat.py:86-130 | A returned model is connected and satisfies the CNF (given a sound oracle). Every rejected model was the oracle's answer and is disconnected. Stopping without a timeout means the oracle found no further model. With any budget, an unsatisfiable CNF gives no model and no timeout, and a first model that is already connected is the one returned. |
| BridgeGraph.CurrentDegrees | Source/solver_astar_graph.py:90-95 | Entry i is the number of bridge ends at island i. `get_current_degrees` in solver_backtracking_graph.py:33-38 is the same computation. |
| BridgeGraph.IsSolved | Source/solver_astar_graph.py:36-45 | True exactly when every island's degree equals its value. `is_solved` in solver_backtraking_graph.py:38-48 and solver_backtracking_graph.py:26-31 is the same test. |
| BridgeGraph.CheckConnectivity | Source/solver_astar_graph.py:11-34 | True exactly when the bridges connect all n islands, including the early answers for no islands and for no bridges. `check_connectivity` in solver_backtracking_graph.py:4-24 is the same check. |
| BridgeGraph.DegreeAppend | Source/solver_backtraking_graph.py:94-96 | Appending a bridge adds its count to the degree of each of its ends. |
| BridgeGraph.PairCountAppend | Source/solver_backtracking_graph.py:40-45 | Appending a bridge adds its count to its pair's total. |
| BridgeGraph.ChosenWithin | Source/solver_backtraking_graph.py:102-127 | Bridges appended along edges stay between valid islands. |
| BridgeGraph.UnsolvableSplit | Source/solver_backtraking_graph.py:106-129 | When skipping the edge and adding one or two bridges on it all lead to no solution, the list has no solution along the remaining edges. |
| AStarGraph.CalculateHeuristic | Source/solver_astar_graph.py:49-88 | `None` (infinity) exactly when some island is over its value. Otherwise the result is twice the value: the missing bridge ends, plus twice the number of unfinished components beyond the first. |
| AStarGraph.CountComponents | Source/solver_astar_graph.py:71-85 | The count is the number of unfinished islands that no earlier unfinished island reaches. |
| AStarGraph.FirstUnfinished | Source/solver_astar_graph.py:107-113 | The first island from i on that is short of its value, and -1 exactly when there is none. |
| AStarGraph.HeuristicZero | Source/solver_astar_graph.py:56-88 | Without overflow, the heuristic is never negative, and it is zero exactly when every island has its value. |
| AStarGraph.KeyOrderFree | Source/solver_astar_graph.py:97-99 | Two bridge lists with the same (u, v, count) triples in any order have the same key. |
| AStarGraph.SortedUnique | Source/solver_astar_graph.py:99 | A sorted arrangement of a multiset of triples is unique. |
| AStarGraph.ExistingCount | Source/solver_astar_graph.py:129-133 | The count of the first bridge on the pair, in either order, and 0 if there is none. |
| AStarGraph.FirstIsAll | Source/solver_astar_graph.py:129-133 | When pairs are not repeated, the first bridge's count is the pair's total. |
| AStarGraph.GetSuccessors | Source/solver_astar_graph.py:103-151 | The successors are those of the first unfinished island (`NextStates`), and none when every island has its value. Each successor keeps the bridge-list invariant, adds one or two bridges, and takes no island past its value. |
| AStarGraph.EdgeStep | Source/solver_astar_graph.py:138-149 | The one-bridge and two-bridge successors of one edge. |
| AStarGraph.EdgeSuccessorShape | Source/solver_astar_graph.py:138-149 | A successor is the list without the pair, plus one bridge on the edge. That bridge has count existing+1, or 2 when the pair was empty, with the cap and both ends' values respected. |
| AStarGraph.DegreeWithout | Source/solver_astar_graph.py:140 | Removing a pair's bridges lowers the degree of its two ends by the pair's total and no other degree. |
| AStarGraph.SuccessorsKeep | Source/solver_astar_graph.py:119-149 | Every successor keeps the invariant, adds one or two bridges at the expanded island, and takes no island past its value. |
| AStarGraph.PopMin | Source/solver_astar_graph.py:184 | The popped entry is least in Python's tuple order on `(f, g, tie_breaker)`, with infinity last. |
| AStarGraph.PushSuccessors | Source/solver_astar_graph.py:200-212 | The queue grows by one entry per successor with a finite heuristic. Each entry has priority g+h, the bridge total as g, and increasing tie-breakers. |
| AStarGraph.PushedMembers | Source/solver_astar_graph.py:202-211 | A successor is pushed exactly when its heuristic is finite, with its priority and total. |
| AStarGraph.Expand | Source/solver_astar_graph.py:191-212 | Stopping means the state is solved and connected, and leaves the queue as it was. Otherwise the new queue is the old one followed by one entry per successor of the first unfinished island with a finite heuristic, with consecutive tie-breakers. Every queued entry keeps the invariant. |
| AStarGraph.RunAStar | Source/solver_astar_graph.py:154-216 | A returned list is solved and connected, and `connected` is set exactly when a list is returned. A timeout returns nothing. No key is expanded twice. |
| BacktrakingGraph.IsValidBridge | Source/solver_backtraking_graph.py:8-16 | True exactly when the bridges already on the pair (u, v) or (v, u), plus the new ones, are within the cap. |
| BacktrakingGraph.CheckConnectivityAsWritten | Source/solver_backtraking_graph.py:18-36 | With islands, true exactly when the bridges connect them. With no islands, it fails (`None`), although the islands are then trivially connected. |
| BacktrakingGraph.GetConstrainedIsland | Source/solver_backtraking_graph.py:54-72 | The first unfinished island with the highest degree, or -1. With non-negative counts, -1 means every island has reached its value. |
| BacktrakingGraph.EdgesFor | Source/solver_backtraking_graph.py:74-76 | An edge is kept exactly when it touches the island. |
| BacktrakingGraph.EdgesForConcat | Source/solver_backtraking_graph.py:76 | Filtering keeps list order: it distributes over concatenation. |
| BacktrakingGraph.Backtrack | Source/solver_backtraking_graph.py:78-129 | Being past the limit at entry gives a timeout at once, with the clock unchanged; a timeout returns nothing and leaves the clock past the limit. With no islands the connectivity check raises. A result is the list handed back, solved and connected. A plain failure hands back the input list, and no completion of it along the remaining edges, within the pair cap, is solved and connected. The added bridges lie one per edge, in edge order, from `edge_idx` on. A result with bridges on edge `edge_idx` comes only after the no-bridge branch found nothing, and one with two bridges there only after the one-bridge branch was closed (no bridge, then 1, then 2). An island over its value gives no result. |
| BacktrakingGraph.Branch | Source/solver_backtraking_graph.py:111-127 | Push one bridge with count c along the edge and recurse. A plain failure pops it again, and means no completion with that bridge is solved and connected. |
| BacktrakingGraph.RunBacktracking | Source/solver_backtraking_graph.py:131-146 | The search raises exactly when there are no islands. `connected` exactly when a list is returned. A returned list is solved and connected and uses candidate edges in order. A timeout returns nothing. A plain failure means no bridge list along the candidate edges, within the pair cap, is solved and connected. |
| BacktrackingGraph.PairSetIsOnPair | Source/solver_backtracking_graph.py:43 | `{b.u, b.v} == {u, v}` holds exactly when the bridge lies on the pair in either order. |
| BacktrackingGraph.IsValidBridge | Source/solver_backtracking_graph.py:40-45 | True exactly when the bridges already on the pair, plus the new ones, are within the cap. |
| BacktrackingGraph.Backtrack | Source/solver_backtracking_graph.py:47-86 | The counter grows, and grows strictly unless the budget is spent at entry. A spent budget at entry means a timeout, and a timeout returns nothing. A result is solved, connected and made of bridges one per edge in order. A plain failure hands back the input list, and no completion of it along the remaining edges, within the pair cap, is solved and connected. A result with bridges on edge `edge_idx` comes only after the no-bridge branch found nothing, and one with two bridges there only after the one-bridge branch was closed (no bridge, then 1, then 2). |
| BacktrackingGraph.Branch | Source/solver_backtracking_graph.py:77-84 | Push one bridge with count c along the edge and recurse. A plain failure pops it again, and means no completion with that bridge is solved and connected. |
| BacktrackingGraph.BacktrackingGraphSolver.constructor | Source/solver_backtracking_graph.py:89-101 | Stores the puzzle and the timeout. The cap is 2 unless given, and the node counter starts at zero. |
| BacktrackingGraph.BacktrackingGraphSolver.Solve | Source/solver_backtracking_graph.py:103-127 | Success exactly when a solution came back without a timeout. A solution is solved and connected. The counter is at least one, and a timeout leaves it past the budget. A failure without a timeout means no bridge list along the candidate edges, within the pair cap, is solved and connected. |
| Render.StrReads | Source/helper_02.py:134 | Python's `str` of an integer reads back as that integer, so distinct island values print differently. |
| Render.PlaceIslands | Source/helper_02.py:132-134 | Each cell holding an island shows its value; other cells keep what they had. |
| Render.DrawStroke | Source/helper_02.py:141-153 | The cells strictly inside the stroke's span get its glyph, and no other cell changes. |
| Render.BuildOutputGrid | Source/helper_02.py:128-155 | The grid has the board's shape. Each cell shows the glyph of the last bridge crossing it, else its island's value, else "0". |
| Render.ShownUntouched | Source/helper_02.py:130 | A cell with no island and no bridge shows the fill. |
| Render.ShownIsland | Source/helper_02.py:133-134 | An island cell that no bridge crosses shows the island's value. |
| Render.ShownCovered | Source/helper_02.py:145-153 | A cell crossed by bridges shows the glyph of the last of them: "-" or "=" for horizontal, "\|" or "║" for vertical. |
| Render.RenderModel | Source/test.py:126-149 | The grid has the board's shape. Each cell shows the glyph of the last used edge crossing it, else its island's value, else a space. |
| Render.RenderersAgree | Source/test.py:133-149 | Rendering a model edge by edge draws the same strokes as rendering the bridges read off the model. |

## Left out

- Input and output are not part of this model: `read_input`, `print_board`, `export_output_grid`,
  `main.py`, the `__main__` blocks and every `print`. The boards they produce are taken as given
  `seq<seq<int>>` values.
- `decode_output` in `helper_02.py` is not modelled. It looks up `var_map[(idx, 1)]`, while the
  map is keyed by edge index, so it raises `KeyError` whenever there is an edge; with no edges it
  returns `[]`. `model_to_bridges` is the decoder that is modelled.
- CardEnc's sequential-counter encoding is not modelled. It adds auxiliary variables and
  clauses. A cardinality constraint is kept as an `ExactlyK(lits, k)` constraint whose meaning
  is "exactly k literals true".
- Glucose3 is not modelled. `run_pysat` takes the solver as an oracle function from clauses to
  an optional model; soundness is assumed of the oracle (`Sound`), not proved.
- Wall-clock time, `time.perf_counter`, `tracemalloc` and the reported time and memory figures
  are left out. The timeouts become step budgets instead:
  - `fuel` pops for `run_astar`;
  - `fuel` rounds for `run_pysat`;
  - `budget` expansions for `AStarSAT.solve`;
  - one clock unit per call for `solver_backtraking_graph.py`;
  - the node counter for `solver_backtracking_graph.py`.
- BacktrackingSolver.BacktrackingSAT.Backtrack: `BacktrackingSAT` and `BruteForceSAT` are
  modelled without their optional timeout. `main.py` runs them with `timeout=None`.
- BacktrackingSolver.BacktrackingSAT.Backtrack: the order of the two branches (True before
  False) is not stated, so which model comes back when there are several is not claimed. The
  node counter is shown to grow, not to equal the number of calls.
- BruteForceSolver.BruteForceSAT.Dfs: the node counter is shown to grow, not to equal the
  number of calls.
- BacktrackingGraph.BacktrackingGraphSolver.Solve: the node counter is shown to be at least one
  after a run and past the budget on a timeout, not to equal the number of calls.
- AStarGraph.RunAStar: completeness is not claimed. Giving up without a timeout is not shown to
  mean that no solution exists; that needs an invariant tying the queued and visited states to
  every solution, which the model does not carry.
- AStarSolver.MinIndex: ties on `(f, h, g)` go to the first entry. Python would compare the
  frozensets, which is a subset test.
- AStarSolver.Solve and AStarGraph.RunAStar: the queue is a sequence searched for a least
  entry. The binary-heap layout is not modelled.
- AStarGraph.CalculateHeuristic: the model returns twice the source's float value, as an integer,
  and `None` stands for `float('inf')`. Only the order of priorities matters to the search.
- BacktrakingGraph.Backtrack and BacktrackingGraph.Backtrack: the shared Python list is passed
  in and handed back as a value. Aliasing of that list with the caller is not captured; the
  list handed back is what the caller sees.
- BacktrackingGraph.Backtrack: a bridge appended by this solver has no `dir` key in the source.
  The model gives it the edge's direction, which no caller of this solver reads.
- BacktrackingGraph.BacktrackingGraphSolver.constructor: the `val` to `value` key rename is not
  modelled. Islands have a single typed `val` field.
- `get_constrained_island` and `get_edges_for_island` are modelled, but `backtrack` does not call
  them, and neither does the model.
- No graph solver checks crossings, and the model claims none for them.
- Every board is required to be rectangular. The source reads the width from row 0.

## Findings

| source | as written | input that shows it | evidently intended | confidence | as-written member | corrected member |
|---|---|---|---|---|---|---|
| Source/solver_backtraking_graph.py:18-36 | `check_connectivity` starts its search at island 0 with no test for an empty island list, so `adj[0]` raises `KeyError` | `islands = []` with `bridges = []`; `backtrack` reaches it because `is_solved([], [])` holds | return True for no islands, as the other graph solvers do | not executed | BacktrakingGraph.CheckConnectivityAsWritten | BridgeGraph.CheckConnectivity |
