# Hashiwokakero solver core in Dafny

This project models three search strategies of a Python Hashiwokakero
(Bridges) solver, and the constraint compiler they share.

The compiler works in stages:
- It numbers the islands of the grid in row-major order.
- It finds each island's nearest neighbour to the right and below, and
  deduplicates these pairs into candidate bridges.
- It gives each candidate a "single" variable and a "double" variable.
- It emits three kinds of CNF clauses: double implies single, an
  exact-count constraint per island, and no horizontal bridge crossing a
  vertical one.

Three strategies search the states of those variables:
- backtracking over one mutable assignment array;
- brute-force enumeration of `itertools.product`;
- an A* best-first loop over a heap of partial states, with a closed set.

A state a strategy accepts is decoded into a bridge → count map, and a
depth-first search checks that map for connectivity.

The modules follow the program's structure:
- `Grid`: `get_island_info` and `count_possible_bridges`.
- `Bridges`: `generate_bridge`.
- `Cnf`: clause semantics, partial states and `get_n_vars`.
- `CardEnc`: the cardinality encoding.
- `Encoding`: the three constraint adders, with the `IDPool` and CNF
  objects as classes.
- `Compile`: the shared compilation prelude.
- `Interpret`: `interpret_model`.
- `Connect`: `check_connect`.
- `Search`: what an accepted state is, and the itertools.product order.
- `Pipeline`: the whole grid-to-answer chain.
- `Backtrack`, `BruteForce` and `AStar`: the three strategies.

The central results:
- All three strategies return the same answer, `Pipeline.Answer`. It is
  the solution of the first accepted total state in lexicographic order,
  with variable 1 most significant and False before True.
- A total state satisfies the compiled clauses exactly when the puzzle's
  rules hold for it (`Compile.CompiledCorrect`).
- An answer solves the puzzle (`Pipeline.AnswerSpec`).

Partial states are written `StateOf(p, n)`: the Python list
`[None, p[0], …, p[|p|-1], None, …]` of length n + 1.
- The backtracking search keeps that list in an `array` and updates it in
  place.
- The A* search proves its loop correct against ghost prefixes.
- A final state that is not expanded further is a "leaf".

## Model

| member | source | states |
|---|---|---|
| Grid.GetIslandInfo | Source/helper.py:10-17 | the table lists exactly the non-zero cells, in row-major order, as (row, col, value); id k is entry k - 1 |
| Grid.IslandsOfIsTable | Source/helper.py:10-17 | the island table of any grid holds every non-zero cell once, each with its value, in scan order |
| Grid.RowIslandsComplete | Source/helper.py:12-16 | every non-zero cell of a row scanned so far is in the table |
| Grid.IslandsOfRowsOrdered | Source/helper.py:12-16 | ids increase in row-major order |
| Grid.Look | Source/helper.py:109-118 | the walk in one direction finds an island exactly when, past a run of empty in-grid cells, the first non-empty cell is positive |
| Grid.NotSeenPast | Source/helper.py:110-118 | a walk that leaves the grid or meets a negative cell after empty cells sees no island |
| Grid.CountPossibleBridges | Source/helper.py:104-119 | the count is the number of the four directions that see an island, so it is at most 4 |
| Bridges.BuildCoordMap | Source/helper.py:26-28 | coord_to_id is the map from each island's cell to its id |
| Bridges.CoordMapSpec | Source/helper.py:26-28 | the keys are exactly the island cells, and each maps to the id of the island there |
| Bridges.Nearest | Source/helper.py:35-36 | the scan stops at the nearest island cell in range; no cell before it is an island |
| Bridges.NearestOnTable | Source/helper.py:35-41 | on the island table, the nearest island cell is the first non-empty cell, and all cells before it are 0, so `valid` never turns false |
| Bridges.MakeBridge | Source/helper.py:44 | the pair is sorted (i <= j) and holds both ids |
| Bridges.DistinctEnds | Source/helper.py:43-44 | the two ends of a candidate are different islands |
| Bridges.Scan | Source/helper.py:35-59 | one inner scan yields the candidate towards the nearest island in that direction, or none |
| Bridges.CandidateExists | Source/helper.py:35-59 | an island yields a candidate in a direction exactly when some non-empty cell lies beyond it in that direction |
| Bridges.CandidateJoins | Source/helper.py:42-45 | a candidate joins island k + 1 to a later island across empty cells (i < j) |
| Bridges.FromIslandComplete | Source/helper.py:33-59 | the candidates from island k + 1 have a horizontal one and a vertical one exactly when there is a non-empty cell ahead in that direction |
| Bridges.FromIslandDistinct | Source/helper.py:33-59 | one island yields no pair twice |
| Bridges.CollectBridges | Source/helper.py:33-59 | the raw list is the candidates of every island, in id order |
| Bridges.Dedupe | Source/helper.py:62-66 | the result has distinct pairs and holds exactly the pairs of the raw list |
| Bridges.DedupeKeepsFirst | Source/helper.py:62-66 | each kept bridge is the first raw entry with its pair, so its extra is the first seen |
| Bridges.DedupeDistinct | Source/helper.py:62-66 | deduplicating a list that has no repeated pair returns it unchanged |
| Bridges.RemoveDuplicates | Source/helper.py:62-66 | the loop over unique_bridge computes the deduplicated list |
| Bridges.GenerateBridge | Source/helper.py:19-67 | returns coord_to_id and the deduplicated candidates |
| Bridges.RawJoins | Source/helper.py:33-59 | every raw candidate joins two islands across empty cells |
| Bridges.GenerateBridgeOnTable | Source/helper.py:19-67 | on the island table the raw list already has distinct pairs, so deduplication keeps it; every bridge joins nearest neighbours with i < j; each island has a candidate in a direction exactly when a non-empty cell lies ahead |
| Encoding.IdPool.constructor | Source/helper.py:76-77 | a fresh pool has no keys, and its counter is 0 |
| Encoding.IdPool.Id | Source/helper.py:76-77 | a known key returns its id and changes nothing; a new key gets the counter + 1 and is recorded |
| Encoding.Formula.Append | Source/helper.py:78 | cnf.append adds one clause at the end |
| Encoding.Formula.Extend | Source/helper.py:96 | cnf.extend adds the clauses at the end, in order |
| Encoding.Put | Source/helper.py:79 | a new key is appended to bridge_vars; an existing key keeps its place and takes the new value, every other entry staying |
| Encoding.AddMainConstraints | Source/helper.py:69-80 | bridge t gets the ids base + 2t + 1 and base + 2t + 2; one clause [-x2, x1] per bridge is appended; the pool grows by 2 per bridge and records both keys |
| Encoding.MainVarsAt | Source/helper.py:74-80 | entry t of bridge_vars is (i, j, base + 2t + 1, base + 2t + 2) for bridge t |
| Encoding.MainVarsFresh | Source/helper.py:76-77 | the ids are fresh, x1 < x2 within each bridge, and the ids of different bridges do not overlap |
| Encoding.MainClausesCorrect | Source/helper.py:78 | the main clauses hold exactly when no bridge has x2 without x1 |
| Encoding.CollectRequired | Source/helper.py:86-91 | required_bridge[id] lists x1, x2 of every bridge with end id, in bridge order |
| Encoding.AddIsland | Source/helper.py:92-101 | appends the cardinality clauses, the unit negations, or the empty clause, by the three cases |
| Encoding.AddIslandConstraints | Source/helper.py:82-102 | appends the clauses of islands 1..k in id order |
| Encoding.NegationsCorrect | Source/helper.py:97-99 | the unit clauses [-lit] hold exactly when no literal is true |
| Encoding.IslandClausesCorrect | Source/helper.py:92-101 | in all three cases, one island's clauses hold exactly when exactly `require` of its literals are true; the empty clause makes too large a requirement unsatisfiable |
| Encoding.IslandsClausesCorrect | Source/helper.py:92-101 | all the island clauses hold exactly when every island's count is met |
| Encoding.IncidentCountsDegree | Source/helper.py:86-91 | when double implies single, the number of true incident literals is the island's number of bridges |
| Encoding.IslandMetIsDegree | Source/helper.py:93-96 | an island's cardinality is met exactly when its degree equals its value |
| Encoding.CrossPair | Source/helper.py:132-149 | one [-single1, -single2] clause is appended exactly for a horizontal/vertical pair crossing strictly inside both spans; same-orientation pairs get none |
| Encoding.AddCrossRow | Source/helper.py:130-149 | the inner loop appends the clauses of pairs (i, j) for j > i |
| Encoding.AddNonCrossingConstraints | Source/helper.py:121-150 | appends the clauses of every crossing pair i < j, leaving the pool unchanged |
| Encoding.ForbidCorrect | Source/helper.py:140 | [-x, -y] holds exactly when x and y are not both true |
| Encoding.CrossUpToCorrect | Source/helper.py:128-149 | the non-crossing clauses hold exactly when no crossing pair has both singles true |
| CardEnc.EqualsCorrect | Source/helper.py:95 | on an assignment of all the literals, the cardinality clauses hold exactly when `bound` of the literals are true |
| CardEnc.EqualsLits | Source/helper.py:95 | the encoding mentions only the given literals and their negations |
| Compile.CompileFormula | Source/a_start_solution.py:22-29 | the fresh CNF and pool followed by the three adders give bridge_vars with ids 2t + 1, 2t + 2 and the compiled clause list |
| Compile.CompiledWithin | Source/helper.py:174-183 | every literal of the compiled formula is within 1..2·|bridges|, and the last main clause mentions 2·|bridges| |
| Compile.NVarsOfCompiled | Source/helper.py:174-183 | get_n_vars of the compiled formula is 2·|bridges| |
| Compile.CompiledCorrect | Source/helper.py:69-150 | a total state satisfies the compiled formula exactly when double implies single, every island's degree is its value, and no crossing pair is built |
| Cnf.GetNVars | Source/helper.py:174-183 | n bounds every literal and is attained by one of them, or is 0 when there is none |
| Cnf.CountFalsified | Source/a_start_solution.py:33-46 | the number of falsified clauses is 0 exactly when no clause is falsified |
| Cnf.StateOf | Source/brute_force_solution.py:25 | the state of p has a None placeholder at 0, p's values at 1..|p|, and None after |
| Cnf.StateOfExtend | Source/backtrack_solution.py:51 | setting position |p| + 1 gives the state of p + [b] |
| Cnf.StateOfRestore | Source/backtrack_solution.py:56 | resetting position |p| + 1 to None gives back the state of p |
| Cnf.StateOfInjective | Source/a_start_solution.py:56-57 | different prefixes have different states, so the state key identifies the prefix |
| Cnf.ConflictPersists | Source/backtrack_solution.py:27-40 | a falsified clause stays falsified in every extension, so pruning is sound |
| Cnf.TotalNoConflictIsSatisfying | Source/backtrack_solution.py:43-44 | on a total state, no falsified clause means every clause is satisfied |
| Interpret.InterpretModel | Source/helper.py:185-198 | the loop computes the solution entries in bridge_vars order |
| Interpret.InterpretationMembers | Source/helper.py:191-197 | an entry is present exactly for a bridge whose x1 is true; its count is 2 when x2 is also true, else 1 |
| Interpret.InterpretationDegree | Source/helper.py:191-197 | an island's bridge count in the solution is the sum of the counts of the bridges it ends |
| Connect.BuildGraph | Source/helper.py:157-161 | the adjacency map has keys 1..k, and each list is j for every (u, j) then i for every (i, u) with count > 0, in solution order |
| Connect.AddEntry | Source/helper.py:158-161 | one solution entry extends the lists of its two ends when its count is positive |
| Connect.AddEdge | Source/helper.py:160-161 | graph[i] gets j appended and graph[j] gets i appended, and nothing else changes |
| Connect.AdjacencyEdges | Source/helper.py:157-161 | w is on u's list exactly when an entry with count > 0 joins u and w |
| Connect.GraphListsEdges | Source/helper.py:157-161 | every listed neighbour is an island joined by a built bridge |
| Connect.GraphHasEdges | Source/helper.py:157-161 | every island joined to u by a built bridge is on u's list |
| Connect.Dfs | Source/helper.py:164-168 | dfs adds u and only islands reachable from u, and leaves every newly visited island with all its neighbours visited |
| Connect.ClosedHoldsReachable | Source/helper.py:164-168 | a set closed under bridges that holds the start holds every reachable island |
| Connect.CountDecides | Source/helper.py:170-172 | the visited set has k elements exactly when every island is reachable from island 1 |
| Connect.CheckConnect | Source/helper.py:152-172 | true exactly when every island 1..k is reachable from island 1 along bridges with count > 0 |
| Search.CompletionsMembers | Source/brute_force_solution.py:24 | the completions of p are exactly the total states extending p |
| Search.CompletionsSorted | Source/brute_force_solution.py:24 | itertools.product order is strictly increasing lexicographic order |
| Search.FirstAcceptedSpec | Source/brute_force_solution.py:24-45 | the first accepted entry is None exactly when no entry is accepted, and otherwise the earliest accepted one |
| Search.FirstIsLeast | Source/brute_force_solution.py:24-45 | the first accepted product state is accepted and lexicographically least among accepted states, and is None only when no total state is accepted |
| Search.FirstAcceptedSame | Source/backtrack_solution.py:54-55 | when no accepted state decodes to {}, demanding a truthy result picks the same state |
| Search.NoAcceptedUnderConflict | Source/backtrack_solution.py:52 | no completion of a state with a falsified clause is accepted |
| Search.EmptyClauseRejects | Source/helper.py:100-101 | a formula holding the empty clause has no accepted state, for every strategy |
| Search.AllSatisfied | Source/brute_force_solution.py:28-32 | true exactly when every clause has a true literal |
| Search.ClauseHolds | Source/brute_force_solution.py:29-30 | true exactly when the clause has a true literal; the empty clause is false |
| Search.ClauseOpen | Source/backtrack_solution.py:29-37 | true exactly when the clause has an unassigned or a true literal |
| Pipeline.Prepare | Source/a_start_solution.py:19-30 | the shared preparation yields the compiled problem of the grid |
| Pipeline.ProblemWellFormed | Source/a_start_solution.py:19-30 | literals and bridge ids are within 1..n, and bridge ends are island ids |
| Pipeline.AcceptedSolves | Source/helper.py:69-172 | the solution of an accepted state gives every island exactly its number of bridges, uses candidate bridges once or twice, crosses none, and connects all islands |
| Pipeline.AcceptedNonEmpty | Source/backtrack_solution.py:54 | an accepted solution is never the empty dict, since island 1 needs a bridge |
| Pipeline.AnswerSpec | Source/brute_force_solution.py:24-45 | the answer solves the puzzle, is None exactly when no total state is accepted, and is unchanged by demanding a truthy result |
| Backtrack.IsValid | Source/backtrack_solution.py:27-40 | false exactly when some clause has every literal assigned and none true |
| Backtrack.Leaf | Source/backtrack_solution.py:43-48 | at i > n the result is Some(solution) exactly when the state satisfies every clause and is connected, otherwise None; truthiness matches the first non-empty accepted completion |
| Backtrack.Child | Source/backtrack_solution.py:51-55 | is_valid, then recursion; a conflict yields None |
| Backtrack.Explore | Source/backtrack_solution.py:42-57 | the result is truthy exactly when some completion of the prefix is accepted with a non-empty solution, and is then that first completion's solution with the array holding it; a failed call restores the array to the prefix's state |
| Backtrack.SolveWithBackTrack | Source/backtrack_solution.py:59-69 | returns the common answer of the grid |
| BruteForce.TryState | Source/brute_force_solution.py:25-40 | ok exactly when the state satisfies every clause and its solution is connected, with that solution |
| BruteForce.SearchList | Source/brute_force_solution.py:24-45 | the loop returns the solution of the first accepted state of the list, or None |
| BruteForce.SearchAll | Source/brute_force_solution.py:24-45 | the loop over itertools.product returns the decoded first accepted state |
| BruteForce.SolveWithBruteForce | Source/brute_force_solution.py:11-45 | returns the common answer of the grid |
| AStar.Heuristic | Source/a_start_solution.py:33-46 | h is the number of clauses with no true and no unassigned literal |
| AStar.ScanClause | Source/a_start_solution.py:94-103 | sat is "some literal is true", and !sat && !unassigned is "the clause is falsified" |
| AStar.HasConflict | Source/a_start_solution.py:91-105 | true exactly when some clause is falsified |
| AStar.PopMin | Source/a_start_solution.py:55 | returns the position of an item no other item is below in (f, g, state) order |
| AStar.KeyLessTransitive | Source/a_start_solution.py:55 | the tuple order on heap items is transitive |
| AStar.LexLessState | Source/a_start_solution.py:55 | on prefix states, Python's list order follows the lexicographic order of the prefixes |
| AStar.IndexOfNone | Source/a_start_solution.py:80-85 | i is the first None at or after 1, or None when there is no None |
| AStar.LeafTest | Source/a_start_solution.py:61 | `None not in assgn[1:]` holds exactly for total states |
| AStar.ChildEntry | Source/a_start_solution.py:88-111 | a child is dropped on conflict; otherwise it is queued with g + 1 and its heuristic |
| AStar.Expand | Source/a_start_solution.py:87-111 | the expansion appends the non-conflicting children for False, then True |
| AStar.ChildrenSpec | Source/a_start_solution.py:87-111 | every queued child has f = g = the number of assigned variables, and its state differs from its parent's only at the first unassigned index |
| AStar.Goal | Source/a_start_solution.py:61-77 | a total state is returned exactly when it satisfies every clause and its solution is connected |
| AStar.PathCostZero | Source/a_start_solution.py:33-46 | every prefix of an accepted state has heuristic 0 |
| AStar.LeafOptimal | Source/a_start_solution.py:54-77 | an accepted total state popped as the heap minimum is the lexicographically least accepted state |
| AStar.LeafIsBest | Source/a_start_solution.py:54-77 | under the loop invariant, an accepted leaf at the heap minimum is the common answer |
| AStar.ExpandStep | Source/a_start_solution.py:87-111 | expanding a popped state keeps the loop invariant and decreases the termination measure |
| AStar.SkipClosed | Source/a_start_solution.py:57-58 | skipping a state already closed keeps the loop invariant |
| AStar.Start | Source/a_start_solution.py:48-52 | the heap starts with the empty state's item, and the invariant holds |
| AStar.Pop | Source/a_start_solution.py:55 | pops a minimal item, which is the item of a tracked prefix; if it is an accepted leaf it is the answer |
| AStar.Visit | Source/a_start_solution.py:56-111 | marks the state closed; a closed state is skipped; a leaf is returned when accepted; any other state queues exactly its children, keeping the invariant |
| AStar.BestFirst | Source/a_start_solution.py:48-117 | the loop terminates and returns the solution of the lexicographically least accepted state, or None when there is none |
| AStar.SolveWithAStar | Source/a_start_solution.py:19-117 | returns the common answer of the grid |

## Left out

- CardEnc.Equals: pysat's `CardEnc.equals(encoding=1)` is foreign code
  and uses auxiliary variables. The model uses an exactly-k encoding with
  no auxiliary variables. Its stated contract is proved for it: the
  clauses hold exactly when `bound` of the literals are true.
  - pysat's auxiliary variables would be numbered after every x variable,
    since the island constraints come after all the main ones.
  - An argument that is not proved in the model: the lexicographically
    first accepted state of pysat's encoding would then have the same x
    part as the first accepted state here, and so the same solution.
  - The model does not capture the extra variables in `get_n_vars`, or
    the extra search work they cause.
- Compile.NVarsOfCompiled: n == 2·|bridges| holds for the encoding
  without auxiliary variables. In the program, `get_n_vars` also counts
  pysat's auxiliary variables whenever an island has 0 < value ≤ the
  number of its literals.
- Compile.CompiledWithin: the bound 1..2·|bridges| on literals holds only
  because the model's cardinality encoding adds no variables.
- Encoding.IdPool.Id: pysat's `IDPool` is modelled as a counter from 1
  with a key → id map. Its other features are not modelled.
- AStar.PopMin: the `heapq` heap is a plain list with a linear
  minimum scan, and the popped item is removed in place.
  - Any minimal item may be popped, which is what the proof uses.
  - The internal heap layout is not modelled.
- AStar.ListLess: comparing lists that hold `None` and a bool at the same
  position raises TypeError in Python. The model's order ignores that
  case.
  - Equal (f, g) keys mean equal depth, since queued children have h = 0.
  - Equal depth means such lists differ only where both hold a bool.
- AStar.Visit: the branch where `assgn.index(None, 1)` raises ValueError
  cannot be reached once a state is not a leaf. It is an `assert false`.
- AStar.BestFirst: the loop body is split into `Start`, `Pop` and `Visit`.
  The ghost prefixes `paths` exist only for the proof.
- Connect.CheckConnect: it requires at least one island, because
  `min(islands.keys())` raises ValueError on an empty table. Every
  strategy therefore requires a grid with an island.
- Grid.Rectangular: the grid must be non-empty and rectangular.
  `len(matrix[0])` and the cell reads rely on that.
- The strategies return only the solution. The island table,
  the bridge list, the elapsed time and the peak memory of the Python
  tuple are left out; timing and memory are measured by the clock and
  `tracemalloc`.
- The brute-force clause test uses truthiness (`assignment[x]` /
  `not assignment[x]`). On `[None] + list(c)` every variable 1..n holds a
  bool, so it is the same as the `is True` / `is False` test used here.
- `itertools.product([False, True], repeat=n)` is the explicit list
  `Search.Product(n)`.
- Python's recursion depth limit in `dfs` and `backtrack` is not modelled.
- Source/main.py and Source/pysat_solution.py are not part of this model.
  They hold I/O and command-line glue, and a loop over an external SAT
  solver.
- `read_file`, `print_result` and `count_files_in_directory` in
  Source/helper.py are file and OS I/O, and are not modelled.
