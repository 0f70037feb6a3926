# A* and IDA* over implicit graphs, in Dafny

This project models `cds::astar`, a header-only C++ library. It searches an
implicit graph, given as a start node, an `expand` function listing a node's
neighbours, a heuristic `h`, an edge weight `w`, a goal test and a cost
ceiling `max_cost`. Two searches are modelled:

- **A\*** (`a_star_search`) keeps a registry of discovered nodes, each OPEN or
  CLOSED with its cost from the start and its predecessor. It also keeps a
  priority queue of (node, f = g + h) estimates. It pops the least estimate,
  stops at a goal or when f exceeds `max_cost`, and otherwise closes the node
  and relaxes its neighbours. A path is rebuilt by following predecessors.
- **IDA\*** (`ida_star_search` over `ida_search`) runs rounds of depth-first
  search from the start. Each round is bounded by f. The bound starts at
  h(start) and is raised to the least f that overshot it.

Also modelled:

- the library's older A\*, with an explicit goal node and separate g, f and
  predecessor maps;
- the path-cost helper and adjacency-list graph of the test suite;
- the examples built on the searches:
  - the N×N sliding puzzle;
  - the cycle decomposition that decides whether a board can be solved;
  - the solver helpers and heuristics;
  - the 3×3 magic-square search;
  - the 45×45 grid with a T-shaped wall from the older test program.

Layout, one module per file unless noted:

- `wrappers.dfy`: the `Option` type.
- `problem.dfy`: the search inputs (`Problem`) and the ceiling `CostLimit`, which is `int` max.
- `node.dfy`: the node records and the queue order.
- `paths.dfy`: path contiguity and path cost.
- `astar.dfy`: `AStarSteps` holds the steps and their invariant; `AStar` holds the main loop.
- `ida.dfy`: `IdaSearch` is the depth-first search; `IdaStar` is the driver.
- `legacy_astar.dfy`: the older A\*.
- `cycles.dfy` and `legacy_cycles.dfy`: the cycle decomposition and its older form.
- `board.dfy`: row-major cell addressing.
- `puzzle.dfy`: the sliding puzzle.
- `solve_puzzle.dfy`: the puzzle solver helpers and heuristics.
- `magic.dfy`: the magic-square search.
- `graph.dfy`: the test graph, plus the A\* and IDA\* runs on it.
- `grid.dfy`: the grid scenario.

The searches take a fuel argument (A\*) or a depth argument (IDA\*) in
place of unbounded looping. Running out is a separate outcome: `OutOfFuel`,
or the `cut` flag.

## Model

| member | source | states |
|---|---|---|
| NodeRecords.NewNodeInfo | include/astar/detail/node.hpp:39-45 | a new node record has the given set type and cost-to-node and no predecessor |
| NodeRecords.TopIsMinEntry | include/astar/detail/node.hpp:54-57 | with `<` flipped to `cost >= rhs.cost`, an entry the heap may put on top is exactly an entry of least estimated cost |
| NodeRecords.EqualCostsCompareBothWays | include/astar/detail/node.hpp:54-57 | two estimates of equal cost are each "less" than the other, so the order leaves ties to the heap |
| NodeRecords.MinEntryExists | include/astar/a_star_search.hpp:65-66 | a non-empty queue always has an entry of least cost to pop |
| Paths.SingleNodeCost | tests/src/get_path_cost.h:10-12 | a one-node path costs nothing |
| Paths.CostFromFront | tests/src/get_path_cost.h:6-13 | a path's cost is the weight of its first edge plus the cost of the rest |
| Paths.GetPathCostIsPathCost | tests/src/get_path_cost.h:6-13 | `get_path_cost`'s front-to-back sum over consecutive pairs equals the cost that path reconstruction builds from the back |
| Paths.CostOfJoin | tests/src/get_path_cost.h:6-13 | two paths joined at a shared node cost the sum of their costs |
| Paths.UnitCostCountsEdges | tests/src/get_path_cost.h:6-13 | with every weight 1, a path costs one less than its number of nodes |
| AStarSteps.Init | include/astar/a_star_search.hpp:51-59 | before the loop, the start is the only known node: OPEN, at cost 0, with no predecessor; the queue holds only its estimate h(start) |
| AStarSteps.InitInv | include/astar/a_star_search.hpp:51-59 | the initial state satisfies the search invariant: predecessor chains, queue entries bounding their nodes' f, a queued estimate for every OPEN node, no CLOSED goal |
| AStarSteps.Relax | include/astar/a_star_search.hpp:102-129 | relaxing the neighbours never forgets a node and never removes a queued entry |
| AStarSteps.RelaxRecord | include/astar/a_star_search.hpp:105-128 | a record the loop adds or changes is a neighbour that was not CLOSED; it is now OPEN with cost g + w(n, x) and predecessor n, with a matching entry queued; if known before, it was OPEN and its cost strictly dropped |
| AStarSteps.RelaxEntry | include/astar/a_star_search.hpp:116-128 | every queued entry after relaxation was queued before, or is a neighbour's new estimate g + w(n, x) + h(x) |
| AStarSteps.RelaxNeverRaisesCosts | include/astar/a_star_search.hpp:105-128 | no recorded cost rises, and CLOSED neighbours are skipped, so their records are left exactly as they were |
| AStarSteps.RelaxImproves | include/astar/a_star_search.hpp:102-129 | every neighbour is in the registry after relaxation, and a neighbour that was not CLOSED ends with a recorded cost no higher than the cost through the expanded node, since a new or strictly cheaper one is recorded |
| AStarSteps.RelaxKeepsEntry | include/astar/a_star_search.hpp:116-128 | a node whose current estimate was queued still has its current estimate queued after relaxation |
| AStarSteps.ExpandNode | include/astar/a_star_search.hpp:98-129 | expanding marks the node CLOSED at its old cost, loses no node and no entry, only lowers costs, and leaves CLOSED records alone |
| AStarSteps.Reconstruct | include/astar/a_star_search.hpp:77-96 | following predecessors back from a known node gives a path that starts at the start, ends at the node, follows `expand` edges, and costs exactly the node's recorded cost |
| AStarSteps.GoalEntryIsFresh | include/astar/a_star_search.hpp:65-77 | when the least queued entry is a goal, its f is exactly the goal's recorded cost plus h |
| AStarSteps.ChangedRecords | include/astar/a_star_search.hpp:98-129 | every record an expansion changes is an improvement through the expanded node, is OPEN, and is not yet closed |
| AStarSteps.UnchangedLink | include/astar/a_star_search.hpp:98-110 | a predecessor link the expansion leaves alone still points at a CLOSED node with the exact edge cost |
| AStarSteps.ChangedLink | include/astar/a_star_search.hpp:116-128 | a link the expansion writes points at the expanded, now CLOSED node with the exact edge cost |
| AStarSteps.ExpandKeepsChain | include/astar/a_star_search.hpp:98-129 | after an expansion, every known node still has a predecessor chain back to the start with exact costs |
| AStarSteps.ExpandKeepsStatusOrder | include/astar/a_star_search.hpp:98-100 | after expanding a non-goal, the CLOSED nodes are exactly those expanded so far, and none is a goal |
| AStarSteps.ExpandKeepsEntryBounds | include/astar/a_star_search.hpp:113-128 | every queued entry's cost is at least its node's recorded cost plus h |
| AStarSteps.OpenKeepsEntry | include/astar/a_star_search.hpp:98-129 | every OPEN node after an expansion has its current estimate on the queue |
| AStarSteps.ExpandPreservesInv | include/astar/a_star_search.hpp:63-129 | popping a least entry whose node is not a goal, then expanding it, preserves the search invariant |
| AStarSteps.HandlePop | include/astar/a_star_search.hpp:65-100 | a pop ends the search exactly when f exceeds `max_cost` (no path) or the node is a goal; for a goal it yields the reconstructed path, whose cost plus h is the popped f; otherwise the invariant holds after expansion |
| AStarSteps.ExpandKeepsExplored | include/astar/a_star_search.hpp:98-129 | after an expansion, every neighbour of every CLOSED node is in the registry |
| AStarSteps.ExhaustedMeansUnreachable | include/astar/a_star_search.hpp:63-133 | once the queue is empty, no path from the start along `expand` edges ends at a goal, so "no path exists" is right |
| AStar.Search | include/astar/a_star_search.hpp:35-133 | (1) a path comes back exactly when a goal was reached; (2) that path runs from the start to a goal along `expand` edges, and its cost plus h(goal) is the reported cost, at most `max_cost`; (3) failing on cost reports a cost above `max_cost`; (4) a start whose h exceeds `max_cost` fails at once; (5) a start that is a goal gives the one-node path; (6) when the queue runs dry, no path from the start reaches a goal |
| IdaSearch.ExtendsStep | include/astar/detail/ida_search.hpp:63-82 | pushing an unvisited neighbour and then extending from it extends the original stack by distinct, newly recorded, pushed nodes |
| IdaSearch.Search | include/astar/detail/ida_search.hpp:33-100 | a search that finds nothing hands back the stack and node set it was given |
| IdaSearch.Children | include/astar/detail/ida_search.hpp:58-98 | a neighbour loop that finds nothing pops and erases every node it pushed |
| IdaSearch.SearchSound | include/astar/detail/ida_search.hpp:38-100 | if a goal is found, the stack was extended by distinct unvisited neighbours to a goal whose f is within the bound and `max_cost`; otherwise the value exceeds the bound or `max_cost`, or is the int-max "none" value |
| IdaSearch.ChildrenSound | include/astar/detail/ida_search.hpp:58-100 | a goal found below one of the neighbours comes back as a valid extension of the path, as in SearchSound; when nothing is found, the value is at most the running minimum and is either that minimum or a value over the bound, over `max_cost`, or the "none" value |
| IdaSearch.ChildrenLeast | include/astar/detail/ida_search.hpp:49-100 | the loop finds nothing exactly when no descent below an unvisited neighbour finds anything; it then returns the minimum of the running minimum and every such descent's value: at most each of them, and equal to one of them |
| IdaSearch.ExtendsChained | include/astar/ida_star_search.hpp:39-54 | a stack grown from the root holds the start with cost 0, and each later node was pushed from the node before it |
| IdaSearch.ChainCost | include/astar/detail/ida_search.hpp:63-71 | each node on a stack grown from the root is recorded with the cost of the path up to it |
| IdaSearch.FoundPathFromRoot | include/astar/ida_star_search.hpp:39-54 | a stack grown from the root starts at the start, follows `expand` edges, never repeats a node, and its top is recorded with the path's cost |
| IdaStar.DrainStack | include/astar/ida_star_search.hpp:56-67 | the list read off the stack holds the stack's nodes, bottom first |
| IdaStar.Search | include/astar/ida_star_search.hpp:22-80 | the bound never drops below h(start). A returned path comes from the round that found it: it runs from the start to a goal along `expand` edges without repeating a node, and its cost plus h is within the final bound and `max_cost`. An empty result means the bound passed `max_cost` or a round reported no overshoot at all |
| LegacyAStar.GetNodeScore | a_star_search.hpp:8-18 | the lookup returns the stored score, or stores and returns the type's maximum for an unknown node, changing no other score |
| LegacyAStar.GetNodeScoreSettles | a_star_search.hpp:8-18 | a second lookup of the same node changes nothing and returns the same score |
| LegacyAStar.LInit | a_star_search.hpp:55-67 | before the loop, only the start is open, with g = 0 and f = cost(start, goal); nothing is closed and nothing has a predecessor |
| LegacyAStar.LInitInv | a_star_search.hpp:55-67 | the initial state satisfies the older search's invariant |
| LegacyAStar.LRelax | a_star_search.hpp:101-125 | relaxing never changes the closed set and never drops an open node or a g score |
| LegacyAStar.LRelaxAt | a_star_search.hpp:101-125 | each node is either untouched, or was discovered or improved through the edge from n: not closed, now open with predecessor n, g = g(n) + w, f = g + cost within `max_cost`, and g strictly lower if it was open |
| LegacyAStar.LRelaxAtUpdate | a_star_search.hpp:117-124 | the same holds after the step that writes the first neighbour's scores |
| LegacyAStar.LReconstruct | a_star_search.hpp:84-96 | following `descendants` back from a scored node gives a start-to-node path along `expand` edges costing exactly its g; the start alone for the start |
| LegacyAStar.LStepCases | a_star_search.hpp:98-125 | closing n and relaxing leaves each node untouched or improved through n; CLOSED nodes and n itself are untouched |
| LegacyAStar.LStepDesc | a_star_search.hpp:98-125 | after a step, every predecessor link points at a closed node with the exact g |
| LegacyAStar.LStepNode | a_star_search.hpp:98-125 | after a step, each node is scored iff it is open or closed, never both, has f = g + cost(x, goal), has f within `max_cost` and a predecessor unless it is the start, and is closed iff expanded |
| LegacyAStar.LExpandKeepsSets | a_star_search.hpp:98-125 | expanding an open non-goal keeps open and closed disjoint and covering every scored node, keeps closed equal to the expanded nodes, and never closes the goal |
| LegacyAStar.LExpandKeepsScores | a_star_search.hpp:98-125 | expanding keeps f = g + cost(x, goal), f within `max_cost` for every node but the start, and every predecessor link exact |
| LegacyAStar.LExpandInv | a_star_search.hpp:71-125 | expanding an open non-goal node preserves the older search's invariant |
| LegacyAStar.LRelaxCovers | a_star_search.hpp:101-125 | each neighbour is closed, scored after the loop, or skipped because its f through the expanded node exceeds `max_cost` |
| LegacyAStar.LExpandKeepsExplored | a_star_search.hpp:98-125 | after an expansion, every neighbour of a closed node is scored, or its f through that node exceeds `max_cost` |
| LegacyAStar.LExhaustedMeansRefused | a_star_search.hpp:71-129 | once the open set is empty, every path from the start to the goal leaves the scored nodes at a step whose f, through the g of the node it leaves, exceeds `max_cost` |
| LegacySearch.MinOpenExists | a_star_search.hpp:76-82 | a non-empty open set of scored nodes has a node of least f for `min_element` to find |
| LegacySearch.Search | a_star_search.hpp:36-129 | a non-empty result runs from the start to the goal along `expand` edges; when the goal is not the start, its cost plus cost(goal, goal) is within `max_cost`; a start equal to the goal gives the one-node path; when the open set runs dry, every path from the start to the goal takes a step whose f exceeds `max_cost` when measured along some path that reaches the step's first node |
| Cycles.IndexOfFinds | examples/include/cycle_decomposition.hpp:40-48 | the `find` returns nothing exactly when the value is absent, and otherwise the first position holding it |
| Cycles.FirstUnvisited | examples/include/cycle_decomposition.hpp:19-22 | the scan stops at the first unvisited position, and every position before it is visited |
| Cycles.Walk | examples/include/cycle_decomposition.hpp:26-49 | a walk from an unvisited position marks at least one more position and grows the cycle; no walk unmarks anything |
| Cycles.WalkTraces | examples/include/cycle_decomposition.hpp:26-49 | the walk records v1 along the orbit i → position of v2[i] in v1 from its start, and a successful walk closes back at its start |
| Cycles.WalkKeepsMarks | examples/include/cycle_decomposition.hpp:26-49 | a walk never clears a visited mark |
| Cycles.WalkCollects | examples/include/cycle_decomposition.hpp:26-49 | the entries a walk marks are exactly the entries it adds to the cycle |
| Cycles.WalkBalances | examples/include/cycle_decomposition.hpp:26-49 | a successful walk marks the same multiset of values in v1 and in v2 |
| Cycles.Decompose | examples/include/cycle_decomposition.hpp:17-53 | the loop emits no empty cycle and at most one cycle per unvisited position |
| Cycles.DecomposeTraces | examples/include/cycle_decomposition.hpp:17-53 | each emitted cycle follows the orbit of its first element; every cycle but a failed last one closes |
| Cycles.DecomposeCollects | examples/include/cycle_decomposition.hpp:17-53 | the emitted cycles never hold an element of v1 more often than v1 does, and on success they hold all of v1 |
| Cycles.DecomposeBalances | examples/include/cycle_decomposition.hpp:17-53 | success implies that v2 holds the same values as v1 |
| Cycles.CycleDecomposition | examples/include/cycle_decomposition.hpp:8-55 | every cycle is non-empty; there are at most \|v1\| cycles; empty inputs succeed with no cycles |
| Cycles.FirstCycleStartsAtZero | examples/include/cycle_decomposition.hpp:17-26 | the first cycle starts with v1[0] and follows its orbit |
| Cycles.CyclesPartition | examples/include/cycle_decomposition.hpp:8-55 | the cycles share no position of v1; on success they partition v1, and v2 is a rearrangement of v1 |
| Cycles.MissingValueFails | examples/include/cycle_decomposition.hpp:40-46 | a value of v2 missing from v1 makes the decomposition fail |
| Cycles.SucceedsIffRearranges | examples/include/cycle_decomposition.hpp:8-55 | for distinct v1, the decomposition succeeds exactly when v2 is a rearrangement of v1 |
| Cycles.DecomposeSucceeds | examples/include/cycle_decomposition.hpp:17-53 | for a rearrangement of distinct values, no walk revisits a marked position or misses a value, so every walk closes |
| Cycles.WalkCloses | examples/include/cycle_decomposition.hpp:26-49 | for a rearrangement of distinct values, a walk from an unvisited position closes its cycle without failing |
| Cycles.Transpositions | examples/include/cycle_decomposition.hpp:57-68 | the cycles give one transposition for each element beyond a cycle's first, so their number is the permutation's order |
| Cycles.PairWithHead | examples/include/cycle_decomposition.hpp:62-64 | a cycle's transpositions pair its first element with each later one, in order |
| Cycles.Clear | examples/include/cycle_decomposition.hpp:14 | the visited marks start with every position unvisited |
| LegacyCycles.LegacyCycleDecomposition | cycle_decomposition.hpp:8-59 | the older version keeps only cycles longer than one element and returns nothing once a walk fails |
| LegacyCycles.GatherKeepsLong | cycle_decomposition.hpp:17-53 | the older loop makes the same walks with the same verdict as the current one, and keeps exactly its cycles longer than one |
| LegacyCycles.LegacyDropsFixedPoints | cycle_decomposition.hpp:8-59 | the older result is the current decomposition without its one-element cycles on success, and empty on failure |
| LegacyCycles.LegacyCyclesDisjoint | cycle_decomposition.hpp:8-59 | the older result never holds an element of v1 more often than v1 does |
| LegacyCycles.LegacyMissingValueEmpty | cycle_decomposition.hpp:55-56 | a value of v2 missing from v1 leaves the older result empty |
| Board.RowColIsDivMod | examples/include/n_sq_puzzle.hpp:66-72 | the row and column of an index are `idx / N` and `idx % N`; so does the older copy at n_sq_puzzle.hpp:30-36 |
| Board.RowColOf | examples/include/n_sq_puzzle.hpp:146-147 | `operator()(i, j)` addresses index N·i + j, which maps back to (i, j) and lies on the board for rows below N; so does the older copy at n_sq_puzzle.hpp:52-53 |
| Board.CornerIsLast | examples/include/n_sq_puzzle.hpp:74-83 | the lower right corner is exactly the last index N² − 1 |
| Board.NeighbourUp | examples/include/n_sq_puzzle.hpp:309-311 | below the first row, the cell one row up is N indices back, in the same column |
| Board.NeighbourDown | examples/include/n_sq_puzzle.hpp:313-315 | above the last row, the cell one row down is N indices on and still on the board |
| Board.NeighbourLeft | examples/include/n_sq_puzzle.hpp:317-319 | right of the first column, the cell to the left is one index back, in the same row |
| Board.NeighbourRight | examples/include/n_sq_puzzle.hpp:321-323 | left of the last column, the cell to the right is one index on, in the same row and on the board |
| Board.SwapKeepsTiles | examples/include/n_sq_puzzle.hpp:299-328 | swapping two cells keeps the board's tiles |
| Puzzles.Solved | examples/include/n_sq_puzzle.hpp:111-116 | the constructed puzzle holds tiles 1 … N² − 1 in order, with the space in the lower right corner; so does the older copy at n_sq_puzzle.hpp:43-48 |
| Puzzles.SolvedDistinct | examples/include/n_sq_puzzle.hpp:111-116 | the solved board holds each tile once |
| Puzzles.SolvedHasBlankInCorner | examples/include/n_sq_puzzle.hpp:197-200 | the constructed board is solved, and a solved board has its space in the lower right corner; tests/src/n_sq_puzzle_tests.cpp:8-14 checks the same of a default puzzle |
| Puzzles.Cell | examples/include/n_sq_puzzle.hpp:146-147 | the tile at row i, column j sits at the index whose row and column are (i, j) |
| Puzzles.SameAsGridFlat | examples/include/n_sq_puzzle.hpp:163-171 | a puzzle equals a grid of rows exactly when its tiles are the rows laid end to end; so does the older copy at n_sq_puzzle.hpp:59-67 |
| Puzzles.CellOfFinds | examples/include/n_sq_puzzle.hpp:151-159 | `get_ij_of` finds the first cell holding the tile, and the tile is there |
| Puzzles.DoMove | examples/include/n_sq_puzzle.hpp:299-328 | `move` succeeds exactly when `can_move` allows it; a refused move leaves the puzzle as it was; a made move keeps the tiles and shifts the space; so does the older copy at n_sq_puzzle.hpp:164-193 |
| Puzzles.MoveShiftsSpace | examples/include/n_sq_puzzle.hpp:275-328 | a legal move takes the space one row up or down, or one column left or right, as the move names; so do the older `can_move` and `move` at n_sq_puzzle.hpp:140-193, and tests/src/n_sq_puzzle_tests.cpp:20-33 checks such moves |
| Puzzles.MoveSwapsTwoCells | examples/include/n_sq_puzzle.hpp:299-328 | a legal move swaps the space with the target tile and leaves every other cell alone |
| Puzzles.MovedKeepsTiles | examples/include/n_sq_puzzle.hpp:330-336 | `moved` never changes which tiles the board holds |
| Puzzles.MoveUndone | examples/include/n_sq_puzzle.hpp:275-336 | after a legal move, the opposite move is legal and restores the puzzle |
| Puzzles.SlideKeepsTiles | examples/include/n_sq_puzzle.hpp:74-83 | sliding the space down and right keeps the tiles |
| Puzzles.SlideArrives | examples/include/n_sq_puzzle.hpp:74-83 | sliding the space down d rows and right r columns, while staying on the board, moves it exactly there |
| Puzzles.SpaceEndsInCorner | examples/include/n_sq_puzzle.hpp:74-83 | `move_space_to_lower_right_` leaves the space in the last cell and keeps the tiles |
| Puzzles.CornerStays | examples/include/n_sq_puzzle.hpp:74-83 | a puzzle whose space is already in the corner is left unchanged |
| Puzzles.NotPermutationIsOdd | examples/include/n_sq_puzzle.hpp:86-102 | a state holding other tiles than the receiver is never an even permutation of it |
| Puzzles.EvenPermutationIsParity | examples/include/n_sq_puzzle.hpp:86-102 | for a rearrangement of distinct tiles, the answer is exactly the parity of the cycle decomposition's order |
| Puzzles.SelfIsEven | examples/include/n_sq_puzzle.hpp:86-102 | a state with distinct tiles is an even permutation of itself |
| Puzzles.SelfDecompose | tests/src/cycle_decomposition_tests.cpp:50-65 | decomposing distinct values onto themselves succeeds with one-element cycles only, of order 0 |
| Puzzles.Set | examples/include/n_sq_puzzle.hpp:118-142 | `set` refuses a state without a space and leaves the puzzle unchanged on refusal; on success the puzzle holds exactly the given state |
| Puzzles.SetKeepsTiles | examples/include/n_sq_puzzle.hpp:118-142 | an accepted state holds exactly the receiver's tiles, and its space index is the first 0 |
| Puzzles.SetRefusesOtherTiles | examples/include/n_sq_puzzle.hpp:118-142 | a state holding other tiles than the receiver is refused, and nothing changes |
| Puzzles.SetSolvedOnSolved | examples/include/n_sq_puzzle.hpp:118-142 | setting a solved puzzle to its own state is accepted and changes nothing |
| Puzzles.SetAcceptsEvenPermutations | examples/include/n_sq_puzzle.hpp:118-142 | with s the first 0 of the state, `set` accepts exactly when the state, once that 0 is moved to the lower right corner, is an even permutation of the receiver, and then takes the state with its space at s |
| Puzzles.BackToCorner | examples/include/n_sq_puzzle.hpp:73-82 | moving the space of a board one move away from solved back to the lower right corner gives the solved board |
| Puzzles.SetAcceptsOneMove | examples/include/n_sq_puzzle.hpp:118-142 | a solved puzzle accepts the board one legal move away from it, with the space where the move left it |
| Puzzles.SwapDecompose | examples/include/n_sq_puzzle.hpp:86-100 | the decomposition of distinct tiles onto the same tiles with two swapped succeeds and has order one when neither swapped cell was visited yet |
| Puzzles.SwapIsOdd | examples/include/n_sq_puzzle.hpp:86-100 | distinct tiles with two swapped are not an even permutation of themselves |
| Puzzles.SetRefusesSwappedTiles | examples/include/n_sq_puzzle.hpp:118-142 | a solved puzzle refuses the solved board with two tiles swapped, and stays as it was |
| PuzzleSolving.LegalMoves | examples/src/solve_n_sq_puzzle.cpp:24-37 | the moves tried are exactly the legal ones, in the order up, down, left, right |
| PuzzleSolving.ExpandFollowsLegalMoves | examples/src/solve_n_sq_puzzle.cpp:24-37 | `expand` yields, in order, the puzzle after each legal move; so do the copies at examples/include/solve_helpers.hpp:45-58 and solve_n_sq_puzzle.cpp:14-30 |
| PuzzleSolving.ExpandIsOneMove | examples/src/solve_n_sq_puzzle.cpp:24-37 | a successor is exactly the puzzle after some legal move; tests/src/solve_n_sq_puzzle_tests.cpp:133-154 checks this of consecutive path states |
| PuzzleSolving.ExpandSize | examples/src/solve_n_sq_puzzle.cpp:24-37 | every board has between two and four successors |
| PuzzleSolving.ExpandSymmetric | examples/src/solve_n_sq_puzzle.cpp:24-37 | every successor has the original puzzle among its own successors |
| PuzzleSolving.ExpandKeepsTiles | examples/src/solve_n_sq_puzzle.cpp:24-37 | successors hold the same tiles |
| PuzzleSolving.TaxicabZeroIffInPlace | examples/include/solve_helpers.hpp:22-43 | the summed taxicab distance is 0 exactly when every tile other than the space sits where the goal has it |
| PuzzleSolving.TaxicabSelf | examples/include/solve_helpers.hpp:22-43 | a board's taxicab distance to itself is 0 |
| PuzzleSolving.TaxicabSymmetric | examples/include/solve_helpers.hpp:22-43 | the taxicab distance is the same in both directions |
| PuzzleSolving.MisplacedTiles | examples/src/solve_n_sq_puzzle.cpp:39-51 | the count of misplaced tiles is at most N² |
| PuzzleSolving.MisplacedZeroIffSame | examples/src/solve_n_sq_puzzle.cpp:39-51 | no tile is misplaced exactly when the two boards are equal; so does the older copy at solve_n_sq_puzzle.cpp:32-47 |
| PuzzleSolving.MisplacedSymmetric | examples/src/solve_n_sq_puzzle.cpp:39-51 | the count is the same in both directions |
| PuzzleSolving.MisplacedAfterMove | examples/src/solve_n_sq_puzzle.cpp:39-51 | one move changes the count of misplaced tiles by at most two |
| PuzzleSolving.AllMatchIffEqual | examples/src/solve_n_sq_puzzle.cpp:45-48 | the `inner_product` counting equal cells reaches the full length exactly when the sequences are equal |
| PuzzleSolving.PathCostCountsMoves | examples/src/solve_n_sq_puzzle.cpp:53-60 | with `neighbor_dist`, a path's cost is its number of moves; so does the older copy at solve_n_sq_puzzle.cpp:58-65 |
| PuzzleSolving.AddPuzzleState | examples/include/solve_helpers.hpp:60-65 | one puzzle is appended and the earlier ones are kept |
| PuzzleSolving.AddedPuzzle | examples/include/solve_helpers.hpp:60-65 | the appended puzzle holds the state when `set` accepts it, stays solved when `set` refuses it, and always holds the solved board's tiles |
| PuzzleSolving.StartFrom | examples/src/solve_n_sq_puzzle.cpp:87-106 | no state means a shuffled board; a state of the wrong length is rejected; an accepted state is the start as given, holding the solved board's tiles |
| PuzzleSolving.StartAcceptsWhatSetAccepts | examples/src/solve_n_sq_puzzle.cpp:97-105 | a state of the right length is accepted exactly when `set` accepts it |
| PuzzleSolving.NoMaxCost | solve_n_sq_puzzle.cpp:67-74 | no cost is ever refused |
| PuzzleSolving.MaxPathCostCeilings | solve_n_sq_puzzle.cpp:76-103 | a cost is refused exactly when it is at least 31 for N = 3 or at least 80 for N = 4; never for any other N |
| PuzzleSolving.MaxPathCostUpward | solve_n_sq_puzzle.cpp:76-103 | any cost above a refused one is refused too |
| MagicSquares.ColumnMajorKeepsEntries | examples/src/solve_magic_square.cpp:143-146 | copying the square column by column keeps its entries |
| MagicSquares.SortSorts | examples/src/solve_magic_square.cpp:148 | sorting gives an ascending rearrangement of the entries |
| MagicSquares.SortedRepeatsIffNotDistinct | examples/src/solve_magic_square.cpp:148-151 | after sorting, two equal neighbours exist exactly when the square repeats a value |
| MagicSquares.IsMagicMeans | examples/src/solve_magic_square.cpp:141-184 | a square is magic exactly when its entries are distinct and every row, column and diagonal sums to 15; so does the older copy at solve_magic_square.cpp:122-165 |
| MagicSquares.MagicCentreIsFive | examples/src/solve_magic_square.cpp:141-184 | every square the test accepts has 5 in the centre |
| MagicSquares.TableEntryMagic | examples/src/solve_magic_square.cpp:22-31 | every table entry but the fourth is a magic square |
| MagicSquares.FourthEntryNotMagic | examples/src/solve_magic_square.cpp:26 | the fourth table entry has lines that do not sum to 15 |
| MagicSquares.NSqDiffIsDistance | examples/src/solve_magic_square.cpp:92-101 | the summed entry differences are 0 exactly for equal squares, are symmetric, and obey the triangle inequality; so does the older copy at solve_magic_square.cpp:89-98 |
| MagicSquares.CostFn | examples/src/solve_magic_square.cpp:106-117 | the heuristic is at most the distance to every table entry |
| MagicSquares.CostIsNearest | examples/src/solve_magic_square.cpp:106-117 | the heuristic is the distance to some table entry, so it is the least such distance |
| MagicSquares.CostZeroIffTableEntry | examples/src/solve_magic_square.cpp:106-117 | the heuristic is 0 exactly for squares in the table |
| MagicSquares.ExpandMembers | examples/src/solve_magic_square.cpp:39-63 | `expand` yields exactly the squares with one entry rewritten to a different value from 1 to 9 |
| MagicSquares.Expand2Members | examples/src/solve_magic_square.cpp:65-89 | `expand2` yields exactly the squares with one entry rewritten to a different value that some table entry has in that cell |
| MagicSquares.Expand2Step | examples/src/solve_magic_square.cpp:65-89 | an `expand2` step changes one entry, and its weight is that entry's change |
| MagicSquares.LegacyCostCountsRepeats | solve_magic_square.cpp:73-86 | the older heuristic counts the sorted entries that `unique` drops |
| MagicSquares.LegacyCostZeroIffDistinct | solve_magic_square.cpp:73-86 | the older heuristic is 0 exactly for squares with distinct entries |
| MagicSquares.LegacyCostFn | solve_magic_square.cpp:73-86 | the older heuristic is at most 8 |
| MagicSquares.UniqueAndRepeated | solve_magic_square.cpp:80-85 | `unique` splits a sequence into the kept run heads and the dropped repeats |
| MagicSquares.RepeatedMeansTwice | solve_magic_square.cpp:40-47 | in a sorted sequence, the values `adjacent_find` collects are exactly those occurring at least twice |
| MagicSquares.LegacyExpandMembers | solve_magic_square.cpp:20-70 | the older `expand` yields exactly the squares with one repeated entry rewritten to some value from 1 to 9 |
| MagicSquares.LegacyExpandEmptyIffDistinct | solve_magic_square.cpp:20-70 | the older `expand` yields nothing exactly for squares with distinct entries |
| MagicSquares.MagicProblem | examples/src/solve_magic_square.cpp:191-193 | the search starts from the given square with `expand2`, `n_sq_diff` and the magic test, and the start's heuristic is within the default ceiling |
| MagicSquares.FormingMagicSquare | examples/src/solve_magic_square.cpp:186-216 | on failure the result is 0 (`false`); otherwise it is the summed `n_sq_diff` along a path from the square to a magic square, which is at least their distance; a magic square costs 0 |
| MagicSquares.LegacyFormingResult | solve_magic_square.cpp:167-193 | the older function returns −1 exactly for an empty path, and otherwise the path's summed `n_sq_diff` |
| MagicSquares.PathCostAtLeastDistance | examples/src/solve_magic_square.cpp:212-215 | the summed `n_sq_diff` along a path is at least the distance between its ends |
| AdjListGraphs.ExpandIsNeighbours | tests/src/adj_list_graph.h:11-27 | the expansion of a node lists exactly its neighbours; an unknown node gets none |
| AdjListGraphs.Expand | tests/src/adj_list_graph.h:11-27 | an unknown node gets no neighbours, and neighbours come in ascending key order |
| AdjListGraphs.SortedKeys | tests/src/adj_list_graph.h:21-26 | a map's keys are listed once each |
| AdjListGraphs.SortedKeysAscending | tests/src/adj_list_graph.h:21-26 | a map's keys are listed in strictly ascending order |
| AdjListGraphs.NeighborWeight | tests/src/adj_list_graph.h:29-34 | `neighbor_weight` has a value exactly for a listed edge, namely the edge's weight |
| AdjListGraphs.ExpandedHaveWeights | tests/src/adj_list_graph.h:11-34 | every neighbour the expansion lists has a weight |
| AdjListGraphs.AnswerCosts17 | tests/src/astar_tests.cpp:138-151 | the expected answer a, c, d, e, z is a path of the test graph, and `get_path_cost` gives 17 for it |
| AdjListGraphs.NoCheaperAToZ | tests/src/astar_tests.cpp:30-38 | no path of the test graph from a to z costs less than 17 |
| AdjListGraphs.PathsRespectBound | tests/src/astar_tests.cpp:30-38 | a node labelling that no edge can beat bounds the cost of every path from below |
| GraphSearchTests.TestProblem | tests/src/astar_tests.cpp:20-28 | both searches start at a, use the graph's expansion and weights, a zero heuristic, and the goal z |
| GraphSearchTests.AStarTest | tests/src/astar_tests.cpp:128-153 | a path is found exactly when the search reaches the goal; a path found runs from a to z along the graph's edges, and its reported cost equals `get_path_cost` of it and is at least 17; the queue never runs dry, since a path from a to z exists |
| GraphSearchTests.AnswerReachesGoal | tests/src/astar_tests.cpp:137-146 | the expected answer a, c, d, e, z runs from the test's start to its goal along `expand` edges |
| GraphSearchTests.IdaStarTest | tests/src/astar_tests.cpp:92-113 | a path found by IDA\* runs from a to z along the graph's edges without repeating a node, and costs at least 17 and at most the final bound |
| Grids.ExpansionOkMeans | test_a_star_search.cpp:52-69 | a cell may be entered exactly when it is on the 45×45 grid and off both bars of the T |
| Grids.ExpandMembers | test_a_star_search.cpp:76-104 | `expand` yields exactly the eight-way neighbours that may be entered, each carrying its grid index |
| Grids.ExpandBounds | test_a_star_search.cpp:76-104 | at most eight neighbours, never the node's own cell, and all may be entered |
| Grids.ExpandSymmetric | test_a_star_search.cpp:76-104 | from an enterable cell, every neighbour has that cell among its own neighbours |
| Grids.UprightSeparates | test_a_star_search.cpp:52-104 | below the crossbar, no step crosses the upright of the T |
| Grids.GridIndexOneToOne | test_a_star_search.cpp:71-74 | on the grid, `grid_index` numbers cells one to one |
| Grids.OrderMatchesEquality | test_a_star_search.cpp:18-44 | for nodes carrying their own index, `==` holds exactly when neither node is `<` the other |
| Grids.DefaultEnds | test_a_star_search.cpp:128-131 | the default start (10, 0) and goal (32, 12) are enterable cells |

Helper predicates and functions have no rows of their own; they are parts of
the contracts and bodies of the rows above: `Improved`, `Fresh`, `Inv`,
`ChainOk`, `LinkOk`, `Rank`, `AfterPop`, `Closing` and `Explored` in
AStarSteps, `LExplored` in LegacyAStar, `Overshoot`, `Push`, `Extends`,
`Chained`, `Descent` and `Round` in IdaSearch, and `TableAt`,
`Repeated` and `Unique` in MagicSquares.

## Left out

- Integer width: costs are unbounded naturals. `CostLimit` is `int` max, the
  default `max_cost` and the "none" value of `ida_search`. Overflow of
  g + w or of the running sums is not modelled; `size_t` costs in the puzzle
  solver are modelled the same way.
- AStar.Search: bounded by `fuel` pops, with an extra `OutOfFuel` outcome,
  because the graph may be infinite and the loop need not end. Completeness is
  stated: an empty queue means no goal is reachable. Optimality of the returned
  path is not stated in general. It is proved only for the test graph
  (NoCheaperAToZ).
- IdaSearch.Search: bounded by a depth fuel that cuts a descent short and
  sets `cut`. When a round is cut, the values it reports need not be the
  source's.
- IdaStar.Search: rounds use the same depth fuel; minimality of the found
  path is not stated, and neither is completeness (that a reachable goal
  within `max_cost` is found once the fuel suffices).
- LegacySearch.Search: bounded by `fuel` iterations; optimality is not stated.
  It returns an extra `exhausted` flag that tells a dry open set from spent
  fuel. Completeness holds only up to the ceiling, because a neighbour whose f
  exceeds `max_cost` is skipped when it is discovered.
- Tie-breaking among entries of equal f: the heap and `std::min_element`
  pick a specific entry. The model allows any entry of least f.
- The `std::sort` of neighbours by f at include/astar/detail/ida_search.hpp:51-56.
  Its result is never used, so the model leaves it out.
- Hashing (`std::hash` specialisations) and node-map pointer identity. Maps
  keyed by value stand in for both.
- Floating point: `node_dist`, `zero_heuristic` and the float-weighted grid
  search of the older test program. Only the grid's expansion is modelled.
- I/O, printing, `operator<<`, command-line parsing and `main` of every
  example and test program.
- `shuffle` and the random seed of the sliding puzzle. A requested shuffle is
  only reported, as `Start.Shuffle`.
- The concrete decompositions of the cycle-decomposition tests and example
  program, other than the identity case (Puzzles.SelfDecompose).
- The `bool` that `get_transpositions` returns.
- The older sliding-puzzle header declares no `moved`. Its `expand` calls
  one; the model uses the current header's.
- Call sites whose argument lists do not match the library they call:
  - solve_magic_square.cpp:170 and the older grid test's search call;
  - the older puzzle solver's `a_star_search` call;
  - the IDA\* test passing an out-cost slot to `ida_star_search`.

  Each is modelled by the search it evidently means.
- The 8-puzzle and 15-puzzle scenario tests and their expected path lengths.
  They need a search run on concrete boards.
- `node_info`'s deleted default constructor. A datatype has no default value.
- MagicSquares.CostIsNearest: requires the distance to the first table entry
  to be within `int` max. Its running minimum starts there.
- MagicSquares.Sort: `std::sort` is modelled by insertion sort, and `unique`
  by adjacent-duplicate removal. Only their results matter.
- AdjListGraphs.Weight: returns 0 for an edge that is not in the graph, where
  `neighbor_weight` throws. The searches only weigh listed edges.
- PuzzleSolving.TileTaxicabDist: requires every tile to be on both boards.
  Otherwise `get_ij_of` terminates the program.
- GraphSearchTests.AStarTest: does not state that a path is found, that it
  has five nodes, or that it is a, c, d, e, z. A found path is shown to cost at
  least 17, not exactly 17, because A\*'s optimality is not proved. The search
  is shown never to run out of frontier. It may still stop on spent fuel, and
  no bound is proved that keeps costs under `max_cost`.
- GraphSearchTests.IdaStarTest: does not state that a path is found, that it
  has five nodes, that it is a, c, d, e, z, or that it costs exactly 17. IDA\*
  completeness and the minimality of its rounds are not proved. A path found is
  shown to run from a to z without repeating a node and to cost at least 17.
