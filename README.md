# Classic AI search exercises, modelled in Dafny

This project models a small collection of AI-course scripts and proves properties about the model. The scripts are:

- **Pizza delivery on a city grid.** A route starts at `S`, must pass the restaurant `R` before it reaches the customer `C`, and may not enter walls `#`. `UninformedSearch.py` solves this with breadth-first search, depth-first search and iterative deepening. `InformedSearch.py` solves it with A* using a Manhattan-distance heuristic.
- **The maze section of `Activity1.py`.** It contains breadth-first and depth-first search to the maze's goal cell `G`, A* between two cells, and the two `reconstruct_path` helpers.
- **The map-colouring section of `Activity1.py`.** It is a backtracking search that gives four regions three colours so that no two neighbours share a colour.
- **`8Puzzle.py`.** It runs a depth-limited breadth-first search and a depth-limited depth-first search over 3x3 sliding-tile boards. Both stop after exploring 1000 nodes.
- **`VacuumCleaner.py`.** It is a reflex agent on a square grid of dirty and clean cells.

## Modules

| module | file | models |
|---|---|---|
| `Wrappers` | `wrappers.dfy` | `Option`, which stands for Python's `None` / value results |
| `Collections` | `collections.dfy` | small sequence facts: distinct elements, removing an index |
| `Grid` | `grid.dfy` | cells, rectangular character maps, the open-cell test `is_valid`, 4-neighbour walks, and the Manhattan bound on walks |
| `City` | `city.dfy` | the state space shared by both city scripts: states `(position, has_pizza)`, `find`, the pickup flag and routes. It also holds the frontier argument the searches share |
| `UninformedSearch` | `uninformed_search.dfy` | `bfs`, `dfs`, `dls` and `ids` of `UninformedSearch.py` |
| `InformedSearch` | `informed_search.dfy` | `heuristic` and `a_star_pizza` of `InformedSearch.py`. The `heapq` priority queue is a sequence, and a pop returns its least tuple |
| `CityScenario` | `city_scenario.dfy` | the concrete city map: where `find` places `S`, `R` and `C`, and the 14-cell length of every shortest route |
| `MazeSearch` | `maze_search.dfy` | `bfs`, `dfs` and `reconstruct_path(visited, end)` of `Activity1.py` |
| `MazeAStar` | `maze_astar.dfy` | `heuristic`, `reconstruct_path(came_from, current)` and `a_star` of `Activity1.py` |
| `MapColoring` | `map_coloring.dfy` | `neighbors`, `is_valid` and `backtrack` of `Activity1.py` |
| `EightPuzzle` | `eight_puzzle.dfy` | `board_to_string`, `find_blank`, `swap`, `bfs_limited`, `dfs_limited` and the demonstration boards |
| `VacuumCleaner` | `vacuum_cleaner.dfy` | the `environment` and `VacuumAgent` classes |

### How the model is built

**Inputs are parameters.** The maps and the start, restaurant and customer cells are module-level globals in the scripts. Here they are parameters. `CityScenario` ties them back to the scripts' concrete city. The maze and the city are rectangular character grids.

**The searches are methods with loops.** They mutate a queue or stack, a visited set and a path, as the scripts do. Each one is proved against a specification, and the specifications differ:
- the city `bfs`, `dfs` and `a_star_pizza` and the maze `bfs`, `dfs` and `a_star`: a path returned is a valid route, and `None` comes back exactly when no route exists. The two breadth-first searches and both A* searches return a shortest route;
- `ids`: a path returned is a shortest route with fewer than `max_depth` moves. `None` means every route has at least `max_depth` moves;
- `bfs_limited` and `dfs_limited` answer True or False. True means the goal is reachable within `max_depth` moves. For `bfs_limited`, False below the 1000-node cap on a board of single-digit tiles means no sequence of at most `max_depth` moves reaches the goal. False from `dfs_limited` is not characterised (see "Left out").

**Ghost logs record what the searches did.** Next to its result, each city search returns a ghost list of the states it expanded, and each maze and 8-puzzle search returns a ghost list of what it pushed. The postconditions tie each log to the answer. A city or maze search that returns `None` has logged exactly the states or cells reachable from the start. An 8-puzzle search has logged at least as many boards as it explored.

**Recursive code becomes recursive specification functions.** `dls` and `backtrack` are recursive in the source. They are methods whose results equal recursive functions (`Explore`, `Solve`), and lemmas prove soundness and completeness about those functions.

**The vacuum world is classes.** `environment` and `VacuumAgent` are classes whose methods update their fields.

## Model

| member | source | states |
|---|---|---|
| `Grid.AdjacentIsOffset` | UninformedSearch.py:13 | two cells are 4-neighbours exactly when one is the other plus one of the four move offsets |
| `Grid.WalkCoversManhattan` | InformedSearch.py:36-38 | a walk between two of its cells takes at least their Manhattan distance in steps |
| `Grid.IsValid` | UninformedSearch.py:25-26 | a cell is open iff it lies inside the map and is not a wall `#`; the same test as `is_valid` in InformedSearch.py:40-42 and the inline check at Activity1.py:58 |
| `City.Find` | UninformedSearch.py:15-19 | returns the first cell in row-major order that holds the symbol; returns `None` exactly when no cell holds it |
| `City.NextFlag` | UninformedSearch.py:49-51 | the pizza flag after a move is set iff it was already set or the new cell is the restaurant; once set it stays set |
| `City.StepIsMove` | UninformedSearch.py:44-51 | every successor state comes from one of the four moves onto an open cell |
| `City.PickedUpExtend` | UninformedSearch.py:49-53 | the flag of a walk extended by one cell is `NextFlag` of the walk's flag, so a path's flag records whether it passed the restaurant |
| `City.FirstExit` | UninformedSearch.py:29-54 | a walk from the start that ends outside the visited set leaves it at a first index, right after a visited state whose level is at most its index |
| `City.ClosedReach` | UninformedSearch.py:57-81 | a set of states that holds the start state and is closed under moves holds every state some walk from the start reaches |
| `City.RouteVisitsRestaurantFirst` | UninformedSearch.py:37 | when restaurant and customer differ, a route visits the restaurant strictly before its last cell |
| `UninformedSearch.Expand` | UninformedSearch.py:44-53 | the queue after the move loop is the old queue plus one item per move onto an open cell, in move order, with the path extended and the flag updated |
| `UninformedSearch.Bfs` | UninformedSearch.py:29-54 | a returned path is a shortest route; `None` iff no route exists; every state is expanded at most once; on `None` the ghost expansion log holds exactly the states reachable from the start |
| `UninformedSearch.Dfs` | UninformedSearch.py:57-81 | a returned path is a route; `None` iff no route exists; every state is expanded at most once; on `None` the ghost expansion log holds exactly the states reachable from the start |
| `UninformedSearch.Dls` | UninformedSearch.py:84-104 | the result equals `Explore`, the recursive depth-limited search; it only adds `(pos, has_pizza)` pairs to `visited` |
| `UninformedSearch.ExploreSound` | UninformedSearch.py:84-104 | a path `dls` returns extends the current path by at most `depth` cells and is a route |
| `UninformedSearch.ExploreComplete` | UninformedSearch.py:84-104 | if some route extends the current path by at most `depth` cells, `dls` returns a path |
| `UninformedSearch.Ids` | UninformedSearch.py:106-112 | a returned path is a shortest route with fewer than `max_depth` moves; `None` means every route has at least `max_depth` moves |
| `InformedSearch.Heuristic` | InformedSearch.py:36-38 | the Manhattan distance is zero exactly at the goal |
| `InformedSearch.Target` | InformedSearch.py:91 | the current target: the customer once the pizza is held, the restaurant before |
| `InformedSearch.H` | InformedSearch.py:91-92 | the heuristic of a state is zero exactly when it stands on its current target |
| `InformedSearch.HZero` | InformedSearch.py:91-92 | the pizza-aware heuristic is zero exactly on delivered states and at the restaurant before pickup |
| `InformedSearch.HConsistent` | InformedSearch.py:91-92 | the heuristic drops by at most one per move, so it is consistent |
| `InformedSearch.HAdmissible` | InformedSearch.py:91-92 | the heuristic of the start state never exceeds the number of moves of a route |
| `InformedSearch.HeapMin` | InformedSearch.py:70 | the entry `heappop` returns is least among all queue entries in tuple order |
| `InformedSearch.PushChildren` | InformedSearch.py:81-94 | the queue after the move loop is the old queue plus one entry `(g+1+h, g+1, cell, flag, path)` per open successor |
| `InformedSearch.AChildrenOk` | InformedSearch.py:81-94 | every pushed entry is one move from the popped one, has `g` one larger, has `f = g + h` for its own flag, and the entries cover every open move |
| `InformedSearch.AStarPizza` | InformedSearch.py:59-96 | a returned path is a shortest route; `None` iff no route exists; every state is expanded at most once; on `None` the ghost expansion log holds exactly the states reachable from the start |
| `CityScenario.Landmarks` | UninformedSearch.py:21-23 | on the city map `find` gives S at (0, 0), R at (2, 1) and C at (1, 6) |
| `CityScenario.RouteLength` | UninformedSearch.py:4-10 | every route on the city map visits at least 14 cells, because the walls force it through (4, 4) |
| `CityScenario.Gate` | UninformedSearch.py:4-10 | a walk from columns 0-3 into columns 5-6 passes through (4, 4) |
| `CityScenario.CityBfs` | UninformedSearch.py:115 | `bfs()` on the city returns a shortest route of 14 cells |
| `CityScenario.CityDfs` | UninformedSearch.py:116 | `dfs()` on the city returns a route of at least 14 cells |
| `CityScenario.CityIds` | UninformedSearch.py:117 | `ids()` on the city returns a shortest route of 14 cells |
| `CityScenario.CityAStar` | InformedSearch.py:99 | `a_star_pizza()` on the city returns a shortest route of 14 cells |
| `MazeSearch.Reverse` | Activity1.py:46 | the reversal maps index `i` to index `len - 1 - i` |
| `MazeSearch.ReconstructVisited` | Activity1.py:41-46 | the path ends at `end`, starts at the cell whose parent is `None`, and each cell's parent is its predecessor |
| `MazeSearch.ReconstructCameFrom` | Activity1.py:95-101 | the path ends at `current`, starts at a cell without a `came_from` entry, and each cell's `came_from` is its predecessor |
| `MazeSearch.Expand` | Activity1.py:57-61 | the parent map and queue after the direction loop are those of `Discover` over the four directions |
| `MazeSearch.DiscoverOk` | Activity1.py:57-61 | the direction loop keeps every existing parent, gives each new cell the popped cell as parent (an open 4-neighbour), appends each new cell to the queue exactly once, appends only new cells, and records every open neighbour |
| `MazeSearch.PushedStep` | Activity1.py:57-61 | one round of the direction loop keeps the push log free of repeats and equal to the key set of `visited` |
| `MazeSearch.TreeWalk` | Activity1.py:41-46 | following the parent links of `visited` back from any seen cell gives a walk from the start to it |
| `MazeSearch.ExhaustedReach` | Activity1.py:49-62 | once the frontier is empty, the cells seen, and so the push log, are exactly the cells reachable from the start |
| `MazeSearch.Bfs` | Activity1.py:49-62 | a returned path is a walk from the start to a `G` cell, no longer than any such walk; `None` iff no `G` cell is reachable; the ghost push log lists each cell that entered `visited` and the queue once, the start first and open cells after it; on `None` it holds exactly the cells reachable from the start |
| `MazeSearch.Dfs` | Activity1.py:65-78 | a returned path is a walk from the start to a `G` cell; `None` iff no `G` cell is reachable; the ghost push log lists each cell that entered `visited` and the stack once, the start first and open cells after it; on `None` it holds exactly the cells reachable from the start |
| `MazeAStar.Heuristic` | Activity1.py:91-93 | the Manhattan distance is zero exactly when the cells coincide |
| `MazeAStar.HeuristicConsistent` | Activity1.py:91-93 | one move changes the heuristic by at most one |
| `MazeAStar.HeuristicAdmissible` | Activity1.py:91-93 | the heuristic from a walk's cell to its end is at most the remaining steps |
| `MazeAStar.MinIndex` | Activity1.py:110 | the entry `heappop` returns is least among all open entries in tuple order |
| `MazeAStar.RelaxMonotone` | Activity1.py:117-129 | relaxing the neighbours keeps every known cell in `g_score` and never raises its cost; it drops no `came_from` link and no open entry |
| `MazeAStar.RelaxAll` | Activity1.py:117-129 | the state after the direction loop is the recursive relaxation `Relax` over the four directions |
| `MazeAStar.AStar` | Activity1.py:103-131 | a returned path is a shortest walk from start to goal; `None` iff the goal is unreachable |
| `MapColoring.Neighbors` | Activity1.py:148-153 | no region neighbours itself |
| `MapColoring.NeighborsSymmetric` | Activity1.py:148-153 | the neighbour relation is symmetric |
| `MapColoring.IsValid` | Activity1.py:155-159 | the answer is true iff no coloured neighbour of the node has the colour |
| `MapColoring.FitsKeepsProper` | Activity1.py:166-167 | giving a node a colour `is_valid` accepts keeps a proper colouring proper |
| `MapColoring.SolveSound` | Activity1.py:161-172 | a solution `backtrack` returns colours every region, extends the input, and is proper when the input was |
| `MapColoring.SolveComplete` | Activity1.py:161-172 | when `backtrack` fails, no proper full colouring extends the input |
| `MapColoring.SolveEmpty` | Activity1.py:174 | `backtrack({})` returns A Red, B Green, C Blue, D Red, and that colouring is a solution |
| `MapColoring.Assignment.constructor` | Activity1.py:174 | the shared assignment dictionary starts empty |
| `MapColoring.Backtrack` | Activity1.py:161-172 | the method succeeds iff `Solve` does; it leaves the dictionary holding `Solve`'s result, or unchanged on failure |
| `EightPuzzle.Flatten` | 8Puzzle.py:10-12 | the nine tiles in row-major order |
| `EightPuzzle.FlattenInjective` | 8Puzzle.py:10-12 | boards with the same row-major tiles are equal |
| `EightPuzzle.Decimal` | 8Puzzle.py:11 | `str(n)` is nonempty and one character exactly for single digits |
| `EightPuzzle.BoardToString` | 8Puzzle.py:10-12 | the string has at least one character per cell, so at least nine |
| `EightPuzzle.BoardString` | 8Puzzle.py:10-12 | for single-digit boards the string has nine characters, the tiles' digits in row-major order |
| `EightPuzzle.BoardStringInjective` | 8Puzzle.py:10-12 | distinct single-digit boards have distinct strings, so the visited set identifies boards |
| `EightPuzzle.Blank` | 8Puzzle.py:15-19 | the first blank cell in row-major order; `None` exactly when there is no blank |
| `EightPuzzle.FindBlank` | 8Puzzle.py:15-19 | the nested loop returns `Blank` |
| `EightPuzzle.Swap` | 8Puzzle.py:22-26 | the two cells exchange tiles and no other cell changes |
| `EightPuzzle.SwapTwice` | 8Puzzle.py:22-26 | swapping the same cells twice restores the board |
| `EightPuzzle.SwapTiles` | 8Puzzle.py:22-26 | a swap permutes the multiset of tiles |
| `EightPuzzle.IsGoal` | 8Puzzle.py:29-30 | list equality holds iff every cell of the board equals the goal's |
| `EightPuzzle.CanMove` | 8Puzzle.py:58-64 | the board has a blank and the blank moved by the offset stays on the board; the contract of a legal move is stated by `MoveShiftsBlank` |
| `EightPuzzle.Move` | 8Puzzle.py:58-65 | the board `swap` returns for a legal move; what it does to the cells is stated by `MoveShiftsBlank` and `MoveTiles` |
| `EightPuzzle.MoveTiles` | 8Puzzle.py:65 | a move keeps the multiset of tiles |
| `EightPuzzle.MoveShiftsBlank` | 8Puzzle.py:58-65 | a legal move puts the blank on a 4-neighbour and moves that tile into the old blank cell; all else stays |
| `EightPuzzle.Expand` | 8Puzzle.py:62-70 | the visited set and queue after the move loop are those of `Spread` over the four moves |
| `EightPuzzle.SpreadQueues` | 8Puzzle.py:62-70 | the move loop appends only unvisited boards at depth + 1 and adds exactly their strings to `visited` |
| `EightPuzzle.SpreadMoves` | 8Puzzle.py:62-70 | every board the move loop appends is the blank swapped with an in-board neighbour |
| `EightPuzzle.PushedStep` | 8Puzzle.py:62-70 | one round of the move loop keeps the push log free of repeats and equal to the visited set |
| `EightPuzzle.SeenReached` | 8Puzzle.py:55-70 | every board the search has queued is reachable from the start in at most `max_depth` moves, since nothing at depth `max_depth` is expanded |
| `EightPuzzle.BfsExhausted` | 8Puzzle.py:44-73 | when the queue runs dry on a single-digit board, no move sequence of at most `max_depth` moves reaches the goal |
| `EightPuzzle.BfsLimited` | 8Puzzle.py:34-73 | success means the goal lies within `max_depth` moves; explores at most 1000 nodes; failure below the cap on a single-digit board means no such sequence exists; the ghost push log lists each string that entered `visited` once, the start's first, each the string of a board reachable within `max_depth` moves, and has at least as many entries as nodes were explored |
| `EightPuzzle.DfsLimited` | 8Puzzle.py:76-115 | success means the goal lies within `max_depth` moves; explores at most 1000 nodes; the ghost push log lists each string that entered `visited` once, the start's first, each the string of a board reachable within `max_depth` moves, and has at least as many entries as nodes were explored |
| `EightPuzzle.DemoDepthTwo` | 8Puzzle.py:120-131 | the demonstration goal is two moves (down, right) from the start and no fewer; the start has a blank |
| `EightPuzzle.DemoRun` | 8Puzzle.py:139 | `bfs_limited(start, goal, max_depth=10)` on the demo boards answers True unless it stops at the 1000-node cap |
| `VacuumCleaner.RowDirt` | VacuumCleaner.py:49-53 | a row's dirt count is at most its length and zero iff the row has no `Dirty` |
| `VacuumCleaner.NoDirtCount` | VacuumCleaner.py:49-53 | a grid has no dirty cell iff its dirt count is zero |
| `VacuumCleaner.GridClean` | VacuumCleaner.py:42-47 | cleaning a cell lowers the dirt count by one if it was dirty, else leaves it |
| `VacuumCleaner.Step` | VacuumCleaner.py:107-117 | the move changes one coordinate by one in the chosen direction when that stays inside the grid, else nothing; it keeps the agent in the grid |
| `VacuumCleaner.Environment.constructor` | VacuumCleaner.py:12-30 | a `size` x `size` grid with the drawn cells |
| `VacuumCleaner.Environment.IsDirty` | VacuumCleaner.py:32-40 | true iff the cell is `Dirty`, which implies remaining dirt |
| `VacuumCleaner.Environment.Clean` | VacuumCleaner.py:42-47 | the cell becomes `Clean`, no other cell changes, and the dirt count falls by one exactly when it was dirty |
| `VacuumCleaner.Environment.AllClean` | VacuumCleaner.py:49-53 | as written: true iff there is a row and the first row has no `Dirty` |
| `VacuumCleaner.FirstRowMissesDirt` | VacuumCleaner.py:49-53 | a grid with a clean first row and a dirty second row passes the first-row test |
| `VacuumCleaner.Environment.AllCleanCorrected` | VacuumCleaner.py:49-53 | with `return True` after the loop: true iff no cell is dirty, iff the dirt count is zero |
| `VacuumCleaner.VacuumAgent.constructor` | VacuumCleaner.py:77-87 | the agent starts at the drawn cell inside the grid |
| `VacuumCleaner.VacuumAgent.PerceiveAndAct` | VacuumCleaner.py:89-120 | on a dirty cell: clean it and stay. On a clean cell: keep the grid and make the `Step` move. The dirt count falls exactly when the cell was dirty |

## Left out

- Console output (`print_board`, `print_city`, `print_maze`, `display`, progress messages) is left out because it does not affect any result.
- The hill-climbing, minimax and genetic-algorithm sections of `Activity1.py` are not part of this model.
- `heapq`'s internal array layout is not modelled. A queue is a sequence, and a pop removes its least entry in Python's tuple order, which is what `heappop` returns.
- Randomness is not modelled: `random.random`, `random.randint` and `random.choice` are parameters. These are the constructors' `init`, `x0` and `y0` and `PerceiveAndAct`'s `direction`.
- The simulation loop of `VacuumCleaner.py` is not modelled. Only its steps are: `AllClean`, `PerceiveAndAct`.
- The module-level drivers are modelled only by the `CityScenario` methods and by `EightPuzzle.DemoRun` and `MapColoring.SolveEmpty`.
- Mutation through shared Python lists is not modelled: the maps, queues and boards are values. For boards this is exact, because `swap` copies each row (`[row[:] for row in board]`) before exchanging two tiles, so the input board is never changed.
- `EightPuzzle.BfsLimited`: requires that the start board has a blank, equals the goal, or comes with `max_depth <= 0`. In every other case the start is expanded, `find_blank` returns `None`, and unpacking it raises; that exception is not modelled. Boards found later always keep their blank.
- `EightPuzzle.DfsLimited`: the same requirement as `EightPuzzle.BfsLimited`, for the same reason.
- `EightPuzzle.BfsLimited`: the "no solution" direction is stated only below the 1000-node cap and only for boards of single-digit tiles. Otherwise `board_to_string` can map two boards to one string and prune a needed board.
- `EightPuzzle.DfsLimited`: completeness is not claimed. The shared visited set can prune a board first seen at a larger depth.
- `EightPuzzle.DemoRun`: it does not prove that the demonstration run stays under the node cap, so the True answer is stated only for a run that stops before the cap.
- `EightPuzzle.Decimal`: `str()` is modelled for natural numbers only; tiles are `nat`.
- `VacuumCleaner.Environment.IsDirty`: requires in-range indices, so Python's negative indexing is not modelled. The agent never produces negative indices.
- `VacuumCleaner.Environment.AllClean`: on a grid with no rows the source returns `None`; the model returns `false`, which is how the driver's `not` reads it.
- `MazeSearch.Bfs`: requires the start cell to lie inside the maze, because the source reads `maze[x][y]` at the start without a bounds check, which either raises or wraps around through negative indexing.
- `MazeSearch.Dfs`: same start-cell requirement as `MazeSearch.Bfs`.
- `UninformedSearch.Dls`: the pruning test looks for a triple `(r, c, flag)` in a set that holds only pairs `(pos, flag)`, so it never prunes. The model keeps the test and proves that it never prunes. The set's element type is a union of the two key shapes.

## Findings

| source | as written | input that shows it | evidently intended | confidence | as-written member | corrected member |
|---|---|---|---|---|---|---|
| VacuumCleaner.py:49-53 | `return True` is inside the loop, so `all_clean` answers after the first row | grid `[[Clean, Clean], [Dirty, Clean]]`: it answers `True`, and the simulation stops with a dirty cell left | inspect every row, return `True` after the loop | high (not executed) | `VacuumCleaner.Environment.AllClean`, `VacuumCleaner.FirstRowMissesDirt` | `VacuumCleaner.Environment.AllCleanCorrected` |
