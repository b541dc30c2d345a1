# Ant foraging in mazes, modelled in Dafny

This project models the core of an ant-foraging simulation. Two maze
generators carve a grid of walls (2) and open cells (0) by a randomised
depth-first search. Several ant models then let ants look for food in such a
grid:

- the pheromone model keeps its pheromone in a separate field, and its ants
  choose cells by a pheromone-weighted roulette and walk their path back once
  they carry food;
- the plain depth-first ants mark every cell they enter with -3 and backtrack
  along their path stack;
- the difficulty variant of the depth-first ants stores the pheromone in the
  maze itself and biases the search by it;
- the archived distance walk steers its ants by two breadth-first distance
  maps;
- the archived random walk takes one uniform step to a neighbouring cell.

Each Python module becomes a Dafny module:

| Dafny module | file | Python module |
|---|---|---|
| `MazeGrid` | `maze_grid.dfy` | shared carving vocabulary and invariant |
| `MazeGenerator` | `maze_plain.dfy` | `mazegenerator.py` |
| `MazeWithPaths` | `maze_paths.dfy` | `maze_generator_with_nPaths.py` |
| `WalkbackRules` | `walkback_rules.dfy` | `ant_model_walkback.py`, the rules on values |
| `AntModelWalkback` | `walkback.dfy` | `ant_model_walkback.py`, the classes |
| `AntDfs` | `ant_dfs.dfy` | `antDFS.py` |
| `AntDfsDifficulty` | `ant_dfs_difficulty.dfy` | `antDFS_with_maze_difficulty.py` |
| `DistanceWalk` | `distance_walk.dfy` | `archief/ant_random_walk_with_return_better.py` |
| `RandomWalk` | `random_walk.dfy` | `archief/randomwalk.py` |

Four small modules are shared by the others:

- `Cells` holds cell pairs, adjacency and neighbour lists.
- `Arrays` gives the value (`Snapshot`) of a numpy-style 2-D array.
- `Locations` models the Python list/tuple distinction of the depth-first ants.
- `Wrappers` holds `Option`, and `Result`, which names the Python exception a
  call raises.

**Form of the model.** The Python classes (`Ant`, `Model`) become Dafny
classes whose fields their methods update. A numpy array becomes an
`array2`, and its value, a sequence of rows, is what the specifications talk
about. Each method is proved against a value-level function: `StepAnt`,
`StepRule`, `Tick`, `Run`, `Biased`, `BestMove`, `MovesFrom`. Lemmas then
prove invariants and properties of those functions. The carving recursion of
the generators stays a pair of recursive methods over the array.

**Randomness is an input.** `random.shuffle`, `np.random.shuffle`,
`random.random() < 0.5`, `np.random.rand()`, `np.random.uniform`,
`np.random.random()` and `np.random.randint` become parameters: oracles that
say what the call returned. Each oracle is constrained only by what the
library promises, for example that a shuffle is a permutation or that `randint(n)` is
below n. Seeding the generators is not modelled.

**Python `False` as a cell.** The walkback model's
`choose_cells_based_on_pheromones` may return `False`. This becomes `None`.

**Python list or tuple.** The depth-first ants start with position `[x, y]`,
a list. Every later position is a tuple from `get_adjacent_cells`, and in
Python a list never equals a tuple. `Locations.Loc` keeps that distinction.
It has two consequences:

- a neighbour tuple never matches the colony list in `visited`, so an ant may
  step back onto its start cell;
- in the difficulty variant, only the colony list `[4, 4]` counts as being
  at the colony, so only a carrier whose path brings it back to that very
  list entry delivers.

## Model

| member | source | states |
|---|---|---|
| `MazeGrid.InitializeMaze` | mazegenerator.py:5-7 | the start grid is rows × cols and every cell is a wall |
| `MazeGrid.StartIsCarved` | mazegenerator.py:22-25 | the all-wall grid with (1, 1) opened satisfies the carving invariant with opening order [(1, 1)] |
| `MazeGrid.StepParity` | mazegenerator.py:15-19 | from a node (odd, odd) the connector is not a node, the cell two steps away is one, and the three cells are in a line of neighbours |
| `MazeGrid.CarveStepKeepsCarved` | mazegenerator.py:17-19 | opening the wall connector and the wall node two steps away from an open node keeps the invariant: open cells listed once in opening order, each next to an earlier one, lattice shape |
| `MazeGrid.CarveStepKeepsLattice` | mazegenerator.py:18-19 | the two cells a carve step opens keep the lattice shape: every open cell is a node or a connector between two open nodes |
| `MazeGrid.ExtraConnectorKeepsCarved` | maze_generator_with_nPaths.py:28-32 | opening the connector toward an already-open node keeps the invariant, and the connector is new to the opening order only when it was a wall |
| `MazeGrid.CarvedIsConnected` | mazegenerator.py:22-27 | in a carved maze every open cell is reachable through open cells from the first cell opened |
| `MazeGrid.WalkInside` | mazegenerator.py:14-20 | an opening order that grows by adjacency holds a walk from its first cell to each of its cells |
| `MazeGrid.CarvedOnlyGrows` | mazegenerator.py:17-20 | carving never closes an open cell |
| `MazeGrid.CarvedChangesWallToOpen` | mazegenerator.py:17-20 | every cell carving changes went from wall to open |
| `MazeGrid.RemainingShrinks` | mazegenerator.py:17-20 | opening a cell shrinks the set of unopened cells, the termination measure of the recursion |
| `MazeGrid.RemainingNoLarger` | mazegenerator.py:14-20 | a longer opening order never enlarges the set of unopened cells |
| `MazeGrid.EnteredLogGrows` | mazegenerator.py:20 | the log of cells a frame was started at stays a log of open cells as carving goes on |
| `MazeGrid.LatticeGrows` | mazegenerator.py:18-19 | opening cells that are each in lattice shape afterwards keeps the lattice shape |
| `MazeGrid.AppendKeepsGrowth` | mazegenerator.py:18-19 | appending a cell adjacent to a listed one keeps the order growing by adjacency |
| `MazeGrid.OpenKeepsListing` | mazegenerator.py:18-19 | opening a wall cell and appending it keeps the order an exact listing of the open cells |
| `MazeGrid.DirectionOrderUnit` | mazegenerator.py:11-12 | every entry of a shuffled direction list is one of the four directions |
| `MazeGenerator.CarvePassagesFrom` | mazegenerator.py:10-20 | a frame keeps the invariant and the tree shape of the opening order, is entered at a fresh cell, uses one shuffle or more, and changes only walls into open cells |
| `MazeGenerator.CarveToward` | mazegenerator.py:15-20 | one pass of the loop: when the node two steps away is out of the grid or already open nothing changes; otherwise the invariant and tree shape are kept |
| `MazeGenerator.OpenToward` | mazegenerator.py:17-19 | the opening order gains exactly the connector and the node, as a parent-child pair, and the node is open and not yet entered |
| `MazeGenerator.GenerateMaze` | mazegenerator.py:22-27 | the maze holds only walls and open cells in lattice shape, (1, 1) is open, every open cell is reachable from (1, 1), and nodes outnumber connectors by one (a spanning tree) |
| `MazeGenerator.TreeOrderStep` | mazegenerator.py:17-20 | appending a connector next to an earlier node, and the node beyond it, keeps the tree shape of the opening order |
| `MazeGenerator.NodesStayEven` | mazegenerator.py:18-19 | after such an append the nodes are exactly at the even positions |
| `MazeGenerator.ConnectorsStayLinked` | mazegenerator.py:18-19 | after such an append every connector is adjacent to the node after it and to an earlier node |
| `MazeGenerator.ParentCarriesOver` | mazegenerator.py:20 | a connector's links in a prefix of the opening order hold in the whole order |
| `MazeGenerator.CountNodes` | mazegenerator.py:22-27 | the number of nodes in a list is at most its length |
| `MazeGenerator.AlternatingCount` | mazegenerator.py:22-27 | with nodes exactly at the even positions there is one more node than there are connectors |
| `MazeWithPaths.CarvePassagesFrom` | maze_generator_with_nPaths.py:10-35 | a frame keeps the invariant, is entered at a fresh cell, adds to the counter exactly the number of true coins it drew, and never pushes a grown counter past `path_count` |
| `MazeWithPaths.CarveToward` | maze_generator_with_nPaths.py:15-22 | one pass of the main loop: no change when the node two steps away is out of the grid or open; otherwise a recursive frame with the counter accounted by the coins it drew |
| `MazeWithPaths.AddExtraPaths` | maze_generator_with_nPaths.py:25-35 | the extra phase opens only connectors toward open nodes, adds one path per true coin, and stops with the counter at most `path_count` |
| `MazeWithPaths.AddExtraPathToward` | maze_generator_with_nPaths.py:26-33 | for one direction: at most one coin and one more path, only an extra connector opened, the invariant kept |
| `MazeWithPaths.ExtraConnectorStep` | maze_generator_with_nPaths.py:31-32 | opening one more connector toward an open node keeps the set of changes a set of extra connectors |
| `MazeWithPaths.ExtraConnectorStays` | maze_generator_with_nPaths.py:28-32 | an extra connector stays one as more cells open |
| `MazeWithPaths.CountTrue` | maze_generator_with_nPaths.py:31-33 | the true coins in a window number at most its width, and none exactly when every coin there is false |
| `MazeWithPaths.CountTrueSplit` | maze_generator_with_nPaths.py:31-33 | counts over two adjacent windows add up |
| `MazeWithPaths.GenerateMazeWithPaths` | maze_generator_with_nPaths.py:37-46 | a maze of walls and open cells in lattice shape with (1, 1) open and every open cell reachable from (1, 1); the final counter starts from 1 and stays at 1 or at most `path_count` |
| `MazeWithPaths.UpscaleMaze` | maze_generator_with_nPaths.py:48-54 | the result is rows·scale × cols·scale and cell (x, y) holds maze cell (x / scale, y / scale) |
| `MazeWithPaths.UpscaleRow` | maze_generator_with_nPaths.py:52-53 | after row i every block of rows 0..i holds its maze cell's value |
| `MazeWithPaths.UpscaledIsDivision` | maze_generator_with_nPaths.py:53 | block filling is the same as integer division of the coordinates by the scale |
| `MazeWithPaths.FillBlock` | maze_generator_with_nPaths.py:53 | the slice assignment writes v inside the block and nothing outside it |
| `WalkbackRules.Home` | ant_model_walkback.py:93-106 | a new or reset ant stands at the colony, has visited only the colony, holds it as its whole path, and carries no food |
| `WalkbackRules.NonWalls` | ant_model_walkback.py:122 | the first filter keeps at most the listed cells |
| `WalkbackRules.NonWallsMembers` | ant_model_walkback.py:122 | the first filter keeps exactly the listed cells that are not walls |
| `WalkbackRules.Unvisited` | ant_model_walkback.py:124 | the second filter keeps at most the listed cells |
| `WalkbackRules.UnvisitedMembers` | ant_model_walkback.py:124 | the second filter keeps exactly the listed cells not visited |
| `WalkbackRules.Candidates` | ant_model_walkback.py:122-124 | the candidates index the grid and are no more than the neighbours |
| `WalkbackRules.CandidatesMembers` | ant_model_walkback.py:122-124 | the candidates are exactly the neighbours that are neither walls nor visited |
| `WalkbackRules.RouletteIndex` | ant_model_walkback.py:139-146 | the roulette stops at the first cell whose running sum reaches the pick, or runs off the end |
| `WalkbackRules.Choose` | ant_model_walkback.py:117-146 | a chosen cell is a neighbour that is neither a wall nor visited |
| `WalkbackRules.ChooseNoneIff` | ant_model_walkback.py:126-146 | with non-negative pheromone the choice is `False` exactly when no candidate is left, so the final `return False` is never reached |
| `WalkbackRules.ChooseBranches` | ant_model_walkback.py:129-144 | with no pheromone on the candidates the pick is the head of their shuffle, otherwise the roulette index of the uniform draw |
| `WalkbackRules.AccumulatedFloor` | ant_model_walkback.py:129-133 | the total is at least len·0.1 and equals it exactly when no candidate carries pheromone |
| `WalkbackRules.AccumulatedIncreasing` | ant_model_walkback.py:141-142 | the running sums strictly grow |
| `WalkbackRules.RouletteInterval` | ant_model_walkback.py:138-144 | cell i is picked exactly when the pick lies in the interval of width pheromone + 0.1 that ends at its running sum |
| `WalkbackRules.RouletteLands` | ant_model_walkback.py:138-144 | a pick no larger than the total always lands on a cell |
| `WalkbackRules.FieldOnCells` | ant_model_walkback.py:63 | cells of the grid index the pheromone field, where the levels are non-negative |
| `WalkbackRules.Deposit` | ant_model_walkback.py:167 | the deposit caps the level at 0.99, raises it by at most 0.1, and changes no other cell |
| `WalkbackRules.DepositKeepsRange` | ant_model_walkback.py:167 | depositing keeps every level in [0, 0.99] |
| `WalkbackRules.Backtrack` | ant_model_walkback.py:178-183 | popping an empty path raises IndexError; otherwise the ant stands on the new last cell of its path |
| `WalkbackRules.StepAnt` | ant_model_walkback.py:148-183 | a step raises IndexError only for an empty path or a cell off the interior; otherwise it resets, moves forward or steps back; an ant that ends away from the colony carries food exactly when it had food or stood on the food cell; the field is unchanged or gets a deposit on an open cell that is not the colony |
| `WalkbackRules.CarryFood` | ant_model_walkback.py:165-167 | a carrier away from the colony steps back along its path, still carrying food |
| `WalkbackRules.Explore` | ant_model_walkback.py:168-177 | an ant without food moves forward or steps back and leaves the field unchanged |
| `WalkbackRules.OpenIsInterior` | ant_model_walkback.py:109-115 | with wall borders every open cell is interior, so all four neighbours index the grid |
| `WalkbackRules.StepKeepsAntOk` | ant_model_walkback.py:148-183 | a step keeps the ant on visited open cells with a repeat-free path of neighbours ending where it stands, and keeps the pheromone in range |
| `WalkbackRules.ShapeKeepsAntOk` | ant_model_walkback.py:157-183 | each of reset, forward step and back step keeps the ant well formed |
| `WalkbackRules.ForwardKeepsAntOk` | ant_model_walkback.py:172-176 | a forward step onto a fresh adjacent open cell keeps the ant well formed |
| `WalkbackRules.BackKeepsAntOk` | ant_model_walkback.py:178-183 | a back step keeps the ant well formed |
| `WalkbackRules.Deliver` | ant_model_walkback.py:81-89 | the check counts exactly a carrier on the colony, resets it home, and leaves any other ant alone |
| `WalkbackRules.Decay` | ant_model_walkback.py:77 | every level is multiplied by 0.99 and the shape is kept |
| `WalkbackRules.DecayKeepsRange` | ant_model_walkback.py:77 | decay keeps levels in [0, 0.99] and never raises one |
| `WalkbackRules.MarkColonyAndFood` | ant_model_walkback.py:56-61 | the colony (3, 3) holds -1, the food (35, 35) holds 1, and every other cell is unchanged |
| `WalkbackRules.StartIsOk` | ant_model_walkback.py:44-71 | a wall-bordered maze with marks, a zero field and every ant at home satisfies the state invariant |
| `WalkbackRules.RunAnts` | ant_model_walkback.py:78-89 | the loop keeps the number of ants and counts at most one delivery per ant |
| `WalkbackRules.RunAntsNext` | ant_model_walkback.py:78-89 | one more pass of the loop steps that ant and then checks it for delivery |
| `WalkbackRules.RunAntsAdvance` | ant_model_walkback.py:78-89 | one more pass raises exactly when that ant's step does, and otherwise keeps the state invariant |
| `WalkbackRules.RaiseStops` | ant_model_walkback.py:78-79 | once a step has raised, the loop stays raised with that error |
| `WalkbackRules.RunAntsDelivers` | ant_model_walkback.py:81-89 | after the loop no ant it reached stands on the colony with food |
| `WalkbackRules.RunAntsLeavesRest` | ant_model_walkback.py:78-89 | the loop over the first n ants leaves the others untouched |
| `WalkbackRules.RunAntsSameSteps` | ant_model_walkback.py:78-79 | two step functions that agree everywhere run the loop alike |
| `WalkbackRules.OneAntKeepsWorldOk` | ant_model_walkback.py:78-89 | stepping and delivering any one ant keeps the state invariant, and the ant is not left at home with food |
| `WalkbackRules.TickStepIsStep` | ant_model_walkback.py:79 | inside a tick, ant k steps by `step` with the k-th draw |
| `WalkbackRules.TickStepKeepsWorldOk` | ant_model_walkback.py:78-89 | the step of a tick keeps the state invariant for every ant |
| `WalkbackRules.RunAntsKeepsWorldOk` | ant_model_walkback.py:78-89 | the whole loop keeps the state invariant when each step does |
| `WalkbackRules.RunByTickKeepsWorldOk` | ant_model_walkback.py:78-89 | any stand-in for the tick's step keeps the state invariant over the loop |
| `WalkbackRules.DecayKeepsWorldOk` | ant_model_walkback.py:77 | decay keeps the state invariant |
| `WalkbackRules.Tick` | ant_model_walkback.py:73-89 | an update keeps the number of ants, adds at most one delivery per ant, and sets `food_discovered` exactly when it was set or some ant delivered |
| `WalkbackRules.TickWith` | ant_model_walkback.py:73-89 | the same accounting for a tick with any step function |
| `WalkbackRules.TickWithSameSteps` | ant_model_walkback.py:78-79 | ticks with step functions that agree end alike |
| `WalkbackRules.TickByStep` | ant_model_walkback.py:73-89 | a tick is the tick with any step function that agrees with its own |
| `WalkbackRules.TickKeepsWorldOk` | ant_model_walkback.py:73-89 | an update that does not raise keeps the state invariant and leaves no ant on the colony with food |
| `AntModelWalkback.Ant.constructor` | ant_model_walkback.py:93-107 | a new ant is `Home` of the colony and shares the maze and the pheromone array |
| `AntModelWalkback.Ant.GetAdjacentCells` | ant_model_walkback.py:109-115 | four cells, exactly the orthogonal neighbours, in the fixed order |
| `AntModelWalkback.Ant.ChooseCellsBasedOnPheromones` | ant_model_walkback.py:117-146 | the choice is what `Choose` gives on the current grid, field and visited set |
| `AntModelWalkback.Ant.TotalChance` | ant_model_walkback.py:129-131 | the total is the running sum over every candidate |
| `AntModelWalkback.Ant.Roulette` | ant_model_walkback.py:139-146 | the loop returns the cell at `RouletteIndex`, or nothing when it runs off the end |
| `AntModelWalkback.Ant.Step` | ant_model_walkback.py:148-183 | the ant's fields and the pheromone array afterwards are what `StepAnt` gives, and the call raises exactly when `StepAnt` does |
| `AntModelWalkback.Ant.CarryFoodBack` | ant_model_walkback.py:165-167 | a carrier away from the colony ends as `CarryFood` says |
| `AntModelWalkback.Ant.ExploreOrBack` | ant_model_walkback.py:168-183 | an ant without food moves to the chosen cell or steps back, as `Explore` says |
| `AntModelWalkback.Ant.ReturnHome` | ant_model_walkback.py:84-89 | the reset leaves the ant at home where it stands |
| `AntModelWalkback.Ant.WalkBack` | ant_model_walkback.py:178-183 | the pop and the move are what `Backtrack` gives |
| `AntModelWalkback.ExploreCases` | ant_model_walkback.py:171-177 | exploring moves to the chosen cell when there is one and steps back otherwise |
| `AntModelWalkback.RouletteStopsAt` | ant_model_walkback.py:141-144 | the roulette from m stops at k when the sums from m + 1 to k are below the pick and the next reaches it |
| `AntModelWalkback.Model.Views` | ant_model_walkback.py:65 | one view per ant, in list order |
| `AntModelWalkback.Model.constructor` | ant_model_walkback.py:44-71 | colony and food marked, an all-zero pheromone array of the maze's shape, 100 new ants at home, no food found, and the state invariant holds |
| `AntModelWalkback.Model.DecayPheromones` | ant_model_walkback.py:77 | the pheromone array afterwards is `Decay` of the old one |
| `AntModelWalkback.Model.StepAntAt` | ant_model_walkback.py:78-89 | one pass steps ant i, counts and resets it on delivery, and never lowers `food_found` |
| `AntModelWalkback.Model.TickAntAt` | ant_model_walkback.py:78-89 | after pass i the ants and the field are what running the first i + 1 ants gives, or that run raises too |
| `AntModelWalkback.Model.StepAnts` | ant_model_walkback.py:78-89 | the loop ends where `RunAnts` over all ants ends, or raises where it raises |
| `AntModelWalkback.Model.Update` | ant_model_walkback.py:73-89 | the new model state is what `Tick` gives, the update raises exactly when `Tick` does, and the model stays valid |
| `AntModelWalkback.Model.UpdateBy` | ant_model_walkback.py:73-89 | the body of `update` ends as the tick with the stand-in step |
| `AntDfs.Start` | antDFS.py:45-56 | a new ant stands on the list `[x, y]`, which is its whole visited list and path, with its clock at 0 |
| `AntDfs.StartIsOk` | antDFS.py:45-56 | a new ant on a floor cell satisfies the ant invariant |
| `AntDfs.FirstFresh` | antDFS.py:75-76 | the index found is the first neighbour that is neither a wall nor in `visited`, or none when there is no such neighbour |
| `AntDfs.FirstFreshSeesWallsOnly` | antDFS.py:76 | mazes with the same walls give the same first fresh neighbour |
| `AntDfs.ShuffledNeighbours` | antDFS.py:72-74 | the shuffled list holds exactly the four orthogonal neighbours |
| `AntDfs.Order` | antDFS.py:72-74 | the shuffled neighbours of an inner cell index the maze |
| `AntDfs.Marked` | antDFS.py:79 | the cell a forward move enters holds -3 afterwards |
| `AntDfs.MovesForward` | antDFS.py:75-83 | a forward move goes to the first fresh cell of the shuffled list, a neighbour that is not a wall and whose tuple is not visited, and pushes that tuple on `visited` and `path` |
| `AntDfs.BacktracksWhenStuck` | antDFS.py:85-90 | a due step steps back exactly when no neighbour is fresh; it raises IndexError exactly when the path is a single cell, and otherwise goes to `path[-2]` and pops |
| `AntDfs.StepSeesWallsOnly` | antDFS.py:66-90 | the step depends only on where the walls are, so the -3 marks of other ants do not change it |
| `AntDfs.SameWallsKeepOk` | antDFS.py:76 | the invariants depend only on the walls |
| `AntDfs.SameWallsKeepGridOk` | antDFS.py:76 | the grid invariant depends only on the walls |
| `AntDfs.InnerWriteKeepsGridOk` | antDFS.py:79 | writing into an inner cell keeps the border walls |
| `AntDfs.StepKeepsOk` | antDFS.py:66-90 | a step keeps the ant invariant and leaves the walls where they were |
| `AntDfs.Ant.constructor` | antDFS.py:45-56 | a new ant is `Start(x, y)` on the shared maze |
| `AntDfs.Ant.GetAdjacentCells` | antDFS.py:58-64 | four cells, exactly the orthogonal neighbours, in the fixed order |
| `AntDfs.Ant.MoveToFirstFresh` | antDFS.py:75-83 | the loop moves exactly when a fresh cell exists, enters the first one, marks it -3 and pushes it; otherwise nothing changes |
| `AntDfs.Ant.Backtrack` | antDFS.py:85-90 | with a path of under two cells it raises IndexError and changes nothing; otherwise it stands on `path[-2]` and pops |
| `AntDfs.Ant.Step` | antDFS.py:66-90 | the ant and the maze afterwards are what `StepRule` and `Marked` give, and the call raises exactly when the rule fails |
| `AntDfs.StepsOk` | antDFS.py:36-37 | every ant's step keeps its invariant and moves onto floor |
| `AntDfs.Plan` | antDFS.py:36-37 | the plan of a tick is each ant's step on the starting maze; it keeps every ant's invariant and moves onto floor |
| `AntDfs.AdvancedIsOk` | antDFS.py:36-37 | part-way through a tick, every ant, stepped or not, keeps its invariant in the partly marked maze |
| `AntDfs.StopAt` | antDFS.py:36-37 | the loop runs up to the first step that fails |
| `AntDfs.StopAtNext` | antDFS.py:36-37 | a step before the stop is either the failing one or passed |
| `AntDfs.Advanced` | antDFS.py:36-37 | after n steps the first n ants have their outcomes and the rest are unchanged |
| `AntDfs.FoundInNext` | antDFS.py:39-40 | the food flag after one more ant is the old flag or that ant standing on the food |
| `AntDfs.PlannedStep` | antDFS.py:36-37 | step k taken on the maze the earlier steps left is the planned one |
| `AntDfs.TickedAtFailure` | antDFS.py:36-37 | an update whose step k raises ends with k + 1 ants advanced and the first k trail marks |
| `AntDfs.TickedAtEnd` | antDFS.py:35-41 | an update without failure ends with every ant advanced, every trail mark left, and the food flag |
| `AntDfs.MarkedUpTo` | antDFS.py:79 | the trail marks keep the maze's shape |
| `AntDfs.MarkedCells` | antDFS.py:79 | a cell holds -3 when one of the first n steps moved into it, and is unchanged otherwise |
| `AntDfs.MarkedKeepsWalls` | antDFS.py:79 | the trail marks of a tick keep the walls where they were |
| `AntDfs.Model.Views` | antDFS.py:28 | one view per ant, in list order |
| `AntDfs.Model.constructor` | antDFS.py:8-28 | the colony (1, 1) holds -1, the food (len(Maze[0]) - 2, len(Maze) - 2) holds 1, and nAnts new ants stand at `Start(1, 1)` |
| `AntDfs.Model.SteppedIsValid` | antDFS.py:36-37 | part-way through `update` the model is valid |
| `AntDfs.Model.StepAntAt` | antDFS.py:36-40 | pass k takes the planned step, raises exactly when it fails, and reports whether the ant stands on the food |
| `AntDfs.Model.Update` | antDFS.py:31-41 | the ants, the maze and the result are what the plan gives: the steps run up to the first that raises, the maze holds their trail marks, and the result says whether some ant stood on the food |
| `AntDfsDifficulty.Start` | antDFS_with_maze_difficulty.py:50-63 | a new ant stands on its colony list `[x, y]`, which is its whole visited list and path, without food |
| `AntDfsDifficulty.StartIsOk` | antDFS_with_maze_difficulty.py:50-63 | a new ant on a floor cell satisfies the ant invariant |
| `AntDfsDifficulty.Insert` | antDFS_with_maze_difficulty.py:82 | insertion keeps a list ascending and adds exactly the one pair |
| `AntDfsDifficulty.Sort` | antDFS_with_maze_difficulty.py:82 | `sorted` gives an ascending permutation |
| `AntDfsDifficulty.SortIsUnique` | antDFS_with_maze_difficulty.py:82 | any ascending permutation equals `Sort`, so Python's sort algorithm does not matter |
| `AntDfsDifficulty.AscendingUnique` | antDFS_with_maze_difficulty.py:82 | two ascending lists with the same members are equal |
| `AntDfsDifficulty.Zip` | antDFS_with_maze_difficulty.py:82 | `zip` pairs each level with its cell |
| `AntDfsDifficulty.Seconds` | antDFS_with_maze_difficulty.py:82 | the comprehension takes each pair's cell, in order |
| `AntDfsDifficulty.Reverse` | antDFS_with_maze_difficulty.py:93 | `reverse` mirrors the list and keeps its members |
| `AntDfsDifficulty.Ranked` | antDFS_with_maze_difficulty.py:82 | ranking keeps the length and exactly the same cells |
| `AntDfsDifficulty.NonWalls` | antDFS_with_maze_difficulty.py:79 | the filter keeps exactly the neighbours that are not walls |
| `AntDfsDifficulty.Levels` | antDFS_with_maze_difficulty.py:81 | the level list is the maze value at each cell |
| `AntDfsDifficulty.FirstBelow` | antDFS_with_maze_difficulty.py:84-86 | the index found is the first whose draw is below its level, or none when no draw is |
| `AntDfsDifficulty.Distances` | antDFS_with_maze_difficulty.py:91 | each cell's squared distance to the colony |
| `AntDfsDifficulty.Reordered` | antDFS_with_maze_difficulty.py:89 | a shuffle keeps the length and the members |
| `AntDfsDifficulty.Biased` | antDFS_with_maze_difficulty.py:73-94 | a bare cell is a floor neighbour; a list holds as many cells as there are floor neighbours and indexes the maze |
| `AntDfsDifficulty.BiasedSingleWhen` | antDFS_with_maze_difficulty.py:84-94 | next to the food the result is always a bare cell; with no level above 0 among the floor neighbours it is always a list |
| `AntDfsDifficulty.FirstFresh` | antDFS_with_maze_difficulty.py:120-121 | the index found is the first cell that is neither a wall nor visited, or none when there is no such cell |
| `AntDfsDifficulty.StepBack` | antDFS_with_maze_difficulty.py:131-135 | with a path of under two cells it fails with IndexError; otherwise it stands on `path[-2]` and pops |
| `AntDfsDifficulty.SearchRule` | antDFS_with_maze_difficulty.py:114-126 | the search never adds pheromone |
| `AntDfsDifficulty.Marked` | antDFS_with_maze_difficulty.py:127-129 | the cell a carrier steps back from holds its old level plus 0.1, and every other cell is unchanged |
| `AntDfsDifficulty.PicksUpFood` | antDFS_with_maze_difficulty.py:101-102 | on a cell holding 1 away from its colony list the ant comes out of the step carrying food |
| `AntDfsDifficulty.DeliversAtColony` | antDFS_with_maze_difficulty.py:105-112 | a due step delivers exactly when the ant is on its colony list and carries food or stands on food, and the delivery resets its visited list and path to the colony, drops the food and zeroes its clock |
| `AntDfsDifficulty.MovesForward` | antDFS_with_maze_difficulty.py:114-126 | only a searching ant moves forward, to a neighbour that is not a wall and whose tuple is not visited |
| `AntDfsDifficulty.CarriesBack` | antDFS_with_maze_difficulty.py:127-135 | a carrier steps back, never fails, and adds 0.1 exactly when the level of the cell it leaves is in [0, 0.9) |
| `AntDfsDifficulty.BreaksNextToFood` | antDFS_with_maze_difficulty.py:84-86 | a searching ant next to the food always gets a bare cell and fails with TypeError |
| `AntDfsDifficulty.StepKeepsOk` | antDFS_with_maze_difficulty.py:96-135 | a step keeps the ant invariant, and what it adds to the maze keeps the walls and the marks |
| `AntDfsDifficulty.StepHasShape` | antDFS_with_maze_difficulty.py:96-135 | every step waits, delivers, moves forward, steps back or fails |
| `AntDfsDifficulty.SearchHasShape` | antDFS_with_maze_difficulty.py:114-126 | the search has the shape of a step |
| `AntDfsDifficulty.ShapeKeepsOk` | antDFS_with_maze_difficulty.py:96-135 | an outcome of that shape keeps the ant invariant, the walls and the marks |
| `AntDfsDifficulty.ForwardKeepsOk` | antDFS_with_maze_difficulty.py:122-124 | pushing a fresh neighbour keeps the ant invariant |
| `AntDfsDifficulty.BackKeepsOk` | antDFS_with_maze_difficulty.py:131-132 | popping the path keeps the ant invariant |
| `AntDfsDifficulty.SameWallsKeepOk` | antDFS_with_maze_difficulty.py:121 | the invariants depend only on the walls |
| `AntDfsDifficulty.SameWallsKeepAllOk` | antDFS_with_maze_difficulty.py:121 | every ant's invariant depends only on the walls |
| `AntDfsDifficulty.InnerWriteKeepsGridOk` | antDFS_with_maze_difficulty.py:23-24 | writing into an inner cell keeps the border walls |
| `AntDfsDifficulty.StoredAsInteger` | antDFS_with_maze_difficulty.py:129 | an integer array stores a float truncated toward zero |
| `AntDfsDifficulty.IntegerMazeKeepsNoPheromone` | antDFS_with_maze_difficulty.py:127-129 | in an integer maze the only level is 0, and a deposit or a decay stores 0 again |
| `AntDfsDifficulty.ReplacedIsOk` | antDFS_with_maze_difficulty.py:34-35 | replacing one ant by a ready one keeps every ant ready |
| `AntDfsDifficulty.Run` | antDFS_with_maze_difficulty.py:33-38 | the loop keeps the walls and the marks and every ant ready, leaves earlier ants alone, and without a raise reports whether some ant stood on the food after its step |
| `AntDfsDifficulty.Pass` | antDFS_with_maze_difficulty.py:35-38 | one pass changes only ant k and reports whether it stands on the food |
| `AntDfsDifficulty.Decayed` | antDFS_with_maze_difficulty.py:41-44 | the decayed maze has the same shape, cell by cell as the loop leaves it |
| `AntDfsDifficulty.DecayOnlyFades` | antDFS_with_maze_difficulty.py:41-44 | decay keeps a level a level and never raises it, and leaves walls and marks alone |
| `AntDfsDifficulty.Ant.constructor` | antDFS_with_maze_difficulty.py:50-63 | a new ant is `Start(x, y)` on the shared maze |
| `AntDfsDifficulty.Ant.GetAdjacentCells` | antDFS_with_maze_difficulty.py:65-71 | four cells, exactly the orthogonal neighbours, in the fixed order |
| `AntDfsDifficulty.Ant.ShuffleCellsWithBias` | antDFS_with_maze_difficulty.py:73-94 | the loop over the levels and the choice after it give what `Biased` gives |
| `AntDfsDifficulty.Ant.MoveToFirstFresh` | antDFS_with_maze_difficulty.py:120-126 | the loop moves exactly when a fresh cell exists, into the first one, and otherwise changes nothing |
| `AntDfsDifficulty.Ant.Backtrack` | antDFS_with_maze_difficulty.py:131-135 | the ant afterwards is what `StepBack` gives, and it raises exactly when that fails |
| `AntDfsDifficulty.Ant.Search` | antDFS_with_maze_difficulty.py:114-126 | the ant afterwards is what `SearchRule` gives, with the same error |
| `AntDfsDifficulty.Ant.Carry` | antDFS_with_maze_difficulty.py:127-135 | the ant and the maze afterwards are what `CarryRule` and `Marked` give |
| `AntDfsDifficulty.Ant.Act` | antDFS_with_maze_difficulty.py:100-135 | a due step ends as `StepRule` and `Marked` say |
| `AntDfsDifficulty.Ant.Step` | antDFS_with_maze_difficulty.py:96-135 | the ant and the maze afterwards are what `StepRule` and `Marked` give, and the call raises exactly when the rule fails |
| `AntDfsDifficulty.Model.Views` | antDFS_with_maze_difficulty.py:27 | one view per ant, in list order |
| `AntDfsDifficulty.Model.constructor` | antDFS_with_maze_difficulty.py:7-27 | the colony (4, 4) holds -1, the food (len(Maze[0]) - 6, len(Maze) - 6) holds 1, and nAnts new ants stand at `Start(4, 4)` |
| `AntDfsDifficulty.Model.StepAntAt` | antDFS_with_maze_difficulty.py:34-38 | pass k steps ant k as `StepRule` says, marks the maze, and reports whether it stands on the food |
| `AntDfsDifficulty.Model.Advance` | antDFS_with_maze_difficulty.py:34-38 | pass k keeps the rest of the loop on course for the state `Run` gives, and when ant k raises the model already holds that final state |
| `AntDfsDifficulty.Model.MoveAnts` | antDFS_with_maze_difficulty.py:33-38 | the ants, the maze and the result are what `Run` gives |
| `AntDfsDifficulty.Model.Decay` | antDFS_with_maze_difficulty.py:41-44 | the maze afterwards is `Decayed` of the old one |
| `AntDfsDifficulty.Model.Evaporate` | antDFS_with_maze_difficulty.py:41-44 | the decay keeps the model valid |
| `AntDfsDifficulty.Model.Update` | antDFS_with_maze_difficulty.py:29-46 | the ant loop ends as `Run` says; without a raise the maze is decayed and the result is the food flag |
| `DistanceWalk.Plus` | archief/ant_random_walk_with_return_better.py:55 | infinity plus a cost stays infinite, and a finite distance grows by the cost |
| `DistanceWalk.Toward` | archief/ant_random_walk_with_return_better.py:38 | each direction leads to a cell around p, diagonal exactly when both offsets are non-zero |
| `DistanceWalk.AroundIsToward` | archief/ant_random_walk_with_return_better.py:38 | the eight directions reach every cell around p |
| `DistanceWalk.Box` | archief/ant_random_walk_with_return_better.py:32 | the cells of the grid are exactly the in-bounds cells |
| `DistanceWalk.BoxSize` | archief/ant_random_walk_with_return_better.py:32 | the grid has height · width cells |
| `DistanceWalk.WithinBox` | archief/ant_random_walk_with_return_better.py:35 | a set of grid cells has at most height · width members |
| `DistanceWalk.Relax` | archief/ant_random_walk_with_return_better.py:44-60 | relaxing the cells around a visited cell keeps the flood invariant and visits every open cell around it |
| `DistanceWalk.Discover` | archief/ant_random_walk_with_return_better.py:57-60 | writing the new distance for a fresh cell changes only that cell and keeps the flood invariant |
| `DistanceWalk.StartFlood` | archief/ant_random_walk_with_return_better.py:32-35 | the map filled with infinity and the target at 0 is a flood of the target alone |
| `DistanceWalk.Visit` | archief/ant_random_walk_with_return_better.py:40-60 | one round keeps the flood invariant and the closed set, and grows the visited set as the queue grows |
| `DistanceWalk.DequeueKeepsClosed` | archief/ant_random_walk_with_return_better.py:40-60 | dequeuing the head and relaxing it keeps the queue inside the visited set and adds the head to the closed set |
| `DistanceWalk.CalculateDistanceMap` | archief/ant_random_walk_with_return_better.py:27-62 | the result is a distance map: the target at 0, walls at infinity, every other finite cell one step further than a finite cell around it, the finite cells closed under open steps; the loop runs at most height · width times |
| `DistanceWalk.FloodIsDistanceMap` | archief/ant_random_walk_with_return_better.py:40-62 | a finished flood is a distance map |
| `DistanceWalk.ReachableIsFinite` | archief/ant_random_walk_with_return_better.py:27-62 | every cell an open path from the target reaches has a finite distance |
| `DistanceWalk.SliceBound` | archief/ant_random_walk_with_return_better.py:98-99 | Python reads a negative slice bound as counting from the end |
| `DistanceWalk.FillRow` | archief/ant_random_walk_with_return_better.py:86 | the slice assignment writes 4 in that row range and nothing else |
| `DistanceWalk.InitializeMaze` | archief/ant_random_walk_with_return_better.py:64-105 | a height × width grid of the case's walls with the colony -1 and the food 1; a case other than 1, 2 or 3 raises AttributeError |
| `DistanceWalk.OpenFieldHasNoWalls` | archief/ant_random_walk_with_return_better.py:71-74 | case 1 has no walls |
| `DistanceWalk.MazeMarks` | archief/ant_random_walk_with_return_better.py:101-103 | every cell holds 1, -1, 4 or 0, the food cell holds 1, and neither colony nor food is a wall |
| `DistanceWalk.ThreeGapWalls` | archief/ant_random_walk_with_return_better.py:94-99 | case 3 has a wall exactly where one of its three gap walls covers the cell |
| `DistanceWalk.DefaultGaps` | archief/ant_random_walk_with_return_better.py:94-99 | at 80 × 80 each wall of case 3 leaves ten cells from gap_x - 5 open |
| `DistanceWalk.NarrowFirstWallIsSolid` | archief/ant_random_walk_with_return_better.py:98 | 16 columns wide, the first wall of case 3 has no gap |
| `DistanceWalk.Legal` | archief/ant_random_walk_with_return_better.py:149-151 | the filter keeps at most the listed cells |
| `DistanceWalk.LegalExact` | archief/ant_random_walk_with_return_better.py:149-151 | the filter keeps exactly the open in-bounds cells |
| `DistanceWalk.LegalStep` | archief/ant_random_walk_with_return_better.py:149-151 | one more cell is appended exactly when the test of `valid_moves` admits it |
| `DistanceWalk.OpenAround` | archief/ant_random_walk_with_return_better.py:139-152 | every move is inside the grid |
| `DistanceWalk.OpenAroundExact` | archief/ant_random_walk_with_return_better.py:139-152 | the moves are exactly the open cells around p, at most eight, never p itself |
| `DistanceWalk.DistancesAt` | archief/ant_random_walk_with_return_better.py:162 | the map entry at each move |
| `DistanceWalk.FirstMin` | archief/ant_random_walk_with_return_better.py:158-165 | the index kept is one of those seen |
| `DistanceWalk.FirstMinIsFirstMinimum` | archief/ant_random_walk_with_return_better.py:158-165 | nothing is kept exactly while all distances are infinite; otherwise the index holds a finite minimum strictly below every earlier entry |
| `DistanceWalk.NearestIsUnique` | archief/ant_random_walk_with_return_better.py:158-167 | at most one index is the nearest |
| `DistanceWalk.BestMove` | archief/ant_random_walk_with_return_better.py:154-167 | an empty list raises IndexError, and otherwise a move is returned |
| `DistanceWalk.BestMoveIsNearest` | archief/ant_random_walk_with_return_better.py:154-167 | the move returned is the nearest: no move is strictly nearer, and every move before it is strictly farther |
| `DistanceWalk.MoveStaysOpen` | archief/ant_random_walk_with_return_better.py:169-189 | a move stays put only without valid moves and otherwise ends on an open cell around the ant; no valid move is strictly nearer the target of a guided move |
| `DistanceWalk.Arrive` | archief/ant_random_walk_with_return_better.py:115-125 | on the food a foraging ant picks it up and returns, on the colony a returning ant drops it and forages, and `has_food` and `state` stay in agreement |
| `DistanceWalk.Ant.constructor` | archief/ant_random_walk_with_return_better.py:128-137 | a foraging ant at [x, y] without food |
| `DistanceWalk.Ant.ValidMoves` | archief/ant_random_walk_with_return_better.py:139-152 | the moves are `OpenAround` of its position |
| `DistanceWalk.Ant.GetBestMove` | archief/ant_random_walk_with_return_better.py:154-167 | the result is `BestMove` |
| `DistanceWalk.Ant.Move` | archief/ant_random_walk_with_return_better.py:169-189 | the new position is what `MoveTo` gives, and nothing else changes |
| `DistanceWalk.TickKeepsAnt` | archief/ant_random_walk_with_return_better.py:111-125 | a turn keeps an ant consistent and on an open cell |
| `DistanceWalk.Model.constructor` | archief/ant_random_walk_with_return_better.py:6-25 | the maze of the case, two distance maps to the food and the colony, and nAnts foraging ants at the colony |
| `DistanceWalk.Model.Turn` | archief/ant_random_walk_with_return_better.py:112-125 | one ant's turn is what `Tick` gives |
| `DistanceWalk.Model.Update` | archief/ant_random_walk_with_return_better.py:107-125 | every ant takes its turn as `Tick` says, and the model stays valid |
| `DistanceWalk.Model.MoveAnts` | archief/ant_random_walk_with_return_better.py:111-125 | the loop gives every ant its turn in order |
| `DistanceWalk.Build` | archief/ant_random_walk_with_return_better.py:17-21 | the grid of the case and two distance maps, with the colony open |
| `DistanceWalk.DistanceMaps` | archief/ant_random_walk_with_return_better.py:20-21 | both maps are distance maps, to the food and to the colony |
| `DistanceWalk.Spawn` | archief/ant_random_walk_with_return_better.py:24-25 | n distinct new foraging ants at the colony |
| `RandomWalk.Inside` | archief/randomwalk.py:60-61 | the filter keeps at most the listed cells |
| `RandomWalk.InsideExact` | archief/randomwalk.py:60-61 | the filter keeps exactly the in-bounds cells |
| `RandomWalk.InsideStep` | archief/randomwalk.py:60-61 | one more cell is appended exactly when the bounds test admits it |
| `RandomWalk.MovesFromExact` | archief/randomwalk.py:48-62 | the moves are exactly the in-bounds cells around p, at most eight, never p itself |
| `RandomWalk.MovesExist` | archief/randomwalk.py:48-62 | with two rows or two columns every cell of the grid has a move |
| `RandomWalk.StepStaysInside` | archief/randomwalk.py:64-70 | a move raises ValueError for want of moves, or lands on an in-bounds cell around p |
| `RandomWalk.Stuck` | archief/randomwalk.py:33-34 | the first stuck ant's index is at most the number of ants |
| `RandomWalk.StuckIsFirst` | archief/randomwalk.py:33-34 | `Stuck` is i exactly when the ants before i have moves and ant i, if any, has none |
| `RandomWalk.NeverStuck` | archief/randomwalk.py:33-34 | with two rows or two columns no ant inside the grid gets stuck |
| `RandomWalk.Ant.constructor` | archief/randomwalk.py:42-46 | an ant at [x, y] |
| `RandomWalk.Ant.ValidMoves` | archief/randomwalk.py:48-62 | the moves are `MovesFrom` of its position |
| `RandomWalk.Ant.Move` | archief/randomwalk.py:64-70 | the position becomes what `Step` gives, and stays on ValueError |
| `RandomWalk.Model.Positions` | archief/randomwalk.py:25 | one position per ant, in list order |
| `RandomWalk.Model.constructor` | archief/randomwalk.py:5-25 | a zero grid with -1 at the colony and 1 at the food, and nAnts ants at the colony |
| `RandomWalk.Model.Update` | archief/randomwalk.py:27-37 | the ants before the first stuck one step as `Step` says, the stuck one raises ValueError and ends the update, and otherwise the result says whether some ant is on the food |
| `RandomWalk.Model.MoveAnts` | archief/randomwalk.py:33-36 | the loop steps the ants before n, ant n has no moves, and the rest stay |
| `RandomWalk.Spawn` | archief/randomwalk.py:25 | n distinct new ants at the colony |
| `Cells.Neighbours4` | antDFS.py:58-64 | four cells, each orthogonally adjacent |
| `Cells.Neighbours4Exact` | antDFS.py:58-64 | the four neighbours are exactly the adjacent cells, each once |
| `Cells.Neighbours8Exact` | archief/randomwalk.py:54-61 | the eight offsets give exactly the cells around p, each once |
| `Cells.OffsetIsNeighbour` | archief/randomwalk.py:54-56 | offset (dx, dy) of the two nested loops is entry `Passed` of the eight, skipping (0, 0) |

## Left out

- Plotting, `print`, the `Visualization` classes and the `__main__` drivers are I/O; their time loops calling `update` are not modelled.
- Seeding the random generators (`random.seed`, line 42 of `maze_generator_with_nPaths.py`) is not modelled, because every random outcome is an input.
- Floating point is modelled as exact `real` arithmetic: pheromone sums, the 0.99 and 1 - 0.01 decays, `1.4` and `np.inf`. Rounding is not modelled, including the `==` test on `total_chance` at line 133 of `ant_model_walkback.py`.
- numpy's negative indices wrap around to the far edge. The models instead require wall borders (or, in the walkback model, return `IndexError` for an ant off the interior), so no index is ever negative.
- `time_since_last_update` of the walkback ants has no effect on their behaviour and is not modelled. The depth-first ants keep it, with its `> 0.0` guard.
- `has_moved_away` is never read and is not modelled.
- `antDFS_with_maze_difficulty.py` line 4 imports `upscale_maze` from `mazegenerator`, which does not define it, so the module as written fails on import. The model takes the function from `maze_generator_with_nPaths.py`.
- `antDFS.py` line 5 builds one global `Maze` at import. The model passes the maze to the constructors, and every ant shares it.
- The docstring of `calculate_distance_map` promises shortest distances. The model proves a weaker property, `DistanceMap`: every finite cell is one step further than a finite neighbour, and every reachable cell is finite. The queue order is first-in first-out with costs 1 and 1.4, which does not give an exact shortest-path guarantee.
- AntDfsDifficulty.Biased: the distance branch sorts by squared distance in place of `np.linalg.norm`. This gives the same order, but the `Bias` default of 0 makes the branch reachable only for a draw of exactly 0.
- MazeWithPaths.UpscaleMaze: `np.zeros` builds a float array. The model keeps the integer array, because a maze value is always 0 or 2.
- MazeGenerator.GenerateMaze: requires at least 2 rows and 2 columns; with fewer, `maze[1][1]` raises IndexError.
- MazeWithPaths.GenerateMazeWithPaths: requires at least 2 rows and 2 columns, for the same reason.
- AntDfs.Model.constructor: requires a wall border around a maze of at least 3 × 3, with the food index inside the border. The source places the marks wherever the indices point.
- AntDfsDifficulty.Model.constructor: requires a wall border and a food cell on an inner cell, for the same reason.
- AntModelWalkback.Model.constructor: requires a wall border and a maze large enough for the food at (35, 35).
- AntDfs.Ant.Step: does not ensure `Ready` afterwards. `StepKeepsOk` proves the ant invariant of the outcome on values.
- AntDfsDifficulty.Ant.Step: does not ensure `Ready` afterwards. `StepKeepsOk` proves the ant invariant of the outcome on values.
- AntDfsDifficulty.Model.Update: requires `height` and `width` within the maze's size. Past them the decay loop would raise IndexError.
- AntDfsDifficulty.Model.Decay: requires `height` and `width` within the maze's size, for the same reason.
- AntDfsDifficulty.Model.Evaporate: requires `height` and `width` within the maze's size, for the same reason.
- RandomWalk.Model.constructor: requires height ≥ 5 and width ≥ 1; smaller grids put the colony off the grid or wrap a negative index.
- DistanceWalk.Model.constructor: requires case 1, 2 or 3, height ≥ 5 and width ≥ 1. Another case raises AttributeError (modelled in `InitializeMaze`), and smaller grids put the marks off the grid.
- The maze of `antDFS_with_maze_difficulty.py` is modelled as an array of reals, so that the pheromone it is meant to carry exists. The integer array the generator returns is covered by the finding below.

## Findings

| source | as written | input that shows it | evidently intended | confidence | as-written member | corrected member |
|---|---|---|---|---|---|---|
| antDFS_with_maze_difficulty.py:127-129 | the maze from `generate_maze_with_paths` is a numpy integer array, so `+= 0.1` on a cell holding 0 stores 0 again, and the `*= 0.99` decay at lines 43-44 stores it back | a carrier on an open cell (value 0): the cell still holds 0 after the step, and no cell ever holds a level above 0 | cells carry fractional pheromone levels that bias later searches | not executed | `AntDfsDifficulty.IntegerMazeKeepsNoPheromone` | `AntDfsDifficulty.Marked` |
