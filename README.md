# MazeSearch core, modelled and verified in Dafny

This project models the core of the MazeSearch grid-maze library:

- **Grid model** (maze.h, maze.cpp), in module `Grid`:
  - cells with their `inMaze` / `inFrontier` flags and their coordinate-only equality;
  - passages between two possibly-null cell references;
  - the `Maze` object with `MakeGrid`, `MakePassage` and the `start` / `finish` references.
- **ASCII rasteriser** (maze.cpp), in module `Ascii`: the grid-building part of `PrintAsciiMaze`.
- **Prim-style generator** (maze_generator.cpp), in module `Generator`: `GeneratePrim`, `AddFrontierNeighbours` and the direction tables.
- **A\* solver** (maze_solver.cpp), in module `Solver`: `FindNeighbours`, `ManhattanDistance`, `ReconstructPath` and `AStar`.
- **Batch solving** (maze_solver.cpp), in module `Batch`: `SolveSeq`, and the work split and rank-ordered gather of `SolveMPI`.

Files: `grid.dfy`, `ascii.dfy`, `generator.dfy`, `solver.dfy`, `batch.dfy`.

## Representation

**Cells and references.**
- The maze keeps its cells as rows, `cells[y][x]`, like the source's vector of vectors. `MakeGrid` appends to rows that may already hold cells, so the rows are not forced into a flat array.
- A `Cell*` into the grid is the coordinate pair `Pos(x, y)`, and a null pointer is `None`. After a single `MakeGrid` on an empty maze there is one cell per coordinate pair, and the generator and solver never add cells. So pointer equality, which `AStar` uses, and `Cell::operator==`, which `FindNeighbours` uses, both become equality of `Pos`. A second `MakeGrid` breaks this; see "## Left out".

**Objects and state.**
- `Maze` is a class. Its methods update its fields in place, under `modifies` clauses that name exactly the fields they change.
- The generator's frontier is a `seq` that the methods reassign.
- The solver's open list, closed list and `g` / `f` / parent maps are a `Search` value, which the loop of `AStar` reassigns.

**Randomness.** Every `uniform_int_distribution` draw is `Generator.Uniform`: an arbitrary value of the requested range. What is proved about the generator therefore holds for every sequence of draws.

**A\* specification.**
- `AStar` is proved equal to a reference function, `Solver.AStarSpec`.
- `AStarSpec` replays the same search step by step, as `Solver.Run`. Termination uses a measure: the number of cells among the start and the passage endpoints that are not yet closed.
- The meaning of the result is proved about `AStarSpec`:
  - a non-empty result is a walk along passages from `start` to `finish` with no repeated cell;
  - the result is empty exactly when no such walk exists, or when an endpoint is null.

## Model

| member | source | states |
|---|---|---|
| Grid.NewCell | maze.cpp:7-8 | `Cell(x, y)` has coordinates (x, y) and both flags false |
| Grid.CellEq | maze.h:14-16 | `Cell::operator==` compares the two coordinates only; the definition whose properties the `CellEqIgnoresFlags` and `CellEqIsEquivalence` rows state |
| Grid.CellEqIgnoresFlags | maze.h:14-16 | two cells are equal exactly when their coordinates agree; changing either flag never changes the outcome |
| Grid.CellEqIsEquivalence | maze.h:14-16 | cell equality is reflexive, symmetric and transitive |
| Grid.Maze.constructor | maze.cpp:15-16 | a new maze stores its two sizes, has no cells and no passages, and null start and finish |
| Grid.Maze.Width | maze.h:35 | `width()` is the stored `sizeX`; it is a function of the maze, so it changes nothing |
| Grid.Maze.Height | maze.h:36 | `height()` is the stored `sizeY`; it changes nothing |
| Grid.Maze.MakeGrid | maze.cpp:18-28 | a negative `sizeY` fails with a length error and leaves the cells alone. Otherwise there are exactly `sizeY` rows, and row y is its old content (or empty) followed by the cells (0, y) .. (sizeX-1, y). On a maze without cells the result is the fresh grid: `sizeY` rows of `sizeX` cells, `cells[y][x]` at (x, y), all flags false |
| Grid.Resize | maze.cpp:20 | `cells.resize(sizeY)` for a non-negative size: exactly n rows; row y keeps its old content when it existed and is empty otherwise |
| Grid.Maze.AppendRow | maze.cpp:23-26 | the inner loop of `MakeGrid`: row y becomes its old content followed by the cells (0, y) .. (sizeX-1, y), and every other row is unchanged |
| Grid.Maze.MakePassage | maze.cpp:30-33 | the passage list becomes the old list plus (a, b) at its end; cells, start and finish are untouched |
| Grid.SetCell | maze_generator.cpp:96 | a write through a cell reference changes that cell only, and keeps the shape of every row |
| Grid.NullPassage | maze.cpp:10-11 | `Passage()` has two null endpoints and links no pair of cells |
| Grid.JoinedSymmetric | maze.h:21-29 | a passage joins its two cells in both directions |
| Grid.AllPosCard | maze.cpp:21-27 | the box of `MakeGrid` holds exactly width * height positions |
| Ascii.AsciiMaze | maze.cpp:36-71 | the raster has 2*height+1 rows of 2*width+1 characters. A square is ' ' exactly when it is the centre (2x+1, 2y+1) of an in-maze cell, or the midpoint (C++ truncating division) of the two centres of a passage with no null endpoint. Every other square stays '#' |
| Ascii.WallBetween | maze.cpp:64-69 | the square `((gx1 + gx2) / 2, (gy1 + gy2) / 2)` between the two centres, with C++ truncating division; the definition the `AsciiMaze` and `AdjacentWallIsBetween` rows use |
| Ascii.AdjacentWallsInRaster | maze.cpp:64-70 | when every passage joins two adjacent cells of the box, every wall square lies inside the raster, so the raster condition `AsciiMaze` requires holds |
| Ascii.AdjacentWallIsBetween | maze.cpp:64-70 | for two adjacent cells of the grid, the opened square lies strictly inside the raster, is the wall square between their two centres, and is not itself a cell centre |
| Generator.CandidatesSpec | maze_generator.cpp:6-7 | the four table steps give four distinct positions, which are exactly the positions adjacent to the cell |
| Generator.Neighbours4Spec | maze_generator.cpp:87-92 | the in-bounds candidates, in the order +x, +y, -x, -y, are exactly the adjacent cells of the box, each listed once |
| Generator.AddFrontierNeighbours | maze_generator.cpp:85-100 | the frontier gains, in direction order, exactly the in-bounds neighbours that were neither in the maze nor in the frontier. Exactly those cells get `inFrontier` raised, and no other cell changes |
| Generator.CollectMazeNeighbours | maze_generator.cpp:44-58 | the list holds, in direction order, exactly the in-bounds neighbours already in the maze |
| Generator.Uniform | maze_generator.cpp:39-40 | a draw lies in the requested closed range |
| Generator.SwapRemove | maze_generator.cpp:75-76 | the result is one shorter; slot idx holds the old last entry and every other slot is unchanged; the multiset loses exactly the entry at idx |
| Generator.SwapRemoveKeepsOthers | maze_generator.cpp:75-76 | in a list without duplicates, swap-removal keeps the list free of duplicates and removes exactly the entry at idx |
| Generator.ChosenHasMazeNeighbour | maze_generator.cpp:60 | the chosen frontier entry always has a neighbour in the maze, so the guard of line 60 always holds |
| Generator.PrimStart | maze_generator.cpp:23-35 | the start cell is in the grid. The new grid is the old one with the start's `inMaze` raised, then exactly the first frontier's cells get `inFrontier` raised. The first frontier is exactly the start's in-bounds neighbours that were neither in the maze nor flagged, in direction order. The loop invariant `PrimInv` holds |
| Generator.PrimIteration | maze_generator.cpp:39-76 | one iteration chooses frontier entry idx and a neighbour nb, adjacent to it and already in the maze. It appends exactly `Passage(frontier[idx], nb)`, and frontier[idx] becomes in-maze, not in the frontier, and `lastVisited`. Its unvisited neighbours are flagged and appended in direction order, and then entry idx is swap-removed. It keeps `PrimInv`; either the count of cells neither in the maze nor flagged drops, or it stays and the frontier shrinks. `PrimInv` covers: no duplicate in the frontier; each frontier entry is in bounds, out of the maze and has an in-maze neighbour; flags match the tracked sets; one passage per joined cell, each between two adjacent in-maze cells; the last passage starts at `lastVisited`; on a fresh grid, every maze cell is reachable from the start |
| Generator.PrimLoop | maze_generator.cpp:37-77 | the loop terminates, and on exit the frontier is empty with `PrimInv` intact |
| Generator.Finish | maze_generator.cpp:37-80 | at loop exit the generator's promises hold: the predicate `Generated` and, on a maze fresh from `MakeGrid`, `SpanningTree` (both are spelled out in the `GeneratePrim` row) |
| Generator.GrowMaze | maze_generator.cpp:23-77 | growing from the random start yields `Generated`, and on a fresh maze `SpanningTree` |
| Generator.GeneratePrim | maze_generator.cpp:16-81 | width < 1, height < 1, no rows or an empty first row fail with "not initialized", leaving cells, passages, start and finish unchanged. Otherwise `Generated` holds: start and finish refer to in-maze cells of the grid; cells in the maze stay in it; old passages are kept; each new passage joins two adjacent in-maze cells; there is one new passage per cell that joined; finish == start exactly when none joined, and otherwise finish is the first endpoint of the last passage made, the cell that joined last. On a maze fresh from `MakeGrid`, `SpanningTree` also holds: every cell is in the maze and none in the frontier, there are width*height - 1 passages, and every cell is reachable from the start |
| Generator.MadeGridIsFresh | maze.cpp:18-28 | the grid `MakeGrid` builds on an empty maze, with no passage yet, has no cell in the maze or in the frontier. So it meets the fresh-start condition under which `GeneratePrim` promises a spanning tree |
| Generator.GeneratedWallsInRaster | maze_generator.cpp:65 | on a maze with no passages before generation, every passage that satisfies `Generated` has its wall square inside the raster. So `AsciiMaze` can draw any generated maze |
| Generator.SingleCell | maze_generator.cpp:31-37 | on a 1-by-1 grid, any outcome satisfying `Generated` has start and finish both at the single cell (0, 0), and adds no passage |
| Solver.ContributionSpec | maze_solver.cpp:15-19 | one passage contributes q as a neighbour of c exactly when it links c and q with no null endpoint |
| Solver.NeighboursOfSpec | maze_solver.cpp:11-22 | q is listed as a neighbour of c exactly when some passage joins c and q; the list is no longer than the passage list |
| Solver.FindNeighbours | maze_solver.cpp:11-22 | the neighbour list, in passage-list order: the c2 of each passage whose c1 is c, the c1 of each passage whose c2 is c, skipping passages with a null endpoint |
| Solver.ManhattanDistance | maze_solver.cpp:36-38 | the distance is 0 exactly between equal cells and 1 exactly between grid-adjacent cells |
| Solver.Reverse | maze_solver.cpp:45 | `std::reverse`: same length, element i is the old element n-1-i |
| Solver.ReconstructPath | maze_solver.cpp:40-46 | the result is the reversal of the given path followed by the cell, its parent, its grandparent ... up to the first cell without a parent |
| Solver.ReverseUp | maze_solver.cpp:40-46 | reversing the walk up the parent pointers gives the chain that runs root first |
| Solver.ChainSpec | maze_solver.cpp:40-46 | the reconstructed path ends with the given cell and starts at a cell without a parent. Each later element's parent is the element before it, and no cell repeats |
| Solver.SelectCurrent | maze_solver.cpp:71-76 | the selected cell is in the open list, has minimal f-cost, and no earlier open cell has the same f-cost, so it is the first minimum |
| Solver.SelectScan | maze_solver.cpp:71-76 | the scan's result is `SelectCurrent` |
| Solver.RemoveAll | maze_solver.cpp:87 | erase-remove keeps exactly the elements different from x, and keeps a list free of duplicates |
| Solver.RemoveAllKeepsOrder | maze_solver.cpp:87 | the removal keeps the order of the other elements: without x the list is unchanged, and in a list without duplicates the single occurrence of x is cut out |
| Solver.Relax | maze_solver.cpp:91-104 | the method computes `RelaxOne`, the neighbour update: a closed neighbour is ignored. Otherwise, when it is new or the tentative cost is strictly lower, its parent, g and f are set and a new neighbour is appended to the open list; else nothing changes |
| Solver.Close | maze_solver.cpp:87-88 | current is appended to the closed list and is no longer in the open list; the open list keeps every other cell; costs and parents are unchanged |
| Solver.RelaxNeighbours | maze_solver.cpp:90-105 | the method computes `RelaxAll`: the neighbours that `FindNeighbours` lists, each updated by `RelaxOne`, in list order |
| Solver.RelaxOneMid | maze_solver.cpp:91-104 | a neighbour update keeps the search invariant and makes the neighbour seen; the closed list is unchanged and the parent of every closed cell is kept |
| Solver.Step | maze_solver.cpp:69-106 | one pass of the loop that does not reach finish: select current, close it, update its neighbours. It is the definition whose effect the `StepInv` row states |
| Solver.StepInv | maze_solver.cpp:86-105 | an iteration that does not reach the finish keeps the invariant. The invariant: no duplicates in the open or closed list; the two are disjoint; parent edges are passages into closed cells; the start never gets a parent; closed cells are expanded. The new closed list is the old one plus current; closed cells are never re-parented; the number of unclosed endpoints drops |
| Solver.Init | maze_solver.cpp:56-67 | the initial search state: only the start open, nothing closed, g(start) = 0, f(start) = its Manhattan distance to finish, no parents. It is the definition the `InitInv` row states the invariant of |
| Solver.InitInv | maze_solver.cpp:65-67 | the initial state, only the start open with g 0, satisfies the invariant |
| Solver.CoreRanked | maze_solver.cpp:87-104 | the parent map is acyclic: ranking closed cells by closing order and open cells last, a parent always ranks strictly below its child |
| Solver.FoundPath | maze_solver.cpp:79-83 | when any seen cell is reached, the reconstructed path runs from the start to it along passages, without repeats |
| Solver.Exhausted | maze_solver.cpp:106-108 | an empty open list means the finish is unreachable from the start |
| Solver.RunCorrect | maze_solver.cpp:69-108 | from any invariant state, the search returns a repeat-free walk from start to finish, or [] only when the finish is unreachable |
| Solver.AStarCorrect | maze_solver.cpp:51-109 | a null start or finish gives []. Otherwise the result is non-empty exactly when the finish is reachable, and then it is a repeat-free walk along passages from start to finish |
| Solver.AStar | maze_solver.cpp:51-109 | the method computes `AStarSpec` of the maze; it has no `modifies` clause, so it leaves the maze untouched |
| Batch.SolveSeq | maze_solver.cpp:115-121 | one result per maze, in input order: result i is what `AStar` returns for maze i |
| Batch.BlockSize | maze_solver.cpp:135 | k = (n + size - 1) / size is the ceiling of n / size: size * k >= n, and when k >= 1 also size * (k - 1) < n; k == 0 exactly when there is no maze, since k >= 1 when n > 0 |
| Batch.BlockStart | maze_solver.cpp:137 | `startIndex = my_rank * mazesPerProcess`; the definition the block lemmas use |
| Batch.BlockEnd | maze_solver.cpp:138 | `endIndex = min(startIndex + mazesPerProcess, num_mazes)`: the end is at most n and at most start + k, and not below the start when the start is within n |
| Batch.BlocksOrdered | maze_solver.cpp:137-138 | the block of a later rank starts at or after the end of the block of an earlier rank |
| Batch.BlocksPartition | maze_solver.cpp:134-138 | every index below n lies in the block of exactly one rank below size, namely rank i / k |
| Batch.SolveRange | maze_solver.cpp:141-144 | the loop solves mazes startIndex .. endIndex-1 in order, and yields nothing when startIndex >= endIndex |
| Batch.SolveLocal | maze_solver.cpp:134-144 | rank r's local results are the solutions of its block |
| Batch.GatherOnRoot | maze_solver.cpp:147-165 | rank 0's result is its own paths followed by those of ranks 1, 2, ..., each rank's in the order sent |
| Batch.BlocksPrefix | maze_solver.cpp:137-138 | the blocks of the first m ranks, concatenated, are the first min(m*k, n) elements |
| Batch.GatherPreservesOrder | maze_solver.cpp:147-162 | concatenating all ranks' blocks in rank order gives back the input order |
| Batch.MPIMatchesSeq | maze_solver.cpp:128-178 | when every rank contributes its block's solutions, the gathered sequence is exactly `SolveSeq`'s |
| Batch.SolveMPI | maze_solver.cpp:128-178 | ranks other than 0 return no paths. Rank 0 returns its own block's solutions followed by what ranks 1 .. size-1 sent, and that is exactly `SolveSeq`'s result when each rank sent its own block |

## Left out

- Console output: the `printf` in `GeneratePrim` and the `std::cout` loop of `PrintAsciiMaze`. `Ascii.AsciiMaze` returns the rows instead of printing them.
- MakeGrid called twice: the second call appends a second cell per coordinate pair, and the row's reallocation can leave earlier `Cell*` values in passages, start and finish dangling. The model keeps reading `Pos(x, y)` as `cells[y][x]`, so it does not capture this aliasing loss.
- The random engine: `std::mt19937`, its seeding from `std::random_device`, and the distributions. Every draw is an arbitrary in-range value (`Generator.Uniform`).
- The Euclidean heuristic and `EuclideanDistance`: floating point, and only compiled with `USE_EUCLIDEAN`. The model uses the Manhattan heuristic of the default build.
- Costs as `float`: under the Manhattan heuristic with unit steps every cost is a small integer, which a `float` holds exactly, so costs are `int`.
- `unordered_map::operator[]` inserting a zero entry on a read of a missing key: reads of a missing key return 0 (`Solver.Lookup`), and the inserted entries are not modelled, since nothing observable depends on them.
- The MPI calls of `SolveMPI`: rank, size, `MPI_Send` and `MPI_Recv`. What ranks 1 .. size-1 send is a parameter of `Batch.SolveMPI`.
- Received paths on rank 0: the program sends raw `Cell*` addresses as bytes (maze_solver.cpp:159, 173). Those are addresses in the sending process, so the pointers rank 0 stores in `allResults` (maze_solver.cpp:161) do not point into rank 0's mazes and mean nothing there. The model reads every received entry as a `Pos` of the same mazes, so it does not reproduce this behaviour of the source.
- `Batch.BlockSize`: C++ `int` overflow of `num_mazes + size - 1` is not modelled; integers are unbounded.
- `SolveOMP`: webgui.cpp names it, but its definition is not part of this model.
- webgui.cpp, main.cpp, maze_generator.h and maze_solver.h: HTTP serving, the command line, and declarations only.
- Generator.PrimIteration: the `if (!mazeNeighbours.empty())` branch of line 60 is not written out. `Generator.ChosenHasMazeNeighbour` proves that the condition always holds, so the model always takes it.
- Generator.GeneratePrim: it requires a grid with a cell at every (x, y) of the box once the guard passes. The source indexes `cells[y][x]` without checking, which is undefined behaviour on a ragged grid.
- Ascii.AsciiMaze: it requires non-negative sizes, a cell at every (x, y) of the box, and every passage's midpoint inside the raster. The source would throw, or write out of bounds, otherwise.
- Solver.ReconstructPath: it requires an acyclic parent map, witnessed by a ghost rank. The source relies on this implicitly; inside `AStar` it holds by `Solver.CoreRanked`.
- Solver.AStarCorrect: optimality of the returned path is not proved. Only that it is a repeat-free walk, and that [] means unreachable.
