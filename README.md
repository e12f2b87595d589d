# Maze engine model

A Dafny model of the maze engine of `maze.py`. A `Maze` is a grid of
`num_cols × num_rows` cells. Each cell has four wall flags and a `visited` flag.

Construction works in four steps:
- It creates every cell with all walls standing.
- It opens the entrance (top wall of cell (0, 0)) and the exit (bottom wall of the last cell).
- It carves a perfect maze by randomized recursive backtracking from (0, 0).
- It clears the visited flags.

`solve` then runs a depth-first search from (0, 0) to the last cell. It tries left, right, up and down, in that order.

The project has two modules:

- `Grid` (`grid.dfy`) holds the value-level vocabulary. It defines:
  - the cell's flags (`Cell`, `NewCell`);
  - coordinates (`Pos`, `Left`/`Right`/`Up`/`Down`);
  - the shared edge between two neighbours (`Edge`, `EdgeBetween`);
  - openings in the outer wall (`Gap`);
  - paths through open passages that avoid a set of cells (`PathAvoiding`, `Reachable`, `Connected`);
  - what a perfect maze is (`SpanningTree`);
  - the pure lemmas the two traversals are proved with.
- `MazeEngine` (`maze.dfy`) holds the class `Maze`. The five flags are five `array2<bool>` fields indexed `[column, row]`, like `_cells[i][j]`. The methods update them in place. The walls have two abstract views:
  - `OpenEdges()`: the set of interior passages, read off the right and bottom flags;
  - `BorderGaps()`: the openings in the outer wall.

  `VisitedSet()` is the set of visited cells. The object invariant `Valid()` says that a shared wall is recorded alike on both cells: the right wall of (c, r) equals the left wall of (c+1, r), and the bottom wall of (c, r) equals the top wall of (c, r+1). Under that invariant, `OpenEdges()` and `BorderGaps()` together determine every wall flag. So a method that states both of them states the whole new wall state.

How the source's shapes map onto the model:
- The random draw `random.randrange(len(to_visit_index))` is a choice `k :| 0 <= k < |toVisit|`. Every property of generation is proved for every value the draw can take.
- Generation and solving recurse as the source does. They terminate because each recursive call enters an unvisited cell. The measure is the set of unvisited cells.
- The rest of one round of the backtracking loop, after the draw, is the method `CarveTowards`.
- The four copied blocks of `_solve_r` are written as one loop over `Neighbours((i, j))`, which is left, right, up, down in that order. Each round is one `SolveThrough` call. That call holds the block's guard (in the grid, not visited, facing wall down), its recursive call and its early `return True`.

The source does not check the grid size. `_break_entrance_and_exit` and `_break_walls_r` index `_cells[0][0]` and `_cells[0]` unguarded, so any size below 1 makes them raise an `IndexError`. The constructor therefore requires both sizes to be at least 1. The code defines no error of its own for a bad size. It has no public wall-opening operation that could reject a pair of cells that are not neighbours. The model has neither.

## Model

| member | source | states |
|---|---|---|
| MazeEngine.Maze.CreateCells | maze.py:33-38 | Allocates five fresh, distinct flag arrays of `numCols × numRows`. Every cell is `NewCell`: all four walls up, not visited. |
| MazeEngine.Maze.FreshGrid | maze.py:197-211 | A grid of new cells has no passage and no gap in its outer wall, and no cell is visited. |
| MazeEngine.Maze.constructor | maze.py:6-31 | After creation, entrance and exit, carving from (0, 0) and reset, four things hold. Walls are paired. Nothing is visited. The only gaps in the outer wall are the entrance (top of (0, 0)) and the exit (bottom of the last cell). The passages form a spanning tree of the grid: every passage lies inside the grid, every cell is connected to (0, 0), and there are `numCols*numRows - 1` passages. |
| MazeEngine.Maze.BreakEntranceAndExit | maze.py:66-70 | Adds exactly the two gaps `TopGap(0)` and `BottomGap(numCols - 1)` to the outer wall. No passage changes and walls stay paired. |
| MazeEngine.Maze.MarkVisited | maze.py:73-74 | Marks exactly cell (i, j) visited. Every other flag is unchanged, and pairing is kept. |
| MazeEngine.Maze.UnvisitedNeighbours | maze.py:77-89 | The result holds at most four cells. A cell is in it exactly when it is in the grid, adjacent to (i, j) and not visited. |
| MazeEngine.Maze.AllNeighboursVisited | maze.py:91-93 | An empty candidate list means every in-grid neighbour of (i, j) is visited. |
| MazeEngine.Maze.Carve | maze.py:99-111 | Opens exactly the edge between (i, j) and its neighbour, on both cells. Walls stay paired, and no other passage, gap in the outer wall or visited flag changes. |
| MazeEngine.Maze.BreakWalls | maze.py:72-113 | Carving from an unvisited (i, j) grows a tree hanging from (i, j) over the newly visited cells. It adds one new passage per new cell other than (i, j). Every new cell is connected to (i, j), and every passage lies between visited cells. Every new cell, (i, j) included, ends with all its neighbours visited. Walls stay paired and the outer wall is unchanged. Under the unbounded recursion of the model it terminates whatever the draws are. |
| MazeEngine.Maze.CarveTowards | maze.py:99-113 | Opening the edge to the drawn unvisited neighbour `next` and carving on from it grows a tree hanging from `next` on top of that new edge. The rest is as for `BreakWalls`. |
| MazeEngine.Maze.ResetCellsVisited | maze.py:115-118 | Every visited flag ends false. The walls and their pairing are unchanged. The new state does not depend on the old visited flags, so a second reset changes nothing. |
| MazeEngine.Maze.PassageIff | maze.py:131-167 | The passage from a to a neighbour n is open exactly when n is in the grid and n's wall facing a is down. |
| MazeEngine.Maze.SolveR | maze.py:122-175 | Marks (i, j) visited, and visited cells stay visited. The maze's walls are unchanged. It returns true exactly when the goal can be reached from (i, j) through open passages without entering a cell visited before the call. On true, the ghost path is such a route. On false, every cell the call visited is a dead end: each of its passages leads to a visited cell, and the goal was not visited. At the goal it returns true with the one-cell path. |
| MazeEngine.Maze.SolveThrough | maze.py:131-173 | One block of the search at a. If it finds a path from the neighbour n, then a followed by that path avoids the cells visited before the search at a began. Otherwise the search at a keeps its invariant, and an open passage to n leads into a visited cell. |
| MazeEngine.Maze.Solve | maze.py:177-178 | Marks (0, 0) visited, and visited cells stay visited. Returns true exactly when the goal is reachable from (0, 0) through open passages, avoiding the cells visited beforehand. On a 1×1 grid it returns true. |
| MazeEngine.SolveGeneratedMaze | maze.py:177-178 | Solving a freshly constructed maze always returns true. |
| Grid.Neighbours | maze.py:131-173 | The four cells the search tries are exactly the cells adjacent to a. |
| Grid.GrowthStarts | maze.py:73-74 | Marking the first cell starts a tree with no edges. |
| Grid.GrowStep | maze.py:99-113 | A tree grown from a, plus the edge to an unvisited neighbour n, plus a tree grown from n, is a tree grown from a. |
| Grid.TreeSpansGrid | maze.py:30 | After `_break_walls_r(0, 0)` on a fresh grid, every cell is visited and the passages form a spanning tree. |
| Grid.SpanningTreeReachesCorner | maze.py:177-178 | In a perfect maze of at least one cell, the last cell can be reached from (0, 0) through open passages. |
| Grid.ClosedRegionIsWholeGrid | maze.py:91-93 | A set of cells that contains (0, 0) and holds every in-grid neighbour of each of its cells contains the whole grid. |
| Grid.GridSize | maze.py:33-38 | A `cols × rows` grid has `cols*rows` cells. |
| Grid.SearchStarts | maze.py:125-129 | Once the current cell, which is not the goal, is marked, the search invariant holds. |
| Grid.ChildFound | maze.py:137-138 | A step into the unvisited neighbour n, followed by a path found from n, is a path from a that avoids the cells visited before the search at a. |
| Grid.ChildFailed | maze.py:137-140 | A failed search from the neighbour n adds dead ends only, and the search invariant at a survives it. |
| Grid.TriedNext | maze.py:131-173 | After one more try, an open passage to each tried neighbour leads into a visited cell. |
| Grid.SearchExhausted | maze.py:175 | When all four tries fail, every visited cell is a dead end, and the goal cannot be reached from a while avoiding the cells visited before. |
| Grid.ClosedRegionTraps | maze.py:175 | A path that starts in a set of cells whose passages all lead into that set or into already-avoided cells never leaves the set. |
| Grid.PathPrepend | maze.py:137-138 | Prefixing a path with a linked cell gives a path. |
| Grid.ReachMono | maze.py:99-113 | Reachability survives adding passages and dropping avoided cells. |

## Left out

- Drawing is not modelled: `_draw_cell`, `Cell.draw`, `Cell.draw_move`, `Line`, `Point` and the window. These only show the state the model changes. `draw_move` is treated as doing nothing. Without a window it would fail on its unset coordinates; that failure is not modelled.
- Animation timing is not modelled: `_animate`, `win.redraw()` and `time.sleep`. They are I/O and pacing.
- `print("Reset visited cells")` is not modelled, because it is I/O.
- Python's `random` module and `random.seed` are not modelled. The draw is any index in range, so no particular seeded maze is reproduced, and neither is the `if seed:` test that ignores seed 0. Uniform choice is not modelled either.
- The pixel parameters `x1`, `y1`, `cell_size_x`, `cell_size_y` and `win` are left out. They only feed drawing.
- The model has no list-of-lists of `Cell` objects. It keeps one array per flag, where a cell is the five flags at one index. Cell objects are never shared in the source, so no aliasing is lost.
- Grid sizes below 1 are excluded by the constructor's `requires`. The source raises an `IndexError` for them rather than reporting an error of its own.
- MazeEngine.Maze.constructor: acyclicity is given as connected with `cols*rows - 1` passages, which for a connected graph on `cols*rows` cells means a tree. Uniqueness of the path between two cells is not proved separately.
- MazeEngine.Maze.BreakWalls: "every cell except (0, 0) is entered exactly once" is given through the tree count (one new passage per newly visited cell), not as a count of calls.
- Python's recursion limit (about 1000 frames by default) is not modelled. `_break_walls_r` (maze.py:113) and `_solve_r` (maze.py:137-170) recurse once per cell they enter. On a grid such as one row of 1000 cells, the source raises `RecursionError` inside `__init__` or `solve`. The model recurses without a bound, so the constructor's spanning tree and `SolveGeneratedMaze` are promised for every size of at least 1.
- MazeEngine.Maze.Solve: as for `SolveR`, the exact set of cells left visited is not given, only that (0, 0) is marked and visited cells stay visited.
- MazeEngine.Maze.SolveR: which cells end up visited is stated only as far as the search needs (visited only grows, and on failure every newly visited cell is a dead end), not as the exact set the depth-first order visits.
- MazeEngine.Maze.ResetCellsVisited: idempotence is not a separate lemma. It follows from the ensures, which fix the whole new state without reference to the old visited flags.
