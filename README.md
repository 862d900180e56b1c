# Maze generator — a Dafny model

This project models the `Maze` class of a perfect-maze generator and solver.

A maze of `height` × `width` cells is numbered row by row: cell `c` sits in column `c % width` and row `c / width`. Construction works as follows:

- It builds the fully connected grid graph. Every cell gets one adjacency entry `(weight, neighbour)` per orthogonal neighbour. The weight is drawn from 1..1000, and a lower-numbered neighbour's stored weight is reused, so both directions of an edge carry the same weight.
- It picks an entrance on the top row or the left column, and a destination on the bottom row or the right column.
- Prim's algorithm, started from cell 0, selects a spanning tree. Every adjacency entry that is not a tree edge is removed.

The maze then reports:

- the walls standing around each cell (`n`, `e`, `s`, `w`), with the entrance and the destination opened to the outside;
- a solution found by breadth-first search over queued path prefixes.

The modules follow the class's parts:

- `Grid`: cell coordinates and the neighbour enumeration (`adjacent_nodes`).
- `Graph`: the adjacency-list graph, the `(weight, origin, target)` frontier records and the spanning-tree vocabulary.
- `Build`: the construction loop and the end cells.
- `Prim`: the Prim loop.
- `Pruning`: removal of the non-tree entries and the connectivity of what remains.
- `Perfect`: the count of what remains. The pruned maze keeps exactly the accepted edges, so with its connectivity it is a tree: a perfect maze.
- `Walls`: the wall list of a cell.
- `Solver`: the breadth-first search and its progress reports.
- `MazeModel`: the `Maze` class itself. Its adjacency lists form an `array` that pruning edits in place.

Randomness is replaced by parameters:

- `draws(k)` is the k-th weight drawn. The source draws one weight per adjacency entry, before it looks for a weight to reuse.
- The four position draws and the two `random.choice` picks are constructor arguments.

## Model

| member | source | states |
|---|---|---|
| Grid.AdjacentNodesCorrect | maze.py:58-116 | the neighbour enumeration lists exactly the orthogonal grid neighbours of a cell, each once: 2 at a corner, 3 elsewhere on the border, 4 inside |
| Grid.AdjacentNodesSymmetric | maze.py:58-116 | j is listed as a neighbour of i exactly when i is listed as a neighbour of j |
| Grid.CutIsCrossed | maze.py:137-149 | the grid is connected: while cell 0 is traversed and some cell is not, some pair of adjacent cells crosses from the traversed cells to the rest |
| Build.ReusedWeight | maze.py:26-30 | the weight is the one stored on the first entry of the neighbour's list leading back to the cell when there is one, and the fresh draw otherwise |
| Build.ConnectCell | maze.py:23-31 | one construction round: the cell's list names its neighbours in enumeration order, weights lie in 1..1000, and each entry towards a lower cell mirrors that cell's weight. One draw is consumed per entry, and entry p towards a higher cell carries draw `drawn + p`. No other cell's list changes |
| Build.AddEntry | maze.py:24-31 | one inner round appends the (weight, neighbour) entry for the p-th neighbour at the end of the cell's list. Towards a higher cell its weight is the current draw. No other list changes |
| Build.EmptyGraph | maze.py:19 | the maze starts with one empty list per cell |
| Build.ConnectRound | maze.py:21-31 | one outer round completes cell i and keeps the loop state: the draws consumed so far are one per entry of the earlier cells, and each entry towards a higher cell carries the draw made for it |
| Build.ConnectAll | maze.py:19-31 | the construction loop yields the full weighted grid graph: the lists name exactly the neighbours, with weights in 1..1000, and every entry (w, b) of a is mirrored by (w, a) in b. Entry p of cell c towards a higher cell carries the draw numbered by the entries of the cells before c, plus p |
| Build.SameDrawsSameGraph | maze.py:19-31 | the draws determine the construction: two full grid graphs laid out from the same draws are the same graph |
| Build.BuiltIsFull | maze.py:19-31 | once every cell is complete, the graph is the full symmetric weighted grid graph |
| Build.Entrance | maze.py:35-42 | the entrance is in the grid on the top row or left column: column `startTop` of row 0 when the top draw is chosen, otherwise row `startLeftRow` of column 0 |
| Build.Destination | maze.py:39-43 | the destination is in the grid on the bottom row or right column: column `endBottom` of the last row when the bottom draw is chosen, otherwise row `endRightRow` of the last column |
| Build.CellAt | maze.py:36-40 | `y * width + x` is the grid cell in row y and column x |
| Prim.PopMin | maze.py:139-142 | sorting the pending tuples and popping the head removes their lexicographic minimum and leaves the others, as a multiset |
| Prim.SelectEdge | maze.py:139-146 | the pop loop that skips edges into traversed cells returns the least pending edge into an untraversed cell and keeps every other such edge |
| Prim.LiveEdgeExists | maze.py:143-145 | while a cell is untraversed, a pending edge into an untraversed cell exists, so the pops never run out |
| Prim.PushEdges | maze.py:152-154 | exactly the new cell's entries into untraversed cells are appended, as (weight, new cell, neighbour), after the old pending list |
| Prim.EdgesOfOrigin | maze.py:133-134 | the initial pending list holds exactly the entries of cell 0, as (weight, 0, neighbour) |
| Prim.PrimOrderExtends | maze.py:147 | appending the light edge of the current cut keeps every accepted edge the light edge of its own cut |
| Prim.AcceptPreserves | maze.py:137-154 | the selected edge is the light edge of the cut, and accepting it and pushing the new cell's edges keep the loop state: the cells are split into traversed and untraversed, and the pending list holds every entry crossing the cut and nothing else |
| Prim.AcceptRound | maze.py:137-154 | one loop round keeps the loop state and moves exactly one cell from untraversed to traversed |
| Prim.LoopDone | maze.py:137 | when no untraversed cell is left, the accepted edges form a spanning tree of n - 1 edges reaching every cell |
| Prim.LightEdgeUnique | maze.py:139-147 | a cut has one light edge: the tuple order breaks weight ties |
| Prim.PrimTreeUnique | maze.py:137-155 | Prim's algorithm is deterministic: two equally long edge lists in Prim order over the same graph are equal |
| Prim.SpanningTreeOf | maze.py:118-155 | Prim's algorithm from cell 0 returns n - 1 edges, each the least edge leaving the cells reached before it, reaching every cell |
| Pruning.IsTreeEdge | maze.py:163-165 | the search over accepted edges finds a match exactly when some accepted edge joins the two cells, in either orientation |
| Pruning.RejectedEdges | maze.py:160-167 | the removal list is, in order, exactly the cell's entries that no accepted edge matches |
| Pruning.PrunedLeadsTo | maze.py:156-170 | after pruning, cell i has an entry to j exactly when j is a grid neighbour of i and an accepted edge joins them |
| Pruning.PrunedSymmetric | maze.py:156-170 | pruning keeps the graph well-formed and symmetric |
| Pruning.PrunedConnected | maze.py:156-170 | the pruned maze is connected: between any two cells there is a simple path along kept entries |
| Perfect.TreeEdgeAdjacent | maze.py:137-155 | every accepted edge joins two grid neighbours |
| Perfect.TreeNeighboursDistinct | maze.py:137-155 | no two accepted edges join the same pair of cells: each leads to a cell not reached before |
| Perfect.DegreeSumTree | maze.py:137-155 | the first m accepted edges name the cells of the graph 2 × m times, once at each end |
| Perfect.CellDegree | maze.py:156-170 | after pruning, a cell's list holds one entry per accepted edge at that cell |
| Perfect.PrunedEntryCount | maze.py:156-170 | the pruned lists hold 2 × (cells − 1) entries in all: exactly the cells − 1 accepted edges, each listed from both ends. With `PrunedConnected`, the maze is a tree, with one simple path between any two cells |
| Walls.SidesStanding | maze.py:174-196 | a side is in the wall list exactly when it is not open |
| Walls.WallsOfTree | maze.py:172-196 | for a cell whose entries follow the tree, each side stands unless a tree edge joins the cell to its neighbour there, or it is the entrance's outside side (west in column 0, north elsewhere) or the destination's (east in the last column, south elsewhere) |
| Walls.ExteriorSideClosed | maze.py:185-195 | no entry of a border cell leads through its outside side, so opening the entrance or destination never removes a side that is already gone |
| Walls.RemoveEntrySides | maze.py:175-183 | processing one more entry removes the side it leads through, and nothing else |
| Walls.OpenEntrance | maze.py:185-189 | the entrance loses its west wall in column 0 and its north wall elsewhere; other cells are unchanged |
| Walls.OpenDestination | maze.py:191-195 | the destination loses its east wall in the last column and its south wall elsewhere; other cells are unchanged |
| Walls.WallDirections | maze.py:172-196 | the returned list is n, e, s, w in that order, less the sides an entry leads through and the outside openings of the entrance and the destination |
| Walls.SouthNorthAgree | maze.py:172-196 | a cell and the cell below it agree on the wall between them: south stands above exactly when north stands below |
| Walls.EastWestAgree | maze.py:172-196 | a cell and the cell to its right agree on the wall between them |
| Solver.HeadIsShortest | maze.py:248-249 | the path taken off the front of the queue is no longer than any path from the entrance to the destination |
| Solver.Expand | maze.py:250-254 | the queue grows by exactly the path extended by each listed neighbour not already on it, in list order; every path from the source to the target keeps a prefix in the queue |
| Solver.ScanEntry | maze.py:251-254 | one entry of the scan appends the extended path exactly when its neighbour is not on the path, and keeps the search invariant |
| Solver.ExtensionsMembers | maze.py:250-254 | the extensions are exactly `path + [j]` for the listed neighbours j not on the path |
| Solver.Bfs | maze.py:233-254 | the search terminates; it returns a shortest simple path from source to target when one exists and nothing exactly when none does; its progress reports are the due counts up to some number of explored cells |
| Solver.Explore | maze.py:242-246 | a dequeued cell not yet explored is appended to the explored list, and a report is added exactly at the due counts |
| Solver.ProgressAsWritten | maze.py:245 | the check fails exactly when there are fewer than 10 cells; otherwise it reports exactly when the explored count is a multiple of a tenth of the cells |
| Solver.SmallGridProgressFails | maze.py:245 | every maze accepted by the dimension check with fewer than 10 cells fails its first progress check |
| Solver.TwoByTwoFails | maze.py:245 | the 2 × 2 maze passes the dimension check and fails its first progress check |
| Solver.ProgressDue | maze.py:245 | the corrected check agrees with the source wherever the source does not fail, and reports at every cell on grids of fewer than 10 cells |
| Solver.ProgressReported | maze.py:245 | on every grid, some explored count up to the number of cells is reported |
| Solver.DueUpToMembers | maze.py:242-246 | the report list holds exactly the due counts from 1 to n |
| Solver.DueUpToIncreasing | maze.py:242-246 | the report list is strictly increasing |
| MazeModel.NewMaze | maze.py:10-46 | no maze is built exactly when the height or the width is below 2. Otherwise a fresh, valid maze of the given dimensions is built, with the entrance and destination chosen from the draws and the weights laid out from `draws` |
| MazeModel.SameDrawsSameMaze | maze.py:10-46 | two mazes built from the same weight draws have the same spanning tree and the same pruned lists |
| MazeModel.Maze.constructor | maze.py:10-46 | the new maze is the full grid pruned to a Prim spanning tree, with the given dimensions, the entrance and destination from the draws, and the weights laid out from `draws` |
| MazeModel.Maze.GenerateMaze | maze.py:118-170 | after generation, every cell's list is the full list less the entries that are not accepted edges, for a spanning tree in Prim order. The lists hold 2 × (cells − 1) entries in all |
| MazeModel.Maze.PruneCell | maze.py:157-170 | removing the rejected entries one by one leaves exactly the kept entries in order and changes no other cell |
| MazeModel.RemovalStep | maze.py:169-170 | each `remove` finds its entry and filters exactly that entry out |
| MazeModel.CellEntries | maze.py:156-170 | every entry of a generated cell leads to a distinct grid neighbour |
| MazeModel.Maze.WallDirections | maze.py:172-196 | a cell's wall list is the expected list for its pruned entries and the end cells |
| MazeModel.WallsFollowTree | maze.py:172-196 | in a generated maze, a side of a cell is open exactly when a tree edge crosses it, or when it is the outside opening of the entrance or the destination |
| MazeModel.EastWestShared | maze.py:172-196 | in a generated maze, the east wall of a cell stands exactly when the west wall of the cell to its right stands |
| MazeModel.NorthSouthShared | maze.py:172-196 | in a generated maze, the south wall of a cell stands exactly when the north wall of the cell below it stands |
| MazeModel.Maze.SolveMaze | maze.py:233-254 | solving always succeeds with a shortest simple path from the entrance to the destination along open passages; progress reports follow the corrected check |

## Left out

- `plot_maze` (maze.py:198-231): drawing with matplotlib is graphical output. Only the wall lists it draws are modelled.
- `print_edges` (maze.py:48-56): a debugging printout.
- The script part (maze.py:1-7, 256-266): timing, `faulthandler` and the demo run.
- The distribution of `random.randint` and `random.choice`: the drawn values are parameters, and only their ranges are assumed.
- The progress messages: `print` and the floating-point percentage are not modelled. A report is the explored count at which a line would be printed.
- The dimension check's message and `sys.exit()`: they are modelled as `NewMaze` returning `None`.
- `pending_edges.sort()` followed by `pop(0)` is modelled as extracting the lexicographic minimum. The order of the rest of the list is not kept, because it is sorted again before every use.
- Python lists, tuples and their running time: they are modelled as sequences and datatypes.

## Findings

| source | as written | input that shows it | evidently intended | confidence | as-written member | corrected member |
|---|---|---|---|---|---|---|
| maze.py:245 | the progress check takes the explored count modulo `height * width // 10` | a 2 × 2 maze, or any maze of fewer than 10 cells: the divisor is 0, so `solve_maze` raises a division error on its first iteration | report progress every tenth of the cells, and at every cell when a tenth rounds down to zero | not executed | Solver.TwoByTwoFails | Solver.ProgressDue |
