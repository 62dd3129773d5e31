# python-maze-solver in Dafny

A model of the maze generator and the four animated searches of
python-maze-solver, with proofs of what they guarantee.

- **Cells** (`Geometry`, maze_solver/geometry.py). `Cell.__init__` turns four
  keyword wall flags into two lists. One is the walled sides. The other is
  `connections`, the open-neighbour offsets, in the order left, right, top,
  bottom. A flag that is not given counts as a wall.
- **Maze construction** (`Grid`, maze_solver/maze.py). `Maze.__init__` does
  three things:
  - it picks a start among the non-corner cells of the left and top borders;
  - it picks an end among the non-corner cells of the right and bottom borders;
  - it fills the grid row by row, carrying `left_factor` and
    `top_factors[col]` so that neighbouring cells agree on the wall between
    them.

  The random choices are inputs to the model:
  - the index `random.choice` drew for the start and for the end;
  - for each cell, the outcome of its two `random.random() > 0.5625` tests
    (bottom first, then right).

  A test that succeeds puts a wall on that side. The model follows the
  code here, not the reading in which a high draw opens the side.

  Construction is a nested loop over the rows and the columns, with
  `top_factors` as an array. It fails with `NoBorderCell` exactly when both
  candidate lists are empty. That is where `random.choice` would raise.
- **Frontiers** (`Frontier`). DFS pops the last record of a list, BFS the
  first record of a deque, and GBFS and A* the least record of a heap. Heap
  records are compared as Python compares `(key, (row, col), path)` tuples.
  That order is proved to be a strict total order.
- **Searches** (`SearchSpec`, `Search`). `animate_dfs`, `animate_bfs`,
  `animate_gbfs` and `animate_astar` run the same loop and differ only in the
  pop and in the key a child is pushed with. So they are one method,
  `Search.Solve`, with a `Strategy` parameter.

  The two hooks become events appended to a trace:
  - `draw_move(from, to, final)` becomes `Move(from, to, final)`;
  - the step callback `fn` becomes `Step`.

  The loop invariant (`SearchSpec.Searching`) ties together:
  - the `vis` matrix;
  - the set of expanded cells;
  - the frontier, whose records are trails from the start with exact keys;
  - the dead-end list;
  - the trace.

  From it follow the results below.
  - **On success**, the path is a solution: it starts at the start, ends at
    the end, every step goes through an open connection, and no cell
    repeats. The trace ends with the backwards replay of that path and one
    step.
  - **On exhaustion**, no trail from the start reaches the end, and the only
    possible dead end is the start itself.
  - **In every run**, each cell is expanded at most once, the loop
    terminates, and every index the search uses stays inside the grid.

  The GBFS and A* keys use the distance of the expanded cell, not of the
  child, so nothing about shortest paths is claimed.

## Model

| member | source | states |
|---|---|---|
| Geometry.NewCell | maze_solver/geometry.py:42-85 | walls and connections are the walled sides and the open offsets in the order left, right, top, bottom. A side is a wall exactly when its flag is true or missing, and its offset is a connection exactly when it is not. The two lists together have 4 entries, and the cell is consistent. |
| Geometry.WalledSidesExact | maze_solver/geometry.py:54-85 | a side is among the walls if and only if its flag says wall; a missing flag means wall |
| Geometry.OpenOffsetsExact | maze_solver/geometry.py:54-85 | (0,-1), (0,1), (-1,0) and (1,0) are connections if and only if the left, right, top and bottom flags say open |
| Geometry.OpenOffsetsUnit | maze_solver/geometry.py:54-85 | every connection is one of the four unit offsets: \|dr\| + \|dc\| = 1 |
| Geometry.SidesPartition | maze_solver/geometry.py:45-85 | each side adds exactly one entry, either a wall or a connection |
| Geometry.OpenOffsetsOrdered | maze_solver/geometry.py:54-85 | connections keep the order of the sides examined, with strictly increasing rank, so none repeats |
| Geometry.ConnectionsInSideOrder | maze_solver/geometry.py:54-85 | connections list the open sides in the order left, right, top, bottom, without duplicates, at most four |
| Geometry.NoFlagsNoConnections | maze_solver/geometry.py:54-85 | a cell built with no flags is walled on all four sides and has no connections |
| Grid.CandidateCount | maze_solver/maze.py:23-30 | both candidate lists have (rows-2)+(cols-2) entries, counting only positive terms, and are empty exactly when rows < 3 and cols < 3 |
| Grid.StartCandidatesOnBorder | maze_solver/maze.py:23-26 | the start candidates are exactly (r,0) for 1<=r<=rows-2 and (0,c) for 1<=c<=cols-2 |
| Grid.EndCandidatesOnBorder | maze_solver/maze.py:27-30 | the end candidates are exactly (r,cols-1) for 1<=r<=rows-2 and (rows-1,c) for 1<=c<=cols-2 |
| Grid.StartAndEndOnBorder | maze_solver/maze.py:23-32 | the chosen start is a non-corner cell of the left or top border, and the chosen end a non-corner cell of the right or bottom border. Both lie inside the grid. |
| Grid.NewMaze | maze_solver/maze.py:13-56 | fails exactly when rows < 3 and cols < 3. Otherwise the maze has the given size and the chosen start and end. Every cell is exactly the cell Cell(...) builds from the flags the draws give it: its walls, and its connections in the order left, right, top, bottom. Walls are shared between neighbours, and the border is closed. |
| Grid.FillRow | maze_solver/maze.py:36-56 | one row: cols cells, each walled on the left by its left neighbour's right draw and on top by the cell above's bottom draw, with the last column and the last row forced shut. Each cell is exactly the Cell(...) of those flags, connections in order included. top_factors then holds this row's bottom draws. |
| Grid.DrawCell | maze_solver/maze.py:43-54 | the cell built from the carried left and top factors and this cell's draws has exactly the walls the draws decide, and its walls and connections are the lists Cell(...) builds from those flags |
| Grid.DrawsDetermineCells | maze_solver/maze.py:34-56 | the draws determine the maze: two grids of the same size whose cells are all built from the same draws have the same matrix |
| Grid.GeneratedIsSound | maze_solver/maze.py:34-56 | a maze built from draws has consistent cells, shared walls (right of (r,c) = left of (r,c+1), bottom of (r,c) = top of (r+1,c)) and a closed outer border |
| Grid.OpenStaysInside | maze_solver/maze.py:86-92 | in a maze with a closed border, every open connection leads to a cell inside the grid by a unit step, so the negative-only guard never lets an out-of-range index through |
| Grid.OpenIsSymmetric | maze_solver/maze.py:34-56 | with shared walls, if p opens onto q then q opens back onto p |
| Grid.EnteredCellIsOpen | maze_solver/maze.py:84-85 | a cell entered through a connection has at least one connection itself |
| Frontier.RecordOrder | maze_solver/maze.py:143 | the (key, position, path) tuple order is irreflexive, transitive and total, so heappop's minimum is unique |
| Frontier.MinIndex | maze_solver/maze.py:143 | returns the index of a record at most every other record of the heap |
| Frontier.PoppedByIsPopped | maze_solver/maze.py:72-189 | after any pop, the record taken was in the frontier, and the rest holds every other record and nothing new |
| Frontier.Pop | maze_solver/maze.py:72-189 | DFS (line 72) takes the last record and BFS (line 104) the first, leaving the rest in order; GBFS and A* (lines 143, 189) take a least record under the tuple order. In every case the record taken and the rest make up the old frontier as a multiset. |
| SearchSpec.ReplayShape | maze_solver/maze.py:58-64 | replaying a path gives len(path)-1 final moves, the i-th from path[-1-i] to path[-2-i] |
| SearchSpec.TargetsSound | maze_solver/maze.py:86-92 | every pushed neighbour comes from one of the cell's connections and has no negative coordinate |
| SearchSpec.TargetsComplete | maze_solver/maze.py:86-92 | every connection that does not lead to a negative coordinate is pushed |
| SearchSpec.ChildPending | maze_solver/maze.py:86-92 | a child whose position a connection of the expanded cell leads to, and whose path is the extended trail, is pending and keyed |
| SearchSpec.ChildrenPending | maze_solver/maze.py:163-216 | every pushed child has a trail as its path, ends next to an open connection, and carries the key its strategy prescribes: for GBFS (lines 163-170) the Manhattan distance of the expanded cell to the end, for A* (lines 209-216) that distance plus the length of the path, which already includes the expanded cell |
| SearchSpec.DeadEndIsStart | maze_solver/maze.py:84-85 | a frontier record whose cell has no connection is the seed (start, []) |
| SearchSpec.DeadEndKeeps | maze_solver/maze.py:84-85 | after expanding one more cell, alt is exactly [[start]] when the start has been expanded and has no connection, and [] otherwise |
| SearchSpec.DistinctCellsBound | maze_solver/maze.py:83 | distinct in-grid positions number at most rows * cols |
| SearchSpec.DropKeeps | maze_solver/maze.py:73-74 | dropping a record that is on its path or visited keeps the frontier invariant |
| SearchSpec.ExtendTrail | maze_solver/maze.py:76 | appending a pending, unvisited position to its record's path gives a trail |
| SearchSpec.ExpandKeeps | maze_solver/maze.py:83-92 | after an expansion, every record left or pushed is pending and keyed with its path inside the visited set, which now includes the expanded cell |
| SearchSpec.ExpandCloses | maze_solver/maze.py:83-92 | after an expansion, every open neighbour of a visited cell is visited or waiting in the frontier |
| SearchSpec.MovesExplored | maze_solver/maze.py:86-92 | the draw_move events of an expansion are non-final moves from the expanded cell along its open connections to cells inside the grid |
| SearchSpec.TraceKeeps | maze_solver/maze.py:86-93 | the draw_move events of an expansion are non-final moves along open connections inside the grid, followed by exactly one step |
| SearchSpec.MarkKeeps | maze_solver/maze.py:83 | setting vis[row][col] records exactly one more visited position |
| SearchSpec.ExhaustedUnreachable | maze_solver/maze.py:71-96 | when the frontier is empty and the end was never visited, no trail from the start reaches the end |
| SearchSpec.StartSearching | maze_solver/maze.py:130-140 | the seed record (start, []), the all-false vis and the empty alt satisfy the loop invariant; for GBFS and A* the seed is keyed with the Manhattan distance from start to end |
| SearchSpec.DropStep | maze_solver/maze.py:72-74 | a popped record on its path or already visited is discarded, and the invariant holds |
| SearchSpec.StateStep | maze_solver/maze.py:81-92 | marking the cell, recording it as a dead end when it has no connection and pushing the children keep the search state: vis mirrors the visited set, which equals the expanded cells, and the frontier invariant and the dead-end list hold |
| SearchSpec.ExpandStep | maze_solver/maze.py:81-93 | marking, recording a dead end, pushing the children and stepping keep the loop invariant |
| SearchSpec.ExpansionFacts | maze_solver/maze.py:76-83 | the expanded cells, plus the new one, are distinct cells of the grid starting with the start, at most rows * cols of them |
| SearchSpec.SolvedStep | maze_solver/maze.py:76-80 | reaching the end yields a solution path, and the trace ends with its replay and one step after an exploratory prefix |
| SearchSpec.ExhaustedFacts | maze_solver/maze.py:95-96 | on exhaustion: alt is [[start]] exactly when the start has no connection and [] otherwise, replaying it draws nothing, the end is unreachable, and the trace is exploratory and ends with a step |
| SearchSpec.VisitShrinks | maze_solver/maze.py:83 | each expansion shrinks the set of unvisited cells, which bounds the loop |
| Search.AnimateSolution | maze_solver/maze.py:58-64 | the moves are the replay of the path: len(path)-1 final moves, the i-th from path[-1-i] to path[-2-i] |
| Search.Expand | maze_solver/maze.py:86-92 | one draw_move event and one pushed record per connection that passes the negative-index guard, in connection order, each record carrying the given key and path |
| Search.ReplayDeadEnds | maze_solver/maze.py:95-96 | the moves are the replays of the dead-end paths in the order they were found |
| Search.Turn | maze_solver/maze.py:71-93 | one loop pass. The popped record is the last (DFS), the first (BFS) or a least one under the tuple order (GBFS, A*), and it and the rest make up the old frontier. The pass is a drop exactly when the popped position is on its path or visited; a drop leaves the frontier as the rest and changes nothing else. Otherwise the new state is exactly the one Visit states. The invariant holds afterwards unless the end is reached, which gives a solved search. |
| Search.Visit | maze_solver/maze.py:76-93 | for a record that is not dropped, the pass reaches the end exactly when its position is the end. Reaching it appends the replay of the extended path and a step to the trace. Otherwise the position is added to the visited set and marked in vis, the extended path is appended to alt when the cell has no connection, the frontier becomes the rest followed by one child per connection in connection order, and the trace gains one draw_move per child and a step. |
| Search.Explore | maze_solver/maze.py:66-93 | the set-up and the while loop terminate. If the end was reached, the search is solved: the path is a solution and the trace ends with its replay and a step. Otherwise the loop invariant holds with an empty frontier. |
| Search.Solve | maze_solver/maze.py:66-220 | Each of animate_dfs, animate_bfs, animate_gbfs and animate_astar terminates. The expanded cells are distinct cells of the grid, from the start, each with one step event. Success yields a solution path whose replay and a step end the trace. Exhaustion means no trail reaches the end, the trace is exploratory and ends with a step, and the dead ends are [[start]] exactly when the start has no connection and [] otherwise. |

## Left out

- Rendering. maze_solver/window.py, maze_solver/__main__.py, `Maze.draw`, `Point`, `Line`, `Cell.draw`, `__get_center` and the canvas half of `draw_move` draw on a Tk canvas. None of them is modelled: moves are trace events, and cells carry no corner points.
- Randomness. `random.choice` and `random.random()` are inputs to the model. `Grid.NewMaze` requires the two picks to be valid indices whenever the candidate lists are not empty, which `random.choice` guarantees.
- Pixel geometry. The row and column widths and the padding only place the drawing, and they are not modelled.
- Heap layout. The heapq list is modelled as a sequence from which the least record is taken. Its internal order is not modelled. Records that compare equal are equal values, so which of them is taken makes no difference.
- Aliasing. `__animate_solution` empties the list it replays, and `alt` holds the same list objects as the records that were expanded. The model works on sequence values, so `Search.AnimateSolution` leaves its argument as it was. After the search, no code reads those lists again.
- `vis` and the maze. The list of lists `vis` is a sequence of sequences, reassigned with the one entry changed. The maze's fields are written only during construction, so `Grid.Maze` is a value.
- Empty grids. `SearchSpec.Searchable` requires at least one row, at least one column and the start inside the grid, so two ways the searches fail are not modelled:
  - With zero rows, `len(self.__matrix[0])` (maze.py:68) raises IndexError. `Grid.NewMaze` with zero rows and at least three columns succeeds and picks a start outside the empty matrix, as the code does.
  - With zero columns and at least three rows, `Grid.NewMaze` succeeds with a start (r, 0), and the first pass raises IndexError at `vis[pos[0]][pos[1]]` (maze.py:73), since every row of `vis` is empty.
- Negative sizes. `Grid.NewMaze` takes the row and column counts as `nat`. Python accepts negative counts: `Maze(-1, 5)` builds an empty matrix and picks the end (-2, c). Such mazes are not modelled.
- Search.Solve: the whole trace is described by what it contains, not event by event: exploratory moves along open connections, one step per expanded cell, and on success the replay of the path and a final step at its end. Each pass is described event by event by `Search.Turn` and `Search.Visit`.
- Optimality. GBFS and A* key a child by the distance of the cell being expanded, not by the child's own distance. So no claim is made that they find shortest paths, and no edge-count property is stated for BFS.
