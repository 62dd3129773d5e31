/**
 * The maze of maze_solver/maze.py: a rows x cols matrix of cells with a
 * start on the top/left border and an end on the bottom/right border, and
 * the constructor that fills it in row-major order. Random choices are
 * explicit inputs; pixel geometry and padding are not modelled.
 */
module Grid {
  import opened Wrappers
  import opened Geometry

  datatype Maze = Maze(rows: nat, cols: nat, matrix: seq<seq<Cell>>, start: Pos, end: Pos)

  /** The two uniform draws a cell consumes, bottom first and then right, each read as "wall present" (the draw exceeds 0.5625). */
  datatype CellDraws = CellDraws(bottom: bool, right: bool)

  /** random.choice on an empty candidate list raises; this is that failure. */
  datatype MazeError = NoBorderCell

  predicate InBounds(m: Maze, p: Pos)
  {
    0 <= p.0 < m.rows && 0 <= p.1 < m.cols
  }

  /** The matrix has `rows` rows of `cols` cells each. */
  predicate WellFormed(m: Maze)
  {
    |m.matrix| == m.rows && forall r :: 0 <= r < |m.matrix| ==> |m.matrix[r]| == m.cols
  }

  function CellAt(m: Maze, p: Pos): Cell
    requires WellFormed(m) && InBounds(m, p)
  {
    m.matrix[p.0][p.1]
  }

  predicate CellsConsistent(m: Maze)
    requires WellFormed(m)
  {
    forall r, c :: 0 <= r < m.rows && 0 <= c < m.cols ==> Consistent(m.matrix[r][c])
  }

  /** A wall belongs to the edge between two cells: both cells agree on it. */
  predicate SharedWalls(m: Maze)
    requires WellFormed(m)
  {
    (forall r, c, c' :: 0 <= r < m.rows && 0 <= c < m.cols && 0 <= c' < m.cols && c' == c + 1 ==>
       (Right in m.matrix[r][c].walls <==> Left in m.matrix[r][c'].walls)) &&
    (forall r, r', c :: 0 <= r < m.rows && 0 <= r' < m.rows && r' == r + 1 && 0 <= c < m.cols ==>
       (Bottom in m.matrix[r][c].walls <==> Top in m.matrix[r'][c].walls))
  }

  /** Every cell on the outer border is walled on its outward side. */
  predicate ClosedBorder(m: Maze)
    requires WellFormed(m)
  {
    forall r, c :: 0 <= r < m.rows && 0 <= c < m.cols ==>
      (r == 0 ==> Top in m.matrix[r][c].walls) &&
      (r == m.rows - 1 ==> Bottom in m.matrix[r][c].walls) &&
      (c == 0 ==> Left in m.matrix[r][c].walls) &&
      (c == m.cols - 1 ==> Right in m.matrix[r][c].walls)
  }

  /** `q` is reached from `p` through one of `p`'s open connections. */
  predicate Opens(m: Maze, p: Pos, q: Pos)
    requires WellFormed(m)
  {
    InBounds(m, p) && (q.0 - p.0, q.1 - p.1) in CellAt(m, p).connections
  }

  /** All positions of a rows x cols grid. */
  function AllCells(rows: nat, cols: nat): set<Pos>
  {
    set r, c | 0 <= r < rows && 0 <= c < cols :: (r, c)
  }

  function RowCells(r: int, cols: nat): set<Pos>
  {
    set c | 0 <= c < cols :: (r, c)
  }

  lemma {:induction false} RowCellsCount(r: int, cols: nat)
    ensures |RowCells(r, cols)| == cols
  {
    if cols > 0 {
      assert RowCells(r, cols) == RowCells(r, cols - 1) + {(r, cols - 1)};
      RowCellsCount(r, cols - 1);
    }
  }

  /** The cells of the first rows + 1 rows are those of the first rows rows plus the last row, which is new. */
  lemma SplitLastRow(rows: nat, cols: nat)
    ensures AllCells(rows + 1, cols) == AllCells(rows, cols) + RowCells(rows, cols)
    ensures AllCells(rows, cols) !! RowCells(rows, cols)
  {
    var all, above, last := AllCells(rows + 1, cols), AllCells(rows, cols), RowCells(rows, cols);
    forall p: Pos
      ensures p in all <==> p in above || p in last
      ensures !(p in above && p in last)
    {
      if p in all {
        assert p == (p.0, p.1);
      }
    }
  }

  /** The grid has rows * cols positions. */
  lemma {:induction false} AllCellsCount(rows: nat, cols: nat)
    ensures |AllCells(rows, cols)| == rows * cols
  {
    if rows > 0 {
      SplitLastRow(rows - 1, cols);
      AllCellsCount(rows - 1, cols);
      RowCellsCount(rows - 1, cols);
      assert (rows - 1) * cols + cols == rows * cols;
    }
  }

  /** Number of entries in range(1, n - 1). */
  function Inner(n: nat): nat
  {
    if n >= 2 then n - 2 else 0
  }

  /** Candidate starts: (r, 0) for r in range(1, rows - 1), then (0, c) for c in range(1, cols - 1). */
  function StartCandidates(rows: nat, cols: nat): seq<Pos>
  {
    seq(Inner(rows), i => (i + 1, 0)) + seq(Inner(cols), j => (0, j + 1))
  }

  /** Candidate ends: (r, cols - 1) for r in range(1, rows - 1), then (rows - 1, c) for c in range(1, cols - 1). */
  function EndCandidates(rows: nat, cols: nat): seq<Pos>
  {
    seq(Inner(rows), i => (i + 1, cols - 1)) + seq(Inner(cols), j => (rows - 1, j + 1))
  }

  /** Both candidate lists have one entry per non-corner border cell, and are empty exactly when rows < 3 and cols < 3. */
  lemma CandidateCount(rows: nat, cols: nat)
    ensures |StartCandidates(rows, cols)| == |EndCandidates(rows, cols)| == Inner(rows) + Inner(cols)
    ensures |StartCandidates(rows, cols)| == 0 <==> rows < 3 && cols < 3
  {
  }

  /** A run down one column, from row 1: its members are exactly the positions it covers. */
  lemma ColumnRun(s: seq<Pos>, col: int)
    requires forall i :: 0 <= i < |s| ==> s[i] == (i + 1, col)
    ensures forall p: Pos :: p in s <==> 1 <= p.0 <= |s| && p.1 == col
  {
    forall p: Pos | 1 <= p.0 <= |s| && p.1 == col
      ensures p in s
    {
      assert s[p.0 - 1] == p;
    }
  }

  /** A run along one row, from column 1: its members are exactly the positions it covers. */
  lemma RowRun(s: seq<Pos>, row: int)
    requires forall j :: 0 <= j < |s| ==> s[j] == (row, j + 1)
    ensures forall p: Pos :: p in s <==> p.0 == row && 1 <= p.1 <= |s|
  {
    forall p: Pos | p.0 == row && 1 <= p.1 <= |s|
      ensures p in s
    {
      assert s[p.1 - 1] == p;
    }
  }

  /** The start candidates are exactly the non-corner cells of the left and top borders. */
  lemma StartCandidatesOnBorder(rows: nat, cols: nat)
    ensures forall p: Pos :: p in StartCandidates(rows, cols) <==>
      (1 <= p.0 <= rows - 2 && p.1 == 0) || (p.0 == 0 && 1 <= p.1 <= cols - 2)
  {
    var left, top := seq(Inner(rows), i => (i + 1, 0)), seq(Inner(cols), j => (0, j + 1));
    assert StartCandidates(rows, cols) == left + top;
    ColumnRun(left, 0);
    RowRun(top, 0);
    assert forall p: Pos :: p in left + top <==> p in left || p in top;
  }

  /** The end candidates are exactly the non-corner cells of the right and bottom borders. */
  lemma EndCandidatesOnBorder(rows: nat, cols: nat)
    ensures forall p: Pos :: p in EndCandidates(rows, cols) <==>
      (1 <= p.0 <= rows - 2 && p.1 == cols - 1) || (p.0 == rows - 1 && 1 <= p.1 <= cols - 2)
  {
    var right, bottom := seq(Inner(rows), i => (i + 1, cols - 1)), seq(Inner(cols), j => (rows - 1, j + 1));
    assert EndCandidates(rows, cols) == right + bottom;
    ColumnRun(right, cols - 1);
    RowRun(bottom, rows - 1);
    assert forall p: Pos :: p in right + bottom <==> p in right || p in bottom;
  }

  /** One draw per wall decision: `rows` rows of `cols` cells. */
  predicate DrawsFit(rows: nat, cols: nat, draws: seq<seq<CellDraws>>)
  {
    |draws| == rows && forall r :: 0 <= r < rows ==> |draws[r]| == cols
  }

  /**
   * The walls of cell (r, c) as the draws decide them: the left wall is the
   * right decision of the cell before it (closed in column 0), the top wall
   * the bottom decision of the cell above (closed in row 0), and the right
   * and bottom walls are this cell's draws, forced closed on the last column
   * and the last row.
   */
  predicate FollowsDraws(cell: Cell, rows: nat, cols: nat, draws: seq<seq<CellDraws>>, r: nat, c: nat)
    requires DrawsFit(rows, cols, draws) && r < rows && c < cols
  {
    Consistent(cell) &&
    (Left in cell.walls <==> c == 0 || draws[r][c - 1].right) &&
    (Right in cell.walls <==> draws[r][c].right || c == cols - 1) &&
    (Top in cell.walls <==> r == 0 || draws[r - 1][c].bottom) &&
    (Bottom in cell.walls <==> draws[r][c].bottom || r == rows - 1)
  }

  /**
   * The keyword flags of the Cell(...) call for position (r, c): left and
   * top as the carried trackers hold them, right and bottom from this
   * cell's draws, forced to a wall on the last column and the last row.
   */
  function DrawFlags(rows: nat, cols: nat, draws: seq<seq<CellDraws>>, r: nat, c: nat): Kwargs
    requires DrawsFit(rows, cols, draws) && r < rows && c < cols
  {
    Kwargs(left := Some(c == 0 || draws[r][c - 1].right),
           right := Some(draws[r][c].right || c == cols - 1),
           top := Some(r == 0 || draws[r - 1][c].bottom),
           bottom := Some(draws[r][c].bottom || r == rows - 1))
  }

  /** Cell (r, c) is exactly the cell Cell(...) builds from its flags: the same walls and the same connections, in order. */
  predicate IsDrawn(cell: Cell, rows: nat, cols: nat, draws: seq<seq<CellDraws>>, r: nat, c: nat)
    requires DrawsFit(rows, cols, draws) && r < rows && c < cols
  {
    cell.walls == WalledSides(DrawFlags(rows, cols, draws, r, c), SideOrder) &&
    cell.connections == OpenOffsets(DrawFlags(rows, cols, draws, r, c), SideOrder)
  }

  predicate Generated(m: Maze, draws: seq<seq<CellDraws>>)
  {
    WellFormed(m) && DrawsFit(m.rows, m.cols, draws) &&
    forall r, c :: 0 <= r < m.rows && 0 <= c < m.cols ==> FollowsDraws(m.matrix[r][c], m.rows, m.cols, draws, r, c)
  }

  /**
   * Maze.__init__ with its random choices made explicit: `startPick` and
   * `endPick` are the indices random.choice drew, `draws` the outcome of
   * every random.random() comparison. Construction fails exactly when both
   * candidate lists are empty.
   */
  method NewMaze(rows: nat, cols: nat, startPick: nat, endPick: nat, draws: seq<seq<CellDraws>>)
    returns (res: Result<Maze, MazeError>)
    requires Inner(rows) + Inner(cols) == 0 || (startPick < Inner(rows) + Inner(cols) && endPick < Inner(rows) + Inner(cols))
    requires DrawsFit(rows, cols, draws)
    ensures res.Failure? <==> rows < 3 && cols < 3
    ensures res.Success? ==>
      var m := res.value;
      m.rows == rows && m.cols == cols &&
      m.start == StartCandidates(rows, cols)[startPick] && m.end == EndCandidates(rows, cols)[endPick] &&
      Generated(m, draws) && CellsConsistent(m) && SharedWalls(m) && ClosedBorder(m) &&
      forall r, c :: 0 <= r < rows && 0 <= c < cols ==> IsDrawn(m.matrix[r][c], rows, cols, draws, r, c)
  {
    var starts := StartCandidates(rows, cols);
    var ends := EndCandidates(rows, cols);
    assert |starts| == |ends| == Inner(rows) + Inner(cols);
    assert |starts| == 0 <==> rows < 3 && cols < 3;
    if |starts| == 0 {
      return Failure(NoBorderCell);
    }
    var start, end := starts[startPick], ends[endPick];

    var matrix: seq<seq<Cell>> := [];
    var topFactors := new bool[cols](_ => true);
    var row := 0;
    while row < rows
      invariant 0 <= row <= rows && |matrix| == row
      invariant RowsFollow(matrix, rows, cols, draws)
      invariant forall c :: 0 <= c < cols ==> topFactors[c] == (row == 0 || draws[row - 1][c].bottom)
    {
      var cells := FillRow(rows, cols, draws, row, topFactors);
      RowsFollowAppend(matrix, cells, rows, cols, draws);
      matrix := matrix + [cells];
      row := row + 1;
    }
    var m := Maze(rows, cols, matrix, start, end);
    assert Generated(m, draws);
    GeneratedIsSound(m, draws);
    res := Success(m);
  }

  /**
   * One pass of the inner loop of Maze.__init__: the cells of row `row`, left
   * to right, with `left_factor` carried from cell to cell and
   * `top_factors[col]` read from the row above and replaced by this row's
   * bottom decision.
   */
  method FillRow(rows: nat, cols: nat, draws: seq<seq<CellDraws>>, row: nat, topFactors: array<bool>)
    returns (cells: seq<Cell>)
    requires DrawsFit(rows, cols, draws) && row < rows && topFactors.Length == cols
    requires forall c :: 0 <= c < cols ==> topFactors[c] == (row == 0 || draws[row - 1][c].bottom)
    modifies topFactors
    ensures |cells| == cols
    ensures forall c :: 0 <= c < cols ==> FollowsDraws(cells[c], rows, cols, draws, row, c)
    ensures forall c :: 0 <= c < cols ==> IsDrawn(cells[c], rows, cols, draws, row, c)
    ensures forall c :: 0 <= c < cols ==> topFactors[c] == draws[row][c].bottom
  {
    var leftFactor := true;
    cells := [];
    var col := 0;
    while col < cols
      invariant 0 <= col <= cols && |cells| == col
      invariant RowFollows(cells, rows, cols, draws, row)
      invariant leftFactor == (col == 0 || draws[row][col - 1].right)
      invariant forall c :: 0 <= c < cols ==>
        topFactors[c] == if c < col then draws[row][c].bottom else row == 0 || draws[row - 1][c].bottom
    {
      var bottomFactor := draws[row][col].bottom;
      var rightFactor := draws[row][col].right;
      var cell := DrawCell(rows, cols, draws, row, col, leftFactor, topFactors[col]);
      RowFollowsAppend(cells, cell, rows, cols, draws, row);
      cells := cells + [cell];
      topFactors[col] := bottomFactor;
      leftFactor := rightFactor;
      col := col + 1;
    }
  }

  /**
   * The Cell(...) call for position (row, col): the left and top flags are
   * the carried trackers, the right and bottom flags this cell's draws,
   * forced to a wall on the last column and the last row.
   */
  method DrawCell(rows: nat, cols: nat, draws: seq<seq<CellDraws>>, row: nat, col: nat, leftFactor: bool, topFactor: bool)
    returns (cell: Cell)
    requires DrawsFit(rows, cols, draws) && row < rows && col < cols
    requires leftFactor == (col == 0 || draws[row][col - 1].right)
    requires topFactor == (row == 0 || draws[row - 1][col].bottom)
    ensures FollowsDraws(cell, rows, cols, draws, row, col)
    ensures IsDrawn(cell, rows, cols, draws, row, col)
  {
    var flags := Kwargs(
      left := Some(leftFactor),
      right := Some(draws[row][col].right || col == cols - 1),
      top := Some(topFactor),
      bottom := Some(draws[row][col].bottom || row == rows - 1));
    cell := NewCell(flags);
    assert flags == DrawFlags(rows, cols, draws, row, col);
    DrawnCell(cell, flags, rows, cols, draws, row, col);
  }

  /** The draws determine the maze: two grids of the same size whose cells are all drawn from the same draws are equal. */
  lemma DrawsDetermineCells(a: Maze, b: Maze, draws: seq<seq<CellDraws>>)
    requires WellFormed(a) && WellFormed(b) && a.rows == b.rows && a.cols == b.cols && DrawsFit(a.rows, a.cols, draws)
    requires forall r, c :: 0 <= r < a.rows && 0 <= c < a.cols ==> IsDrawn(a.matrix[r][c], a.rows, a.cols, draws, r, c)
    requires forall r, c :: 0 <= r < b.rows && 0 <= c < b.cols ==> IsDrawn(b.matrix[r][c], b.rows, b.cols, draws, r, c)
    ensures a.matrix == b.matrix
  {
    forall r | 0 <= r < a.rows
      ensures a.matrix[r] == b.matrix[r]
    {
      forall c | 0 <= c < a.cols
        ensures a.matrix[r][c] == b.matrix[r][c]
      {
        assert IsDrawn(a.matrix[r][c], a.rows, a.cols, draws, r, c);
        assert IsDrawn(b.matrix[r][c], b.rows, b.cols, draws, r, c);
      }
    }
  }

  /** The rows built so far: every cell follows the draws and is the cell its flags build. */
  predicate RowsFollow(matrix: seq<seq<Cell>>, rows: nat, cols: nat, draws: seq<seq<CellDraws>>)
    requires DrawsFit(rows, cols, draws) && |matrix| <= rows
  {
    (forall r :: 0 <= r < |matrix| ==> |matrix[r]| == cols) &&
    forall r, c :: 0 <= r < |matrix| && 0 <= c < cols ==>
      FollowsDraws(matrix[r][c], rows, cols, draws, r, c) && IsDrawn(matrix[r][c], rows, cols, draws, r, c)
  }

  lemma RowsFollowAppend(matrix: seq<seq<Cell>>, cells: seq<Cell>, rows: nat, cols: nat, draws: seq<seq<CellDraws>>)
    requires DrawsFit(rows, cols, draws) && |matrix| < rows && RowsFollow(matrix, rows, cols, draws)
    requires |cells| == cols
    requires forall c :: 0 <= c < cols ==> FollowsDraws(cells[c], rows, cols, draws, |matrix|, c)
    requires forall c :: 0 <= c < cols ==> IsDrawn(cells[c], rows, cols, draws, |matrix|, c)
    ensures RowsFollow(matrix + [cells], rows, cols, draws)
  {
    var matrix' := matrix + [cells];
    forall r, c | 0 <= r < |matrix'| && 0 <= c < cols
      ensures FollowsDraws(matrix'[r][c], rows, cols, draws, r, c) && IsDrawn(matrix'[r][c], rows, cols, draws, r, c)
    {
      if r < |matrix| {
        assert matrix'[r] == matrix[r];
      }
    }
  }

  /** The cells of row `row` built so far follow the draws and are the cells their flags build. */
  predicate RowFollows(cells: seq<Cell>, rows: nat, cols: nat, draws: seq<seq<CellDraws>>, row: nat)
    requires DrawsFit(rows, cols, draws) && row < rows && |cells| <= cols
  {
    forall c :: 0 <= c < |cells| ==> FollowsDraws(cells[c], rows, cols, draws, row, c) && IsDrawn(cells[c], rows, cols, draws, row, c)
  }

  lemma RowFollowsAppend(cells: seq<Cell>, cell: Cell, rows: nat, cols: nat, draws: seq<seq<CellDraws>>, row: nat)
    requires DrawsFit(rows, cols, draws) && row < rows && |cells| < cols
    requires RowFollows(cells, rows, cols, draws, row) && FollowsDraws(cell, rows, cols, draws, row, |cells|)
    requires IsDrawn(cell, rows, cols, draws, row, |cells|)
    ensures RowFollows(cells + [cell], rows, cols, draws, row)
  {
    var cells' := cells + [cell];
    forall c | 0 <= c < |cells'|
      ensures FollowsDraws(cells'[c], rows, cols, draws, row, c) && IsDrawn(cells'[c], rows, cols, draws, row, c)
    {
      if c < |cells| {
        assert cells'[c] == cells[c];
      }
    }
  }

  /** A cell built from the carried trackers and this cell's draws follows the draws. */
  lemma DrawnCell(cell: Cell, k: Kwargs, rows: nat, cols: nat, draws: seq<seq<CellDraws>>, r: nat, c: nat)
    requires DrawsFit(rows, cols, draws) && r < rows && c < cols
    requires Consistent(cell) && forall s: Side :: s in cell.walls <==> Walled(k, s)
    requires k.left == Some(c == 0 || draws[r][c - 1].right)
    requires k.right == Some(draws[r][c].right || c == cols - 1)
    requires k.top == Some(r == 0 || draws[r - 1][c].bottom)
    requires k.bottom == Some(draws[r][c].bottom || r == rows - 1)
    ensures FollowsDraws(cell, rows, cols, draws, r, c)
  {
    assert Left in cell.walls <==> Walled(k, Left);
    assert Right in cell.walls <==> Walled(k, Right);
    assert Top in cell.walls <==> Walled(k, Top);
    assert Bottom in cell.walls <==> Walled(k, Bottom);
  }

  /** A maze built from draws keeps walls shared between neighbours and the border closed. */
  lemma GeneratedIsSound(m: Maze, draws: seq<seq<CellDraws>>)
    requires Generated(m, draws)
    ensures CellsConsistent(m) && SharedWalls(m) && ClosedBorder(m)
  {
  }

  /** Start lies on the top or left border and end on the bottom or right border, never on a corner. */
  lemma StartAndEndOnBorder(rows: nat, cols: nat, startPick: nat, endPick: nat)
    requires startPick < Inner(rows) + Inner(cols) && endPick < Inner(rows) + Inner(cols)
    ensures var s := StartCandidates(rows, cols)[startPick];
      (1 <= s.0 <= rows - 2 && s.1 == 0) || (s.0 == 0 && 1 <= s.1 <= cols - 2)
    ensures var e := EndCandidates(rows, cols)[endPick];
      (1 <= e.0 <= rows - 2 && e.1 == cols - 1) || (e.0 == rows - 1 && 1 <= e.1 <= cols - 2)
    ensures rows >= 1 && cols >= 1 ==>
      var s, e := StartCandidates(rows, cols)[startPick], EndCandidates(rows, cols)[endPick];
      0 <= s.0 < rows && 0 <= s.1 < cols && 0 <= e.0 < rows && 0 <= e.1 < cols
  {
    StartCandidatesOnBorder(rows, cols);
    EndCandidatesOnBorder(rows, cols);
  }

  /** An open connection of a cell never leads off the grid. */
  lemma OpenStaysInside(m: Maze, p: Pos, q: Pos)
    requires WellFormed(m) && CellsConsistent(m) && ClosedBorder(m)
    requires Opens(m, p, q)
    ensures InBounds(m, q)
    ensures IsUnitStep((q.0 - p.0, q.1 - p.1))
  {
    var d := (q.0 - p.0, q.1 - p.1);
    var cell := CellAt(m, p);
    assert Consistent(cell);
    if d == Dir(Left) {
      assert Left !in cell.walls;
    } else if d == Dir(Right) {
      assert Right !in cell.walls;
    } else if d == Dir(Top) {
      assert Top !in cell.walls;
    } else {
      assert Rank(d) < 4;
      assert d == Dir(Bottom);
      assert Bottom !in cell.walls;
    }
  }

  /** SharedWalls for one pair of horizontal neighbours. */
  lemma SideWall(m: Maze, r: int, c: int)
    requires WellFormed(m) && SharedWalls(m) && 0 <= r < m.rows && 0 <= c && c + 1 < m.cols
    ensures Right in m.matrix[r][c].walls <==> Left in m.matrix[r][c + 1].walls
  {
  }

  /** SharedWalls for one pair of vertical neighbours. */
  lemma FloorWall(m: Maze, r: int, c: int)
    requires WellFormed(m) && SharedWalls(m) && 0 <= r && r + 1 < m.rows && 0 <= c < m.cols
    ensures Bottom in m.matrix[r][c].walls <==> Top in m.matrix[r + 1][c].walls
  {
  }

  /** Connections are symmetric: if `p` opens onto `q`, then `q` opens back onto `p`. */
  lemma OpenIsSymmetric(m: Maze, p: Pos, q: Pos)
    requires WellFormed(m) && CellsConsistent(m) && ClosedBorder(m) && SharedWalls(m)
    requires Opens(m, p, q)
    ensures Opens(m, q, p)
  {
    OpenStaysInside(m, p, q);
    var d := (q.0 - p.0, q.1 - p.1);
    var a, b := CellAt(m, p), CellAt(m, q);
    assert Consistent(a) && Consistent(b) && d in a.connections;
    if d == Dir(Left) {
      assert q == (p.0, p.1 - 1);
      SideWall(m, q.0, q.1);
      BackOpen(a, b, Left, Right);
      assert (p.0 - q.0, p.1 - q.1) == Dir(Right);
    } else if d == Dir(Right) {
      assert q == (p.0, p.1 + 1);
      SideWall(m, p.0, p.1);
      BackOpen(a, b, Right, Left);
      assert (p.0 - q.0, p.1 - q.1) == Dir(Left);
    } else if d == Dir(Top) {
      assert q == (p.0 - 1, p.1);
      FloorWall(m, q.0, q.1);
      BackOpen(a, b, Top, Bottom);
      assert (p.0 - q.0, p.1 - q.1) == Dir(Bottom);
    } else {
      assert Rank(d) < 4;
      assert q == (p.0 + 1, p.1);
      FloorWall(m, p.0, p.1);
      BackOpen(a, b, Bottom, Top);
      assert (p.0 - q.0, p.1 - q.1) == Dir(Top);
    }
  }

  /** An opening on side `s` of `a` whose wall is shared with side `t` of `b` is an opening on side `t` of `b`. */
  lemma BackOpen(a: Cell, b: Cell, s: Side, t: Side)
    requires Consistent(a) && Consistent(b) && Dir(s) in a.connections
    requires s in a.walls <==> t in b.walls
    ensures Dir(t) in b.connections
  {
  }

  /** A cell that some open connection leads into has a connection of its own. */
  lemma EnteredCellIsOpen(m: Maze, p: Pos, q: Pos)
    requires WellFormed(m) && CellsConsistent(m) && ClosedBorder(m) && SharedWalls(m)
    requires Opens(m, p, q)
    ensures InBounds(m, q) && |CellAt(m, q).connections| > 0
  {
    OpenIsSymmetric(m, p, q);
  }
}
