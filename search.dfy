/**
 * The four searches of maze_solver/maze.py (animate_dfs, animate_bfs,
 * animate_gbfs, animate_astar) and the path replay __animate_solution.
 * The four share one loop and differ only in how the frontier is popped
 * and which key a pushed record gets, so they are one method with a
 * Strategy parameter. The two hooks, draw_move and the step callback `fn`,
 * become events appended to a trace.
 */
module Search {
  import opened Geometry
  import opened Grid
  import opened Frontier
  import opened SearchSpec

  /**
   * __animate_solution: pops the last position, then pops the rest one by
   * one, drawing a final move from each popped position to the next.
   */
  method AnimateSolution(path: seq<Pos>) returns (moves: seq<Event>)
    requires |path| > 0
    ensures moves == Replay(path)
    ensures |moves| == |path| - 1
    ensures forall i :: 0 <= i < |moves| ==> moves[i] == Move(path[|path| - 1 - i], path[|path| - 2 - i], true)
  {
    var rest := path;
    var cur := rest[|rest| - 1];
    rest := rest[..|rest| - 1];
    moves := [];
    while |rest| != 0
      invariant |rest| < |path| && rest == path[..|rest|] && cur == path[|rest|]
      invariant |moves| == |path| - 1 - |rest|
      invariant forall i :: 0 <= i < |moves| ==> moves[i] == Move(path[|path| - 1 - i], path[|path| - 2 - i], true)
    {
      var next := rest[|rest| - 1];
      rest := rest[..|rest| - 1];
      moves := moves + [Move(cur, next, true)];
      cur := next;
    }
    ReplayShape(path);
  }

  /**
   * The inner loop of every search: for each connection that passes the
   * guard, a draw_move event and a pushed record carrying the expanded
   * path and the given key.
   */
  method Expand(pos: Pos, connections: seq<Pos>, path: seq<Pos>, key: int)
    returns (children: seq<Record>, moves: seq<Event>)
    ensures |children| == |moves| == |Targets(pos, connections)|
    ensures forall i :: 0 <= i < |children| ==>
      children[i] == Record(key, Targets(pos, connections)[i], path) &&
      moves[i] == Move(pos, Targets(pos, connections)[i], false)
  {
    children, moves := [], [];
    var i := 0;
    while i < |connections|
      invariant 0 <= i <= |connections|
      invariant |children| == |moves| == |Targets(pos, connections[..i])|
      invariant forall j :: 0 <= j < |children| ==>
        children[j] == Record(key, Targets(pos, connections[..i])[j], path) &&
        moves[j] == Move(pos, Targets(pos, connections[..i])[j], false)
    {
      var (dr, dc) := connections[i];
      assert connections[..i + 1][..i] == connections[..i];
      if !(pos.0 + dr < 0 || pos.1 + dc < 0) {
        var next := (pos.0 + dr, pos.1 + dc);
        moves := moves + [Move(pos, next, false)];
        children := children + [Record(key, next, path)];
      }
      i := i + 1;
    }
    assert connections[..i] == connections;
  }

  /** The closing `for path in alt` loop: every dead end is replayed in the order found. */
  method ReplayDeadEnds(alt: seq<seq<Pos>>) returns (moves: seq<Event>)
    requires forall k :: 0 <= k < |alt| ==> |alt[k]| > 0
    ensures moves == ReplayAll(alt)
  {
    moves := [];
    var i := 0;
    while i < |alt|
      invariant 0 <= i <= |alt|
      invariant moves == ReplayAll(alt[..i])
    {
      var replay := AnimateSolution(alt[i]);
      assert alt[..i + 1][..i] == alt[..i];
      moves := moves + replay;
      i := i + 1;
    }
    assert alt[..i] == alt;
  }

  // ---------------------------------------------------------------- search


  /**
   * One pass of the search loop: pop a record; drop it if its position is
   * on its path or visited; otherwise extend its path with the position and
   * either replay that path and take a step (the end is reached) or mark
   * the position visited, record it as a dead end when it has no
   * connection, push one child per open neighbour with a draw_move event,
   * and take a step.
   */
  method Turn(m: Maze, s: Strategy, frontier: seq<Record>, vis: seq<seq<bool>>, alt: seq<seq<Pos>>, trace: seq<Event>,
              ghost visited: set<Pos>, ghost expanded: seq<Pos>)
    returns (pass: Pass, frontier': seq<Record>, vis': seq<seq<bool>>, alt': seq<seq<Pos>>, trace': seq<Event>,
             ghost visited': set<Pos>, ghost expanded': seq<Pos>, ghost popped: Record, ghost rest: seq<Record>)
    requires Searchable(m) && frontier != [] && Searching(m, s, vis, visited, expanded, frontier, alt, trace)
    ensures TurnResult(m, s, frontier, vis, alt, trace, visited, expanded,
                       pass, frontier', vis', alt', trace', visited', expanded', popped, rest)
    ensures pass.Reached? ==> SolvedBy(m, pass.path, trace', expanded')
    ensures !pass.Reached? ==> Searching(m, s, vis', visited', expanded', frontier', alt', trace')
    ensures pass.Dropped? ==> visited' == visited && |frontier'| == |frontier| - 1
    ensures pass.Expanded? ==> AllCells(m.rows, m.cols) - visited' < AllCells(m.rows, m.cols) - visited
  {
    var rec, others := Pop(s, frontier);
    popped, rest := rec, others;
    PoppedByIsPopped(s, frontier, rec, others);
    frontier', vis', alt', trace', visited', expanded' := others, vis, alt, trace, visited, expanded;
    var pos, path := rec.pos, rec.path;
    assert InBounds(m, pos);
    if pos in path || vis[pos.0][pos.1] {
      DropStep(m, s, vis, visited, expanded, frontier, rec, others, alt, trace);
      return Dropped, frontier', vis', alt', trace', visited', expanded', popped, rest;
    }
    pass, frontier', vis', alt', trace', visited', expanded' :=
      Visit(m, s, frontier, rec, others, vis, alt, trace, visited, expanded);
  }

  /**
   * The rest of one iteration, for a popped record that is not dropped:
   * stop at the end, or mark its position visited and push its neighbours.
   */
  method Visit(m: Maze, s: Strategy, ghost before: seq<Record>, rec: Record, rest: seq<Record>,
               vis: seq<seq<bool>>, alt: seq<seq<Pos>>, trace: seq<Event>, ghost visited: set<Pos>, ghost expanded: seq<Pos>)
    returns (pass: Pass, frontier': seq<Record>, vis': seq<seq<bool>>, alt': seq<seq<Pos>>, trace': seq<Event>,
             ghost visited': set<Pos>, ghost expanded': seq<Pos>)
    requires Searchable(m) && Searching(m, s, vis, visited, expanded, before, alt, trace)
    requires Popped(before, rec, rest) && InBounds(m, rec.pos) && rec.pos !in rec.path && rec.pos !in visited
    ensures PassResult(m, s, rec, rest, vis, alt, trace, visited, expanded, pass, frontier', vis', alt', trace', visited', expanded')
    ensures pass.Reached? ==> SolvedBy(m, pass.path, trace', expanded')
    ensures pass.Expanded? ==> Searching(m, s, vis', visited', expanded', frontier', alt', trace')
    ensures pass.Expanded? ==> AllCells(m.rows, m.cols) - visited' < AllCells(m.rows, m.cols) - visited
  {
    frontier', vis', alt', trace', visited', expanded' := rest, vis, alt, trace, visited, expanded;
    var pos, path := rec.pos, rec.path;
    path := path + [pos];
    if pos == m.end {
      var moves := AnimateSolution(path);
      ExpansionFacts(m, s, vis, visited, expanded, before, alt, rec);
      SolvedStep(m, rec, expanded, trace, moves);
      trace' := trace + moves + [Step];
      expanded' := expanded + [pos];
      return Reached(path), frontier', vis', alt', trace', visited', expanded';
    }
    vis' := vis[pos.0 := vis[pos.0][pos.1 := true]];
    var cell := m.matrix[pos.0][pos.1];
    if |cell.connections| == 0 {
      alt' := alt + [path];
    }
    var children, moves := Expand(pos, cell.connections, path, ChildKey(s, m.end, pos, path));
    assert children == Children(m, s, rec) && moves == ExploreMoves(m, pos);
    ExpandStep(m, s, vis, visited, expanded, before, rec, rest, alt, trace, vis', alt', children, moves);
    VisitShrinks(m, visited, pos);
    visited' := visited + {pos};
    expanded' := expanded + [pos];
    frontier' := rest + children;
    trace' := trace + moves + [Step];
    pass := Expanded;
  }

  /**
   * animate_dfs / animate_bfs / animate_gbfs / animate_astar. A popped
   * record whose position is on its own path or already visited is
   * dropped without any event; otherwise its position is appended to its
   * path, the search stops with that path if it is the end, and else the
   * position is marked visited, recorded as a dead end when it has no
   * connection, and one record per open neighbour is pushed, each with a
   * draw_move event, followed by one step event. When the frontier runs
   * out, the dead ends are replayed in the order they were found.
   * `expanded` lists the positions that were not dropped.
   */
  method Solve(m: Maze, s: Strategy) returns (outcome: Outcome, trace: seq<Event>, ghost expanded: seq<Pos>)
    requires Searchable(m)
    ensures ExpandsCells(m, expanded) && CountSteps(trace) == |expanded|
    ensures outcome.Solved? ==> SolvedBy(m, outcome.path, trace, expanded)
    ensures outcome.Exhausted? ==> ExhaustedBy(m, outcome.deadEnds, trace)
  {
    var pass, vis, alt;
    ghost var visited;
    pass, vis, alt, trace, visited, expanded := Explore(m, s);
    if pass.Reached? {
      return Solved(pass.path), trace, expanded;
    }
    ExhaustedFacts(m, s, vis, visited, expanded, alt, trace);
    var replayed := ReplayDeadEnds(alt);
    assert trace + replayed == trace;
    trace := trace + replayed;
    outcome := Exhausted(alt);
  }

  /**
   * The set-up and the `while len(frontier) != 0` loop of every search: it
   * stops at the first pass that reaches the end, or leaves the invariant
   * with an empty frontier.
   */
  method Explore(m: Maze, s: Strategy)
    returns (pass: Pass, vis: seq<seq<bool>>, alt: seq<seq<Pos>>, trace: seq<Event>, ghost visited: set<Pos>, ghost expanded: seq<Pos>)
    requires Searchable(m)
    ensures pass.Reached? ==> SolvedBy(m, pass.path, trace, expanded)
    ensures !pass.Reached? ==> Searching(m, s, vis, visited, expanded, [], alt, trace)
  {
    var frontier := [Seed(m, s)];
    vis := seq(|m.matrix|, _ => seq(|m.matrix[0]|, _ => false));
    alt := [];
    visited := {};
    trace, expanded := [], [];
    StartSearching(m, s, vis);
    pass := Dropped;

    while |frontier| != 0
      invariant Searching(m, s, vis, visited, expanded, frontier, alt, trace) && !pass.Reached?
      decreases AllCells(m.rows, m.cols) - visited, |frontier|
    {
      ghost var popped, rest;
      pass, frontier, vis, alt, trace, visited, expanded, popped, rest := Turn(m, s, frontier, vis, alt, trace, visited, expanded);
      if pass.Reached? {
        return;
      }
    }
    assert frontier == [];
  }
}
