/**
 * app/index.tsx: the first version of the home screen, which keeps the grid
 * and every flag in one component. Cells change type rather than an
 * animation state: the visited and path animations turn cells into Visited
 * and PathCell cells, one point per frame, and resetPath turns those back
 * into Empty ones. An effect on [startSet, endSet, isRunning] derives the
 * instruction from the flags.
 */
module LegacyScreen {
  import opened Wrappers
  import opened GridModel
  import opened Requests
  import opened Cells
  import UseGrid

  const VISUALIZING := "Visualizing algorithm..."
  const PLACE_START := "Place the starting node"
  const PLACE_END := "Place the ending node"
  const READY := "Draw obstacles or press PLAY"
  const PATH_FOUND := "Path found!"
  const NO_PATH := "No path found"
  const RUN_ERROR := "Error running algorithm"

  /** The screen's state: the grid and the flags that the handlers read and write. */
  datatype Screen = Screen(
    grid: Grid,
    startSet: bool,
    endSet: bool,
    isPressing: bool,
    isRunning: bool,
    runCompleted: bool,
    instruction: string)

  /** The instruction effect: running first, then a missing start, then a missing end, else ready. */
  function Instruction(startSet: bool, endSet: bool, isRunning: bool): (text: string)
    ensures text == VISUALIZING <==> isRunning
    ensures text == PLACE_START <==> !isRunning && !startSet
    ensures text == PLACE_END <==> !isRunning && startSet && !endSet
    ensures text == READY <==> !isRunning && startSet && endSet
    ensures text != PATH_FOUND && text != NO_PATH && text != RUN_ERROR
  {
    if isRunning then VISUALIZING
    else if !startSet then PLACE_START
    else if !endSet then PLACE_END
    else READY
  }

  /** The effect after a render: it runs only when one of its dependencies changed. */
  function Rendered(before: Screen, after: Screen): Screen {
    if before.startSet == after.startSet && before.endSet == after.endSet && before.isRunning == after.isRunning then after
    else after.(instruction := Instruction(after.startSet, after.endSet, after.isRunning))
  }

  /** The instruction bar shows what the flags call for. */
  predicate Shows(s: Screen) {
    s.instruction == Instruction(s.startSet, s.endSet, s.isRunning)
  }

  /**
   * The screen after mounting: the mount effect has put createGrid's grid
   * in place and the instruction effect has run once.
   */
  function Mounted(created: Grid): (s: Screen)
    ensures s.grid == created && !s.startSet && !s.endSet && !s.isRunning && !s.runCompleted
    ensures Shows(s) && s.instruction == PLACE_START
  {
    Screen(created, false, false, false, false, false, Instruction(false, false, false))
  }

  /**
   * updateCell(cell, newType): the cell at cell's row and column takes the
   * new type; every other cell, and every other field, is left as it was.
   */
  function UpdateCell(grid: Grid, cell: Cell, newType: CellType): (r: Grid)
    ensures SameShape(r, grid)
    ensures WellFormed(grid) ==> WellFormed(r)
    ensures forall i, j :: InGrid(grid, i, j) && (i != cell.row || j != cell.col) && WellFormed(grid) ==> r[i][j] == grid[i][j]
    ensures InGrid(grid, cell.row, cell.col) && WellFormed(grid) ==>
      r[cell.row][cell.col] == grid[cell.row][cell.col].(cellType := newType)
  {
    seq(|grid|, i requires 0 <= i < |grid| =>
      seq(|grid[i]|, j requires 0 <= j < |grid[i]| =>
        var c := grid[i][j];
        if c.row == cell.row && c.col == cell.col then c.(cellType := newType) else c))
  }

  /**
   * handleCellPress: ignored while running; the first press places the
   * start, the second the end; after that an empty cell becomes an
   * obstacle and an obstacle, unless a drag is in progress, becomes empty.
   * A press that changes a flag refreshes the instruction.
   */
  function HandleCellPress(s: Screen, cell: Cell): (r: Screen)
    ensures r.isPressing == s.isPressing && r.isRunning == s.isRunning && r.runCompleted == s.runCompleted
    ensures SameShape(r.grid, s.grid)
    ensures Shows(s) ==> Shows(r)
    ensures s.isRunning ==> r == s
    ensures !s.isRunning && !s.startSet ==> r.startSet && r.endSet == s.endSet && r.grid == UpdateCell(s.grid, cell, Start)
    ensures !s.isRunning && s.startSet && !s.endSet ==> r.startSet && r.endSet && r.grid == UpdateCell(s.grid, cell, End)
    ensures !s.isRunning && s.startSet && s.endSet && cell.cellType == Empty ==>
      r == s.(grid := UpdateCell(s.grid, cell, Obstacle))
    ensures !s.isRunning && s.startSet && s.endSet && cell.cellType == Obstacle && !s.isPressing ==>
      r == s.(grid := UpdateCell(s.grid, cell, Empty))
    ensures s.startSet && s.endSet && cell.cellType != Empty && (cell.cellType != Obstacle || s.isPressing) ==> r == s
  {
    if s.isRunning then s
    else if !s.startSet then Rendered(s, s.(grid := UpdateCell(s.grid, cell, Start), startSet := true))
    else if !s.endSet then Rendered(s, s.(grid := UpdateCell(s.grid, cell, End), endSet := true))
    else if cell.cellType == Empty then s.(grid := UpdateCell(s.grid, cell, Obstacle))
    else if cell.cellType == Obstacle && !s.isPressing then s.(grid := UpdateCell(s.grid, cell, Empty))
    else s
  }

  /** The grid part of the screen, as the current useGrid hook holds it. */
  function GridPart(s: Screen): UseGrid.GridState {
    UseGrid.GridState(s.grid, s.startSet, s.endSet, s.isPressing)
  }

  /** Pressing a cell of the grid keeps the placement protocol of the editor: one start, one end, in that order. */
  lemma PressPlaced(s: Screen, i: int, j: int)
    requires UseGrid.Placed(GridPart(s)) && InGrid(s.grid, i, j)
    ensures UseGrid.Placed(GridPart(HandleCellPress(s, s.grid[i][j])))
  {
    var cell := s.grid[i][j];
    var r := HandleCellPress(s, cell);
    if !s.isRunning && !s.startSet {
      forall k, l | HasTypeAt(r.grid, Start, k, l) ensures k == i && l == j { }
    } else if !s.isRunning && !s.endSet {
      assert HasTypeAt(r.grid, End, i, j);
      forall k, l | HasTypeAt(r.grid, End, k, l) ensures k == i && l == j { }
      forall k, l | HasTypeAt(r.grid, Start, k, l) ensures HasTypeAt(s.grid, Start, k, l) {
        if k != i || l != j {
          assert r.grid[k][l] == s.grid[k][l];
        }
      }
    } else if !s.isRunning && r != s {
      forall k, l | InGrid(r.grid, k, l)
        ensures HasTypeAt(r.grid, Start, k, l) == HasTypeAt(s.grid, Start, k, l)
        ensures HasTypeAt(r.grid, End, k, l) == HasTypeAt(s.grid, End, k, l)
      {
        if k != i || l != j {
          assert r.grid[k][l] == s.grid[k][l];
        }
      }
      var k, l :| HasTypeAt(s.grid, End, k, l);
      assert HasTypeAt(r.grid, End, k, l);
    }
  }

  /** The grid of resetPath: visited and path cells become empty, every other cell stays. */
  function ClearPath(grid: Grid): (r: Grid)
    ensures SameShape(r, grid)
    ensures forall i, j :: InGrid(grid, i, j) && grid[i][j].cellType in {Visited, PathCell} ==>
      r[i][j] == grid[i][j].(cellType := Empty)
    ensures forall i, j :: InGrid(grid, i, j) && grid[i][j].cellType !in {Visited, PathCell} ==> r[i][j] == grid[i][j]
  {
    seq(|grid|, i requires 0 <= i < |grid| =>
      seq(|grid[i]|, j requires 0 <= j < |grid[i]| =>
        var cell := grid[i][j];
        if cell.cellType == Visited || cell.cellType == PathCell then cell.(cellType := Empty) else cell))
  }

  /** resetPath: the run is no longer complete and the grid is cleared of its marks. */
  function ResetPath(s: Screen): (r: Screen)
    ensures !r.runCompleted && r.grid == ClearPath(s.grid)
    ensures r == s.(runCompleted := false, grid := r.grid)
  {
    s.(runCompleted := false, grid := ClearPath(s.grid))
  }

  /** resetGrid (CLEAR): all flags down and a fresh grid; the instruction follows the flags. */
  function ResetGrid(s: Screen, created: Grid): (r: Screen)
    ensures r.grid == created && !r.startSet && !r.endSet && !r.isRunning && !r.runCompleted
    ensures Shows(s) ==> Shows(r)
    ensures Shows(s) && s.startSet ==> r.instruction == PLACE_START
    ensures r.isPressing == s.isPressing
  {
    Rendered(s, s.(isRunning := false, runCompleted := false, startSet := false, endSet := false, grid := created))
  }

  /** The grid animateVisited has drawn: every empty cell at a listed point is visited. */
  function MarkVisited(grid: Grid, points: seq<Point>): (r: Grid)
    ensures SameShape(r, grid)
    ensures forall i, j :: InGrid(grid, i, j) ==>
      r[i][j] == if grid[i][j].cellType == Empty && Point(grid[i][j].row, grid[i][j].col) in points
        then grid[i][j].(cellType := Visited) else grid[i][j]
  {
    seq(|grid|, i requires 0 <= i < |grid| =>
      seq(|grid[i]|, j requires 0 <= j < |grid[i]| =>
        var cell := grid[i][j];
        if cell.cellType == Empty && Point(cell.row, cell.col) in points then cell.(cellType := Visited) else cell))
  }

  /** The grid animatePath has drawn: every listed cell but the start and the end is a path cell. */
  function MarkPath(grid: Grid, points: seq<Point>): (r: Grid)
    ensures SameShape(r, grid)
    ensures forall i, j :: InGrid(grid, i, j) ==>
      r[i][j] == if grid[i][j].cellType !in {Start, End} && Point(grid[i][j].row, grid[i][j].col) in points
        then grid[i][j].(cellType := PathCell) else grid[i][j]
  {
    seq(|grid|, i requires 0 <= i < |grid| =>
      seq(|grid[i]|, j requires 0 <= j < |grid[i]| =>
        var cell := grid[i][j];
        if cell.cellType != Start && cell.cellType != End && Point(cell.row, cell.col) in points
        then cell.(cellType := PathCell) else cell))
  }

  /** The updater of one animateVisited frame: the cell at the point, if empty, is visited. */
  function VisitPoint(grid: Grid, point: Point): Grid {
    seq(|grid|, i requires 0 <= i < |grid| =>
      seq(|grid[i]|, j requires 0 <= j < |grid[i]| =>
        var cell := grid[i][j];
        if cell.row == point.x && cell.col == point.y then (if cell.cellType == Empty then cell.(cellType := Visited) else cell)
        else cell))
  }

  /** The updater of one animatePath frame: the cell at the point, unless start or end, is on the path. */
  function PathPoint(grid: Grid, point: Point): Grid {
    seq(|grid|, i requires 0 <= i < |grid| =>
      seq(|grid[i]|, j requires 0 <= j < |grid[i]| =>
        var cell := grid[i][j];
        if cell.row == point.x && cell.col == point.y then
          (if cell.cellType != Start && cell.cellType != End then cell.(cellType := PathCell) else cell)
        else cell))
  }

  /** One more frame of animateVisited draws one more point. */
  lemma VisitStep(grid: Grid, points: seq<Point>, point: Point)
    ensures VisitPoint(MarkVisited(grid, points), point) == MarkVisited(grid, points + [point])
  {
    var left := VisitPoint(MarkVisited(grid, points), point);
    var right := MarkVisited(grid, points + [point]);
    forall i | 0 <= i < |grid| ensures left[i] == right[i] {
      forall j | 0 <= j < |grid[i]| ensures left[i][j] == right[i][j] {
        var c := grid[i][j];
        assert Point(c.row, c.col) in points + [point] <==> Point(c.row, c.col) in points || Point(c.row, c.col) == point;
      }
    }
  }

  /** One more frame of animatePath draws one more point. */
  lemma PathStep(grid: Grid, points: seq<Point>, point: Point)
    ensures PathPoint(MarkPath(grid, points), point) == MarkPath(grid, points + [point])
  {
    var left := PathPoint(MarkPath(grid, points), point);
    var right := MarkPath(grid, points + [point]);
    forall i | 0 <= i < |grid| ensures left[i] == right[i] {
      forall j | 0 <= j < |grid[i]| ensures left[i][j] == right[i][j] {
        var c := grid[i][j];
        assert Point(c.row, c.col) in points + [point] <==> Point(c.row, c.col) in points || Point(c.row, c.col) == point;
      }
    }
  }

  /** Drawing no point leaves the grid as it is. */
  lemma DrawNothing(grid: Grid)
    ensures MarkVisited(grid, []) == grid && MarkPath(grid, []) == grid
  {
    var v := MarkVisited(grid, []);
    var p := MarkPath(grid, []);
    forall i | 0 <= i < |grid| ensures v[i] == grid[i] && p[i] == grid[i] { }
  }

  /** animateVisited: one frame per point of the list, in order. */
  method AnimateVisited(grid: Grid, visited: seq<Point>) returns (g: Grid)
    ensures g == MarkVisited(grid, visited)
  {
    g := grid;
    DrawNothing(grid);
    for k := 0 to |visited|
      invariant g == MarkVisited(grid, visited[..k])
    {
      VisitStep(grid, visited[..k], visited[k]);
      assert visited[..k] + [visited[k]] == visited[..k + 1];
      g := VisitPoint(g, visited[k]);
    }
    assert visited[..|visited|] == visited;
  }

  /** animatePath: one frame per point of the list, in order. */
  method AnimatePath(grid: Grid, path: seq<Point>) returns (g: Grid)
    ensures g == MarkPath(grid, path)
  {
    g := grid;
    DrawNothing(grid);
    for k := 0 to |path|
      invariant g == MarkPath(grid, path[..k])
    {
      PathStep(grid, path[..k], path[k]);
      assert path[..k] + [path[k]] == path[..k + 1];
      g := PathPoint(g, path[k]);
    }
    assert path[..|path|] == path;
  }

  /** No cell is left over from an earlier run. */
  ghost predicate Clean(grid: Grid) {
    forall i, j :: InGrid(grid, i, j) ==> grid[i][j].cellType !in {Visited, PathCell}
  }

  /** No obstacle cell lies on the given points. */
  ghost predicate ClearOf(grid: Grid, points: seq<Point>) {
    forall i, j :: InGrid(grid, i, j) && grid[i][j].cellType == Obstacle ==> Point(grid[i][j].row, grid[i][j].col) !in points
  }

  /**
   * RESET after a run restores the grid from before the run, provided the
   * grid was clean and the path crosses no obstacle; an obstacle on the
   * path would come back empty.
   */
  lemma RunThenReset(grid: Grid, visited: seq<Point>, path: seq<Point>)
    requires Clean(grid) && ClearOf(grid, path)
    ensures ClearPath(MarkPath(MarkVisited(grid, visited), path)) == grid
  {
    var r := ClearPath(MarkPath(MarkVisited(grid, visited), path));
    forall i | 0 <= i < |grid| ensures r[i] == grid[i] {
      forall j | 0 <= j < |grid[i]| ensures r[i][j] == grid[i][j] { }
    }
  }

  /** The obstacle of a path that crosses one does not survive RESET. */
  lemma ObstacleOnPathLost(grid: Grid, path: seq<Point>, i: int, j: int)
    requires HasTypeAt(grid, Obstacle, i, j) && Point(grid[i][j].row, grid[i][j].col) in path
    ensures ClearPath(MarkPath(grid, path))[i][j].cellType == Empty
  {
  }

  /** The request body of the first screen: barrier positions without weights, no diagonal flag. */
  datatype LegacyApiRequest = LegacyApiRequest(
    gridSize: int,
    start: Option<Point>,
    end: Option<Point>,
    barriers: seq<Point>,
    algorithm: string)

  /** The positions of a list of barriers. */
  function Positions(list: seq<Barrier>): seq<Point> {
    if list == [] then [] else Positions(list[..|list| - 1]) + [list[|list| - 1].pos]
  }

  lemma {:induction false} PositionsConcat(a: seq<Barrier>, b: seq<Barrier>)
    ensures Positions(a + b) == Positions(a) + Positions(b)
    decreases |b|
  {
    if b == [] {
      assert a + b == a;
    } else {
      assert (a + b)[..|a + b| - 1] == a + b[..|b| - 1];
      PositionsConcat(a, b[..|b| - 1]);
    }
  }

  /**
   * buildRequest: one row-major pass; start and end are the last cells of
   * their type (null when there is none) and every obstacle's position is
   * pushed, in the order of the current editor's barrier list.
   */
  method BuildRequest(grid: Grid, gridSize: int, algorithm: string) returns (req: LegacyApiRequest)
    ensures req.gridSize == gridSize && req.algorithm == UseGrid.WireAlgorithm(algorithm)
    ensures req.barriers == Positions(UseGrid.GridBarriers(grid))
    ensures req.start == UseGrid.LastInGrid(grid, Start) && req.end == UseGrid.LastInGrid(grid, End)
  {
    var start: Option<Point> := None;
    var end: Option<Point> := None;
    var barriers: seq<Point> := [];
    for i := 0 to |grid|
      invariant barriers == Positions(UseGrid.GridBarriers(grid[..i]))
      invariant start == UseGrid.LastInGrid(grid[..i], Start) && end == UseGrid.LastInGrid(grid[..i], End)
    {
      assert grid[..i + 1][..i] == grid[..i];
      start, end, barriers := ScanRow(grid[i], UseGrid.GridBarriers(grid[..i]), start, end, barriers);
    }
    assert grid[..|grid|] == grid;
    req := LegacyApiRequest(gridSize, start, end, barriers, UseGrid.WireAlgorithm(algorithm));
  }

  /** The inner loop of buildRequest over one row, after the rows whose barriers are before. */
  method ScanRow(row: seq<Cell>, ghost before: seq<Barrier>, start0: Option<Point>, end0: Option<Point>, barriers0: seq<Point>)
    returns (start: Option<Point>, end: Option<Point>, barriers: seq<Point>)
    requires barriers0 == Positions(before)
    ensures barriers == Positions(before + UseGrid.RowBarriers(row))
    ensures start == UseGrid.Later(start0, UseGrid.LastInRow(row, Start))
    ensures end == UseGrid.Later(end0, UseGrid.LastInRow(row, End))
  {
    start, end, barriers := start0, end0, barriers0;
    assert before + UseGrid.RowBarriers(row[..0]) == before;
    for j := 0 to |row|
      invariant barriers == Positions(before + UseGrid.RowBarriers(row[..j]))
      invariant start == UseGrid.Later(start0, UseGrid.LastInRow(row[..j], Start))
      invariant end == UseGrid.Later(end0, UseGrid.LastInRow(row[..j], End))
    {
      assert row[..j + 1][..j] == row[..j];
      BarriersStep(before, row, j);
      PositionsConcat(before + UseGrid.RowBarriers(row[..j]), UseGrid.CellBarrier(row[j]));
      var cell := row[j];
      if cell.cellType == Start {
        start := Some(Point(cell.row, cell.col));
      }
      if cell.cellType == End {
        end := Some(Point(cell.row, cell.col));
      }
      if cell.cellType == Obstacle {
        barriers := barriers + [Point(cell.row, cell.col)];
      }
    }
    assert row[..|row|] == row;
  }

  /** One more cell of the row appends its barrier, if any. */
  lemma BarriersStep(before: seq<Barrier>, row: seq<Cell>, j: int)
    requires 0 <= j < |row|
    ensures before + UseGrid.RowBarriers(row[..j + 1]) == (before + UseGrid.RowBarriers(row[..j])) + UseGrid.CellBarrier(row[j])
  {
    assert row[..j + 1][..j] == row[..j];
  }

  /** A barrier position is in the list exactly when the list holds a barrier there. */
  lemma {:induction false} PositionsMembers(list: seq<Barrier>, p: Point)
    ensures p in Positions(list) <==> exists b :: b in list && b.pos == p
    decreases |list|
  {
    if list != [] {
      var init := list[..|list| - 1];
      PositionsMembers(init, p);
      assert list == init + [list[|list| - 1]];
    }
  }

  /** On a well-formed grid the positions sent are exactly those of the obstacle cells. */
  lemma BarriersAreObstacles(grid: Grid, i: int, j: int)
    requires WellFormed(grid)
    ensures Point(i, j) in Positions(UseGrid.GridBarriers(grid)) <==> HasTypeAt(grid, Obstacle, i, j)
  {
    PositionsMembers(UseGrid.GridBarriers(grid), Point(i, j));
    if HasTypeAt(grid, Obstacle, i, j) {
      UseGrid.GridBarriersMembers(grid, UseGrid.BarrierOf(grid[i][j]));
    }
    if Point(i, j) in Positions(UseGrid.GridBarriers(grid)) {
      var b :| b in UseGrid.GridBarriers(grid) && b.pos == Point(i, j);
      UseGrid.GridBarriersMembers(grid, b);
    }
  }

  /** What the fetch gave: a response with its ok flag and body, or a network error. */
  datatype LegacyOutcome = Responded(ok: bool, data: Response) | NetworkError

  /**
   * runAlgorithm: nothing while running or before both ends are placed.
   * Otherwise a successful response is animated, visited cells first, and
   * the run is marked complete; a failed one leaves the grid alone. The
   * message the try or catch block writes ('Path found!', 'No path found'
   * or the error) is replaced in the same render, because the finally
   * block clears isRunning and the effect runs on that change.
   */
  method RunAlgorithm(s: Screen, outcome: LegacyOutcome) returns (r: Screen)
    ensures s.isRunning || !s.startSet || !s.endSet ==> r == s
    ensures !s.isRunning && s.startSet && s.endSet ==>
      !r.isRunning && Shows(r) && r.instruction == READY &&
      r.startSet == s.startSet && r.endSet == s.endSet && r.isPressing == s.isPressing
    ensures !s.isRunning && s.startSet && s.endSet && outcome.Responded? && outcome.ok ==>
      r.runCompleted && r.grid == MarkPath(MarkVisited(s.grid, outcome.data.visitedPath), outcome.data.path)
    ensures !s.isRunning && s.startSet && s.endSet && !(outcome.Responded? && outcome.ok) ==>
      r.runCompleted == s.runCompleted && r.grid == s.grid
  {
    if s.isRunning {
      return s;
    }
    if !s.startSet || !s.endSet {
      return s;
    }
    r := Rendered(s, s.(isRunning := true));
    var running := r;
    if outcome.Responded? && outcome.ok {
      var data := outcome.data;
      var g := AnimateVisited(r.grid, data.visitedPath);
      g := AnimatePath(g, data.path);
      r := r.(grid := g, runCompleted := true, instruction := if data.pathFound then PATH_FOUND else NO_PATH);
    } else {
      r := r.(instruction := RUN_ERROR);
    }
    r := Rendered(running, r.(isRunning := false));
  }

  /**
   * handleRunOrReset: RESET after a completed run, otherwise a run, with
   * every case of runAlgorithm: nothing while running or before both ends
   * are placed, the drawn grid on a successful response, and the grid
   * untouched on a failure.
   */
  method HandleRunOrReset(s: Screen, outcome: LegacyOutcome) returns (r: Screen)
    ensures s.runCompleted ==> r == ResetPath(s)
    ensures !s.runCompleted && (s.isRunning || !s.startSet || !s.endSet) ==> r == s
    ensures !s.runCompleted && !s.isRunning && s.startSet && s.endSet ==>
      !r.isRunning && Shows(r) && r.instruction == READY &&
      r.startSet == s.startSet && r.endSet == s.endSet && r.isPressing == s.isPressing
    ensures !s.runCompleted && !s.isRunning && s.startSet && s.endSet && outcome.Responded? && outcome.ok ==>
      r.runCompleted && r.grid == MarkPath(MarkVisited(s.grid, outcome.data.visitedPath), outcome.data.path)
    ensures !s.runCompleted && !s.isRunning && s.startSet && s.endSet && !(outcome.Responded? && outcome.ok) ==>
      !r.runCompleted && r.grid == s.grid
  {
    if s.runCompleted {
      r := ResetPath(s);
    } else {
      r := RunAlgorithm(s, outcome);
    }
  }
}
