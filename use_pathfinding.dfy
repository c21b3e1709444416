/**
 * hooks/usePathfinding.ts: the run of a search from the front end. The hook
 * keeps the flags isRunning and runCompleted, the instruction line, the
 * statistics and whether they are shown; an effect derives the instruction
 * from the flags whenever one of them changes. The backend call is a
 * parameter (its outcome), the animation frames and the 1.5 s pause are
 * steps of a sequential method, and each setGrid updater is applied to the
 * grid it receives.
 */
module UsePathfinding {
  import opened Wrappers
  import opened GridModel
  import opened Requests
  import opened Cells
  import UseGrid
  import opened Walks

  const VISUALIZING := "Visualizing algorithm..."
  const COMPLETED := "Press RESET to remove the visited cells or CLEAR to empty the grid"
  const PLACE_START := "Click where you want to place the starting point"
  const PLACE_END := "Click where you want to place the ending point"
  const READY := "Choose the obstacles' cost on the right side and click to place them or press PLAY"
  const TIMED_OUT := "Request timed out. Please try again."
  const RUN_ERROR := "Error running algorithm"

  /** The effect's dependency list [startSet, endSet, isRunning, runCompleted]. */
  datatype Flags = Flags(startSet: bool, endSet: bool, isRunning: bool, runCompleted: bool)

  /**
   * The instruction effect: a running search first, then a completed run,
   * then a missing start, then a missing end; otherwise the grid is ready.
   */
  function Instruction(f: Flags): (text: string)
    ensures text == VISUALIZING <==> f.isRunning
    ensures text == COMPLETED <==> !f.isRunning && f.runCompleted
    ensures text == PLACE_START <==> !f.isRunning && !f.runCompleted && !f.startSet
    ensures text == PLACE_END <==> !f.isRunning && !f.runCompleted && f.startSet && !f.endSet
    ensures text == READY <==> !f.isRunning && !f.runCompleted && f.startSet && f.endSet
    ensures text != TIMED_OUT && text != RUN_ERROR
  {
    if f.isRunning then VISUALIZING
    else if f.runCompleted then COMPLETED
    else if !f.startSet then PLACE_START
    else if !f.endSet then PLACE_END
    else READY
  }

  /** A render after which the effect runs only if a dependency changed. */
  function Rendered(before: Flags, after: Flags, instruction: string): string {
    if before == after then instruction else Instruction(after)
  }

  /** A statistic that reads 'No path found' when the search found none. */
  datatype Shown<T> = Value(v: T) | NoPathFound

  /** types/stats.ts; gridSize is the side of the square grid that the text `${GRID_SIZE} x ${GRID_SIZE}` shows. */
  datatype RunStats = RunStats(algorithm: string, visitedNodes: int, pathLength: Shown<int>, pathWeight: Shown<Weight>, gridSize: int)

  datatype PathfindingState = PathfindingState(
    isRunning: bool,
    runCompleted: bool,
    instruction: string,
    showStats: bool,
    stats: RunStats)

  function FlagsOf(s: PathfindingState, startSet: bool, endSet: bool): Flags {
    Flags(startSet, endSet, s.isRunning, s.runCompleted)
  }

  /** The instruction on screen is the one the flags call for. */
  predicate Shows(s: PathfindingState, startSet: bool, endSet: bool) {
    s.instruction == Instruction(FlagsOf(s, startSet, endSet))
  }

  /**
   * getBatchSize: how many points one animation frame marks, growing with
   * the speed slider from one to twenty.
   */
  function BatchSize(speed: real): (b: int)
    ensures b in {1, 2, 4, 10, 15, 20}
    ensures speed < 20.0 <==> b == 1
    ensures speed >= 95.0 <==> b == 20
  {
    if speed < 20.0 then 1
    else if speed < 40.0 then 2
    else if speed < 60.0 then 4
    else if speed < 80.0 then 10
    else if speed < 95.0 then 15
    else 20
  }

  /** A faster setting never marks fewer points per frame. */
  lemma BatchSizeMonotone(slower: real, faster: real)
    requires slower <= faster
    ensures 1 <= BatchSize(slower) <= BatchSize(faster) <= 20
  {
  }

  /**
   * The setGrid updater of animateVisited and animatePath for one batch:
   * start and end cells are returned as they are, and every other cell
   * whose position is in the batch gets the mark as its state.
   */
  function MarkCells(grid: Grid, batch: seq<Point>, mark: Mark): (r: Grid)
    ensures SameShape(r, grid)
    ensures forall i, j :: InGrid(grid, i, j) ==>
      r[i][j].row == grid[i][j].row && r[i][j].col == grid[i][j].col &&
      r[i][j].cellType == grid[i][j].cellType && r[i][j].weight == grid[i][j].weight
    ensures forall i, j :: InGrid(grid, i, j) && grid[i][j].cellType in {Start, End} ==> r[i][j] == grid[i][j]
    ensures forall i, j :: InGrid(grid, i, j) && grid[i][j].cellType !in {Start, End} ==>
      r[i][j].state == if Point(grid[i][j].row, grid[i][j].col) in batch then Some(mark) else grid[i][j].state
  {
    seq(|grid|, i requires 0 <= i < |grid| =>
      seq(|grid[i]|, j requires 0 <= j < |grid[i]| =>
        var cell := grid[i][j];
        if cell.cellType == Start || cell.cellType == End then cell
        else if Point(cell.row, cell.col) in batch then cell.(state := Some(mark))
        else cell))
  }

  /** Marking one list of points and then another is marking both lists at once. */
  lemma MarkCellsConcat(grid: Grid, a: seq<Point>, b: seq<Point>, mark: Mark)
    ensures MarkCells(MarkCells(grid, a, mark), b, mark) == MarkCells(grid, a + b, mark)
  {
    var left := MarkCells(MarkCells(grid, a, mark), b, mark);
    var right := MarkCells(grid, a + b, mark);
    forall i | 0 <= i < |grid| ensures left[i] == right[i] {
      forall j | 0 <= j < |grid[i]| ensures left[i][j] == right[i][j] {
        var c := grid[i][j];
        assert Point(c.row, c.col) in a + b <==> Point(c.row, c.col) in a || Point(c.row, c.col) in b;
      }
    }
  }

  /** An empty batch marks nothing. */
  lemma MarkNothing(grid: Grid, mark: Mark)
    ensures MarkCells(grid, [], mark) == grid
  {
    var r := MarkCells(grid, [], mark);
    forall i | 0 <= i < |grid| ensures r[i] == grid[i] { }
  }

  /** RESET takes back whatever an animation marked. */
  lemma ResetUndoesMarks(grid: Grid, points: seq<Point>, mark: Mark)
    ensures UseGrid.ResetPath(MarkCells(grid, points, mark)) == UseGrid.ResetPath(grid)
  {
    var left := UseGrid.ResetPath(MarkCells(grid, points, mark));
    forall i | 0 <= i < |grid| ensures left[i] == UseGrid.ResetPath(grid)[i] { }
  }

  /** The batches laid end to end. */
  function Flatten(batches: seq<seq<Point>>): seq<Point> {
    if batches == [] then [] else Flatten(batches[..|batches| - 1]) + batches[|batches| - 1]
  }

  function Min(a: int, b: int): int {
    if a < b then a else b
  }

  /**
   * animateVisited / animatePath: the list is cut into consecutive slices
   * of batchSize points (the last may be shorter), and each slice is marked
   * in one frame. The grid ends as if the whole list were marked at once.
   */
  method Animate(grid: Grid, points: seq<Point>, batchSize: int, mark: Mark) returns (g: Grid, ghost batches: seq<seq<Point>>)
    requires batchSize >= 1
    ensures g == MarkCells(grid, points, mark)
    ensures Flatten(batches) == points
    ensures forall k :: 0 <= k < |batches| ==> 1 <= |batches[k]| <= batchSize
    ensures forall k :: 0 <= k < |batches| - 1 ==> |batches[k]| == batchSize
  {
    g := grid;
    batches := [];
    var i := 0;
    MarkNothing(grid, mark);
    while i < |points|
      invariant 0 <= i
      invariant Flatten(batches) == points[..Min(i, |points|)]
      invariant g == MarkCells(grid, points[..Min(i, |points|)], mark)
      invariant forall k :: 0 <= k < |batches| ==> 1 <= |batches[k]| <= batchSize
      invariant forall k :: 0 <= k < |batches| ==> |batches[k]| == batchSize || (k == |batches| - 1 && i >= |points|)
      decreases |points| - i
    {
      var batch := points[i..Min(i + batchSize, |points|)];
      MarkCellsConcat(grid, points[..i], batch, mark);
      assert points[..i] + batch == points[..Min(i + batchSize, |points|)];
      g := MarkCells(g, batch, mark);
      assert (batches + [batch])[..|batches|] == batches;
      batches := batches + [batch];
      i := i + batchSize;
    }
    assert points[..|points|] == points;
  }

  /** The weight a path node contributes: its cell's weight, or 1 off the grid. */
  function WeightAt(grid: Grid, p: Point): Weight {
    if InGrid(grid, p.x, p.y) then grid[p.x][p.y].weight else Finite(1)
  }

  /** JavaScript addition on the weights: Infinity absorbs. */
  function Add(a: Weight, b: Weight): Weight {
    if a.Finite? && b.Finite? then Finite(a.n + b.n) else Infinity
  }

  /** The weights of the path's cells, added up. */
  function SumWeights(grid: Grid, path: seq<Point>): Weight {
    if path == [] then Finite(0) else Add(SumWeights(grid, path[..|path| - 1]), WeightAt(grid, path[|path| - 1]))
  }

  /** The sum over a path splits at any point. */
  lemma {:induction false} SumWeightsConcat(grid: Grid, a: seq<Point>, b: seq<Point>)
    ensures SumWeights(grid, a + b) == Add(SumWeights(grid, a), SumWeights(grid, b))
    decreases |b|
  {
    if b == [] {
      assert a + b == a;
    } else {
      assert (a + b)[..|a + b| - 1] == a + b[..|b| - 1];
      SumWeightsConcat(grid, a, b[..|b| - 1]);
    }
  }

  /** On cells of weight one the sum counts the nodes. */
  lemma {:induction false} UnitWeights(grid: Grid, path: seq<Point>)
    requires forall k :: 0 <= k < |path| ==> WeightAt(grid, path[k]) == Finite(1)
    ensures SumWeights(grid, path) == Finite(|path|)
    decreases |path|
  {
    if path != [] {
      UnitWeights(grid, path[..|path| - 1]);
    }
  }

  /** A path over a cell of infinite weight weighs Infinity. */
  lemma {:induction false} InfiniteCell(grid: Grid, path: seq<Point>, k: int)
    requires 0 <= k < |path| && WeightAt(grid, path[k]) == Infinity
    ensures SumWeights(grid, path) == Infinity
    decreases |path|
  {
    if k < |path| - 1 {
      InfiniteCell(grid, path[..|path| - 1], k);
    }
  }

  /**
   * The statistics of a successful run: the visited count without the two
   * end points, the number of moves of the path (at least one), and the
   * path's weight, -1 plus the weights of its cells; both path figures read
   * 'No path found' for an empty path.
   */
  function Stats(algorithm: string, data: Response, grid: Grid, gridSize: int): (stats: RunStats)
    ensures stats.algorithm == algorithm && stats.gridSize == gridSize
    ensures stats.visitedNodes == if |data.visitedPath| >= 2 then |data.visitedPath| - 2 else 0
    ensures data.path == [] <==> stats.pathLength == NoPathFound
    ensures data.path == [] <==> stats.pathWeight == NoPathFound
    ensures |data.path| >= 2 ==> stats.pathLength == Value(|data.path| - 1)
    ensures |data.path| == 1 ==> stats.pathLength == Value(1)
    ensures data.path != [] ==> stats.pathWeight == Value(Add(Finite(-1), SumWeights(grid, data.path)))
  {
    var rawVisited := |data.visitedPath|;
    var rawPath := |data.path|;
    var adjustedVisited := if rawVisited - 2 > 0 then rawVisited - 2 else 0;
    var adjustedPathLength := if rawPath == 0 then 0 else if rawPath - 1 > 1 then rawPath - 1 else 1;
    if rawPath == 0 then
      RunStats(algorithm, adjustedVisited, NoPathFound, NoPathFound, gridSize)
    else
      RunStats(algorithm, adjustedVisited, Value(adjustedPathLength), Value(Add(Finite(-1), SumWeights(grid, data.path))), gridSize)
  }

  /** The forEach that accumulates calculatedCost from -1 over the path's cells. */
  method PathWeight(grid: Grid, path: seq<Point>) returns (cost: Weight)
    ensures cost == Add(Finite(-1), SumWeights(grid, path))
  {
    cost := Finite(-1);
    for k := 0 to |path|
      invariant cost == Add(Finite(-1), SumWeights(grid, path[..k]))
    {
      assert path[..k + 1][..k] == path[..k];
      var cell := WeightAt(grid, path[k]);
      cost := Add(cost, cell);
    }
    assert path[..|path|] == path;
  }

  /** The statistics block of runAlgorithm, with its cost loop. */
  method ComputeStats(algorithm: string, data: Response, grid: Grid, gridSize: int) returns (stats: RunStats)
    ensures stats == Stats(algorithm, data, grid, gridSize)
  {
    var rawVisited := |data.visitedPath|;
    var rawPath := |data.path|;
    var adjustedVisited := if rawVisited - 2 > 0 then rawVisited - 2 else 0;
    var adjustedPathLength := if rawPath == 0 then 0 else if rawPath - 1 > 1 then rawPath - 1 else 1;
    var calculatedCost := PathWeight(grid, data.path);
    if rawPath == 0 {
      stats := RunStats(algorithm, adjustedVisited, NoPathFound, NoPathFound, gridSize);
    } else {
      stats := RunStats(algorithm, adjustedVisited, Value(adjustedPathLength), Value(calculatedCost), gridSize);
    }
  }

  /** The points of a list other than the two given ones. */
  function Without(s: seq<Point>, a: Point, b: Point): seq<Point> {
    if s == [] then []
    else if s[|s| - 1] == a || s[|s| - 1] == b then Without(s[..|s| - 1], a, b)
    else Without(s[..|s| - 1], a, b) + [s[|s| - 1]]
  }

  /**
   * When the visited list names each cell once and holds both the start
   * and the end, the reported count is the number of the other visited
   * cells.
   */
  lemma {:induction false} VisitedExcludesEnds(visitedPath: seq<Point>, start: Point, end: Point)
    requires Distinct(visitedPath) && start != end && start in visitedPath && end in visitedPath
    ensures |Without(visitedPath, start, end)| == |visitedPath| - 2
  {
    WithoutCount(visitedPath, start, end);
  }

  /** Distinct lists lose one element for each of the two points they contain. */
  lemma {:induction false} WithoutCount(s: seq<Point>, a: Point, b: Point)
    requires Distinct(s) && a != b
    ensures |Without(s, a, b)| == |s| - (if a in s then 1 else 0) - (if b in s then 1 else 0)
    decreases |s|
  {
    if s != [] {
      var init := s[..|s| - 1];
      assert Distinct(init) by {
        forall i, j | 0 <= i < j < |init| ensures init[i] != init[j] {
          assert init[i] == s[i] && init[j] == s[j];
        }
      }
      WithoutCount(init, a, b);
      var x := s[|s| - 1];
      assert s == init + [x];
      assert x !in init by {
        forall i | 0 <= i < |init| ensures init[i] != x {
          assert init[i] == s[i];
        }
      }
      assert a in s <==> a in init || a == x;
      assert b in s <==> b in init || b == x;
      if x == a {
        assert |Without(s, a, b)| == |Without(init, a, b)|;
      } else if x == b {
        assert |Without(s, a, b)| == |Without(init, a, b)|;
      } else {
        assert |Without(s, a, b)| == |Without(init, a, b)| + 1;
      }
    }
  }

  /** What the call to the backend gave: the response, a timeout (AbortError) or another error. */
  datatype FetchOutcome = Fetched(data: Response) | Aborted | Failed(message: Option<string>)

  /**
   * runAlgorithm: nothing while a run is on or before both ends are placed.
   * Otherwise the visited cells, then the path, are animated, the run is
   * marked complete and the statistics are shown. On an error the catch
   * block writes its message, but the finally block clears isRunning in
   * the same render, so the effect replaces the message by the instruction
   * the flags call for: a failed run ends as it started, only the grid
   * untouched.
   */
  method RunAlgorithm(s: PathfindingState, grid: Grid, speed: real, algorithm: string, startSet: bool, endSet: bool, gridSize: int, outcome: FetchOutcome)
    returns (r: PathfindingState, g: Grid)
    ensures s.isRunning || !startSet || !endSet ==> r == s && g == grid
    ensures !s.isRunning && startSet && endSet ==> !r.isRunning && Shows(r, startSet, endSet)
    ensures !s.isRunning && startSet && endSet && outcome.Fetched? ==>
      && g == MarkCells(MarkCells(grid, outcome.data.visitedPath, VisitedMark), outcome.data.path, PathMark)
      && r.runCompleted && r.instruction == COMPLETED
      && r.showStats && r.stats == Stats(algorithm, outcome.data, grid, gridSize)
    ensures !s.isRunning && startSet && endSet && !outcome.Fetched? ==>
      && g == grid && r.runCompleted == s.runCompleted
      && r.showStats == s.showStats && r.stats == s.stats
      && r.instruction != TIMED_OUT && r.instruction != RUN_ERROR
  {
    if s.isRunning || !startSet || !endSet {
      return s, grid;
    }
    r := s.(isRunning := true);
    r := r.(instruction := Rendered(FlagsOf(s, startSet, endSet), FlagsOf(r, startSet, endSet), r.instruction));
    g := grid;
    var before := FlagsOf(r, startSet, endSet);
    match outcome
    case Fetched(data) =>
      var batchSize := BatchSize(speed);
      ghost var visitedBatches, pathBatches;
      g, visitedBatches := Animate(g, data.visitedPath, batchSize, VisitedMark);
      g, pathBatches := Animate(g, data.path, batchSize, PathMark);
      r := r.(runCompleted := true, instruction := COMPLETED, isRunning := false);
      r := r.(instruction := Rendered(before, FlagsOf(r, startSet, endSet), r.instruction));
      var stats := ComputeStats(algorithm, data, grid, gridSize);
      r := r.(stats := stats, showStats := true);
    case Aborted =>
      r := r.(instruction := TIMED_OUT, isRunning := false);
      r := r.(instruction := Rendered(before, FlagsOf(r, startSet, endSet), r.instruction));
    case Failed(message) =>
      r := r.(instruction := if message.Some? then message.value else RUN_ERROR, isRunning := false);
      r := r.(instruction := Rendered(before, FlagsOf(r, startSet, endSet), r.instruction));
  }

  /**
   * handleRunOrReset: after a completed run the button resets, clearing the
   * flag and every animation mark and keeping the statistics; otherwise it
   * starts a run, with every case of runAlgorithm: nothing while running or
   * before both ends are placed, the drawn grid and its statistics on a
   * response, and an untouched grid and statistics on a failure.
   */
  method HandleRunOrReset(s: PathfindingState, grid: Grid, speed: real, algorithm: string, startSet: bool, endSet: bool, gridSize: int, outcome: FetchOutcome)
    returns (r: PathfindingState, g: Grid)
    ensures s.runCompleted ==> !r.runCompleted && r.isRunning == s.isRunning && g == UseGrid.ResetPath(grid)
    ensures s.runCompleted && !s.isRunning ==> Shows(r, startSet, endSet)
    ensures s.runCompleted ==> r.stats == s.stats && r.showStats == s.showStats
    ensures !s.runCompleted && (s.isRunning || !startSet || !endSet) ==> r == s && g == grid
    ensures !s.runCompleted && !s.isRunning && startSet && endSet ==> !r.isRunning && Shows(r, startSet, endSet)
    ensures !s.runCompleted && !s.isRunning && startSet && endSet && outcome.Fetched? ==>
      && g == MarkCells(MarkCells(grid, outcome.data.visitedPath, VisitedMark), outcome.data.path, PathMark)
      && r.runCompleted && r.instruction == COMPLETED
      && r.showStats && r.stats == Stats(algorithm, outcome.data, grid, gridSize)
    ensures !s.runCompleted && !s.isRunning && startSet && endSet && !outcome.Fetched? ==>
      g == grid && !r.runCompleted && r.stats == s.stats && r.showStats == s.showStats
  {
    if s.runCompleted {
      r := s.(runCompleted := false);
      r := r.(instruction := Rendered(FlagsOf(s, startSet, endSet), FlagsOf(r, startSet, endSet), r.instruction));
      g := UseGrid.ResetPath(grid);
    } else {
      r, g := RunAlgorithm(s, grid, speed, algorithm, startSet, endSet, gridSize, outcome);
    }
  }

  /** A completed run followed by RESET leaves the grid as RESET alone would have left it before the run. */
  lemma RunThenReset(grid: Grid, data: Response)
    ensures UseGrid.ResetPath(MarkCells(MarkCells(grid, data.visitedPath, VisitedMark), data.path, PathMark)) == UseGrid.ResetPath(grid)
  {
    ResetUndoesMarks(MarkCells(grid, data.visitedPath, VisitedMark), data.path, PathMark);
    ResetUndoesMarks(grid, data.visitedPath, VisitedMark);
  }

  /** reset (CLEAR): both flags down, the instruction following them. */
  function Reset(s: PathfindingState, startSet: bool, endSet: bool): (r: PathfindingState)
    ensures !r.isRunning && !r.runCompleted
    ensures s.isRunning || s.runCompleted ==> Shows(r, startSet, endSet)
    ensures r.stats == s.stats && r.showStats == s.showStats
    ensures !s.isRunning && !s.runCompleted ==> r.instruction == s.instruction
  {
    var cleared := s.(isRunning := false, runCompleted := false);
    cleared.(instruction := Rendered(FlagsOf(s, startSet, endSet), FlagsOf(cleared, startSet, endSet), cleared.instruction))
  }
}
