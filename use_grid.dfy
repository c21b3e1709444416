/**
 * hooks/useGrid.ts: the grid editor. React state is replaced, never changed
 * in place, so the hook's state is a value and each handler a function from
 * the old state to the new one. buildRequest walks the grid with nested
 * forEach loops, modelled as a method with two loops.
 */
module UseGrid {
  import opened Wrappers
  import opened GridModel
  import opened Cells

  /** The hook's state: the grid, whether start and end are placed, and whether a drag is in progress. */
  datatype GridState = GridState(grid: Grid, startSet: bool, endSet: bool, isPressing: bool)

  /** The state after mounting: the grid createGrid made, nothing placed. */
  function Mounted(created: Grid): (s: GridState)
    ensures s.grid == created && !s.startSet && !s.endSet && !s.isPressing
  {
    GridState(created, false, false, false)
  }

  /**
   * updateCell(cell, newType): the cell at cell's row and column takes the
   * new type and cell's weight; every other cell is left as it was.
   */
  function UpdateCell(grid: Grid, cell: Cell, newType: CellType): (r: Grid)
    ensures SameShape(r, grid)
    ensures WellFormed(grid) ==> WellFormed(r)
    ensures forall i, j :: InGrid(grid, i, j) && (i != cell.row || j != cell.col) && WellFormed(grid) ==> r[i][j] == grid[i][j]
    ensures InGrid(grid, cell.row, cell.col) && WellFormed(grid) ==>
      var c := grid[cell.row][cell.col];
      r[cell.row][cell.col] == Cell(c.row, c.col, newType, cell.weight, c.state)
  {
    seq(|grid|, i requires 0 <= i < |grid| =>
      seq(|grid[i]|, j requires 0 <= j < |grid[i]| =>
        var c := grid[i][j];
        if c.row == cell.row && c.col == cell.col then c.(cellType := newType, weight := cell.weight) else c))
  }

  /**
   * handleCellPress(cell, isRunning): ignored while running; the first
   * press places the start, the second the end; after that an empty cell
   * becomes an obstacle of the selected weight and an obstacle, unless a
   * drag is in progress, becomes empty with weight 1.
   */
  function HandleCellPress(s: GridState, cell: Cell, isRunning: bool, selectedWeight: Weight): (r: GridState)
    ensures r.isPressing == s.isPressing && SameShape(r.grid, s.grid)
    ensures isRunning ==> r == s
    ensures !isRunning && !s.startSet ==> r.startSet && r.endSet == s.endSet && r.grid == UpdateCell(s.grid, cell, Start)
    ensures !isRunning && s.startSet && !s.endSet ==> r.startSet && r.endSet && r.grid == UpdateCell(s.grid, cell, End)
    ensures !isRunning && s.startSet && s.endSet ==> r.startSet && r.endSet
    ensures !isRunning && s.startSet && s.endSet && cell.cellType == Empty ==>
      r.grid == UpdateCell(s.grid, cell.(weight := selectedWeight), Obstacle)
    ensures !isRunning && s.startSet && s.endSet && cell.cellType == Obstacle && !s.isPressing ==>
      r.grid == UpdateCell(s.grid, cell.(weight := Finite(1)), Empty)
    ensures s.startSet && s.endSet && cell.cellType != Empty && (cell.cellType != Obstacle || s.isPressing) ==> r == s
  {
    if isRunning then s
    else if !s.startSet then s.(grid := UpdateCell(s.grid, cell, Start), startSet := true)
    else if !s.endSet then s.(grid := UpdateCell(s.grid, cell, End), endSet := true)
    else if cell.cellType == Empty then s.(grid := UpdateCell(s.grid, cell.(weight := selectedWeight), Obstacle))
    else if cell.cellType == Obstacle && !s.isPressing then s.(grid := UpdateCell(s.grid, cell.(weight := Finite(1)), Empty))
    else s
  }

  /** resetGrid: both flags cleared and a fresh grid from createGrid. */
  function ResetGrid(s: GridState, created: Grid): (r: GridState)
    ensures r.grid == created && !r.startSet && !r.endSet && r.isPressing == s.isPressing
  {
    s.(grid := created, startSet := false, endSet := false)
  }

  /** resetPath: every cell loses its animation state; type, weight and position stay. */
  function ResetPath(grid: Grid): (r: Grid)
    ensures SameShape(r, grid)
    ensures forall i, j :: InGrid(grid, i, j) ==> r[i][j] == grid[i][j].(state := None)
  {
    seq(|grid|, i requires 0 <= i < |grid| =>
      seq(|grid[i]|, j requires 0 <= j < |grid[i]| => grid[i][j].(state := None)))
  }

  /** Clearing the animation state twice is clearing it once. */
  lemma ResetPathIdempotent(grid: Grid)
    ensures ResetPath(ResetPath(grid)) == ResetPath(grid)
  {
    forall i | 0 <= i < |grid| ensures ResetPath(ResetPath(grid))[i] == ResetPath(grid)[i] { }
  }

  /**
   * The placement protocol the presses keep on a well-formed grid: at most
   * one start and one end cell; no start or end before the start is placed,
   * no end before the end is placed, and the end cell present once it is.
   */
  ghost predicate Placed(s: GridState) {
    && WellFormed(s.grid)
    && AtMostOne(s.grid, Start) && AtMostOne(s.grid, End)
    && (!s.startSet ==> NoneOf(s.grid, Start) && !s.endSet)
    && (!s.endSet ==> NoneOf(s.grid, End))
    && (s.endSet ==> exists i, j :: HasTypeAt(s.grid, End, i, j))
  }

  /** A blank grid from createGrid starts the protocol. */
  lemma MountedPlaced(created: Grid)
    requires WellFormed(created) && NoneOf(created, Start) && NoneOf(created, End)
    ensures Placed(Mounted(created))
    ensures Placed(ResetGrid(Mounted(created), created))
  {
  }

  /** Pressing a cell of the grid keeps the placement protocol. */
  lemma PressPlaced(s: GridState, i: int, j: int, isRunning: bool, selectedWeight: Weight)
    requires Placed(s) && InGrid(s.grid, i, j)
    ensures Placed(HandleCellPress(s, s.grid[i][j], isRunning, selectedWeight))
  {
    var cell := s.grid[i][j];
    var r := HandleCellPress(s, cell, isRunning, selectedWeight);
    if !isRunning && !s.startSet {
      forall k, l | HasTypeAt(r.grid, Start, k, l) ensures k == i && l == j { }
    } else if !isRunning && !s.endSet {
      assert HasTypeAt(r.grid, End, i, j);
      forall k, l | HasTypeAt(r.grid, End, k, l) ensures k == i && l == j { }
      forall k, l | HasTypeAt(r.grid, Start, k, l) ensures HasTypeAt(s.grid, Start, k, l) {
        if k != i || l != j {
          assert r.grid[k][l] == s.grid[k][l];
        }
      }
    } else if !isRunning && r != s {
      forall k, l | InGrid(r.grid, k, l)
        ensures HasTypeAt(r.grid, Start, k, l) == HasTypeAt(s.grid, Start, k, l)
        ensures HasTypeAt(r.grid, End, k, l) == HasTypeAt(s.grid, End, k, l)
      {
        if k != i || l != j {
          assert r.grid[k][l] == s.grid[k][l];
        }
      }
      var k, l :| HasTypeAt(s.grid, End, k, l);
      assert HasTypeAt(r.grid, End, k, l);
    }
  }

  /**
   * The second press is not checked against the start: pressing the start
   * cell again turns it into the end, and the grid is left with startSet
   * true but no start cell.
   */
  lemma SecondPressOnStart(s: GridState, i: int, j: int, selectedWeight: Weight)
    requires Placed(s) && s.startSet && !s.endSet && HasTypeAt(s.grid, Start, i, j)
    ensures var r := HandleCellPress(s, s.grid[i][j], false, selectedWeight);
      r.startSet && r.endSet && NoneOf(r.grid, Start)
  {
    var r := HandleCellPress(s, s.grid[i][j], false, selectedWeight);
    forall k, l | InGrid(r.grid, k, l) ensures r.grid[k][l].cellType != Start {
      if k != i || l != j {
        assert r.grid[k][l] == s.grid[k][l];
        assert !HasTypeAt(s.grid, Start, k, l);
      }
    }
  }

  /** The request body buildRequest produces (services/api.ts PathfindingApiRequest). */
  datatype ApiRequest = ApiRequest(
    gridSize: int,
    start: Option<Point>,
    end: Option<Point>,
    barriers: seq<Barrier>,
    algorithm: string,
    allowDiagonal: bool)

  /** An infinite weight is sent as -1, which the backend reads as impassable. */
  function WireWeight(w: Weight): (r: real)
    ensures r <= 0.0 <==> w == Infinity || w.n <= 0
  {
    match w
    case Infinity => -1.0
    case Finite(n) => n as real
  }

  /** The algorithm name the backend's enum knows: 'A*' becomes 'A_STAR', any other name is sent as it is. */
  function WireAlgorithm(algorithm: string): (r: string)
    ensures algorithm == "A*" <==> r == "A_STAR" && algorithm != "A_STAR"
    ensures algorithm != "A*" ==> r == algorithm
  {
    if algorithm == "A*" then "A_STAR" else algorithm
  }

  /** The barrier pushed for an obstacle cell. */
  function BarrierOf(c: Cell): Barrier {
    Barrier(Point(c.row, c.col), WireWeight(c.weight))
  }

  /** The barrier a cell contributes: one for an obstacle, none otherwise. */
  function CellBarrier(c: Cell): seq<Barrier> {
    if c.cellType == Obstacle then [BarrierOf(c)] else []
  }

  /** The barriers of a row, left to right. */
  function RowBarriers(row: seq<Cell>): seq<Barrier> {
    if row == [] then [] else RowBarriers(row[..|row| - 1]) + CellBarrier(row[|row| - 1])
  }

  /** The barriers of a grid, in row-major order. */
  function GridBarriers(grid: Grid): seq<Barrier> {
    if grid == [] then [] else GridBarriers(grid[..|grid| - 1]) + RowBarriers(grid[|grid| - 1])
  }

  /** A later find overrides an earlier one. */
  function Later(earlier: Option<Point>, later: Option<Point>): Option<Point> {
    if later.Some? then later else earlier
  }

  /** The position of the last cell of a row with the given type. */
  function LastInRow(row: seq<Cell>, t: CellType): Option<Point> {
    if row == [] then None
    else Later(LastInRow(row[..|row| - 1], t),
               if row[|row| - 1].cellType == t then Some(Point(row[|row| - 1].row, row[|row| - 1].col)) else None)
  }

  /** The position of the last cell of the grid, in row-major order, with the given type. */
  function LastInGrid(grid: Grid, t: CellType): Option<Point> {
    if grid == [] then None else Later(LastInGrid(grid[..|grid| - 1], t), LastInRow(grid[|grid| - 1], t))
  }

  /**
   * buildRequest: one pass over the grid in row-major order. The start and
   * the end are the last cells of their type (null when there is none), and
   * every obstacle is pushed as a barrier, Infinity sent as -1.
   */
  method BuildRequest(grid: Grid, gridSize: int, algorithm: string, allowDiagonal: bool) returns (req: ApiRequest)
    ensures req.gridSize == gridSize && req.allowDiagonal == allowDiagonal
    ensures req.algorithm == WireAlgorithm(algorithm)
    ensures req.barriers == GridBarriers(grid)
    ensures req.start == LastInGrid(grid, Start) && req.end == LastInGrid(grid, End)
  {
    var start: Option<Point> := None;
    var end: Option<Point> := None;
    var barriers: seq<Barrier> := [];
    for i := 0 to |grid|
      invariant barriers == GridBarriers(grid[..i])
      invariant start == LastInGrid(grid[..i], Start) && end == LastInGrid(grid[..i], End)
    {
      assert grid[..i + 1][..i] == grid[..i];
      start, end, barriers := ScanRow(grid[i], start, end, barriers);
    }
    assert grid[..|grid|] == grid;
    req := ApiRequest(gridSize, start, end, barriers, WireAlgorithm(algorithm), allowDiagonal);
  }

  /** The inner loop of buildRequest over one row. */
  method ScanRow(row: seq<Cell>, start0: Option<Point>, end0: Option<Point>, barriers0: seq<Barrier>)
    returns (start: Option<Point>, end: Option<Point>, barriers: seq<Barrier>)
    ensures barriers == barriers0 + RowBarriers(row)
    ensures start == Later(start0, LastInRow(row, Start)) && end == Later(end0, LastInRow(row, End))
  {
    start, end, barriers := start0, end0, barriers0;
    for j := 0 to |row|
      invariant barriers == barriers0 + RowBarriers(row[..j])
      invariant start == Later(start0, LastInRow(row[..j], Start))
      invariant end == Later(end0, LastInRow(row[..j], End))
    {
      assert row[..j + 1][..j] == row[..j];
      var cell := row[j];
      if cell.cellType == Start {
        start := Some(Point(cell.row, cell.col));
      }
      if cell.cellType == End {
        end := Some(Point(cell.row, cell.col));
      }
      if cell.cellType == Obstacle {
        barriers := barriers + [BarrierOf(cell)];
      }
    }
    assert row[..|row|] == row;
  }

  /** The barriers of a row are exactly those of its obstacle cells. */
  lemma {:induction false} RowBarriersMembers(row: seq<Cell>, b: Barrier)
    ensures b in RowBarriers(row) <==> exists j :: 0 <= j < |row| && row[j].cellType == Obstacle && b == BarrierOf(row[j])
    decreases |row|
  {
    if row != [] {
      var init := row[..|row| - 1];
      RowBarriersMembers(init, b);
      if b in RowBarriers(init) {
        var j :| 0 <= j < |init| && init[j].cellType == Obstacle && b == BarrierOf(init[j]);
        assert row[j] == init[j];
      }
      if exists j :: 0 <= j < |row| && row[j].cellType == Obstacle && b == BarrierOf(row[j]) {
        var j :| 0 <= j < |row| && row[j].cellType == Obstacle && b == BarrierOf(row[j]);
        if j < |init| {
          assert init[j] == row[j];
        }
      }
    }
  }

  /** The barriers sent are exactly those of the obstacle cells of the grid. */
  lemma {:induction false} GridBarriersMembers(grid: Grid, b: Barrier)
    ensures b in GridBarriers(grid) <==> exists i, j :: HasTypeAt(grid, Obstacle, i, j) && b == BarrierOf(grid[i][j])
    decreases |grid|
  {
    if grid != [] {
      var n := |grid| - 1;
      var init := grid[..n];
      GridBarriersMembers(init, b);
      RowBarriersMembers(grid[n], b);
      if b in GridBarriers(init) {
        var i, j :| HasTypeAt(init, Obstacle, i, j) && b == BarrierOf(init[i][j]);
        assert grid[i] == init[i];
        assert HasTypeAt(grid, Obstacle, i, j);
      }
      if b in RowBarriers(grid[n]) {
        var j :| 0 <= j < |grid[n]| && grid[n][j].cellType == Obstacle && b == BarrierOf(grid[n][j]);
        assert HasTypeAt(grid, Obstacle, n, j);
      }
      if exists i, j :: HasTypeAt(grid, Obstacle, i, j) && b == BarrierOf(grid[i][j]) {
        var i, j :| HasTypeAt(grid, Obstacle, i, j) && b == BarrierOf(grid[i][j]);
        if i < n {
          assert init[i] == grid[i];
          assert HasTypeAt(init, Obstacle, i, j);
        }
      }
    }
  }

  /** When every barrier at p carries the same weight, the backend's barrier map holds that weight at p. */
  lemma {:induction false} BarrierMapUniform(list: seq<Barrier>, p: Point, w: real)
    requires forall k :: 0 <= k < |list| && list[k].pos == p ==> list[k].weight == w
    ensures p in BarrierMap(list) ==> BarrierMap(list)[p] == w
    decreases |list|
  {
    if list != [] {
      BarrierMapUniform(list[..|list| - 1], p, w);
    }
  }

  /**
   * What the backend makes of the request: on a well-formed grid its
   * barrier map holds exactly the obstacle cells, each with the weight the
   * cell shows, Infinity as -1. So an obstacle of infinite weight is
   * impassable and, when the grid's finite weights are positive, no other
   * cell is.
   */
  lemma ObstaclesReachBackend(grid: Grid, gridSize: int, allowDiagonal: bool, i: int, j: int)
    requires WellFormed(grid)
    ensures Point(i, j) in BarrierMap(GridBarriers(grid)) <==> HasTypeAt(grid, Obstacle, i, j)
    ensures HasTypeAt(grid, Obstacle, i, j) ==> BarrierMap(GridBarriers(grid))[Point(i, j)] == WireWeight(grid[i][j].weight)
    ensures (forall k, l :: HasTypeAt(grid, Obstacle, k, l) && grid[k][l].weight.Finite? ==> grid[k][l].weight.n > 0) ==>
      (GridGraph(gridSize, allowDiagonal, BarrierMap(GridBarriers(grid))).IsImpassable(Point(i, j)) <==>
        HasTypeAt(grid, Obstacle, i, j) && grid[i][j].weight == Infinity)
  {
    var list := GridBarriers(grid);
    BarrierMapLastWins(list);
    forall k | 0 <= k < |list| && list[k].pos == Point(i, j)
      ensures HasTypeAt(grid, Obstacle, i, j) && list[k] == BarrierOf(grid[i][j])
    {
      assert list[k] in list;
      GridBarriersMembers(grid, list[k]);
    }
    if HasTypeAt(grid, Obstacle, i, j) {
      GridBarriersMembers(grid, BarrierOf(grid[i][j]));
      var k :| 0 <= k < |list| && list[k] == BarrierOf(grid[i][j]);
      BarrierMapUniform(list, Point(i, j), WireWeight(grid[i][j].weight));
    }
  }

  /** The last cell of a row with the given type is a cell of that type, and there is one unless none has it. */
  lemma {:induction false} LastInRowFinds(row: seq<Cell>, t: CellType)
    ensures LastInRow(row, t).None? <==> forall j :: 0 <= j < |row| ==> row[j].cellType != t
    ensures LastInRow(row, t).Some? ==>
      exists j :: 0 <= j < |row| && row[j].cellType == t && LastInRow(row, t).value == Point(row[j].row, row[j].col)
    decreases |row|
  {
    if row != [] {
      var init := row[..|row| - 1];
      LastInRowFinds(init, t);
      assert forall j :: 0 <= j < |init| ==> init[j] == row[j];
    }
  }

  /**
   * The start (or end) sent is the position of a cell of that type, and it
   * is null exactly when the grid has none; with at most one such cell on a
   * well-formed grid, it is that cell's position.
   */
  lemma {:induction false} LastInGridFinds(grid: Grid, t: CellType)
    ensures LastInGrid(grid, t).None? <==> NoneOf(grid, t)
    ensures LastInGrid(grid, t).Some? ==>
      exists i, j :: HasTypeAt(grid, t, i, j) && LastInGrid(grid, t).value == Point(grid[i][j].row, grid[i][j].col)
    ensures WellFormed(grid) && AtMostOne(grid, t) ==>
      forall i, j :: HasTypeAt(grid, t, i, j) ==> LastInGrid(grid, t) == Some(Point(i, j))
    decreases |grid|
  {
    if grid != [] {
      var n := |grid| - 1;
      var init := grid[..n];
      LastInGridFinds(init, t);
      LastInRowFinds(grid[n], t);
      assert forall i :: 0 <= i < n ==> init[i] == grid[i];
      if LastInRow(grid[n], t).Some? {
        var j :| 0 <= j < |grid[n]| && grid[n][j].cellType == t && LastInRow(grid[n], t).value == Point(grid[n][j].row, grid[n][j].col);
        assert HasTypeAt(grid, t, n, j);
      } else if LastInGrid(init, t).Some? {
        var i, j :| HasTypeAt(init, t, i, j) && LastInGrid(init, t).value == Point(init[i][j].row, init[i][j].col);
        assert HasTypeAt(grid, t, i, j);
      }
      if !NoneOf(grid, t) {
        var i, j :| InGrid(grid, i, j) && grid[i][j].cellType == t;
        if i < n {
          assert HasTypeAt(init, t, i, j);
        }
      }
    }
  }
}
