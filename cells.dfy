/**
 * The front end's grid (types/grid.ts): a rectangular array of cells, each
 * knowing its own row and column, a type, an obstacle weight and, in the
 * current app, an optional animation state.
 */
module Cells {
  import opened Wrappers

  /** CellType. */
  datatype CellType = Empty | Start | End | Obstacle | Visited | PathCell

  /** A weight as the UI holds it: a whole number of cost units, or Infinity. */
  datatype Weight = Finite(n: int) | Infinity

  /** The optional state field: set by the animations, cleared by resetPath. */
  datatype Mark = VisitedMark | PathMark

  datatype Cell = Cell(row: int, col: int, cellType: CellType, weight: Weight, state: Option<Mark>)

  type Grid = seq<seq<Cell>>

  predicate InGrid(grid: Grid, i: int, j: int) {
    0 <= i < |grid| && 0 <= j < |grid[i]|
  }

  /** Every cell sits at the row and column it records, as createGrid lays them out. */
  ghost predicate WellFormed(grid: Grid) {
    forall i, j :: InGrid(grid, i, j) ==> grid[i][j].row == i && grid[i][j].col == j
  }

  predicate SameShape(a: Grid, b: Grid) {
    |a| == |b| && forall i :: 0 <= i < |a| ==> |a[i]| == |b[i]|
  }

  /** The cells of the given type, by position. */
  predicate HasTypeAt(grid: Grid, t: CellType, i: int, j: int) {
    InGrid(grid, i, j) && grid[i][j].cellType == t
  }

  /** No two cells have the given type. */
  ghost predicate AtMostOne(grid: Grid, t: CellType) {
    forall i, j, k, l :: HasTypeAt(grid, t, i, j) && HasTypeAt(grid, t, k, l) ==> i == k && j == l
  }

  ghost predicate NoneOf(grid: Grid, t: CellType) {
    forall i, j :: InGrid(grid, i, j) ==> grid[i][j].cellType != t
  }
}
