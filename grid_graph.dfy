/**
 * The search grid of the backend (model/GridGraph.java): bounds, the
 * 4- or 8-direction neighbourhood, impassable versus weighted barriers and
 * the cost of one move.
 */
module GridModel {
  import opened Wrappers

  /** A request point. Equality is on (x, y) only; weights live in the barrier map. */
  datatype Point = Point(x: int, y: int)

  /** A barrier as it arrives in a request: a point and its weight. */
  datatype Barrier = Barrier(pos: Point, weight: real)

  /** One entry of a direction table. */
  datatype Offset = Offset(dx: int, dy: int)

  const DIRECTIONS_4: seq<Offset> := [Offset(0, 1), Offset(1, 0), Offset(0, -1), Offset(-1, 0)]
  const DIRECTIONS_8: seq<Offset> :=
    [Offset(0, 1), Offset(1, 0), Offset(0, -1), Offset(-1, 0),
     Offset(1, 1), Offset(1, -1), Offset(-1, 1), Offset(-1, -1)]

  /** Math.sqrt(2) as the decimal that denotes the same double. */
  const SQRT2: real := 1.4142135623730951

  function Shift(p: Point, d: Offset): Point {
    Point(p.x + d.dx, p.y + d.dy)
  }

  /** The offset that leads from a to b. */
  function OffsetBetween(a: Point, b: Point): Offset {
    Offset(b.x - a.x, b.y - a.y)
  }

  /**
   * The grid. The Java class has only final fields, filled once by its
   * constructor, so a value of this datatype stands for one instance.
   */
  datatype GridGraph = GridGraph(gridSize: int, allowDiagonal: bool, barriers: map<Point, real>) {

    function Directions(): (dirs: seq<Offset>)
      ensures |dirs| == if allowDiagonal then 8 else 4
    {
      if allowDiagonal then DIRECTIONS_8 else DIRECTIONS_4
    }

    predicate IsInBounds(x: int, y: int) {
      x >= 0 && x < gridSize && y >= 0 && y < gridSize
    }

    /** A barrier whose weight is zero or negative blocks the cell. */
    predicate IsImpassable(p: Point) {
      p in barriers && barriers[p] <= 0.0
    }

    predicate IsDiagonalMove(from: Point, to: Point) {
      from.x != to.x && from.y != to.y
    }

    /** 1 for a straight move, SQRT2 for a diagonal one, plus a positive barrier weight of the target. */
    function MovementCost(from: Point, to: Point): (cost: real)
      ensures cost >= 1.0
      ensures IsDiagonalMove(from, to) ==> cost >= SQRT2
    {
      var baseCost := if IsDiagonalMove(from, to) then SQRT2 else 1.0;
      if to in barriers && barriers[to] > 0.0 then baseCost + barriers[to] else baseCost
    }
  }

  /** The barrier map the constructor builds: a later barrier at the same (x, y) overwrites an earlier one. */
  function BarrierMap(list: seq<Barrier>): map<Point, real> {
    if list == [] then map[]
    else BarrierMap(list[..|list| - 1])[list[|list| - 1].pos := list[|list| - 1].weight]
  }

  /** The keys of the barrier map are exactly the barrier positions, and each carries the weight of its last occurrence. */
  lemma {:induction false} BarrierMapLastWins(list: seq<Barrier>)
    ensures forall p :: p in BarrierMap(list) <==> exists i :: 0 <= i < |list| && list[i].pos == p
    ensures forall i :: 0 <= i < |list| && (forall j :: i < j < |list| ==> list[j].pos != list[i].pos) ==>
              BarrierMap(list)[list[i].pos] == list[i].weight
  {
    if list != [] {
      var init := list[..|list| - 1];
      BarrierMapLastWins(init);
      forall p | p in BarrierMap(list)
        ensures exists i :: 0 <= i < |list| && list[i].pos == p
      {
        if p != list[|list| - 1].pos {
          assert p in BarrierMap(init);
          var i :| 0 <= i < |init| && init[i].pos == p;
          assert list[i].pos == p;
        }
      }
      forall p | exists i :: 0 <= i < |list| && list[i].pos == p
        ensures p in BarrierMap(list)
      {
        var i :| 0 <= i < |list| && list[i].pos == p;
        if i < |init| {
          assert init[i].pos == p;
        }
      }
      forall i | 0 <= i < |list| && (forall j :: i < j < |list| ==> list[j].pos != list[i].pos)
        ensures BarrierMap(list)[list[i].pos] == list[i].weight
      {
        if i < |init| {
          forall j | i < j < |init| ensures init[j].pos != init[i].pos {
            assert list[j] == init[j];
          }
        }
      }
    }
  }

  /**
   * The GridGraph constructor: the barrier list (null allowed) is put into a
   * hash map keyed by (x, y), one entry after the other.
   */
  method NewGridGraph(gridSize: int, barrierList: Option<seq<Barrier>>, allowDiagonal: bool) returns (g: GridGraph)
    ensures g.gridSize == gridSize && g.allowDiagonal == allowDiagonal
    ensures g.barriers == if barrierList.Some? then BarrierMap(barrierList.value) else map[]
  {
    var barriers: map<Point, real> := map[];
    if barrierList.Some? {
      var list := barrierList.value;
      for k := 0 to |list|
        invariant barriers == BarrierMap(list[..k])
      {
        assert list[..k + 1][..k] == list[..k];
        barriers := barriers[list[k].pos := list[k].weight];
      }
      assert list[..|list|] == list;
    }
    g := GridGraph(gridSize, allowDiagonal, barriers);
  }

  predicate IsExcluded(excluded: Option<set<Point>>, p: Point) {
    excluded.Some? && p in excluded.value
  }

  /** The cell one offset away, if the loop body of getNeighbors keeps it. */
  function Candidate(g: GridGraph, current: Point, excluded: Option<set<Point>>, d: Offset): seq<Point> {
    var n := Shift(current, d);
    if !g.IsInBounds(n.x, n.y) || g.IsImpassable(n) || IsExcluded(excluded, n) then [] else [n]
  }

  /** What getNeighbors returns after walking the given prefix of the direction table. */
  function NeighborsAlong(g: GridGraph, current: Point, excluded: Option<set<Point>>, dirs: seq<Offset>): seq<Point> {
    if dirs == [] then []
    else NeighborsAlong(g, current, excluded, dirs[..|dirs| - 1]) + Candidate(g, current, excluded, dirs[|dirs| - 1])
  }

  function Neighbors(g: GridGraph, current: Point, excluded: Option<set<Point>>): seq<Point> {
    NeighborsAlong(g, current, excluded, g.Directions())
  }

  /** getNeighbors: a loop over the direction table that skips out-of-bounds, impassable and excluded cells. */
  method GetNeighbors(g: GridGraph, current: Point, excluded: Option<set<Point>>) returns (neighbors: seq<Point>)
    ensures neighbors == Neighbors(g, current, excluded)
    ensures forall n :: n in neighbors <==>
      OffsetBetween(current, n) in g.Directions() && g.IsInBounds(n.x, n.y) && !g.IsImpassable(n) && !IsExcluded(excluded, n)
  {
    var directions := if g.allowDiagonal then DIRECTIONS_8 else DIRECTIONS_4;
    neighbors := [];
    for k := 0 to |directions|
      invariant neighbors == NeighborsAlong(g, current, excluded, directions[..k])
    {
      NeighborsAlongStep(g, current, excluded, directions, k);
      var newX := current.x + directions[k].dx;
      var newY := current.y + directions[k].dy;
      if !g.IsInBounds(newX, newY) {
        continue;
      }
      var neighbor := Point(newX, newY);
      if g.IsImpassable(neighbor) {
        continue;
      }
      if excluded.Some? && neighbor in excluded.value {
        continue;
      }
      neighbors := neighbors + [neighbor];
    }
    assert directions[..|directions|] == directions;
    forall n ensures n in neighbors <==>
      OffsetBetween(current, n) in g.Directions() && g.IsInBounds(n.x, n.y) && !g.IsImpassable(n) && !IsExcluded(excluded, n)
    {
      NeighborsAlongMembers(g, current, excluded, directions, n);
    }
  }

  /** One more direction appends its candidate. */
  lemma NeighborsAlongStep(g: GridGraph, current: Point, excluded: Option<set<Point>>, dirs: seq<Offset>, k: int)
    requires 0 <= k < |dirs|
    ensures NeighborsAlong(g, current, excluded, dirs[..k + 1]) ==
      NeighborsAlong(g, current, excluded, dirs[..k]) + Candidate(g, current, excluded, dirs[k])
  {
    assert dirs[..k + 1][..k] == dirs[..k];
  }

  /** Membership in the neighbour list, both directions: soundness and completeness. */
  lemma {:induction false} NeighborsAlongMembers(g: GridGraph, current: Point, excluded: Option<set<Point>>, dirs: seq<Offset>, n: Point)
    ensures n in NeighborsAlong(g, current, excluded, dirs) <==>
      OffsetBetween(current, n) in dirs && g.IsInBounds(n.x, n.y) && !g.IsImpassable(n) && !IsExcluded(excluded, n)
  {
    if dirs != [] {
      var init := dirs[..|dirs| - 1];
      var d := dirs[|dirs| - 1];
      NeighborsAlongMembers(g, current, excluded, init, n);
      assert dirs == init + [d];
      assert Shift(current, d) == n <==> OffsetBetween(current, n) == d;
    }
  }

  /** At most one neighbour per direction: at most 4, or 8 with diagonals. */
  lemma {:induction false} NeighborsAlongLength(g: GridGraph, current: Point, excluded: Option<set<Point>>, dirs: seq<Offset>)
    ensures |NeighborsAlong(g, current, excluded, dirs)| <= |dirs|
  {
    if dirs != [] {
      NeighborsAlongLength(g, current, excluded, dirs[..|dirs| - 1]);
    }
  }

  /** Index of the first occurrence of an offset in a table, or |dirs| when it is absent. */
  function IndexOf(dirs: seq<Offset>, d: Offset): (i: nat)
    ensures i <= |dirs|
    ensures i < |dirs| ==> dirs[i] == d
    ensures forall j :: 0 <= j < i ==> dirs[j] != d
  {
    if dirs == [] then 0 else if dirs[0] == d then 0 else 1 + IndexOf(dirs[1..], d)
  }

  lemma IndexOfPrefix(dirs: seq<Offset>, k: nat, d: Offset)
    requires k <= |dirs|
    requires d in dirs[..k]
    ensures IndexOf(dirs[..k], d) == IndexOf(dirs, d)
  {
    var i := IndexOf(dirs[..k], d);
    assert dirs[..k][i] == d;
  }

  /**
   * The neighbours come out in direction-table order: the offsets that lead
   * to them have strictly increasing positions in the table.
   */
  lemma {:induction false} NeighborsAlongOrdered(g: GridGraph, current: Point, excluded: Option<set<Point>>, dirs: seq<Offset>)
    requires forall i, j :: 0 <= i < j < |dirs| ==> dirs[i] != dirs[j]
    ensures forall i, j :: 0 <= i < j < |NeighborsAlong(g, current, excluded, dirs)| ==>
      IndexOf(dirs, OffsetBetween(current, NeighborsAlong(g, current, excluded, dirs)[i]))
        < IndexOf(dirs, OffsetBetween(current, NeighborsAlong(g, current, excluded, dirs)[j])) < |dirs|
  {
    var r := NeighborsAlong(g, current, excluded, dirs);
    if dirs != [] {
      var init := dirs[..|dirs| - 1];
      var d := dirs[|dirs| - 1];
      var r0 := NeighborsAlong(g, current, excluded, init);
      NeighborsAlongOrdered(g, current, excluded, init);
      forall i, j | 0 <= i < j < |r|
        ensures IndexOf(dirs, OffsetBetween(current, r[i])) < IndexOf(dirs, OffsetBetween(current, r[j])) < |dirs|
      {
        NeighborsAlongMembers(g, current, excluded, init, r[i]);
        assert r[i] in r0;
        IndexOfPrefix(dirs, |dirs| - 1, OffsetBetween(current, r[i]));
        if j < |r0| {
          NeighborsAlongMembers(g, current, excluded, init, r[j]);
          IndexOfPrefix(dirs, |dirs| - 1, OffsetBetween(current, r[j]));
        } else {
          assert r[j] == Shift(current, d);
          assert OffsetBetween(current, r[j]) == d;
          assert IndexOf(dirs, d) == |dirs| - 1;
        }
      }
    }
  }

  /** The neighbour list is duplicate-free, because the table's offsets are distinct. */
  lemma NeighborsDistinct(g: GridGraph, current: Point, excluded: Option<set<Point>>)
    ensures var r := Neighbors(g, current, excluded);
      forall i, j :: 0 <= i < j < |r| ==> r[i] != r[j]
  {
    var r := Neighbors(g, current, excluded);
    NeighborsAlongOrdered(g, current, excluded, g.Directions());
    forall i, j | 0 <= i < j < |r| ensures r[i] != r[j] {
      assert IndexOf(g.Directions(), OffsetBetween(current, r[i])) < IndexOf(g.Directions(), OffsetBetween(current, r[j]));
    }
  }

  /** getNeighbors in full: bounds, passability, exclusion, count and table order. */
  lemma NeighborsProperties(g: GridGraph, current: Point, excluded: Option<set<Point>>)
    ensures var r := Neighbors(g, current, excluded);
      && |r| <= (if g.allowDiagonal then 8 else 4)
      && (forall n :: n in r ==> g.IsInBounds(n.x, n.y) && !g.IsImpassable(n) && !IsExcluded(excluded, n))
      && (forall n :: n in r ==> OffsetBetween(current, n) in g.Directions())
      && (forall d :: d in g.Directions() && g.IsInBounds(Shift(current, d).x, Shift(current, d).y)
                      && !g.IsImpassable(Shift(current, d)) && !IsExcluded(excluded, Shift(current, d))
                      ==> Shift(current, d) in r)
      && (forall i, j :: 0 <= i < j < |r| ==>
            IndexOf(g.Directions(), OffsetBetween(current, r[i])) < IndexOf(g.Directions(), OffsetBetween(current, r[j])))
  {
    var dirs := g.Directions();
    NeighborsAlongLength(g, current, excluded, dirs);
    NeighborsAlongOrdered(g, current, excluded, dirs);
    forall n ensures n in Neighbors(g, current, excluded) <==>
      OffsetBetween(current, n) in dirs && g.IsInBounds(n.x, n.y) && !g.IsImpassable(n) && !IsExcluded(excluded, n)
    {
      NeighborsAlongMembers(g, current, excluded, dirs, n);
    }
    forall d | d in dirs ensures OffsetBetween(current, Shift(current, d)) == d { }
  }

  /**
   * What getMovementCost promises a search. A move never costs less than
   * the same move on a grid without barriers, and that plain cost is 1 for
   * a straight move and SQRT2, below two straight moves, for a diagonal one.
   * A positive weight on the target adds exactly itself, a heavier target
   * is never cheaper to enter, and the barriers of other cells play no part.
   */
  lemma MovementCostProperties(g: GridGraph, from: Point, to: Point, p: Point, w: real)
    ensures g.MovementCost(from, to) >= g.(barriers := map[]).MovementCost(from, to)
    ensures g.(barriers := map[]).MovementCost(from, to) == if g.IsDiagonalMove(from, to) then SQRT2 else 1.0
    ensures SQRT2 < 2.0
    ensures w > 0.0 ==> g.(barriers := g.barriers[to := w]).MovementCost(from, to) == g.(barriers := map[]).MovementCost(from, to) + w
    ensures w >= (if to in g.barriers then g.barriers[to] else 0.0) ==>
      g.(barriers := g.barriers[to := w]).MovementCost(from, to) >= g.MovementCost(from, to)
    ensures p != to ==> g.(barriers := g.barriers[p := w]).MovementCost(from, to) == g.MovementCost(from, to)
  {
  }
}
