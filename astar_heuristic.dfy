/**
 * The distance estimate of the A* searches (heuristic in
 * service/algorithm/AStarService.java and, without diagonals, in the legacy
 * service/AStarService.java): Manhattan distance on a 4-direction grid and
 * octile distance on an 8-direction one.
 */
module AStarHeuristic {
  import opened GridModel
  import opened Walks

  function Abs(n: int): nat {
    if n < 0 then -n else n
  }

  function Min(a: int, b: int): int {
    if a < b then a else b
  }

  /** The diagonal estimate on the distances along each axis. */
  function Octile(u: nat, v: nat): real {
    (u + v) as real + (SQRT2 - 2.0) * Min(u, v) as real
  }

  /** heuristic(a, b, allowDiagonal): dx + dy, less (2 - SQRT2) per diagonal step that can replace two straight ones. */
  function Heuristic(a: Point, b: Point, allowDiagonal: bool): (h: real)
    ensures h >= 0.0
    ensures h == 0.0 <==> a == b
    ensures !allowDiagonal ==> h == (Abs(a.x - b.x) + Abs(a.y - b.y)) as real
  {
    var dx := Abs(a.x - b.x);
    var dy := Abs(a.y - b.y);
    if allowDiagonal then Octile(dx, dy) else (dx + dy) as real
  }

  /** Moving each axis distance by at most one changes the octile estimate by at most the price of that move. */
  lemma OctileStep(u: nat, v: nat, u': nat, v': nat, c: real)
    requires -1 <= u - u' <= 1 && -1 <= v - v' <= 1
    requires c >= 1.0 && (u != u' && v != v' ==> c >= SQRT2)
    ensures Octile(u, v) <= c + Octile(u', v')
  {
    if u <= v && u' <= v' {
      assert Octile(u, v) == v as real + (SQRT2 - 1.0) * u as real;
      assert Octile(u', v') == v' as real + (SQRT2 - 1.0) * u' as real;
    } else if v <= u && v' <= u' {
      assert Octile(u, v) == u as real + (SQRT2 - 1.0) * v as real;
      assert Octile(u', v') == u' as real + (SQRT2 - 1.0) * v' as real;
    } else if u <= v {
      assert Octile(u, v) == v as real + (SQRT2 - 1.0) * u as real;
      assert Octile(u', v') == u' as real + (SQRT2 - 1.0) * v' as real;
    } else {
      assert Octile(u, v) == u as real + (SQRT2 - 1.0) * v as real;
      assert Octile(u', v') == v' as real + (SQRT2 - 1.0) * u' as real;
    }
  }

  /** A move changes each coordinate by at most one, and on a 4-direction grid only one of them. */
  lemma StepOffset(g: GridGraph, a: Point, b: Point)
    requires IsStep(g, a, b)
    ensures -1 <= b.x - a.x <= 1 && -1 <= b.y - a.y <= 1
    ensures !g.allowDiagonal ==> a.x == b.x || a.y == b.y
  {
    StepIff(g, a, b);
    assert OffsetBetween(a, b) in g.Directions();
  }

  /**
   * Consistency: one move lowers the estimate by at most what the move
   * costs, and on a 4-direction grid by at most one move.
   */
  lemma HeuristicStep(g: GridGraph, a: Point, b: Point, t: Point)
    requires IsStep(g, a, b)
    ensures Heuristic(a, t, g.allowDiagonal) <= g.MovementCost(a, b) + Heuristic(b, t, g.allowDiagonal)
    ensures !g.allowDiagonal ==> Heuristic(a, t, false) <= 1.0 + Heuristic(b, t, false)
  {
    StepOffset(g, a, b);
    assert g.IsDiagonalMove(a, b) <==> a.x != b.x && a.y != b.y;
    EstimateStep(a, b, t, g.allowDiagonal, g.MovementCost(a, b));
    if !g.allowDiagonal {
      EstimateStep(a, b, t, false, 1.0);
    }
  }

  /** The estimate drops by at most c over an offset of at most one per axis that costs c. */
  lemma EstimateStep(a: Point, b: Point, t: Point, allowDiagonal: bool, c: real)
    requires -1 <= b.x - a.x <= 1 && -1 <= b.y - a.y <= 1
    requires !allowDiagonal ==> a.x == b.x || a.y == b.y
    requires c >= 1.0 && (a.x != b.x && a.y != b.y ==> c >= SQRT2)
    ensures Heuristic(a, t, allowDiagonal) <= c + Heuristic(b, t, allowDiagonal)
  {
    var u, v, u', v' := Abs(a.x - t.x), Abs(a.y - t.y), Abs(b.x - t.x), Abs(b.y - t.y);
    assert -1 <= u as int - u' <= 1 && -1 <= v as int - v' <= 1;
    HeuristicUnfold(a, t);
    HeuristicUnfold(b, t);
    if allowDiagonal {
      OctileStep(u, v, u', v', c);
    } else {
      assert u == u' || v == v';
    }
  }

  /** The estimate written out on the axis distances. */
  lemma HeuristicUnfold(a: Point, t: Point)
    ensures Heuristic(a, t, true) == Octile(Abs(a.x - t.x), Abs(a.y - t.y))
    ensures Heuristic(a, t, false) == (Abs(a.x - t.x) + Abs(a.y - t.y)) as real
  {
  }

  /** Admissibility: no walk from a to t costs less than the estimate at a, in price or in moves. */
  lemma {:induction false} HeuristicAdmissible(g: GridGraph, p: seq<Point>, t: Point)
    requires IsWalk(g, p) && p[|p| - 1] == t
    ensures Heuristic(p[0], t, g.allowDiagonal) <= WalkCost(g, Cost, p)
    ensures !g.allowDiagonal ==> Heuristic(p[0], t, false) <= (|p| - 1) as real
    decreases |p|
  {
    if |p| > 1 {
      WalkSuffix(g, p, 1);
      HeuristicAdmissible(g, p[1..], t);
      HeuristicStep(g, p[0], p[1], t);
      WalkCostMoves(g, Cost, p);
      WalkCostMoves(g, Cost, p[1..]);
    }
  }
}
