/**
 * Moves, walks, reachability and walk cost over a GridGraph: the vocabulary
 * in which the searches' results are specified.
 */
module Walks {
  import opened Wrappers
  import opened GridModel

  /** One legal move: b is among the neighbours of a when nothing is excluded. */
  predicate IsStep(g: GridGraph, a: Point, b: Point) {
    b in Neighbors(g, a, None)
  }

  lemma StepIff(g: GridGraph, a: Point, b: Point)
    ensures IsStep(g, a, b) <==>
      OffsetBetween(a, b) in g.Directions() && g.IsInBounds(b.x, b.y) && !g.IsImpassable(b)
  {
    NeighborsAlongMembers(g, a, None, g.Directions(), b);
  }

  /** getNeighbors(a, excluded) returns exactly the moves from a that do not land in excluded. */
  lemma ExcludedNeighbors(g: GridGraph, a: Point, excluded: set<Point>, b: Point)
    ensures b in Neighbors(g, a, Some(excluded)) <==> IsStep(g, a, b) && b !in excluded
  {
    NeighborsAlongMembers(g, a, None, g.Directions(), b);
    NeighborsAlongMembers(g, a, Some(excluded), g.Directions(), b);
  }

  lemma AllExcludedNeighbors(g: GridGraph, a: Point, excluded: set<Point>)
    ensures forall b :: b in Neighbors(g, a, Some(excluded)) <==> IsStep(g, a, b) && b !in excluded
  {
    forall b ensures b in Neighbors(g, a, Some(excluded)) <==> IsStep(g, a, b) && b !in excluded {
      ExcludedNeighbors(g, a, excluded, b);
    }
  }

  /** A walk: a non-empty sequence of points, each a legal move from the one before. */
  predicate IsWalk(g: GridGraph, p: seq<Point>) {
    |p| >= 1 && forall i :: 0 <= i < |p| - 1 ==> IsStep(g, p[i], p[i + 1])
  }

  predicate WalkFromTo(g: GridGraph, p: seq<Point>, s: Point, e: Point) {
    IsWalk(g, p) && p[0] == s && p[|p| - 1] == e
  }

  ghost predicate Reachable(g: GridGraph, s: Point, e: Point) {
    exists p :: WalkFromTo(g, p, s, e)
  }

  /** What a search minimises: the number of moves, or the summed getMovementCost. */
  datatype Measure = Moves | Cost

  /** The price of one move under a measure. */
  function StepCost(g: GridGraph, m: Measure, a: Point, b: Point): (c: real)
    ensures c >= 1.0
  {
    match m
    case Moves => 1.0
    case Cost => g.MovementCost(a, b)
  }

  /** The summed price of the moves of a walk. */
  function WalkCost(g: GridGraph, m: Measure, p: seq<Point>): real
    decreases |p|
  {
    if |p| <= 1 then 0.0 else StepCost(g, m, p[0], p[1]) + WalkCost(g, m, p[1..])
  }

  /** The price of a walk is the price of its part up to p[i] plus the price of its part from p[i]. */
  lemma {:induction false} WalkCostSplit(g: GridGraph, m: Measure, p: seq<Point>, i: nat)
    requires i < |p|
    ensures WalkCost(g, m, p) == WalkCost(g, m, p[..i + 1]) + WalkCost(g, m, p[i..])
    decreases i
  {
    if i > 0 {
      WalkCostSplit(g, m, p[1..], i - 1);
      assert p[1..][..i] == p[..i + 1][1..];
      assert p[1..][i - 1..] == p[i..];
    }
  }

  lemma WalkCostAppend(g: GridGraph, m: Measure, p: seq<Point>, x: Point)
    requires |p| >= 1
    ensures WalkCost(g, m, p + [x]) == WalkCost(g, m, p) + StepCost(g, m, p[|p| - 1], x)
  {
    var q := p + [x];
    WalkCostSplit(g, m, q, |p| - 1);
    assert q[..|p|] == p;
    assert q[|p| - 1..] == [p[|p| - 1], x];
  }

  /** Counting moves prices a walk at its number of moves, and every move costs at least one. */
  lemma {:induction false} WalkCostMoves(g: GridGraph, m: Measure, p: seq<Point>)
    requires |p| >= 1
    ensures WalkCost(g, Moves, p) == (|p| - 1) as real
    ensures WalkCost(g, m, p) >= (|p| - 1) as real
    decreases |p|
  {
    if |p| > 1 {
      WalkCostMoves(g, m, p[1..]);
    }
  }

  /** Counting moves, a walk that is no dearer than every other has no more points than any other. */
  lemma FewestMoves(g: GridGraph, path: seq<Point>, s: Point, e: Point)
    requires WalkFromTo(g, path, s, e)
    requires forall p :: WalkFromTo(g, p, s, e) ==> WalkCost(g, Moves, path) <= WalkCost(g, Moves, p)
    ensures forall p :: WalkFromTo(g, p, s, e) ==> |path| <= |p|
  {
    forall p | WalkFromTo(g, p, s, e) ensures |path| <= |p| {
      WalkCostMoves(g, Moves, path);
      WalkCostMoves(g, Moves, p);
    }
  }

  lemma WalkPrefix(g: GridGraph, p: seq<Point>, i: nat)
    requires IsWalk(g, p) && i < |p|
    ensures IsWalk(g, p[..i + 1])
  {
    var q := p[..i + 1];
    forall k | 0 <= k < |q| - 1 ensures IsStep(g, q[k], q[k + 1]) {
      assert q[k] == p[k] && q[k + 1] == p[k + 1];
    }
  }

  lemma WalkSuffix(g: GridGraph, p: seq<Point>, i: nat)
    requires IsWalk(g, p) && i < |p|
    ensures IsWalk(g, p[i..])
  {
    var q := p[i..];
    forall k | 0 <= k < |q| - 1 ensures IsStep(g, q[k], q[k + 1]) {
      assert q[k] == p[i + k] && q[k + 1] == p[i + k + 1];
    }
  }

  lemma WalkAppend(g: GridGraph, p: seq<Point>, x: Point)
    requires IsWalk(g, p) && IsStep(g, p[|p| - 1], x)
    ensures IsWalk(g, p + [x])
  {
    var q := p + [x];
    forall k | 0 <= k < |q| - 1 ensures IsStep(g, q[k], q[k + 1]) {
      if k < |p| - 1 {
        assert q[k] == p[k] && q[k + 1] == p[k + 1];
      }
    }
  }

  /** A set that holds s, is closed under moves and misses e, proves e unreachable from s. */
  ghost predicate ClosedUnderSteps(g: GridGraph, s: set<Point>) {
    forall a, b :: a in s && IsStep(g, a, b) ==> b in s
  }

  lemma {:induction false} WalkStaysInClosedSet(g: GridGraph, closed: set<Point>, p: seq<Point>)
    requires ClosedUnderSteps(g, closed) && IsWalk(g, p) && p[0] in closed
    ensures p[|p| - 1] in closed
    decreases |p|
  {
    if |p| > 1 {
      WalkPrefix(g, p, |p| - 2);
      WalkStaysInClosedSet(g, closed, p[..|p| - 1]);
      assert IsStep(g, p[|p| - 2], p[|p| - 1]);
    }
  }

  lemma ClosedSetBlocks(g: GridGraph, closed: set<Point>, s: Point, e: Point)
    requires ClosedUnderSteps(g, closed) && s in closed && e !in closed
    ensures !Reachable(g, s, e)
  {
    if Reachable(g, s, e) {
      var p :| WalkFromTo(g, p, s, e);
      WalkStaysInClosedSet(g, closed, p);
    }
  }

  /** Every cell of the grid. */
  function Cells(g: GridGraph): set<Point> {
    set x: int, y: int | 0 <= x < g.gridSize && 0 <= y < g.gridSize :: Point(x, y)
  }

  /** The cells a move may land on: in bounds and not impassable. */
  function Passable(g: GridGraph): set<Point> {
    set p | p in Cells(g) && !g.IsImpassable(p)
  }

  lemma StepInPassable(g: GridGraph, a: Point, b: Point)
    requires IsStep(g, a, b)
    ensures b in Passable(g)
  {
    StepIff(g, a, b);
    assert b == Point(b.x, b.y);
  }

  /** A strict subset is strictly smaller: the measure that bounds every search loop. */
  lemma StrictSubsetSmaller<T>(a: set<T>, b: set<T>)
    requires a < b
    ensures |a| < |b|
  {
    assert !(b <= a);
    var x :| x in b && x !in a;
    assert a <= b - {x};
    assert |b - {x}| == |b| - 1;
    SubsetNotLarger(a, b - {x});
  }

  lemma {:induction false} SubsetNotLarger<T>(a: set<T>, b: set<T>)
    requires a <= b
    ensures |a| <= |b|
    decreases |b|
  {
    if a != {} {
      var x :| x in a;
      SubsetNotLarger(a - {x}, b - {x});
    }
  }

  /** Each element occurs at most once. */
  ghost predicate Distinct<T>(s: seq<T>) {
    forall i, j :: 0 <= i < j < |s| ==> s[i] != s[j]
  }

  /** Dropping the last element of a list without repeats leaves one without it. */
  lemma DistinctDropLast<T>(s: seq<T>)
    requires Distinct(s) && s != []
    ensures Distinct(s[..|s| - 1]) && s[|s| - 1] !in s[..|s| - 1]
    ensures forall x :: x in s <==> x in s[..|s| - 1] || x == s[|s| - 1]
  {
    assert s == s[..|s| - 1] + [s[|s| - 1]];
  }

  lemma DistinctAppend<T>(s: seq<T>, x: T)
    requires Distinct(s) && x !in s
    ensures Distinct(s + [x])
  {
  }
}
