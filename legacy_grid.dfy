/**
 * The grid as the legacy services at the service/ package root see it:
 * four directions (their DIRECTIONS table), the bounds check isValid, and
 * every barrier of the request blocking its cell whatever its weight. The
 * legacy services are modelled as searches over the GridGraph that has no
 * diagonals and gives every barrier the weight -1; the lemmas below show
 * that this graph has exactly the legacy moves, each at price one.
 */
module LegacyGrid {
  import opened Wrappers
  import opened GridModel
  import opened Walks
  import opened Requests
  import opened Shuffling

  /** new HashSet<>(request.getBarriers()), a null list giving the empty set; weights play no part. */
  function BarrierSet(req: Request): set<Point> {
    if req.barriers.Some? then set b | b in req.barriers.value :: b.pos else {}
  }

  /** Every barrier as an impassable GridGraph barrier. */
  function Blocked(barriers: set<Point>): map<Point, real> {
    map p | p in barriers :: -1.0
  }

  function LegacyGraph(req: Request): GridGraph {
    GridGraph(req.gridSize, false, Blocked(BarrierSet(req)))
  }

  /** isValid(x, y, gridSize). */
  predicate IsValid(x: int, y: int, gridSize: int) {
    x >= 0 && x < gridSize && y >= 0 && y < gridSize
  }

  /** A passable cell of the legacy graph is a valid cell that holds no barrier. */
  lemma LegacyPassable(req: Request, v: Point)
    requires v in Passable(LegacyGraph(req))
    ensures v !in BarrierSet(req) && IsValid(v.x, v.y, req.gridSize)
  {
  }

  /**
   * A move of the legacy graph is one of the four orthogonal offsets onto a
   * valid cell that holds no barrier, and it costs exactly one.
   */
  lemma LegacyStep(req: Request, a: Point, b: Point)
    ensures IsStep(LegacyGraph(req), a, b) <==>
      OffsetBetween(a, b) in DIRECTIONS_4 && IsValid(b.x, b.y, req.gridSize) && b !in BarrierSet(req)
    ensures IsStep(LegacyGraph(req), a, b) ==> LegacyGraph(req).MovementCost(a, b) == 1.0
  {
    StepIff(LegacyGraph(req), a, b);
  }

  /** Unit costs: on the legacy graph the price of a walk is its number of moves. */
  lemma {:induction false} LegacyWalkCost(req: Request, p: seq<Point>)
    requires IsWalk(LegacyGraph(req), p)
    ensures WalkCost(LegacyGraph(req), Cost, p) == WalkCost(LegacyGraph(req), Moves, p) == (|p| - 1) as real
    decreases |p|
  {
    var g := LegacyGraph(req);
    if |p| > 1 {
      LegacyStep(req, p[0], p[1]);
      WalkSuffix(g, p, 1);
      LegacyWalkCost(req, p[1..]);
    }
  }

  /**
   * The neighbour loop of the legacy services: each of the four offsets,
   * kept when isValid holds and the cell is neither a barrier nor visited.
   * It lists exactly what getNeighbors lists on the graph with those
   * barriers blocked and the visited set excluded. The legacy services are
   * modelled as searches of LegacyGraph, so this loop stands beside them
   * as a reference equivalence with Neighbors rather than being called.
   */
  method ValidNeighbors(gridSize: int, barriers: set<Point>, visited: set<Point>, current: Point) returns (neighbors: seq<Point>)
    ensures neighbors == Neighbors(GridGraph(gridSize, false, Blocked(barriers)), current, Some(visited))
    ensures forall n :: n in neighbors <==>
      OffsetBetween(current, n) in DIRECTIONS_4 && IsValid(n.x, n.y, gridSize) && n !in barriers && n !in visited
  {
    ghost var g := GridGraph(gridSize, false, Blocked(barriers));
    neighbors := [];
    for k := 0 to |DIRECTIONS_4|
      invariant neighbors == NeighborsAlong(g, current, Some(visited), DIRECTIONS_4[..k])
    {
      assert DIRECTIONS_4[..k + 1][..k] == DIRECTIONS_4[..k];
      var newX := current.x + DIRECTIONS_4[k].dx;
      var newY := current.y + DIRECTIONS_4[k].dy;
      var neighbor := Point(newX, newY);
      if IsValid(newX, newY, gridSize) && neighbor !in barriers && neighbor !in visited {
        neighbors := neighbors + [neighbor];
      }
    }
    assert DIRECTIONS_4[..|DIRECTIONS_4|] == DIRECTIONS_4;
    forall n ensures n in neighbors <==>
      OffsetBetween(current, n) in DIRECTIONS_4 && IsValid(n.x, n.y, gridSize) && n !in barriers && n !in visited
    {
      NeighborsAlongMembers(g, current, Some(visited), DIRECTIONS_4, n);
    }
  }

  /**
   * getShuffledNeighbors of the legacy service/DijkstraService.java: the
   * same candidates in an arbitrary order, each a legal move of the legacy
   * graph onto an unvisited cell, none twice. Like ValidNeighbors it is a
   * reference equivalence with Neighbors of LegacyGraph, which the legacy
   * Dijkstra search expands; the shuffled order only breaks ties there,
   * and the search already takes any least-key entry.
   */
  method GetShuffledNeighbors(req: Request, current: Point, visited: set<Point>) returns (neighbors: seq<Point>)
    ensures multiset(neighbors) == multiset(Neighbors(LegacyGraph(req), current, Some(visited)))
    ensures forall n :: n in neighbors <==> IsStep(LegacyGraph(req), current, n) && n !in visited
    ensures Distinct(neighbors)
  {
    var candidates := ValidNeighbors(req.gridSize, BarrierSet(req), visited, current);
    NeighborsDistinct(LegacyGraph(req), current, Some(visited));
    AllExcludedNeighbors(LegacyGraph(req), current, visited);
    neighbors := Shuffle(candidates);
  }
}
