/**
 * service/AStarService.java, the legacy A*: integer g-scores that grow by
 * one per move over four directions, any barrier blocking, and nodes
 * ranked by f = g + the Manhattan distance to the target. The response
 * it builds uses a five-argument constructor that no response type
 * declares; the model answers an empty visited path there.
 */
module LegacyAStarService {
  import opened Wrappers
  import opened GridModel
  import opened Walks
  import opened SearchCore
  import opened Requests
  import opened BestFirst
  import opened AStarHeuristic
  import opened LegacyGrid

  const NAME: string := "A_STAR"

  /** heuristic(a, b): the Manhattan distance, in whole moves. */
  function ManhattanDistance(a: Point, b: Point): (h: int)
    ensures h >= 0 && (h == 0 <==> a == b)
    ensures h as real == Heuristic(a, b, false)
  {
    Abs(a.x - b.x) + Abs(a.y - b.y)
  }

  /**
   * The legacy heuristic never drops by more than one per legal move and
   * never exceeds the number of moves of a walk to the target, so ranking
   * by f = g + h settles the target at its least number of moves.
   */
  lemma ManhattanAdmissible(req: Request, p: seq<Point>, t: Point)
    requires IsWalk(LegacyGraph(req), p) && p[|p| - 1] == t
    ensures ManhattanDistance(p[0], t) <= |p| - 1
    ensures |p| > 1 ==> ManhattanDistance(p[0], t) <= 1 + ManhattanDistance(p[1], t)
  {
    HeuristicAdmissible(LegacyGraph(req), p, t);
    if |p| > 1 {
      HeuristicStep(LegacyGraph(req), p[0], p[1], t);
    }
  }

  /**
   * execute(request): found exactly when a walk of legal legacy moves
   * reaches the target; the path is then such a walk with the fewest moves,
   * otherwise empty. The closed points (ghost: the source keeps only a set)
   * were closed once each, the start first, each at its least number of
   * moves, in non-decreasing f; the explored count is their number.
   */
  method Execute(req: Request) returns (r: Response, ghost closed: seq<Point>, ghost gScore: map<Point, real>)
    ensures r.algorithm == NAME && r.executionTimeMs == 0 && r.visitedPath == []
    ensures r.pathFound <==> Reachable(LegacyGraph(req), req.start, req.end)
    ensures r.pathFound ==> WalkFromTo(LegacyGraph(req), r.path, req.start, req.end)
    ensures r.pathFound ==> forall p :: WalkFromTo(LegacyGraph(req), p, req.start, req.end) ==> |r.path| <= |p|
    ensures !r.pathFound ==> r.path == []
    ensures r.nodesExplored == |closed|
    ensures SettledCheapest(LegacyGraph(req), Moves, Toward(req.end), req.start, closed, gScore)
    ensures req.start == req.end ==> r.path == [req.start] && closed == [req.start] && r.nodesExplored == 1
  {
    var grid := LegacyGraph(req);
    var out;
    out, gScore := Search(grid, Moves, req.start, req.end, Toward(req.end), false);
    if req.start == req.end {
      StartIsEnd(grid, Moves, Toward(req.end), req.start, out, gScore);
    }
    if out.found {
      FewestMoves(grid, out.path, req.start, req.end);
    }
    closed := out.visitedPath;
    r := Response(out.path, [], out.nodesExplored, 0, out.found, NAME);
  }
}
