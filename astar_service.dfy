/**
 * service/algorithm/AStarService.java: the search ranked by distance plus
 * WEIGHT times the heuristic towards the target. The heuristic never
 * overestimates and never drops by more than one move's price, so the path
 * it finds is as cheap as Dijkstra's.
 */
module AStarService {
  import opened Wrappers
  import opened GridModel
  import opened Walks
  import opened SearchCore
  import opened Requests
  import opened BestFirst
  import opened AStarHeuristic

  const NAME: string := "A_STAR"

  /**
   * execute(request): found exactly when the target is reachable, and then
   * a cheapest walk; every visited point was settled at its cheapest
   * distance, in non-decreasing distance plus heuristic. The target is
   * the last visited point when found, and otherwise the visited points are
   * exactly the reachable ones.
   */
  method Execute(req: Request) returns (r: Response, ghost dist: map<Point, real>)
    ensures r.algorithm == NAME && r.executionTimeMs == 0
    ensures r.pathFound <==> Reachable(GraphOf(req), req.start, req.end)
    ensures r.pathFound ==> WalkFromTo(GraphOf(req), r.path, req.start, req.end)
    ensures r.pathFound ==> forall p :: WalkFromTo(GraphOf(req), p, req.start, req.end) ==>
      WalkCost(GraphOf(req), Cost, r.path) <= WalkCost(GraphOf(req), Cost, p)
    ensures !r.pathFound ==> r.path == []
    ensures r.nodesExplored == |r.visitedPath|
    ensures r.pathFound ==> |r.visitedPath| > 0 && r.visitedPath[|r.visitedPath| - 1] == req.end
    ensures !r.pathFound ==> forall v :: v in r.visitedPath <==> Reachable(GraphOf(req), req.start, v)
    ensures SettledCheapest(GraphOf(req), Cost, Toward(req.end), req.start, r.visitedPath, dist)
    ensures req.start == req.end ==> r.path == [req.start] && r.visitedPath == [req.start] && r.nodesExplored == 1
  {
    var grid := NewGridGraph(req.gridSize, req.barriers, req.allowDiagonal);
    var out;
    out, dist := Search(grid, Cost, req.start, req.end, Toward(req.end), false);
    if req.start == req.end {
      StartIsEnd(grid, Cost, Toward(req.end), req.start, out, dist);
    }
    r := Response(out.path, out.visitedPath, out.nodesExplored, 0, out.found, NAME);
  }

  /** The key of a point is its distance plus the heuristic, which is exactly the distance at the target. */
  lemma TargetRank(g: GridGraph, t: Point, dist: map<Point, real>, v: Point)
    requires v in dist
    ensures Rank(g, Toward(t), dist, v) >= dist[v]
    ensures Rank(g, Toward(t), dist, v) == dist[v] <==> v == t
  {
  }
}
