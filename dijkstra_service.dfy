/**
 * service/algorithm/DijkstraService.java: the search ranked by distance
 * alone, over the movement costs of the request's grid.
 */
module DijkstraService {
  import opened Wrappers
  import opened GridModel
  import opened Walks
  import opened SearchCore
  import opened Requests
  import opened BestFirst

  const NAME: string := "DIJKSTRA"

  /**
   * execute(request): the target is reported found exactly when some walk
   * reaches it; the path is then a cheapest walk, otherwise empty. The
   * visited points come in settle order, the start first, without repeats,
   * each at its cheapest distance and in non-decreasing distance; the
   * target is the last one when found, and otherwise they are exactly the
   * reachable points.
   */
  method Execute(req: Request) returns (r: Response, ghost dist: map<Point, real>)
    ensures r.algorithm == NAME && r.executionTimeMs == 0
    ensures r.pathFound <==> Reachable(GraphOf(req), req.start, req.end)
    ensures r.pathFound ==> WalkFromTo(GraphOf(req), r.path, req.start, req.end)
    ensures r.pathFound ==> forall p :: WalkFromTo(GraphOf(req), p, req.start, req.end) ==>
      WalkCost(GraphOf(req), Cost, r.path) <= WalkCost(GraphOf(req), Cost, p)
    ensures !r.pathFound ==> r.path == []
    ensures r.nodesExplored == |r.visitedPath|
    ensures r.pathFound ==> |r.visitedPath| > 0 && r.visitedPath[|r.visitedPath| - 1] == req.end
    ensures !r.pathFound ==> forall v :: v in r.visitedPath <==> Reachable(GraphOf(req), req.start, v)
    ensures SettledCheapest(GraphOf(req), Cost, Blind, req.start, r.visitedPath, dist)
    ensures forall i, j :: 0 <= i <= j < |r.visitedPath| ==> dist[r.visitedPath[i]] <= dist[r.visitedPath[j]]
    ensures req.start == req.end ==> r.path == [req.start] && r.visitedPath == [req.start] && r.nodesExplored == 1
  {
    var grid := NewGridGraph(req.gridSize, req.barriers, req.allowDiagonal);
    var out;
    out, dist := Search(grid, Cost, req.start, req.end, Blind, false);
    if req.start == req.end {
      StartIsEnd(grid, Cost, Blind, req.start, out, dist);
    }
    forall i, j | 0 <= i <= j < |out.visitedPath| ensures dist[out.visitedPath[i]] <= dist[out.visitedPath[j]] {
      SettledByDistance(grid, Cost, req.start, out.visitedPath, dist, i, j);
    }
    r := Response(out.path, out.visitedPath, out.nodesExplored, 0, out.found, NAME);
  }
}
