/**
 * service/DijkstraService.java, the legacy Dijkstra: integer distances
 * that grow by one per move over four directions, any barrier blocking,
 * and the unvisited neighbours of each settled point shuffled before they
 * are relaxed.
 */
module LegacyDijkstraService {
  import opened Wrappers
  import opened GridModel
  import opened Walks
  import opened SearchCore
  import opened Requests
  import opened BestFirst
  import opened LegacyGrid

  const NAME: string := "DIJKSTRA"

  /**
   * execute(request): found exactly when a walk of legal legacy moves
   * reaches the target; the path is then such a walk with the fewest moves,
   * otherwise empty. The visited points come in settle order, the start
   * first, each once, each at its least number of moves, in non-decreasing
   * number of moves; the target is the last one when found, and otherwise
   * they are exactly the reachable points.
   */
  method Execute(req: Request) returns (r: Response, ghost dist: map<Point, real>)
    ensures r.algorithm == NAME && r.executionTimeMs == 0
    ensures r.pathFound <==> Reachable(LegacyGraph(req), req.start, req.end)
    ensures r.pathFound ==> WalkFromTo(LegacyGraph(req), r.path, req.start, req.end)
    ensures r.pathFound ==> forall p :: WalkFromTo(LegacyGraph(req), p, req.start, req.end) ==> |r.path| <= |p|
    ensures !r.pathFound ==> r.path == []
    ensures r.nodesExplored == |r.visitedPath|
    ensures r.pathFound ==> |r.visitedPath| > 0 && r.visitedPath[|r.visitedPath| - 1] == req.end
    ensures !r.pathFound ==> forall v :: v in r.visitedPath <==> Reachable(LegacyGraph(req), req.start, v)
    ensures SettledCheapest(LegacyGraph(req), Moves, Blind, req.start, r.visitedPath, dist)
    ensures forall i, j :: 0 <= i <= j < |r.visitedPath| ==> dist[r.visitedPath[i]] <= dist[r.visitedPath[j]]
    ensures req.start == req.end ==> r.path == [req.start] && r.visitedPath == [req.start] && r.nodesExplored == 1
  {
    var grid := LegacyGraph(req);
    var out;
    out, dist := Search(grid, Moves, req.start, req.end, Blind, true);
    if req.start == req.end {
      StartIsEnd(grid, Moves, Blind, req.start, out, dist);
    }
    if out.found {
      FewestMoves(grid, out.path, req.start, req.end);
    }
    forall i, j | 0 <= i <= j < |out.visitedPath| ensures dist[out.visitedPath[i]] <= dist[out.visitedPath[j]] {
      SettledByDistance(grid, Moves, req.start, out.visitedPath, dist, i, j);
    }
    r := Response(out.path, out.visitedPath, out.nodesExplored, 0, out.found, NAME);
  }
}
