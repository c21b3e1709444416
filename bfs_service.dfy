/**
 * service/algorithm/BFSService.java: breadth-first search over the
 * request's grid, with the unvisited neighbours of each dequeued point
 * shuffled before they are queued.
 */
module BfsService {
  import opened Wrappers
  import opened GridModel
  import opened Walks
  import opened SearchCore
  import opened Requests
  import opened BestFirst
  import opened BreadthFirst

  const NAME: string := "BFS"

  /**
   * execute(request): the target is reported found exactly when some walk
   * reaches it; the path is then a walk with the fewest moves, otherwise
   * empty. The visited path lists every queued point once, the start first,
   * each reachable and, apart from the start, in bounds and passable; when
   * the target is not found it holds exactly the reachable points. The
   * count of explored points is the number of dequeues: the target is the
   * last point dequeued when found, and otherwise every queued point is.
   */
  method Execute(req: Request) returns (r: Response, ghost dist: map<Point, real>)
    ensures r.algorithm == NAME && r.executionTimeMs == 0
    ensures r.pathFound <==> Reachable(GraphOf(req), req.start, req.end)
    ensures r.pathFound ==> WalkFromTo(GraphOf(req), r.path, req.start, req.end)
    ensures r.pathFound ==> forall p :: WalkFromTo(GraphOf(req), p, req.start, req.end) ==> |r.path| <= |p|
    ensures !r.pathFound ==> r.path == []
    ensures 1 <= r.nodesExplored <= |r.visitedPath|
    ensures r.pathFound ==> r.visitedPath[r.nodesExplored - 1] == req.end
    ensures !r.pathFound ==> r.nodesExplored == |r.visitedPath|
    ensures r.visitedPath[0] == req.start && Distinct(r.visitedPath)
    ensures forall v :: v in r.visitedPath ==> v == req.start || v in Passable(GraphOf(req))
    ensures forall v :: v in r.visitedPath ==> Reachable(GraphOf(req), req.start, v)
    ensures !r.pathFound ==> forall v :: v in r.visitedPath <==> Reachable(GraphOf(req), req.start, v)
    ensures SettledCheapest(GraphOf(req), Moves, Blind, req.start, r.visitedPath[..r.nodesExplored], dist)
    ensures req.start == req.end ==> r.pathFound && r.path == [req.start] && r.nodesExplored == 1
  {
    var grid := NewGridGraph(req.gridSize, req.barriers, req.allowDiagonal);
    var out;
    out, dist := BreadthFirst.Bfs(grid, req.start, req.end, true);
    if req.start == req.end {
      BfsStartIsEnd(grid, req.start, out, dist);
    }
    r := Response(out.path, out.visitedPath, out.nodesExplored, 0, out.found, NAME);
  }
}
