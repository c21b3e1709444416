/**
 * service/BFSService.java, the legacy breadth-first search: unit moves in
 * four directions, any barrier blocks, and the neighbours of each dequeued
 * point are queued in direction-table order. The response it builds uses
 * a five-argument constructor that no response type declares; the model
 * answers an empty visited path there.
 */
module LegacyBfsService {
  import opened Wrappers
  import opened GridModel
  import opened Walks
  import opened SearchCore
  import opened Requests
  import opened BestFirst
  import opened BreadthFirst
  import opened LegacyGrid

  const NAME: string := "BFS"

  /**
   * execute(request): found exactly when a walk of legal legacy moves
   * reaches the target, and the path is then such a walk with the fewest
   * moves; otherwise empty. The points queued (ghost: the source keeps only
   * its visited set) are listed once each, the start first, each
   * reachable; the explored count is the number of them dequeued, the
   * target last when found and all of them otherwise, and each dequeued
   * point was reached at its least number of moves.
   */
  method Execute(req: Request) returns (r: Response, ghost queued: seq<Point>, ghost dist: map<Point, real>)
    ensures r.algorithm == NAME && r.executionTimeMs == 0 && r.visitedPath == []
    ensures r.pathFound <==> Reachable(LegacyGraph(req), req.start, req.end)
    ensures r.pathFound ==> WalkFromTo(LegacyGraph(req), r.path, req.start, req.end)
    ensures r.pathFound ==> forall p :: WalkFromTo(LegacyGraph(req), p, req.start, req.end) ==> |r.path| <= |p|
    ensures !r.pathFound ==> r.path == []
    ensures 1 <= r.nodesExplored <= |queued| && queued[0] == req.start && Distinct(queued)
    ensures forall v :: v in queued ==> v == req.start || (v !in BarrierSet(req) && IsValid(v.x, v.y, req.gridSize))
    ensures forall v :: v in queued ==> Reachable(LegacyGraph(req), req.start, v)
    ensures r.pathFound ==> queued[r.nodesExplored - 1] == req.end
    ensures !r.pathFound ==> r.nodesExplored == |queued| && forall v :: v in queued <==> Reachable(LegacyGraph(req), req.start, v)
    ensures SettledCheapest(LegacyGraph(req), Moves, Blind, req.start, queued[..r.nodesExplored], dist)
    ensures req.start == req.end ==> r.pathFound && r.path == [req.start] && r.nodesExplored == 1
  {
    var grid := LegacyGraph(req);
    var out;
    out, dist := BreadthFirst.Bfs(grid, req.start, req.end, false);
    if req.start == req.end {
      BfsStartIsEnd(grid, req.start, out, dist);
    }
    queued := out.visitedPath;
    forall v | v in queued && v != req.start ensures v !in BarrierSet(req) && IsValid(v.x, v.y, req.gridSize) {
      LegacyPassable(req, v);
    }
    r := Response(out.path, [], out.nodesExplored, 0, out.found, NAME);
  }
}
