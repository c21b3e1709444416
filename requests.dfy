/**
 * What a search receives and returns (dto/PathfindingRequest.java,
 * dto/PathfindingResponse.java and their older copies at the package root).
 */
module Requests {
  import opened Wrappers
  import opened GridModel

  /** PathfindingRequest.Algorithm. */
  datatype Algorithm = Dfs | Bfs | Dijkstra | AStar

  /** A request: the barrier list may be null; start and end are non-null points. */
  datatype Request = Request(
    gridSize: int,
    start: Point,
    end: Point,
    barriers: Option<seq<Barrier>>,
    algorithm: Algorithm,
    allowDiagonal: bool)

  datatype Response = Response(
    path: seq<Point>,
    visitedPath: seq<Point>,
    nodesExplored: int,
    executionTimeMs: int,
    pathFound: bool,
    algorithm: string)

  /** GridGraph.from(request): the grid a request describes. */
  function GraphOf(req: Request): GridGraph {
    GridGraph(req.gridSize, req.allowDiagonal, if req.barriers.Some? then BarrierMap(req.barriers.value) else map[])
  }
}
