/**
 * service/DFSService.java: recursive depth-first search. The visited set,
 * the parent map and the visited path are shared by every level of the
 * recursion; here each call receives them and returns them updated.
 */
module DfsService {
  import opened Wrappers
  import opened GridModel
  import opened Walks
  import opened PathUtils
  import opened SearchCore
  import opened Requests
  import opened BestFirst

  const NAME: string := "DFS"

  /**
   * The shared state: the visited path lists the visited points once each,
   * the start first, and every other point has as parent a point listed
   * before it from which it is one move.
   */
  ghost predicate DfsTree(g: GridGraph, start: Point, visited: set<Point>, parent: ParentMap, visitedPath: seq<Point>) {
    && RankedTree(g, start, parent, visitedPath)
    && Distinct(visitedPath)
    && (forall v :: v in visited <==> v in visitedPath)
  }

  /** Every move out of the points of done leads to a visited point. */
  ghost predicate Finished(g: GridGraph, visited: set<Point>, done: set<Point>) {
    forall v, n :: v in done && IsStep(g, v, n) ==> n in visited
  }

  /** Visiting an unvisited move n of a visited point: n is listed, marked and given its parent, and fewer passable points remain unvisited. */
  lemma Visit(g: GridGraph, start: Point, visited0: set<Point>, visited: set<Point>, parent: ParentMap, visitedPath: seq<Point>,
              current: Point, n: Point)
    requires DfsTree(g, start, visited, parent, visitedPath) && current in visited && visited0 <= visited
    requires IsStep(g, current, n) && n !in visited
    ensures DfsTree(g, start, visited + {n}, parent[n := Some(current)], visitedPath + [n])
    ensures |Passable(g) - (visited + {n})| < |Passable(g) - visited0|
  {
    RankedTreeFrame(g, start, parent, visitedPath, n, current);
    RankedTreeAppend(g, start, parent[n := Some(current)], visitedPath, n);
    DistinctAppend(visitedPath, n);
    StepInPassable(g, current, n);
    StrictSubsetSmaller(Passable(g) - (visited + {n}), Passable(g) - visited0);
  }

  /**
   * The state inside dfs's for loop over the neighbours of current found
   * unvisited on entry: the first k of them are visited by now, the target
   * is not, and every point visited since entry has all its moves visited.
   */
  ghost predicate Exploring(g: GridGraph, start: Point, end: Point, visited: set<Point>, visitedPath: seq<Point>,
                            neighbors: seq<Point>, k: nat,
                            visited': set<Point>, parent': ParentMap, visitedPath': seq<Point>) {
    && DfsTree(g, start, visited', parent', visitedPath')
    && visited <= visited' && visitedPath <= visitedPath'
    && end !in visited'
    && k <= |neighbors| && (forall i :: 0 <= i < k ==> neighbors[i] in visited')
    && Finished(g, visited', visited' - visited)
  }

  /** A neighbour visited meanwhile is skipped. */
  lemma Skip(g: GridGraph, start: Point, end: Point, visited: set<Point>, visitedPath: seq<Point>, neighbors: seq<Point>, k: nat,
             visited': set<Point>, parent': ParentMap, visitedPath': seq<Point>)
    requires Exploring(g, start, end, visited, visitedPath, neighbors, k, visited', parent', visitedPath')
    requires k < |neighbors| && neighbors[k] in visited'
    ensures Exploring(g, start, end, visited, visitedPath, neighbors, k + 1, visited', parent', visitedPath')
  {
  }

  /** A recursive call that returned false leaves its own visits finished, so they join the visits finished since entry. */
  lemma Returned(g: GridGraph, start: Point, end: Point, visited: set<Point>, visitedPath: seq<Point>, neighbors: seq<Point>, k: nat,
                 visited1: set<Point>, parent1: ParentMap, visitedPath1: seq<Point>,
                 visited2: set<Point>, parent2: ParentMap, visitedPath2: seq<Point>)
    requires Exploring(g, start, end, visited, visitedPath, neighbors, k, visited1, parent1, visitedPath1)
    requires k < |neighbors| && neighbors[k] !in visited1
    requires DfsTree(g, start, visited2, parent2, visitedPath2)
    requires visited1 + {neighbors[k]} <= visited2 && visitedPath1 + [neighbors[k]] <= visitedPath2
    requires end !in visited2 && Finished(g, visited2, visited2 - (visited1 + {neighbors[k]}) + {neighbors[k]})
    ensures Exploring(g, start, end, visited, visitedPath, neighbors, k + 1, visited2, parent2, visitedPath2)
  {
    assert visitedPath2[..|visitedPath1|] == (visitedPath1 + [neighbors[k]])[..|visitedPath1|] == visitedPath1;
    assert visitedPath2[..|visitedPath|] == visitedPath1[..|visitedPath|] == visitedPath;
    assert visited2 - visited == (visited2 - (visited1 + {neighbors[k]}) + {neighbors[k]}) + (visited1 - visited);
  }

  /** At the end of the loop every move of current is visited: it was visited on entry or is one of the neighbours. */
  lemma LoopDone(g: GridGraph, start: Point, end: Point, visited: set<Point>, visitedPath: seq<Point>, current: Point,
                 neighbors: seq<Point>, visited': set<Point>, parent': ParentMap, visitedPath': seq<Point>)
    requires Exploring(g, start, end, visited, visitedPath, neighbors, |neighbors|, visited', parent', visitedPath')
    requires forall n :: n in neighbors <==> IsStep(g, current, n) && n !in visited
    ensures Finished(g, visited', visited' - visited + {current})
  {
    forall v, n | v in visited' - visited + {current} && IsStep(g, v, n) ensures n in visited' {
      if v == current && n !in visited {
        var i :| 0 <= i < |neighbors| && neighbors[i] == n;
      }
    }
  }

  /** The target was appended to the visited path after the given prefix, and nothing after it. */
  ghost predicate AppendedLast(prefix: seq<Point>, visitedPath: seq<Point>, end: Point) {
    |prefix| < |visitedPath| && visitedPath[|visitedPath| - 1] == end
  }

  /** A recursive call on a freshly appended neighbour that found the target leaves it last beyond the caller's prefix. */
  lemma FoundBeyond(prefix: seq<Point>, appended: seq<Point>, visitedPath: seq<Point>, neighbor: Point, end: Point)
    requires |prefix| < |appended| && appended[|appended| - 1] == neighbor
    requires neighbor == end ==> visitedPath == appended
    requires neighbor != end ==> AppendedLast(appended, visitedPath, end)
    ensures AppendedLast(prefix, visitedPath, end)
  {
  }

  /**
   * dfs(grid, current, end, visited, parent, visitedPath): true as soon as
   * the target is reached. Otherwise every point this call visited, and
   * current itself, has all its moves visited, and the target is unvisited.
   * The visited path only grows at its end, and when the target is found
   * beyond current it is the last point appended.
   */
  method Dfs(g: GridGraph, ghost start: Point, current: Point, end: Point,
             visited: set<Point>, parent: ParentMap, visitedPath: seq<Point>)
    returns (found: bool, visited': set<Point>, parent': ParentMap, visitedPath': seq<Point>)
    requires DfsTree(g, start, visited, parent, visitedPath) && current in visited
    requires end in visited ==> end == current
    ensures DfsTree(g, start, visited', parent', visitedPath')
    ensures visited <= visited' && visitedPath <= visitedPath'
    ensures found ==> end in visited'
    ensures !found ==> end !in visited' && Finished(g, visited', visited' - visited + {current})
    ensures current == end ==> found && visitedPath' == visitedPath
    ensures found && current != end ==> AppendedLast(visitedPath, visitedPath', end)
    decreases |Passable(g) - visited|
  {
    visited', parent', visitedPath' := visited, parent, visitedPath;
    if current == end {
      return true, visited', parent', visitedPath';
    }
    var neighbors := UnsettledNeighbors(g, current, visited, false);
    for k := 0 to |neighbors|
      invariant Exploring(g, start, end, visited, visitedPath, neighbors, k, visited', parent', visitedPath')
    {
      var neighbor := neighbors[k];
      if neighbor in visited' {
        Skip(g, start, end, visited, visitedPath, neighbors, k, visited', parent', visitedPath');
        continue;
      }
      Visit(g, start, visited, visited', parent', visitedPath', current, neighbor);
      ghost var visited1, parent1, visitedPath1 := visited', parent', visitedPath';
      visited' := visited' + {neighbor};
      visitedPath' := visitedPath' + [neighbor];
      parent' := parent'[neighbor := Some(current)];
      ghost var appended := visitedPath';
      var f;
      f, visited', parent', visitedPath' := Dfs(g, start, neighbor, end, visited', parent', visitedPath');
      if f {
        FoundBeyond(visitedPath, appended, visitedPath', neighbor, end);
        return true, visited', parent', visitedPath';
      }
      Returned(g, start, end, visited, visitedPath, neighbors, k, visited1, parent1, visitedPath1, visited', parent', visitedPath');
    }
    LoopDone(g, start, end, visited, visitedPath, current, neighbors, visited', parent', visitedPath');
    return false, visited', parent', visitedPath';
  }

  /**
   * execute(request): the target is found exactly when some walk reaches
   * it, and the path is then a walk to it; otherwise the path is empty and
   * the visited points are exactly the reachable ones. The visited path
   * lists each visited point once, the start first and, when found, the
   * target last; the count of explored points is its length.
   */
  method Execute(req: Request) returns (r: Response)
    ensures r.algorithm == NAME && r.executionTimeMs == 0
    ensures r.pathFound <==> Reachable(GraphOf(req), req.start, req.end)
    ensures r.pathFound ==> WalkFromTo(GraphOf(req), r.path, req.start, req.end)
    ensures !r.pathFound ==> r.path == []
    ensures r.nodesExplored == |r.visitedPath|
    ensures r.visitedPath != [] && r.visitedPath[0] == req.start && Distinct(r.visitedPath)
    ensures forall v :: v in r.visitedPath ==> Reachable(GraphOf(req), req.start, v)
    ensures !r.pathFound ==> forall v :: v in r.visitedPath <==> Reachable(GraphOf(req), req.start, v)
    ensures r.pathFound ==> r.visitedPath[|r.visitedPath| - 1] == req.end
    ensures req.start == req.end ==> r.pathFound && r.visitedPath == [req.start]
  {
    var grid := NewGridGraph(req.gridSize, req.barriers, req.allowDiagonal);
    var start, end := req.start, req.end;
    var visited := {start};
    var visitedPath := [start];
    var parent: ParentMap := map[start := None];
    var found;
    found, visited, parent, visitedPath := Dfs(grid, start, start, end, visited, parent, visitedPath);
    TreeReachable(grid, start, parent, visitedPath);
    var path := [];
    if found {
      var k :| 0 <= k < |visitedPath| && visitedPath[k] == end;
      RankedChainEnds(grid, start, parent, visitedPath, k);
      path := ReconstructPath(parent, end, k);
      RankedChainWalk(grid, start, parent, visitedPath, path, end);
    } else {
      assert visited - {start} + {start} == visited;
      ClosedSetBlocks(grid, visited, start, end);
      forall v | Reachable(grid, start, v) ensures v in visitedPath {
        if v !in visited {
          ClosedSetBlocks(grid, visited, start, v);
        }
      }
    }
    r := Response(path, visitedPath, |visitedPath|, 0, found, NAME);
  }

  /** Every point of the visited path is reachable from the start. */
  lemma TreeReachable(g: GridGraph, start: Point, parent: ParentMap, visitedPath: seq<Point>)
    requires RankedTree(g, start, parent, visitedPath)
    ensures forall v :: v in visitedPath ==> Reachable(g, start, v)
  {
    forall v | v in visitedPath ensures Reachable(g, start, v) {
      var k :| 0 <= k < |visitedPath| && visitedPath[k] == v;
      RankedReachable(g, start, parent, visitedPath, k);
    }
  }
}
