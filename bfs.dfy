/**
 * The queue-based breadth-first search of service/algorithm/BFSService.java
 * (neighbours shuffled, the visited path listing every point when it is
 * queued) and of the legacy service/BFSService.java (neighbours in
 * direction order). A point is marked visited when it is queued, so it is
 * queued at most once; the count of explored points counts dequeues.
 *
 * The proof reuses the settle-and-relax invariant of SearchCore with every
 * move priced 1 and no estimate: the dequeued points are the settled ones,
 * and the ghost map dist holds the number of moves at which each queued
 * point was reached.
 */
module BreadthFirst {
  import opened Wrappers
  import opened GridModel
  import opened Walks
  import opened PathUtils
  import opened SearchCore
  import opened BestFirst
  import opened Sequences

  /**
   * The queued points in queue order: the start first, no repeats, exactly
   * the points with a known distance, in non-decreasing distance, and none
   * more than one move beyond the point dequeued last.
   */
  ghost predicate Layered(g: GridGraph, start: Point, vp: seq<Point>, ne: nat, dist: map<Point, real>) {
    && ne <= |vp| && |vp| >= 1 && vp[0] == start && Distinct(vp)
    && (forall i :: 0 <= i < |vp| ==> vp[i] in dist)
    && (forall v :: v in dist ==> v in vp)
    && RankSorted(g, Blind, vp, dist)
    && (ne >= 1 ==> Rank(g, Blind, dist, vp[|vp| - 1]) <= Rank(g, Blind, dist, vp[ne - 1]) + 1.0)
    && (ne == 0 ==> |vp| == 1)
  }

  /** Dequeuing the head settles it: it is a least-distance unsettled point. */
  lemma Dequeue(g: GridGraph, start: Point, closed: set<Point>, vp: seq<Point>, ne: nat,
                dist: map<Point, real>, parents: ParentMap)
    requires Layered(g, start, vp, ne, dist) && ne < |vp|
    requires SearchInv(g, Moves, Blind, start, closed, vp[..ne], dist, parents, {})
    ensures vp[ne] !in closed
    ensures SearchInv(g, Moves, Blind, start, closed + {vp[ne]}, vp[..ne + 1], dist, parents, {vp[ne]})
    ensures Layered(g, start, vp, ne + 1, dist)
  {
    var u := vp[ne];
    assert u !in vp[..ne];
    forall w | w in dist && w !in closed ensures Rank(g, Blind, dist, u) <= Rank(g, Blind, dist, w) {
      var j :| 0 <= j < |vp| && vp[j] == w;
      assert forall i :: 0 <= i < ne ==> vp[..ne][i] == vp[i];
    }
    Settle(g, Moves, Blind, start, closed, vp[..ne], dist, parents, u);
    TakeOneMore(vp, ne);
  }

  /** Queuing an unvisited move of the point dequeued last, one move further than it, keeps the queue layered. */
  lemma LayeredPush(g: GridGraph, start: Point, vp: seq<Point>, ne: nat, dist: map<Point, real>, n: Point, d: real)
    requires Layered(g, start, vp, ne, dist) && 1 <= ne
    requires n !in dist && d == dist[vp[ne - 1]] + 1.0
    ensures Layered(g, start, vp + [n], ne, dist[n := d])
  {
    var dist', vp' := dist[n := d], vp + [n];
    assert forall i :: 0 <= i < |vp| ==> vp'[i] == vp[i] && Rank(g, Blind, dist', vp[i]) == Rank(g, Blind, dist, vp[i]);
    forall i, j | 0 <= i < j < |vp'| ensures Rank(g, Blind, dist', vp'[i]) <= Rank(g, Blind, dist', vp'[j]) {
      if j == |vp| {
        assert Rank(g, Blind, dist, vp[i]) <= Rank(g, Blind, dist, vp[|vp| - 1]);
      } else {
        assert Rank(g, Blind, dist, vp[i]) <= Rank(g, Blind, dist, vp[j]);
      }
    }
  }

  /** Queuing an unvisited move of the point dequeued last, one move further than it. */
  lemma Enqueue(g: GridGraph, start: Point, closed: set<Point>, order: seq<Point>, vp: seq<Point>, ne: nat,
                dist: map<Point, real>, parents: ParentMap, u: Point, n: Point, d: real)
    requires Layered(g, start, vp, ne, dist) && 1 <= ne && order == vp[..ne] && u == vp[ne - 1]
    requires SearchInv(g, Moves, Blind, start, closed, order, dist, parents, {u})
    requires IsStep(g, u, n) && n !in dist && d == dist[u] + 1.0
    ensures SearchInv(g, Moves, Blind, start, closed, order, dist[n := d], parents[n := Some(u)], {u})
    ensures Layered(g, start, vp + [n], ne, dist[n := d])
  {
    assert u == order[|order| - 1];
    Relax(g, Moves, Blind, start, closed, order, dist, parents, u, n, d);
    LayeredPush(g, start, vp, ne, dist, n, d);
  }

  /** Every queued point is at most one move further than the point dequeued last. */
  lemma LayeredBound(g: GridGraph, start: Point, vp: seq<Point>, ne: nat, dist: map<Point, real>, n: Point)
    requires Layered(g, start, vp, ne, dist) && 1 <= ne && n in dist
    ensures dist[n] <= dist[vp[ne - 1]] + 1.0
  {
    var j :| 0 <= j < |vp| && vp[j] == n;
    assert Rank(g, Blind, dist, vp[j]) <= Rank(g, Blind, dist, vp[|vp| - 1]);
  }

  /** Once every unvisited move of the point dequeued last is queued, all of its unsettled moves are known no dearer than one move more. */
  lemma ExpandDone(g: GridGraph, start: Point, closed: set<Point>, vp: seq<Point>, ne: nat,
                   dist: map<Point, real>, parents: ParentMap)
    requires Layered(g, start, vp, ne, dist) && 1 <= ne
    requires SearchInv(g, Moves, Blind, start, closed, vp[..ne], dist, parents, {vp[ne - 1]})
    requires forall n :: IsStep(g, vp[ne - 1], n) ==> n in dist
    ensures SearchInv(g, Moves, Blind, start, closed, vp[..ne], dist, parents, {})
  {
    var u := vp[ne - 1];
    forall n | IsStep(g, u, n) && n !in closed ensures n in dist && dist[n] <= dist[u] + StepCost(g, Moves, u, n) {
      LayeredBound(g, start, vp, ne, dist, n);
    }
    assert u in vp[..ne];
    assert Relaxed(g, Moves, u, closed, dist);
    FinishRelax(g, Moves, Blind, start, closed, vp[..ne], dist, parents, u);
  }

  /**
   * What the search promises. The target is found exactly when it is
   * reachable, and the path is then a walk with the fewest moves; otherwise
   * it is empty. The visited path lists every queued point once, the start
   * first, each of them reachable and, apart from the start, passable; its
   * first nodesExplored points were dequeued in non-decreasing number of
   * moves, each at its least number of moves. When the target is not found,
   * every point was dequeued and the visited points are exactly the
   * reachable ones.
   */
  ghost predicate BfsResult(g: GridGraph, start: Point, end: Point, out: Outcome, dist: map<Point, real>) {
    match out
    case Outcome(_, _, _, _) =>
      && (out.found <==> Reachable(g, start, end))
      && (out.found ==> WalkFromTo(g, out.path, start, end))
      && (out.found ==> forall p :: WalkFromTo(g, p, start, end) ==> |out.path| <= |p|)
      && (!out.found ==> out.path == [])
      && 1 <= out.nodesExplored <= |out.visitedPath|
      && out.visitedPath[0] == start && Distinct(out.visitedPath)
      && (forall v :: v in out.visitedPath ==> Reachable(g, start, v) && (v == start || v in Passable(g)))
      && SettledCheapest(g, Moves, Blind, start, out.visitedPath[..out.nodesExplored], dist)
      && (out.found ==> out.visitedPath[out.nodesExplored - 1] == end)
      && (!out.found ==> out.nodesExplored == |out.visitedPath| && forall v :: v in out.visitedPath <==> Reachable(g, start, v))
  }

  /** A search whose start is its target dequeues the start first and answers the one-point path. */
  lemma BfsStartIsEnd(g: GridGraph, s: Point, out: Outcome, dist: map<Point, real>)
    requires BfsResult(g, s, s, out, dist)
    ensures out.found && out.path == [s] && out.nodesExplored == 1
  {
    assert WalkFromTo(g, [s], s, s);
    var vp := out.visitedPath;
    assert vp[0] == vp[out.nodesExplored - 1];
  }

  /** Facts about the queued points that hold whether or not the target is found. */
  lemma QueuedReachable(g: GridGraph, start: Point, closed: set<Point>, vp: seq<Point>, ne: nat,
                        dist: map<Point, real>, parents: ParentMap, pending: set<Point>)
    requires Layered(g, start, vp, ne, dist)
    requires SearchInv(g, Moves, Blind, start, closed, vp[..ne], dist, parents, pending)
    ensures forall v :: v in vp ==> Reachable(g, start, v) && (v == start || v in Passable(g))
  {
    forall v | v in vp ensures Reachable(g, start, v) && (v == start || v in Passable(g)) {
      assert Achieved(g, Moves, start, v, dist[v]);
      KnownPassable(g, Moves, start, closed, dist, parents, v);
    }
  }

  /** The target was dequeued: its parent chain has the fewest moves. */
  lemma BfsFound(g: GridGraph, start: Point, end: Point, closed: set<Point>, vp: seq<Point>, ne: nat,
                 dist: map<Point, real>, parents: ParentMap, queue: seq<Point>, visited: set<Point>, path: seq<Point>)
    requires Expanding(g, start, end, closed, vp, ne, dist, parents, queue, visited)
    requires vp[ne - 1] == end && IsParentChain(parents, path, end)
    ensures BfsResult(g, start, end, Outcome(path, vp, ne, true), dist)
  {
    assert end in vp[..ne];
    FoundPath(g, Moves, Blind, start, closed, vp[..ne], dist, parents, {end}, path, end);
    forall p | WalkFromTo(g, p, start, end) ensures |path| <= |p| {
      WalkCostMoves(g, Moves, p);
      WalkCostMoves(g, Moves, path);
    }
    QueuedReachable(g, start, closed, vp, ne, dist, parents, {end});
    Report(g, Moves, Blind, start, closed, vp[..ne], dist, parents, {end});
  }

  /** The queue ran dry: every queued point was dequeued, and they are exactly the reachable points. */
  lemma BfsExhausted(g: GridGraph, start: Point, end: Point, closed: set<Point>, vp: seq<Point>, ne: nat,
                     dist: map<Point, real>, parents: ParentMap, queue: seq<Point>, visited: set<Point>)
    requires QueueInv(g, start, end, closed, vp, ne, dist, parents, queue, visited) && queue == []
    ensures BfsResult(g, start, end, Outcome([], vp, ne, false), dist)
  {
    assert ne == |vp| && vp[..ne] == vp;
    Exhausted(g, Moves, Blind, start, closed, vp, dist, parents);
    QueuedReachable(g, start, closed, vp, |vp|, dist, parents, {});
    Report(g, Moves, Blind, start, closed, vp, dist, parents, {});
  }

  /** The distances after queuing ns, each at distance d, in order. */
  ghost function Spread(dist: map<Point, real>, ns: seq<Point>, d: real): (r: map<Point, real>)
    ensures forall v :: v in r <==> v in dist || v in ns
    ensures forall v :: v in dist && v !in ns ==> r[v] == dist[v]
  {
    if ns == [] then dist else Spread(dist, ns[..|ns| - 1], d)[ns[|ns| - 1] := d]
  }

  /** The visited set after marking ns. */
  function Mark(visited: set<Point>, ns: seq<Point>): (r: set<Point>)
    ensures forall v :: v in r <==> v in visited || v in ns
  {
    if ns == [] then visited else Mark(visited, ns[..|ns| - 1]) + {ns[|ns| - 1]}
  }

  /** The parent links after queuing ns, each with parent u, in order. */
  function Adopt(parents: ParentMap, ns: seq<Point>, u: Point): (r: ParentMap)
    ensures forall v :: v in r <==> v in parents || v in ns
    ensures forall v :: v in ns ==> r[v] == Some(u)
    ensures forall v :: v in parents && v !in ns ==> r[v] == parents[v]
  {
    if ns == [] then parents else Adopt(parents, ns[..|ns| - 1], u)[ns[|ns| - 1] := Some(u)]
  }

  /** Queuing distinct unvisited moves of the point dequeued last, in order, one move further than it. */
  lemma {:induction false} EnqueueAll(g: GridGraph, start: Point, closed: set<Point>, order: seq<Point>, vp: seq<Point>, ne: nat,
                                      dist: map<Point, real>, parents: ParentMap, u: Point, ns: seq<Point>, d: real)
    requires Layered(g, start, vp, ne, dist) && 1 <= ne && order == vp[..ne] && u == vp[ne - 1]
    requires SearchInv(g, Moves, Blind, start, closed, order, dist, parents, {u})
    requires Distinct(ns) && (forall n :: n in ns ==> IsStep(g, u, n) && n !in dist) && d == dist[u] + 1.0
    ensures SearchInv(g, Moves, Blind, start, closed, order, Spread(dist, ns, d), Adopt(parents, ns, u), {u})
    ensures Layered(g, start, vp + ns, ne, Spread(dist, ns, d))
    decreases |ns|
  {
    if ns == [] {
      assert vp + ns == vp && Spread(dist, ns, d) == dist && Adopt(parents, ns, u) == parents;
    } else {
      var ns0, n := ns[..|ns| - 1], ns[|ns| - 1];
      DistinctDropLast(ns);
      EnqueueAll(g, start, closed, order, vp, ne, dist, parents, u, ns0, d);
      var vp0, dist0 := vp + ns0, Spread(dist, ns0, d);
      AppendAllSlices(vp, ns0, ne);
      AppendLast(vp, ns);
      assert dist0[u] == dist[u];
      Enqueue(g, start, closed, order, vp0, ne, dist0, Adopt(parents, ns0, u), u, n, d);
    }
  }

  /** The for loop over the unvisited neighbours of the dequeued point: each is queued, marked visited and given its parent. */
  method QueueNeighbors(visitedPath: seq<Point>, parent: ParentMap, queue: seq<Point>, visited: set<Point>,
                        current: Point, neighbors: seq<Point>)
    returns (visitedPath': seq<Point>, parent': ParentMap, queue': seq<Point>, visited': set<Point>)
    ensures visitedPath' == visitedPath + neighbors && queue' == queue + neighbors
    ensures visited' == Mark(visited, neighbors)
    ensures parent' == Adopt(parent, neighbors, current)
  {
    visitedPath', parent', queue', visited' := visitedPath, parent, queue, visited;
    for k := 0 to |neighbors|
      invariant visitedPath' == visitedPath + neighbors[..k] && queue' == queue + neighbors[..k]
      invariant visited' == Mark(visited, neighbors[..k])
      invariant parent' == Adopt(parent, neighbors[..k], current)
    {
      var neighbor := neighbors[k];
      TakeOneMore(neighbors, k);
      queue' := queue' + [neighbor];
      visited' := visited' + {neighbor};
      visitedPath' := visitedPath' + [neighbor];
      parent' := parent'[neighbor := Some(current)];
    }
    assert neighbors[..|neighbors|] == neighbors;
  }

  /** A visited set that grew within the universe leaves fewer points of the universe unvisited. */
  lemma Shrinks(universe: set<Point>, visited: set<Point>, visited': set<Point>)
    requires visited <= visited' <= universe && visited' != visited
    ensures |universe - visited'| < |universe - visited|
  {
    assert exists x :: x in visited' && x !in visited;
    var x :| x in visited' && x !in visited;
    assert x in universe - visited;
    StrictSubsetSmaller(universe - visited', universe - visited);
  }

  /** Marking points of the universe not yet visited marks exactly the points given a distance, and leaves fewer unvisited. */
  lemma MarkGrows(universe: set<Point>, visited: set<Point>, ns: seq<Point>, dist: map<Point, real>, d: real)
    requires visited == dist.Keys && visited <= universe
    requires forall n :: n in ns ==> n in universe && n !in visited
    ensures Mark(visited, ns) == Spread(dist, ns, d).Keys && Mark(visited, ns) <= universe
    ensures ns != [] ==> |universe - Mark(visited, ns)| < |universe - visited|
  {
    if ns != [] {
      assert ns[0] in Mark(visited, ns) - visited;
      Shrinks(universe, visited, Mark(visited, ns));
    }
  }

  /**
   * The state between rounds of execute's loop: the queue is the part of
   * the visited path not yet dequeued, the visited set holds the points with
   * a known distance, all of them the start or passable, and the target has
   * not been dequeued.
   */
  ghost predicate QueueInv(g: GridGraph, start: Point, end: Point, closed: set<Point>, vp: seq<Point>, ne: nat,
                           dist: map<Point, real>, parents: ParentMap, queue: seq<Point>, visited: set<Point>) {
    && Layered(g, start, vp, ne, dist)
    && SearchInv(g, Moves, Blind, start, closed, vp[..ne], dist, parents, {})
    && queue == vp[ne..] && visited == dist.Keys && end !in closed
    && visited <= Passable(g) + {start}
  }

  /** The state after a dequeue, before the neighbours of the dequeued point are queued. */
  ghost predicate Expanding(g: GridGraph, start: Point, end: Point, closed: set<Point>, vp: seq<Point>, ne: nat,
                            dist: map<Point, real>, parents: ParentMap, queue: seq<Point>, visited: set<Point>) {
    && Layered(g, start, vp, ne, dist) && 1 <= ne
    && SearchInv(g, Moves, Blind, start, closed, vp[..ne], dist, parents, {vp[ne - 1]})
    && queue == vp[ne..] && visited == dist.Keys
    && visited <= Passable(g) + {start}
    && (vp[ne - 1] != end ==> end !in closed)
  }

  /** Only the start is queued at first. */
  lemma BfsStart(g: GridGraph, start: Point, end: Point)
    ensures QueueInv(g, start, end, {}, [start], 0, map[start := 0.0], map[start := None], [start], {start})
  {
    InitialInv(g, Moves, Blind, start);
  }

  /** Polling the queue head settles it. */
  lemma DequeueStep(g: GridGraph, start: Point, end: Point, closed: set<Point>, vp: seq<Point>, ne: nat,
                    dist: map<Point, real>, parents: ParentMap, queue: seq<Point>, visited: set<Point>)
    requires QueueInv(g, start, end, closed, vp, ne, dist, parents, queue, visited) && queue != []
    ensures queue[0] == vp[ne] && queue[1..] == vp[ne + 1..] && queue[0] !in closed
    ensures Expanding(g, start, end, closed + {queue[0]}, vp, ne + 1, dist, parents, queue[1..], visited)
  {
    PollFront(vp, ne);
    Dequeue(g, start, closed, vp, ne, dist, parents);
  }

  /** The parent chain of the point dequeued last ends within the number of points dequeued before it. */
  lemma DequeuedChain(g: GridGraph, start: Point, end: Point, closed: set<Point>, vp: seq<Point>, ne: nat,
                      dist: map<Point, real>, parents: ParentMap, queue: seq<Point>, visited: set<Point>)
    requires Expanding(g, start, end, closed, vp, ne, dist, parents, queue, visited)
    ensures ChainEndsWithin(parents, vp[ne - 1], ne - 1)
  {
    RankedChainEnds(g, start, parents, vp[..ne], ne - 1);
  }

  /** Queuing every unvisited neighbour of the dequeued point restores the state between rounds, and visits more points unless there were none. */
  lemma ExpandStep(g: GridGraph, start: Point, end: Point, closed: set<Point>, vp: seq<Point>, ne: nat,
                   dist: map<Point, real>, parents: ParentMap, queue: seq<Point>, visited: set<Point>,
                   u: Point, neighbors: seq<Point>, d: real)
    requires Expanding(g, start, end, closed, vp, ne, dist, parents, queue, visited) && u == vp[ne - 1] && u != end
    requires (forall n :: n in neighbors <==> IsStep(g, u, n) && n !in visited) && Distinct(neighbors)
    requires d == dist[u] + 1.0
    ensures QueueInv(g, start, end, closed, vp + neighbors, ne, Spread(dist, neighbors, d),
                     Adopt(parents, neighbors, u), queue + neighbors, Mark(visited, neighbors))
    ensures neighbors != [] ==> |Passable(g) + {start} - Mark(visited, neighbors)| < |Passable(g) + {start} - visited|
  {
    var vp', dist', parents' := vp + neighbors, Spread(dist, neighbors, d), Adopt(parents, neighbors, u);
    var visited' := Mark(visited, neighbors);
    EnqueueAll(g, start, closed, vp[..ne], vp, ne, dist, parents, u, neighbors, d);
    AppendAllSlices(vp, neighbors, ne);
    ExpandDone(g, start, closed, vp', ne, dist', parents');
    forall v | v in neighbors ensures v in Passable(g) {
      StepInPassable(g, u, v);
    }
    MarkGrows(Passable(g) + {start}, visited, neighbors, dist, d);
  }

  /** execute's loop: poll the queue head, stop at the target, otherwise queue every unvisited neighbour. */
  method Bfs(g: GridGraph, start: Point, end: Point, shuffle: bool) returns (out: Outcome, ghost dist: map<Point, real>)
    ensures BfsResult(g, start, end, out, dist)
  {
    var queue := [start];
    var parent: ParentMap := map[start := None];
    var visited := {start};
    var visitedPath := [start];
    var nodesExplored := 0;
    ghost var closed: set<Point> := {};
    ghost var universe := Passable(g) + {start};
    dist := map[start := 0.0];
    BfsStart(g, start, end);
    while queue != []
      invariant QueueInv(g, start, end, closed, visitedPath, nodesExplored, dist, parent, queue, visited)
      decreases |universe - visited|, |queue|
    {
      DequeueStep(g, start, end, closed, visitedPath, nodesExplored, dist, parent, queue, visited);
      var current := queue[0];
      queue := queue[1..];
      closed := closed + {current};
      nodesExplored := nodesExplored + 1;
      if current == end {
        DequeuedChain(g, start, end, closed, visitedPath, nodesExplored, dist, parent, queue, visited);
        var path := ReconstructPath(parent, end, nodesExplored - 1);
        BfsFound(g, start, end, closed, visitedPath, nodesExplored, dist, parent, queue, visited, path);
        out := Outcome(path, visitedPath, nodesExplored, true);
        return;
      }
      var neighbors := UnsettledNeighbors(g, current, visited, shuffle);
      ghost var d := dist[current] + 1.0;
      ExpandStep(g, start, end, closed, visitedPath, nodesExplored, dist, parent, queue, visited, current, neighbors, d);
      dist := Spread(dist, neighbors, d);
      visitedPath, parent, queue, visited := QueueNeighbors(visitedPath, parent, queue, visited, current, neighbors);
    }
    BfsExhausted(g, start, end, closed, visitedPath, nodesExplored, dist, parent, queue, visited);
    out := Outcome([], visitedPath, nodesExplored, false);
  }
}
