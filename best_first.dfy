/**
 * The priority-queue search that service/algorithm/DijkstraService.java and
 * service/algorithm/AStarService.java both run: poll the least entry, skip
 * it when its point is already settled, settle it, stop at the target, and
 * otherwise lower the distance of every unsettled neighbour that the move
 * through the settled point improves. The two services differ only in the
 * key an entry is ranked by: the distance, or the distance plus the estimate.
 */
module BestFirst {
  import opened Wrappers
  import opened GridModel
  import opened Walks
  import opened PathUtils
  import opened SearchCore
  import opened Shuffling

  /** The four results the services put into their response. */
  datatype Outcome = Outcome(path: seq<Point>, visitedPath: seq<Point>, nodesExplored: int, found: bool)

  /** The index of a least-keyed entry: the witness that a least entry exists. */
  ghost function LeastIndex(pq: seq<Entry>): (i: nat)
    requires pq != []
    ensures i < |pq| && forall j :: 0 <= j < |pq| ==> pq[i].key <= pq[j].key
  {
    if |pq| == 1 then 0
    else
      var i := LeastIndex(pq[..|pq| - 1]);
      if pq[|pq| - 1].key < pq[i].key then |pq| - 1 else i
  }

  /**
   * PriorityQueue.poll: the index of a least-keyed entry. Which of several
   * equal keys the heap yields is not specified, so any of them may be chosen.
   */
  method PollMin(pq: seq<Entry>) returns (i: nat)
    requires pq != []
    ensures i < |pq| && forall j :: 0 <= j < |pq| ==> pq[i].key <= pq[j].key
  {
    ghost var least := LeastIndex(pq);
    i :| 0 <= i < |pq| && forall j :: 0 <= j < |pq| ==> pq[i].key <= pq[j].key;
  }

  /** One improvement in the neighbour loop: record it and queue the neighbour at its new rank. */
  lemma RelaxStep(g: GridGraph, m: Measure, e: Estimate, start: Point, closed: set<Point>, order: seq<Point>,
                  dist: map<Point, real>, parents: ParentMap, pq: seq<Entry>, u: Point, n: Point, d: real)
    requires Consistent(g, m, e)
    requires SearchInv(g, m, e, start, closed, order, dist, parents, {u})
    requires FrontierHolds(g, e, closed, dist, pq)
    requires order != [] && u == order[|order| - 1]
    requires IsStep(g, u, n) && n !in closed
    requires d == dist[u] + StepCost(g, m, u, n)
    requires n !in dist || d < dist[n]
    ensures SearchInv(g, m, e, start, closed, order, dist[n := d], parents[n := Some(u)], {u})
    ensures FrontierHolds(g, e, closed, dist[n := d], pq + [Entry(n, d + H(g, e, n))])
  {
    Relax(g, m, e, start, closed, order, dist, parents, u, n, d);
    FrontierPush(g, e, closed, dist, pq, n, d);
  }

  /** A tentative distance only ever decreases: every point known before is still known, no dearer. */
  ghost predicate Lowered(before: map<Point, real>, after: map<Point, real>) {
    forall v {:trigger v in before} :: v in before ==> v in after && after[v] <= before[v]
  }

  lemma LoweredUpdate(before: map<Point, real>, after: map<Point, real>, n: Point, d: real)
    requires Lowered(before, after) && (n !in after || d < after[n])
    ensures Lowered(before, after[n := d])
  {
  }

  /** A polled entry whose point is already settled is dropped. */
  lemma SkipStep(g: GridGraph, e: Estimate, closed: set<Point>, dist: map<Point, real>, pq: seq<Entry>, i: nat)
    requires FrontierHolds(g, e, closed, dist, pq)
    requires i < |pq| && pq[i].point in closed
    ensures FrontierHolds(g, e, closed, dist, pq[..i] + pq[i + 1..])
  {
    FrontierRemove(g, e, closed, closed, dist, pq, i);
  }

  /** A polled least entry whose point is unsettled settles that point, and fewer points remain to settle. */
  lemma SettleStep(g: GridGraph, m: Measure, e: Estimate, start: Point, closed: set<Point>, order: seq<Point>,
                   dist: map<Point, real>, parents: ParentMap, pq: seq<Entry>, i: nat)
    requires Consistent(g, m, e)
    requires SearchInv(g, m, e, start, closed, order, dist, parents, {})
    requires FrontierHolds(g, e, closed, dist, pq)
    requires i < |pq| && pq[i].point !in closed && closed <= Passable(g) + {start}
    requires forall j :: 0 <= j < |pq| ==> pq[i].key <= pq[j].key
    ensures SearchInv(g, m, e, start, closed + {pq[i].point}, order + [pq[i].point], dist, parents, {pq[i].point})
    ensures FrontierHolds(g, e, closed + {pq[i].point}, dist, pq[..i] + pq[i + 1..])
    ensures closed + {pq[i].point} <= Passable(g) + {start}
    ensures |Passable(g) + {start} - (closed + {pq[i].point})| < |Passable(g) + {start} - closed|
  {
    var u := pq[i].point;
    var universe := Passable(g) + {start};
    FrontierMin(g, e, closed, dist, pq, i);
    KnownPassable(g, m, start, closed, dist, parents, u);
    Settle(g, m, e, start, closed, order, dist, parents, u);
    FrontierRemove(g, e, closed, closed + {u}, dist, pq, i);
    assert universe - (closed + {u}) < universe - closed by {
      assert u in universe - closed;
    }
    StrictSubsetSmaller(universe - (closed + {u}), universe - closed);
  }

  /**
   * The loop over the unsettled neighbours of the settled point u, in the
   * order they are given: every one of them ends up known no dearer than
   * through u, each improvement is recorded in the parent map and queued,
   * and no known distance grows.
   */
  method RelaxNeighbors(g: GridGraph, m: Measure, e: Estimate, start: Point, closed: set<Point>, order: seq<Point>,
                        distances: map<Point, real>, parent: ParentMap, pq: seq<Entry>, u: Point, neighbors: seq<Point>)
    returns (distances': map<Point, real>, parent': ParentMap, pq': seq<Entry>)
    requires Consistent(g, m, e)
    requires forall n :: n in neighbors <==> IsStep(g, u, n) && n !in closed
    requires SearchInv(g, m, e, start, closed, order, distances, parent, {u})
    requires FrontierHolds(g, e, closed, distances, pq)
    requires order != [] && u == order[|order| - 1]
    ensures SearchInv(g, m, e, start, closed, order, distances', parent', {})
    ensures FrontierHolds(g, e, closed, distances', pq')
    ensures Lowered(distances, distances')
  {
    distances', parent', pq' := distances, parent, pq;
    assert u in closed;
    ghost var du := distances[u];
    for k := 0 to |neighbors|
      invariant SearchInv(g, m, e, start, closed, order, distances', parent', {u})
      invariant FrontierHolds(g, e, closed, distances', pq')
      invariant u in distances' && distances'[u] == du
      invariant Lowered(distances, distances')
      invariant forall n :: n in neighbors[..k] ==> n in distances' && distances'[n] <= du + StepCost(g, m, u, n)
    {
      var neighbor := neighbors[k];
      assert neighbor !in closed && neighbor != u;
      var movementCost := StepCost(g, m, u, neighbor);
      var newDistance := distances'[u] + movementCost;
      if neighbor !in distances' || newDistance < distances'[neighbor] {
        RelaxStep(g, m, e, start, closed, order, distances', parent', pq', u, neighbor, newDistance);
        LoweredUpdate(distances, distances', neighbor, newDistance);
        distances' := distances'[neighbor := newDistance];
        parent' := parent'[neighbor := Some(u)];
        pq' := pq' + [Entry(neighbor, newDistance + H(g, e, neighbor))];
      }
      forall n | n in neighbors[..k + 1] ensures n in distances' && distances'[n] <= du + StepCost(g, m, u, n) {
        if n != neighbor {
          assert n in neighbors[..k];
        }
      }
    }
    assert Relaxed(g, m, u, closed, distances') by {
      assert neighbors[..|neighbors|] == neighbors;
    }
    FinishRelax(g, m, e, start, closed, order, distances', parent', u);
  }

  /** getNeighbors(current, settled), shuffled when the service shuffles: exactly the moves to unsettled points. */
  method UnsettledNeighbors(g: GridGraph, u: Point, closed: set<Point>, shuffle: bool) returns (neighbors: seq<Point>)
    ensures forall n :: n in neighbors <==> IsStep(g, u, n) && n !in closed
    ensures Distinct(neighbors)
  {
    neighbors := GetNeighbors(g, u, Some(closed));
    NeighborsDistinct(g, u, Some(closed));
    if shuffle {
      neighbors := Shuffle(neighbors);
    }
    AllExcludedNeighbors(g, u, closed);
  }

  /**
   * What a search promises. The target is found exactly when it is
   * reachable. The path is then a cheapest walk to it, and otherwise empty.
   * Every visited point was settled at its cheapest distance, in order of
   * rank. When the target is not found, the visited points are exactly the
   * points reachable from the start.
   */
  ghost predicate SearchResult(g: GridGraph, m: Measure, e: Estimate, start: Point, end: Point, out: Outcome, dist: map<Point, real>) {
    && (out.found <==> Reachable(g, start, end))
    && (out.found ==> WalkFromTo(g, out.path, start, end) && end in dist && WalkCost(g, m, out.path) == dist[end])
    && (out.found ==> forall p :: WalkFromTo(g, p, start, end) ==> WalkCost(g, m, out.path) <= WalkCost(g, m, p))
    && (!out.found ==> out.path == [])
    && out.nodesExplored == |out.visitedPath|
    && SettledCheapest(g, m, e, start, out.visitedPath, dist)
    && (out.found ==> out.visitedPath[|out.visitedPath| - 1] == end)
    && (!out.found ==> forall v :: v in out.visitedPath <==> Reachable(g, start, v))
  }

  /** A search whose start is its target settles the start alone and answers the one-point path. */
  lemma StartIsEnd(g: GridGraph, m: Measure, e: Estimate, s: Point, out: Outcome, dist: map<Point, real>)
    requires SearchResult(g, m, e, s, s, out, dist)
    ensures out.found && out.path == [s] && out.visitedPath == [s] && out.nodesExplored == 1
  {
    assert WalkFromTo(g, [s], s, s);
    var vp := out.visitedPath;
    assert vp[0] == vp[|vp| - 1];
    WalkCostMoves(g, m, out.path);
    assert WalkCost(g, m, out.path) <= WalkCost(g, m, [s]);
  }

  /** With no estimate the rank is the distance itself, so the visited points come in non-decreasing distance. */
  lemma SettledByDistance(g: GridGraph, m: Measure, start: Point, order: seq<Point>, dist: map<Point, real>, i: nat, j: nat)
    requires SettledCheapest(g, m, Blind, start, order, dist)
    requires i <= j < |order|
    ensures dist[order[i]] <= dist[order[j]]
  {
    if i < j {
      assert Rank(g, Blind, dist, order[i]) <= Rank(g, Blind, dist, order[j]);
    }
  }

  /** The search stops at the target: its parent chain is the answer. */
  lemma FoundResult(g: GridGraph, m: Measure, e: Estimate, start: Point, end: Point, closed: set<Point>, order: seq<Point>,
                    dist: map<Point, real>, parents: ParentMap, path: seq<Point>)
    requires SearchInv(g, m, e, start, closed, order, dist, parents, {end})
    requires order != [] && order[|order| - 1] == end && IsParentChain(parents, path, end)
    ensures SearchResult(g, m, e, start, end, Outcome(path, order, |order|, true), dist)
  {
    FoundPath(g, m, e, start, closed, order, dist, parents, {end}, path, end);
    Report(g, m, e, start, closed, order, dist, parents, {end});
  }

  /** The queue runs dry: every reachable point was settled and the target was not among them. */
  lemma ExhaustedResult(g: GridGraph, m: Measure, e: Estimate, start: Point, end: Point, closed: set<Point>, order: seq<Point>,
                        dist: map<Point, real>, parents: ParentMap)
    requires SearchInv(g, m, e, start, closed, order, dist, parents, {})
    requires FrontierHolds(g, e, closed, dist, []) && end !in closed
    ensures SearchResult(g, m, e, start, end, Outcome([], order, |order|, false), dist)
  {
    FrontierEmpty(g, e, closed, dist);
    Exhausted(g, m, e, start, closed, order, dist, parents);
    assert start in closed;
    Report(g, m, e, start, closed, order, dist, parents, {});
  }

  /**
   * The search loop. A search ranked by the distance alone is Dijkstra's,
   * one ranked by distance plus estimate towards the target is A*.
   */
  method Search(g: GridGraph, m: Measure, start: Point, end: Point, e: Estimate, shuffle: bool)
    returns (out: Outcome, ghost dist: map<Point, real>)
    requires Consistent(g, m, e)
    ensures SearchResult(g, m, e, start, end, out, dist)
  {
    var closed: set<Point> := {};
    var visitedPath: seq<Point> := [];
    var distances := map[start := 0.0];
    var parent: ParentMap := map[start := None];
    var pq := [Entry(start, 0.0 + H(g, e, start))];
    var nodesExplored := 0;
    ghost var universe := Passable(g) + {start};
    InitialInv(g, m, e, start);
    while pq != []
      invariant SearchInv(g, m, e, start, closed, visitedPath, distances, parent, {})
      invariant FrontierHolds(g, e, closed, distances, pq)
      invariant nodesExplored == |visitedPath|
      invariant end !in closed
      invariant closed <= universe
      decreases |universe - closed|, |pq|
    {
      var i := PollMin(pq);
      var current := pq[i];
      var u := current.point;
      if u in closed {
        SkipStep(g, e, closed, distances, pq, i);
        pq := pq[..i] + pq[i + 1..];
        continue;
      }
      var done;
      closed, visitedPath, nodesExplored, distances, parent, pq, done :=
        SettleNext(g, m, e, start, end, closed, visitedPath, nodesExplored, distances, parent, pq, i, shuffle);
      if done.Some? {
        out := done.value;
        dist := distances;
        return;
      }
    }
    ExhaustedResult(g, m, e, start, end, closed, visitedPath, distances, parent);
    out := Outcome([], visitedPath, nodesExplored, false);
    dist := distances;
  }

  /**
   * The rest of one round of the search loop, once the polled entry's
   * point u is unsettled: settle u, answer its parent chain when u is the
   * target, and otherwise relax the moves from u.
   */
  method SettleNext(g: GridGraph, m: Measure, e: Estimate, start: Point, end: Point, closed: set<Point>,
                    visitedPath: seq<Point>, nodesExplored: int, distances: map<Point, real>, parent: ParentMap,
                    pq: seq<Entry>, i: nat, shuffle: bool)
    returns (closed': set<Point>, visitedPath': seq<Point>, nodesExplored': int, distances': map<Point, real>,
             parent': ParentMap, pq': seq<Entry>, done: Option<Outcome>)
    requires Consistent(g, m, e)
    requires SearchInv(g, m, e, start, closed, visitedPath, distances, parent, {})
    requires FrontierHolds(g, e, closed, distances, pq)
    requires nodesExplored == |visitedPath| && end !in closed && closed <= Passable(g) + {start}
    requires i < |pq| && pq[i].point !in closed
    requires forall j :: 0 <= j < |pq| ==> pq[i].key <= pq[j].key
    ensures done.Some? ==> SearchResult(g, m, e, start, end, done.value, distances')
    ensures done.None? ==>
      && SearchInv(g, m, e, start, closed', visitedPath', distances', parent', {})
      && FrontierHolds(g, e, closed', distances', pq')
      && nodesExplored' == |visitedPath'| && end !in closed' && closed' <= Passable(g) + {start}
      && |Passable(g) + {start} - closed'| < |Passable(g) + {start} - closed|
  {
    var u := pq[i].point;
    SettleStep(g, m, e, start, closed, visitedPath, distances, parent, pq, i);
    pq' := pq[..i] + pq[i + 1..];
    closed' := closed + {u};
    visitedPath' := visitedPath + [u];
    nodesExplored' := nodesExplored + 1;
    distances', parent' := distances, parent;
    if u == end {
      RankedChainEnds(g, start, parent, visitedPath', |visitedPath'| - 1);
      var path := ReconstructPath(parent, end, |visitedPath'| - 1);
      FoundResult(g, m, e, start, end, closed', visitedPath', distances, parent, path);
      done := Some(Outcome(path, visitedPath', nodesExplored', true));
      return;
    }
    var neighbors := UnsettledNeighbors(g, u, closed', shuffle);
    distances', parent', pq' := RelaxNeighbors(g, m, e, start, closed', visitedPath', distances, parent, pq', u, neighbors);
    done := None;
  }
}
