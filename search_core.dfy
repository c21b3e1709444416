/**
 * What BFS, Dijkstra and A* share: they settle points one at a time, each
 * at the least known distance (plus, for A*, the estimate) among the points
 * reached but not yet settled, and record for every reached point the
 * settled point it was reached from. The invariant below, and the lemmas
 * that carry it through one settle and one relaxation, prove that each
 * settled point's distance is the cheapest over all walks from the start.
 */
module SearchCore {
  import opened Wrappers
  import opened GridModel
  import opened Walks
  import opened PathUtils
  import opened AStarHeuristic

  /** The estimate a search adds to a point's distance to rank it: none, or the A* heuristic towards a target. */
  datatype Estimate = Blind | Toward(target: Point)

  /** AStarService.WEIGHT: the factor on the estimate in the A* key. */
  const WEIGHT: real := 1.0

  /** What a point's rank adds to its distance: nothing, or WEIGHT times the A* heuristic. */
  function H(g: GridGraph, e: Estimate, p: Point): real {
    match e
    case Blind => 0.0
    case Toward(t) => WEIGHT * Heuristic(p, t, g.allowDiagonal)
  }

  /** The key a reached point is ranked by: its known distance plus its estimate. */
  function Rank(g: GridGraph, e: Estimate, dist: map<Point, real>, v: Point): real {
    if v in dist then dist[v] + H(g, e, v) else 0.0
  }

  /** The pairs of measure and estimate for which one move never lowers the estimate by more than its price. */
  predicate Consistent(g: GridGraph, m: Measure, e: Estimate) {
    e.Blind? || m == Cost || !g.allowDiagonal
  }

  lemma StepConsistent(g: GridGraph, m: Measure, e: Estimate, a: Point, b: Point)
    requires Consistent(g, m, e) && IsStep(g, a, b)
    ensures H(g, e, a) <= StepCost(g, m, a, b) + H(g, e, b)
  {
    if e.Toward? {
      HeuristicStep(g, a, b, e.target);
    }
  }

  lemma {:induction false} WalkConsistent(g: GridGraph, m: Measure, e: Estimate, p: seq<Point>)
    requires Consistent(g, m, e) && IsWalk(g, p)
    ensures H(g, e, p[0]) <= WalkCost(g, m, p) + H(g, e, p[|p| - 1])
    decreases |p|
  {
    if |p| > 1 {
      WalkSuffix(g, p, 1);
      WalkConsistent(g, m, e, p[1..]);
      StepConsistent(g, m, e, p[0], p[1]);
    }
  }

  /** No walk from start to v is cheaper than d. */
  ghost predicate Optimal(g: GridGraph, m: Measure, start: Point, v: Point, d: real) {
    forall p :: WalkFromTo(g, p, start, v) ==> d <= WalkCost(g, m, p)
  }

  /** Some walk from start to v costs exactly d. */
  ghost predicate Achieved(g: GridGraph, m: Measure, start: Point, v: Point, d: real) {
    exists p :: WalkFromTo(g, p, start, v) && WalkCost(g, m, p) == d
  }

  /** Every move out of x that does not land on a settled point reaches a known point, no dearer than through x. */
  ghost predicate Relaxed(g: GridGraph, m: Measure, x: Point, closed: set<Point>, dist: map<Point, real>) {
    && x in dist
    && forall n {:trigger IsStep(g, x, n)} :: IsStep(g, x, n) && n !in closed ==> n in dist && dist[n] <= dist[x] + StepCost(g, m, x, n)
  }

  /** v was reached by one move from a settled parent, at the parent's distance plus the price of the move. */
  ghost predicate Linked(g: GridGraph, m: Measure, closed: set<Point>, dist: map<Point, real>, parents: ParentMap, v: Point) {
    && v in dist
    && Get(parents, v).Some?
    && var u := Get(parents, v).value;
       u in closed && u in dist && IsStep(g, u, v) && dist[v] == dist[u] + StepCost(g, m, u, v)
  }

  /** order starts at start, and the parent of each later point is an earlier point, one move away. */
  ghost predicate RankedTree(g: GridGraph, start: Point, parents: ParentMap, order: seq<Point>) {
    && |order| >= 1 && order[0] == start && Get(parents, start).None?
    && forall i {:trigger Get(parents, order[i])} :: 0 < i < |order| ==>
         && Get(parents, order[i]).Some?
         && Get(parents, order[i]).value in order[..i]
         && IsStep(g, Get(parents, order[i]).value, order[i])
  }

  /** The start is known at distance 0 without a parent. */
  ghost predicate Rooted(g: GridGraph, start: Point, dist: map<Point, real>, parents: ParentMap) {
    start in dist && dist[start] == 0.0 && Get(parents, start).None?
  }

  ghost predicate AllLinked(g: GridGraph, m: Measure, start: Point, closed: set<Point>, dist: map<Point, real>, parents: ParentMap) {
    forall v {:trigger Linked(g, m, closed, dist, parents, v)} :: v in dist && v != start ==> Linked(g, m, closed, dist, parents, v)
  }

  ghost predicate AllAchieved(g: GridGraph, m: Measure, start: Point, dist: map<Point, real>) {
    forall v {:trigger Achieved(g, m, start, v, dist[v])} :: v in dist ==> Achieved(g, m, start, v, dist[v])
  }

  /** order lists the settled points once each, and each of them is known. */
  ghost predicate SettleOrder(closed: set<Point>, order: seq<Point>, dist: map<Point, real>) {
    (forall x :: x in closed <==> x in order) && closed <= dist.Keys && Distinct(order)
  }

  ghost predicate AllOptimal(g: GridGraph, m: Measure, start: Point, closed: set<Point>, dist: map<Point, real>) {
    forall x {:trigger Optimal(g, m, start, x, dist[x])} :: x in closed ==> x in dist && Optimal(g, m, start, x, dist[x])
  }

  ghost predicate AllRelaxed(g: GridGraph, m: Measure, closed: set<Point>, pending: set<Point>, dist: map<Point, real>) {
    forall x {:trigger Relaxed(g, m, x, closed, dist)} :: x in closed && x !in pending ==> Relaxed(g, m, x, closed, dist)
  }

  /** Points were settled in order of rank. */
  ghost predicate RankSorted(g: GridGraph, e: Estimate, order: seq<Point>, dist: map<Point, real>) {
    forall i, j :: 0 <= i < j < |order| ==> Rank(g, e, dist, order[i]) <= Rank(g, e, dist, order[j])
  }

  /** No reached, unsettled point ranks below the point settled last (and so below any settled point). */
  ghost predicate LastBelowOpen(g: GridGraph, e: Estimate, closed: set<Point>, order: seq<Point>, dist: map<Point, real>) {
    order != [] ==>
      forall w {:trigger w in dist} :: w in dist && w !in closed ==> Rank(g, e, dist, order[|order| - 1]) <= Rank(g, e, dist, w)
  }

  /**
   * The state of a best-first search: dist holds the known distances,
   * closed the settled points and order the same points in settle order,
   * parents the parent map; pending holds the settled points whose moves are
   * still being relaxed.
   */
  ghost predicate SearchInv(g: GridGraph, m: Measure, e: Estimate, start: Point, closed: set<Point>, order: seq<Point>,
                            dist: map<Point, real>, parents: ParentMap, pending: set<Point>)
  {
    && Rooted(g, start, dist, parents)
    && AllLinked(g, m, start, closed, dist, parents)
    && AllAchieved(g, m, start, dist)
    && SettleOrder(closed, order, dist)
    && (order != [] ==> RankedTree(g, start, parents, order))
    && AllOptimal(g, m, start, closed, dist)
    && AllRelaxed(g, m, closed, pending, dist)
    && RankSorted(g, e, order, dist)
    && LastBelowOpen(g, e, closed, order, dist)
  }

  /** Every known point other than the start was reached by a move, so it is passable. */
  lemma KnownPassable(g: GridGraph, m: Measure, start: Point, closed: set<Point>, dist: map<Point, real>, parents: ParentMap, v: Point)
    requires AllLinked(g, m, start, closed, dist, parents) && v in dist
    ensures v == start || v in Passable(g)
  {
    if v != start {
      assert Linked(g, m, closed, dist, parents, v);
      StepInPassable(g, Get(parents, v).value, v);
    }
  }

  /** Before the first settle only the start is known. */
  lemma InitialInv(g: GridGraph, m: Measure, e: Estimate, start: Point)
    ensures SearchInv(g, m, e, start, {}, [], map[start := 0.0], map[start := None], {})
  {
    assert WalkFromTo(g, [start], start, start) && WalkCost(g, m, [start]) == 0.0;
  }

  /** Index of the first element of p outside s, or |p|. */
  function FirstOutside(p: seq<Point>, s: set<Point>): (i: nat)
    ensures i <= |p|
    ensures forall j :: 0 <= j < i ==> p[j] in s
    ensures i < |p| ==> p[i] !in s
  {
    if p == [] || p[0] !in s then 0 else 1 + FirstOutside(p[1..], s)
  }

  /**
   * The heart of the correctness argument: a reached, unsettled point whose
   * rank is least among the unsettled ones has its cheapest distance. Any
   * walk to it leaves the settled set at some point w, which is known no
   * dearer than the walk's part up to w, and the estimate cannot drop along
   * the rest of the walk by more than its price.
   */
  lemma SettleOptimal(g: GridGraph, m: Measure, e: Estimate, start: Point, closed: set<Point>, dist: map<Point, real>, u: Point)
    requires Consistent(g, m, e)
    requires start in dist && dist[start] == 0.0
    requires AllOptimal(g, m, start, closed, dist) && AllRelaxed(g, m, closed, {}, dist)
    requires u in dist && u !in closed
    requires forall w :: w in dist && w !in closed ==> Rank(g, e, dist, u) <= Rank(g, e, dist, w)
    ensures Optimal(g, m, start, u, dist[u])
  {
    forall p | WalkFromTo(g, p, start, u)
      ensures dist[u] <= WalkCost(g, m, p)
    {
      var i := FirstOutside(p, closed);
      if i > 0 {
        assert p[i - 1] in closed;
      }
      ExitPoint(g, m, start, closed, dist, p, i);
      WalkSuffix(g, p, i);
      WalkConsistent(g, m, e, p[i..]);
      WalkCostSplit(g, m, p, i);
    }
  }

  /** The first point where a walk from the start leaves the settled set is known, no dearer than the walk up to it. */
  lemma ExitPoint(g: GridGraph, m: Measure, start: Point, closed: set<Point>, dist: map<Point, real>, p: seq<Point>, i: nat)
    requires start in dist && dist[start] == 0.0
    requires IsWalk(g, p) && p[0] == start && i < |p| && p[i] !in closed
    requires i > 0 ==> Relaxed(g, m, p[i - 1], closed, dist) && Optimal(g, m, start, p[i - 1], dist[p[i - 1]])
    ensures p[i] in dist && dist[p[i]] <= WalkCost(g, m, p[..i + 1])
  {
    if i > 0 {
      var x, w := p[i - 1], p[i];
      var q := p[..i];
      WalkPrefix(g, p, i - 1);
      assert WalkFromTo(g, q, start, x);
      assert IsStep(g, x, w);
      WalkCostAppend(g, m, q, w);
      assert q + [w] == p[..i + 1];
    }
  }

  /** Appending a point whose parent is already in a ranked order keeps it ranked. */
  lemma RankedTreeAppend(g: GridGraph, start: Point, parents: ParentMap, order: seq<Point>, u: Point)
    requires RankedTree(g, start, parents, order)
    requires Get(parents, u).Some? && Get(parents, u).value in order && IsStep(g, Get(parents, u).value, u)
    ensures RankedTree(g, start, parents, order + [u])
  {
    var order' := order + [u];
    assert order'[..|order|] == order;
    forall i | 0 < i < |order'|
      ensures Get(parents, order'[i]).value in order'[..i]
    {
      if i < |order| {
        assert order'[..i] == order[..i];
      }
    }
  }

  /** A ranked order stays ranked when the parent map changes only off the order. */
  lemma RankedTreeFrame(g: GridGraph, start: Point, parents: ParentMap, order: seq<Point>, n: Point, u: Point)
    requires RankedTree(g, start, parents, order) && n !in order
    ensures RankedTree(g, start, parents[n := Some(u)], order)
  {
    forall i | 0 <= i < |order| ensures Get(parents[n := Some(u)], order[i]) == Get(parents, order[i]) {
      assert order[i] != n;
    }
  }

  lemma SettleLinked(g: GridGraph, m: Measure, start: Point, closed: set<Point>, dist: map<Point, real>, parents: ParentMap, u: Point)
    requires AllLinked(g, m, start, closed, dist, parents)
    ensures AllLinked(g, m, start, closed + {u}, dist, parents)
  {
    forall v | v in dist && v != start ensures Linked(g, m, closed + {u}, dist, parents, v) {
      assert Linked(g, m, closed, dist, parents, v);
    }
  }

  lemma SettleRelaxed(g: GridGraph, m: Measure, closed: set<Point>, dist: map<Point, real>, u: Point)
    requires AllRelaxed(g, m, closed, {}, dist)
    ensures AllRelaxed(g, m, closed + {u}, {u}, dist)
  {
    forall x | x in closed + {u} && x !in {u} ensures Relaxed(g, m, x, closed + {u}, dist) {
      assert Relaxed(g, m, x, closed, dist);
    }
  }

  lemma SettleSorted(g: GridGraph, e: Estimate, closed: set<Point>, order: seq<Point>, dist: map<Point, real>, u: Point)
    requires RankSorted(g, e, order, dist) && LastBelowOpen(g, e, closed, order, dist)
    requires u in dist && u !in closed
    ensures RankSorted(g, e, order + [u], dist)
  {
    var order' := order + [u];
    forall i, j | 0 <= i < j < |order'|
      ensures Rank(g, e, dist, order'[i]) <= Rank(g, e, dist, order'[j])
    {
      if j < |order| {
        assert order'[i] == order[i] && order'[j] == order[j];
      } else {
        assert order'[i] == order[i];
        assert u in dist;
        if i < |order| - 1 {
          assert Rank(g, e, dist, order[i]) <= Rank(g, e, dist, order[|order| - 1]);
        }
      }
    }
  }

  lemma SettleRanked(g: GridGraph, m: Measure, start: Point, closed: set<Point>, order: seq<Point>,
                     dist: map<Point, real>, parents: ParentMap, u: Point)
    requires Rooted(g, start, dist, parents) && AllLinked(g, m, start, closed, dist, parents)
    requires forall x :: x in closed <==> x in order
    requires order != [] ==> RankedTree(g, start, parents, order)
    requires u in dist && u !in closed
    ensures RankedTree(g, start, parents, order + [u])
  {
    if order == [] {
      forall v | v in dist && v != start ensures Get(parents, v).Some? && Get(parents, v).value in closed {
        assert Linked(g, m, closed, dist, parents, v);
      }
    } else {
      assert Linked(g, m, closed, dist, parents, u) by {
        assert u != order[0];
      }
      RankedTreeAppend(g, start, parents, order, u);
    }
  }

  lemma SettleOrdered(g: GridGraph, e: Estimate, closed: set<Point>, order: seq<Point>, dist: map<Point, real>, u: Point)
    requires SettleOrder(closed, order, dist)
    requires u in dist && u !in closed
    requires forall w :: w in dist && w !in closed ==> Rank(g, e, dist, u) <= Rank(g, e, dist, w)
    ensures SettleOrder(closed + {u}, order + [u], dist) && LastBelowOpen(g, e, closed + {u}, order + [u], dist)
  {
    DistinctAppend(order, u);
  }

  /** Settling a least-ranked unsettled point keeps the invariant; its own moves are then pending. */
  lemma Settle(g: GridGraph, m: Measure, e: Estimate, start: Point, closed: set<Point>, order: seq<Point>,
               dist: map<Point, real>, parents: ParentMap, u: Point)
    requires Consistent(g, m, e)
    requires SearchInv(g, m, e, start, closed, order, dist, parents, {})
    requires u in dist && u !in closed
    requires forall w :: w in dist && w !in closed ==> Rank(g, e, dist, u) <= Rank(g, e, dist, w)
    ensures SearchInv(g, m, e, start, closed + {u}, order + [u], dist, parents, {u})
  {
    SettleOptimal(g, m, e, start, closed, dist, u);
    SettleOrdered(g, e, closed, order, dist, u);
    SettleLinked(g, m, start, closed, dist, parents, u);
    SettleRanked(g, m, start, closed, order, dist, parents, u);
    SettleRelaxed(g, m, closed, dist, u);
    SettleSorted(g, e, closed, order, dist, u);
  }

  lemma RelaxLinked(g: GridGraph, m: Measure, start: Point, closed: set<Point>, dist: map<Point, real>, parents: ParentMap,
                    u: Point, n: Point, d: real)
    requires AllLinked(g, m, start, closed, dist, parents)
    requires u in closed && u in dist && IsStep(g, u, n) && n !in closed && n != start
    requires d == dist[u] + StepCost(g, m, u, n)
    ensures AllLinked(g, m, start, closed, dist[n := d], parents[n := Some(u)])
  {
    var dist', parents' := dist[n := d], parents[n := Some(u)];
    forall v | v in dist' && v != start ensures Linked(g, m, closed, dist', parents', v) {
      if v != n {
        assert Linked(g, m, closed, dist, parents, v);
      }
    }
  }

  lemma RelaxAchieved(g: GridGraph, m: Measure, start: Point, dist: map<Point, real>, u: Point, n: Point, d: real)
    requires AllAchieved(g, m, start, dist)
    requires u in dist && IsStep(g, u, n) && d == dist[u] + StepCost(g, m, u, n)
    ensures AllAchieved(g, m, start, dist[n := d])
  {
    var dist' := dist[n := d];
    forall v | v in dist' ensures Achieved(g, m, start, v, dist'[v]) {
      if v == n {
        assert Achieved(g, m, start, u, dist[u]);
        var q :| WalkFromTo(g, q, start, u) && WalkCost(g, m, q) == dist[u];
        WalkAppend(g, q, n);
        WalkCostAppend(g, m, q, n);
        assert WalkFromTo(g, q + [n], start, n);
      } else {
        assert Achieved(g, m, start, v, dist[v]);
      }
    }
  }

  lemma RelaxRelaxed(g: GridGraph, m: Measure, closed: set<Point>, dist: map<Point, real>, u: Point, n: Point, d: real)
    requires AllRelaxed(g, m, closed, {u}, dist)
    requires n !in closed && (n !in dist || d < dist[n])
    ensures AllRelaxed(g, m, closed, {u}, dist[n := d])
  {
    forall x | x in closed && x !in {u} ensures Relaxed(g, m, x, closed, dist[n := d]) {
      assert Relaxed(g, m, x, closed, dist);
    }
  }

  lemma RelaxBelow(g: GridGraph, m: Measure, e: Estimate, closed: set<Point>, order: seq<Point>, dist: map<Point, real>,
                   u: Point, n: Point, d: real)
    requires Consistent(g, m, e)
    requires LastBelowOpen(g, e, closed, order, dist)
    requires order != [] && u == order[|order| - 1] && u != n
    requires IsStep(g, u, n) && u in dist && d == dist[u] + StepCost(g, m, u, n)
    ensures LastBelowOpen(g, e, closed, order, dist[n := d])
  {
    StepConsistent(g, m, e, u, n);
  }

  /** Lowering a point's distance through the last settled point keeps the invariant. */
  lemma Relax(g: GridGraph, m: Measure, e: Estimate, start: Point, closed: set<Point>, order: seq<Point>,
              dist: map<Point, real>, parents: ParentMap, u: Point, n: Point, d: real)
    requires Consistent(g, m, e)
    requires SearchInv(g, m, e, start, closed, order, dist, parents, {u})
    requires order != [] && u == order[|order| - 1]
    requires IsStep(g, u, n) && n !in closed
    requires d == dist[u] + StepCost(g, m, u, n)
    requires n !in dist || d < dist[n]
    ensures SearchInv(g, m, e, start, closed, order, dist[n := d], parents[n := Some(u)], {u})
  {
    assert start in closed && u in closed;
    RelaxLinked(g, m, start, closed, dist, parents, u, n, d);
    RelaxAchieved(g, m, start, dist, u, n, d);
    RankedTreeFrame(g, start, parents, order, n, u);
    RelaxRelaxed(g, m, closed, dist, u, n, d);
    RelaxBelow(g, m, e, closed, order, dist, u, n, d);
  }

  /** Once every move of u has been relaxed, u is no longer pending. */
  lemma FinishRelax(g: GridGraph, m: Measure, e: Estimate, start: Point, closed: set<Point>, order: seq<Point>,
                    dist: map<Point, real>, parents: ParentMap, u: Point)
    requires SearchInv(g, m, e, start, closed, order, dist, parents, {u})
    requires Relaxed(g, m, u, closed, dist)
    ensures SearchInv(g, m, e, start, closed, order, dist, parents, {})
  {
  }

  /**
   * When every known point is settled, the settled set is closed under
   * moves, so it holds exactly the points reachable from the start.
   */
  lemma Exhausted(g: GridGraph, m: Measure, e: Estimate, start: Point, closed: set<Point>, order: seq<Point>,
                  dist: map<Point, real>, parents: ParentMap)
    requires SearchInv(g, m, e, start, closed, order, dist, parents, {})
    requires dist.Keys <= closed
    ensures forall v :: v in closed <==> Reachable(g, start, v)
  {
    assert start in closed;
    forall a, b | a in closed && IsStep(g, a, b) ensures b in closed {
      assert Relaxed(g, m, a, closed, dist);
    }
    forall v ensures v in closed <==> Reachable(g, start, v) {
      if v in closed {
        assert Achieved(g, m, start, v, dist[v]);
      }
      if Reachable(g, start, v) {
        var p :| WalkFromTo(g, p, start, v);
        WalkStaysInClosedSet(g, closed, p);
      }
    }
  }

  /** What a search reports about its settle order: the start first, no repeats, cheapest distances, settled by rank. */
  ghost predicate SettledCheapest(g: GridGraph, m: Measure, e: Estimate, start: Point, order: seq<Point>, dist: map<Point, real>) {
    && |order| >= 1 && order[0] == start && Distinct(order)
    && (forall v :: v in order ==> v in dist && Optimal(g, m, start, v, dist[v]) && Achieved(g, m, start, v, dist[v]))
    && RankSorted(g, e, order, dist)
  }

  lemma Report(g: GridGraph, m: Measure, e: Estimate, start: Point, closed: set<Point>, order: seq<Point>,
               dist: map<Point, real>, parents: ParentMap, pending: set<Point>)
    requires SearchInv(g, m, e, start, closed, order, dist, parents, pending) && order != []
    ensures SettledCheapest(g, m, e, start, order, dist)
  {
    forall v | v in order ensures v in dist && Optimal(g, m, start, v, dist[v]) && Achieved(g, m, start, v, dist[v]) {
      assert v in closed;
    }
  }

  lemma {:induction false} ChainEndsMonotone(parents: ParentMap, p: Point, f1: nat, f2: nat)
    requires ChainEndsWithin(parents, p, f1) && f1 <= f2
    ensures ChainEndsWithin(parents, p, f2)
    decreases f1
  {
    if Get(parents, p).Some? {
      ChainEndsMonotone(parents, Get(parents, p).value, f1 - 1, f2 - 1);
    }
  }

  /** Following parents from the k-th point of a ranked order ends within k steps. */
  lemma {:induction false} RankedChainEnds(g: GridGraph, start: Point, parents: ParentMap, order: seq<Point>, k: nat)
    requires RankedTree(g, start, parents, order) && k < |order|
    ensures ChainEndsWithin(parents, order[k], k)
    decreases k
  {
    if k > 0 {
      var u := Get(parents, order[k]).value;
      assert u in order[..k];
      var j :| 0 <= j < k && order[..k][j] == u;
      RankedChainEnds(g, start, parents, order, j);
      ChainEndsMonotone(parents, u, j, k - 1);
    }
  }

  /** Every point of a ranked order is reachable from the start: its parent comes earlier and is one move away. */
  lemma {:induction false} RankedReachable(g: GridGraph, start: Point, parents: ParentMap, order: seq<Point>, k: nat)
    requires RankedTree(g, start, parents, order) && k < |order|
    ensures Reachable(g, start, order[k])
    decreases k
  {
    if k == 0 {
      assert WalkFromTo(g, [start], start, start);
    } else {
      var u := Get(parents, order[k]).value;
      assert u in order[..k];
      var j :| 0 <= j < k && order[..k][j] == u;
      RankedReachable(g, start, parents, order, j);
      var p :| WalkFromTo(g, p, start, u);
      WalkAppend(g, p, order[k]);
      assert WalkFromTo(g, p + [order[k]], start, order[k]);
    }
  }

  /** The parent chain of a point of a ranked order is a walk from start through points of the order. */
  lemma {:induction false} RankedChainWalk(g: GridGraph, start: Point, parents: ParentMap, order: seq<Point>, path: seq<Point>, end: Point)
    requires RankedTree(g, start, parents, order) && end in order
    requires IsParentChain(parents, path, end)
    ensures WalkFromTo(g, path, start, end)
    ensures forall v :: v in path ==> v in order
    decreases |path|
  {
    var k :| 0 <= k < |order| && order[k] == end;
    ChainLastLink(parents, path, end);
    if |path| == 1 {
      assert k == 0;
    } else {
      var u := path[|path| - 2];
      assert k > 0;
      assert u in order[..k];
      var q := path[..|path| - 1];
      assert forall i :: 0 <= i < |q| - 1 ==> Get(parents, q[i + 1]) == Some(q[i]);
      assert IsParentChain(parents, q, u);
      RankedChainWalk(g, start, parents, order, q, u);
      WalkAppend(g, q, end);
      assert q + [end] == path;
    }
  }

  /** Along a parent chain of known points, the price of the walk is the distance of its end. */
  lemma {:induction false} ChainCost(g: GridGraph, m: Measure, start: Point, closed: set<Point>,
                                     dist: map<Point, real>, parents: ParentMap, path: seq<Point>, end: Point)
    requires Rooted(g, start, dist, parents) && AllLinked(g, m, start, closed, dist, parents)
    requires IsParentChain(parents, path, end) && path[0] == start && end in dist
    ensures WalkCost(g, m, path) == dist[end]
    decreases |path|
  {
    ChainLastLink(parents, path, end);
    if |path| > 1 {
      var u := path[|path| - 2];
      var q := path[..|path| - 1];
      assert forall i :: 0 <= i < |q| - 1 ==> Get(parents, q[i + 1]) == Some(q[i]);
      assert end != start;
      assert Linked(g, m, closed, dist, parents, end);
      ChainCost(g, m, start, closed, dist, parents, q, u);
      WalkCostAppend(g, m, q, end);
      assert q + [end] == path;
    }
  }

  /** A settled target's parent chain is a cheapest walk from the start. */
  lemma FoundPath(g: GridGraph, m: Measure, e: Estimate, start: Point, closed: set<Point>, order: seq<Point>,
                  dist: map<Point, real>, parents: ParentMap, pending: set<Point>, path: seq<Point>, end: Point)
    requires SearchInv(g, m, e, start, closed, order, dist, parents, pending)
    requires end in closed && IsParentChain(parents, path, end)
    ensures WalkFromTo(g, path, start, end)
    ensures WalkCost(g, m, path) == dist[end]
    ensures forall p :: WalkFromTo(g, p, start, end) ==> WalkCost(g, m, path) <= WalkCost(g, m, p)
  {
    RankedChainWalk(g, start, parents, order, path, end);
    ChainCost(g, m, start, closed, dist, parents, path, end);
    assert Optimal(g, m, start, end, dist[end]);
  }

  /** A Java PriorityQueue entry: a point and the key it is ranked by. */
  datatype Entry = Entry(point: Point, key: real)

  /** Every reached, unsettled point has an entry at its current rank, and no entry ranks a point below it. */
  ghost predicate FrontierHolds(g: GridGraph, e: Estimate, closed: set<Point>, dist: map<Point, real>, pq: seq<Entry>) {
    && (forall v {:trigger Entry(v, Rank(g, e, dist, v))} :: v in dist && v !in closed ==> Entry(v, Rank(g, e, dist, v)) in pq)
    && (forall i :: 0 <= i < |pq| ==> pq[i].point in dist && Rank(g, e, dist, pq[i].point) <= pq[i].key)
  }

  /** A least entry whose point is unsettled carries that point's exact rank, which is least among the unsettled. */
  lemma FrontierMin(g: GridGraph, e: Estimate, closed: set<Point>, dist: map<Point, real>, pq: seq<Entry>, i: nat)
    requires FrontierHolds(g, e, closed, dist, pq)
    requires i < |pq| && pq[i].point !in closed
    requires forall j :: 0 <= j < |pq| ==> pq[i].key <= pq[j].key
    ensures pq[i].point in dist && pq[i].key == Rank(g, e, dist, pq[i].point)
    ensures forall w :: w in dist && w !in closed ==> pq[i].key <= Rank(g, e, dist, w)
  {
    var u := pq[i].point;
    forall w | w in dist && w !in closed ensures pq[i].key <= Rank(g, e, dist, w) {
      assert Entry(w, Rank(g, e, dist, w)) in pq;
    }
    assert Entry(u, Rank(g, e, dist, u)) in pq;
  }

  /** Removing an entry of a settled point keeps the frontier, also after further points are settled. */
  lemma FrontierRemove(g: GridGraph, e: Estimate, closed: set<Point>, closed': set<Point>, dist: map<Point, real>, pq: seq<Entry>, i: nat)
    requires FrontierHolds(g, e, closed, dist, pq)
    requires closed <= closed' && i < |pq| && pq[i].point in closed'
    ensures FrontierHolds(g, e, closed', dist, pq[..i] + pq[i + 1..])
  {
    var rest := pq[..i] + pq[i + 1..];
    forall v | v in dist && v !in closed' ensures Entry(v, Rank(g, e, dist, v)) in rest {
      assert Entry(v, Rank(g, e, dist, v)) in pq;
      var j :| 0 <= j < |pq| && pq[j] == Entry(v, Rank(g, e, dist, v));
      if j < i {
        assert rest[j] == pq[j];
      } else {
        assert rest[j - 1] == pq[j];
      }
    }
    forall k | 0 <= k < |rest| ensures rest[k].point in dist && Rank(g, e, dist, rest[k].point) <= rest[k].key {
      if k < i {
        assert rest[k] == pq[k];
      } else {
        assert rest[k] == pq[k + 1];
      }
    }
  }

  /** Lowering the distance of an unsettled point and queueing it at its new rank keeps the frontier. */
  lemma FrontierPush(g: GridGraph, e: Estimate, closed: set<Point>, dist: map<Point, real>, pq: seq<Entry>, n: Point, d: real)
    requires FrontierHolds(g, e, closed, dist, pq)
    requires n !in dist || d < dist[n]
    ensures FrontierHolds(g, e, closed, dist[n := d], pq + [Entry(n, d + H(g, e, n))])
  {
    var dist', pq' := dist[n := d], pq + [Entry(n, d + H(g, e, n))];
    forall v | v in dist' && v !in closed ensures Entry(v, Rank(g, e, dist', v)) in pq' {
      if v != n {
        assert Entry(v, Rank(g, e, dist, v)) in pq;
        var j :| 0 <= j < |pq| && pq[j] == Entry(v, Rank(g, e, dist, v));
        assert pq'[j] == pq[j];
      } else {
        assert pq'[|pq|] == Entry(n, Rank(g, e, dist', n));
      }
    }
    forall k | 0 <= k < |pq'| ensures pq'[k].point in dist' && Rank(g, e, dist', pq'[k].point) <= pq'[k].key {
      if k < |pq| {
        assert pq'[k] == pq[k];
      }
    }
  }

  /** An empty frontier means every known point is settled. */
  lemma FrontierEmpty(g: GridGraph, e: Estimate, closed: set<Point>, dist: map<Point, real>)
    requires FrontierHolds(g, e, closed, dist, [])
    ensures dist.Keys <= closed
  {
    var none: seq<Entry> := [];
    forall v | v in dist ensures v in closed || Entry(v, Rank(g, e, dist, v)) in none {
    }
  }
}
