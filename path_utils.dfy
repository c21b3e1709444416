/**
 * util/PathUtils.java: turning a parent map into a start-to-end path.
 * A parent map sends a point to the point it was reached from; Java's
 * null value (for the start) and a missing key both read as None.
 */
module PathUtils {
  import opened Wrappers
  import opened GridModel

  type ParentMap = map<Point, Option<Point>>

  /** parents.get(p): null both for a missing key and for a null entry. */
  function Get(parents: ParentMap, p: Point): Option<Point> {
    if p in parents then parents[p] else None
  }

  /** Following parents from p reaches null within fuel further steps, so the chain from p has no cycle. */
  ghost predicate ChainEndsWithin(parents: ParentMap, p: Point, fuel: nat)
    decreases fuel
  {
    Get(parents, p).None? || (fuel > 0 && ChainEndsWithin(parents, Get(parents, p).value, fuel - 1))
  }

  /** path is the parent chain that ends at end: each point's parent is the point before it, and the first has none. */
  ghost predicate IsParentChain(parents: ParentMap, path: seq<Point>, end: Point) {
    && |path| >= 1
    && path[|path| - 1] == end
    && Get(parents, path[0]).None?
    && forall i :: 0 <= i < |path| - 1 ==> Get(parents, path[i + 1]) == Some(path[i])
  }

  /**
   * reconstructPath: walk back from end through the parent map, prepending
   * each point, until the parent is null. The source loops forever on a
   * cyclic chain; the ghost fuel states the acyclicity callers guarantee.
   */
  method ReconstructPath(parents: ParentMap, end: Point, ghost fuel: nat) returns (path: seq<Point>)
    requires ChainEndsWithin(parents, end, fuel)
    ensures IsParentChain(parents, path, end)
    ensures |path| <= fuel + 1
    ensures Get(parents, end).None? ==> path == [end]
  {
    path := [];
    var current: Option<Point> := Some(end);
    ghost var k := fuel;
    while current.Some?
      invariant current.Some? ==> ChainEndsWithin(parents, current.value, k) && |path| + k <= fuel
      invariant current.None? ==> |path| <= fuel + 1
      invariant path == [] ==> current == Some(end)
      invariant Get(parents, end).None? ==> path == [] || path == [end]
      invariant path != [] ==> path[|path| - 1] == end && Get(parents, path[0]) == current
      invariant forall i :: 0 <= i < |path| - 1 ==> Get(parents, path[i + 1]) == Some(path[i])
      decreases current.Some?, k
    {
      var c := current.value;
      ghost var before := path;
      path := [c] + path;
      assert forall i :: 1 <= i < |path| ==> path[i] == before[i - 1];
      current := Get(parents, c);
      if current.Some? {
        k := k - 1;
      }
    }
  }

  /** A chain of one point is exactly a point without a parent; otherwise the end's parent is the point before it. */
  lemma ChainLastLink(parents: ParentMap, path: seq<Point>, end: Point)
    requires IsParentChain(parents, path, end)
    ensures |path| == 1 <==> Get(parents, end).None?
    ensures |path| > 1 ==> Get(parents, end) == Some(path[|path| - 2])
  {
    if |path| > 1 {
      assert Get(parents, path[|path| - 2 + 1]) == Some(path[|path| - 2]);
    }
  }

  /** The parent chain that ends at a point is unique, so the result is determined by its contract. */
  lemma {:induction false} ParentChainUnique(parents: ParentMap, p1: seq<Point>, p2: seq<Point>, end: Point)
    requires IsParentChain(parents, p1, end) && IsParentChain(parents, p2, end)
    ensures p1 == p2
    decreases |p1|
  {
    ChainLastLink(parents, p1, end);
    ChainLastLink(parents, p2, end);
    if |p1| > 1 {
      var q1 := p1[..|p1| - 1];
      var q2 := p2[..|p2| - 1];
      assert forall i :: 0 <= i < |q1| - 1 ==> Get(parents, q1[i + 1]) == Some(q1[i]);
      assert forall i :: 0 <= i < |q2| - 1 ==> Get(parents, q2[i + 1]) == Some(q2[i]);
      ParentChainUnique(parents, q1, q2, p1[|p1| - 2]);
      assert p1 == q1 + [end] && p2 == q2 + [end];
    }
  }

  /** A parent chain is exactly as long as the chain of parent links from its end: no chain ends within fewer steps. */
  lemma {:induction false} ParentChainLength(parents: ParentMap, path: seq<Point>, end: Point, fuel: nat)
    requires IsParentChain(parents, path, end)
    ensures ChainEndsWithin(parents, end, fuel) <==> |path| <= fuel + 1
    decreases fuel
  {
    if |path| > 1 {
      var q := path[..|path| - 1];
      assert Get(parents, end) == Some(path[|path| - 2]);
      assert forall i :: 0 <= i < |q| - 1 ==> Get(parents, q[i + 1]) == Some(q[i]);
      if fuel > 0 {
        ParentChainLength(parents, q, path[|path| - 2], fuel - 1);
      }
    }
  }
}
