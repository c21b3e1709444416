/**
 * components/Background.web.tsx: the node graph drawn behind the web app.
 * Only its combinatorial parts are modelled: the colour draw, the static
 * edge list built once from the node positions, the cursor-edge buffer
 * refilled on every frame, the mouse handlers and the effect's cleanup.
 * Random numbers, the node positions, their world positions after the
 * group's rotation and the distance function (Vector3.distanceTo) are
 * inputs.
 */
module Background {
  import opened Wrappers

  const NODE_COUNT: int := 100
  const CONNECT_DIST: real := 3.2
  const CURSOR_CONNECT_DIST: real := 5.0
  const MAX_CURSOR_LINES: int := 8
  /** MAX_CURSOR_LINES * 2 * 3: two endpoints of three coordinates per segment. */
  const BUFFER_LENGTH: int := 48

  const CYAN: int := 0x00ffcc
  const BLUE: int := 0x3b8cff
  const PINK: int := 0xff006e

  /**
   * randomColor, given the value Math.random drew: cyan for the lowest 60
   * per cent, blue for the next 25, pink for the rest.
   */
  function RandomColor(r: real): (color: int)
    requires 0.0 <= r < 1.0
    ensures color == CYAN <==> r < 0.60
    ensures color == BLUE <==> 0.60 <= r < 0.85
    ensures color == PINK <==> 0.85 <= r
  {
    if r < 0.60 then CYAN
    else if r < 0.85 then BLUE
    else PINK
  }

  datatype Vec = Vec(x: real, y: real, z: real)

  /** The distance between two points, as Vector3.distanceTo computes it. */
  type Distance = (Vec, Vec) -> real

  /** a.distanceTo(b) < limit. */
  predicate Near(dist: Distance, a: Vec, b: Vec, limit: real) {
    dist(a, b) < limit
  }

  /** The six numbers pushed or written for a segment from a to b. */
  function Segment(a: Vec, b: Vec): (s: seq<real>)
    ensures |s| == 6
  {
    [a.x, a.y, a.z, b.x, b.y, b.z]
  }

  /** The pairs (i, k), i < k < j, whose nodes are near enough to be joined, in order of k. */
  function RowEdges(dist: Distance, positions: seq<Vec>, i: int, j: int): seq<(int, int)>
    requires 0 <= i < j <= |positions|
    decreases j
  {
    if j == i + 1 then []
    else if Near(dist, positions[i], positions[j - 1], CONNECT_DIST) then RowEdges(dist, positions, i, j - 1) + [(i, j - 1)]
    else RowEdges(dist, positions, i, j - 1)
  }

  /** The joined pairs whose first node comes before i, in lexicographic order. */
  function EdgesBefore(dist: Distance, positions: seq<Vec>, i: int): seq<(int, int)>
    requires 0 <= i <= |positions|
  {
    if i == 0 then [] else EdgesBefore(dist, positions, i - 1) + RowEdges(dist, positions, i - 1, |positions|)
  }

  /** The joined pairs of the whole graph. */
  function EdgeList(dist: Distance, positions: seq<Vec>): seq<(int, int)> {
    EdgesBefore(dist, positions, |positions|)
  }

  /** Pairs of node indices, each pair in order. */
  predicate Ordered(positions: seq<Vec>, edges: seq<(int, int)>) {
    forall k :: 0 <= k < |edges| ==> 0 <= edges[k].0 < edges[k].1 < |positions|
  }

  /** The contents of edgePts for a list of pairs: the two positions of each pair, pair after pair. */
  function EdgePoints(positions: seq<Vec>, edges: seq<(int, int)>): (pts: seq<real>)
    requires Ordered(positions, edges)
    ensures |pts| == 6 * |edges|
  {
    if edges == [] then []
    else
      var e := edges[|edges| - 1];
      EdgePoints(positions, edges[..|edges| - 1]) + Segment(positions[e.0], positions[e.1])
  }

  lemma {:induction false} RowEdgesOrdered(dist: Distance, positions: seq<Vec>, i: int, j: int)
    requires 0 <= i < j <= |positions|
    ensures Ordered(positions, RowEdges(dist, positions, i, j))
    ensures forall k :: 0 <= k < |RowEdges(dist, positions, i, j)| ==> RowEdges(dist, positions, i, j)[k].0 == i
    decreases j
  {
    if j > i + 1 {
      RowEdgesOrdered(dist, positions, i, j - 1);
    }
  }

  lemma {:induction false} EdgesBeforeOrdered(dist: Distance, positions: seq<Vec>, i: int)
    requires 0 <= i <= |positions|
    ensures Ordered(positions, EdgesBefore(dist, positions, i))
    ensures forall k :: 0 <= k < |EdgesBefore(dist, positions, i)| ==> EdgesBefore(dist, positions, i)[k].0 < i
  {
    if i > 0 {
      EdgesBeforeOrdered(dist, positions, i - 1);
      RowEdgesOrdered(dist, positions, i - 1, |positions|);
    }
  }

  /** What the loop has built: ordered pairs, and edgePts holding their segments. */
  predicate Built(positions: seq<Vec>, edges: seq<(int, int)>, edgePts: seq<real>) {
    Ordered(positions, edges) && edgePts == EdgePoints(positions, edges)
  }

  /** One more joined pair appends its segment to edgePts. */
  lemma Push(positions: seq<Vec>, edges: seq<(int, int)>, edgePts: seq<real>, i: int, j: int)
    requires Built(positions, edges, edgePts) && 0 <= i < j < |positions|
    ensures Built(positions, edges + [(i, j)], edgePts + Segment(positions[i], positions[j]))
  {
    assert (edges + [(i, j)])[..|edges|] == edges;
  }

  /** The inner loop's step: the row's list grows by the pair (i, j) exactly when the two nodes are near. */
  lemma RowStep(dist: Distance, positions: seq<Vec>, before: seq<(int, int)>, i: int, j: int)
    requires 0 <= i < j < |positions|
    ensures Near(dist, positions[i], positions[j], CONNECT_DIST) ==>
      before + RowEdges(dist, positions, i, j + 1) == (before + RowEdges(dist, positions, i, j)) + [(i, j)]
    ensures !Near(dist, positions[i], positions[j], CONNECT_DIST) ==>
      before + RowEdges(dist, positions, i, j + 1) == before + RowEdges(dist, positions, i, j)
  {
  }

  /** The outer loop's step: a finished row extends the pairs before i to the pairs before i + 1. */
  lemma RowDone(dist: Distance, positions: seq<Vec>, i: int)
    requires 0 <= i < |positions|
    ensures EdgesBefore(dist, positions, i + 1) == EdgesBefore(dist, positions, i) + RowEdges(dist, positions, i, |positions|)
  {
  }

  /**
   * The static edge loop: every pair i < j of nodes closer than
   * CONNECT_DIST pushes the two positions, in the order of i and then j.
   */
  method BuildEdges(dist: Distance, positions: seq<Vec>) returns (edgePts: seq<real>)
    ensures Ordered(positions, EdgeList(dist, positions))
    ensures edgePts == EdgePoints(positions, EdgeList(dist, positions))
    ensures |edgePts| == 6 * |EdgeList(dist, positions)|
  {
    edgePts := [];
    for i := 0 to |positions|
      invariant Built(positions, EdgesBefore(dist, positions, i), edgePts)
    {
      RowDone(dist, positions, i);
      edgePts := PushRow(dist, positions, i, edgePts);
    }
  }

  /** The inner loop of the static edges for node i: the pairs (i, j), j > i, in order of j. */
  method PushRow(dist: Distance, positions: seq<Vec>, i: int, edgePts: seq<real>) returns (pts: seq<real>)
    requires 0 <= i < |positions| && Built(positions, EdgesBefore(dist, positions, i), edgePts)
    ensures Built(positions, EdgesBefore(dist, positions, i) + RowEdges(dist, positions, i, |positions|), pts)
  {
    ghost var before := EdgesBefore(dist, positions, i);
    ghost var edges := before;
    assert before + RowEdges(dist, positions, i, i + 1) == before;
    pts := edgePts;
    for j := i + 1 to |positions|
      invariant edges == before + RowEdges(dist, positions, i, j)
      invariant Built(positions, edges, pts)
    {
      RowStep(dist, positions, before, i, j);
      if Near(dist, positions[i], positions[j], CONNECT_DIST) {
        Push(positions, edges, pts, i, j);
        edges := edges + [(i, j)];
        pts := pts + Segment(positions[i], positions[j]);
      }
    }
  }

  /** Two nodes near enough to be joined by a static edge, the first before the second. */
  predicate Joined(dist: Distance, positions: seq<Vec>, e: (int, int)) {
    0 <= e.0 < e.1 < |positions| && Near(dist, positions[e.0], positions[e.1], CONNECT_DIST)
  }

  /** A pair is in a row's list exactly when it starts at the row's node, ends before j and is joined. */
  lemma {:induction false} RowEdgesMembers(dist: Distance, positions: seq<Vec>, i: int, j: int, e: (int, int))
    requires 0 <= i < j <= |positions|
    ensures e in RowEdges(dist, positions, i, j) <==> Joined(dist, positions, e) && e.0 == i && e.1 < j
    decreases j
  {
    if j > i + 1 {
      RowEdgesMembers(dist, positions, i, j - 1, e);
    }
  }

  /** The static edges are exactly the joined pairs: i < j, nodes closer than CONNECT_DIST. */
  lemma {:induction false} EdgeListMembers(dist: Distance, positions: seq<Vec>, i: int, e: (int, int))
    requires 0 <= i <= |positions|
    ensures e in EdgesBefore(dist, positions, i) <==> Joined(dist, positions, e) && e.0 < i
  {
    if i > 0 {
      EdgeListMembers(dist, positions, i - 1, e);
      RowEdgesMembers(dist, positions, i - 1, |positions|, e);
    }
  }

  /** (a, b) comes strictly before (c, d) in lexicographic order. */
  predicate Before(e: (int, int), f: (int, int)) {
    e.0 < f.0 || (e.0 == f.0 && e.1 < f.1)
  }

  /** Strictly increasing, hence without repeats. */
  predicate Increasing(edges: seq<(int, int)>) {
    forall k, l :: 0 <= k < l < |edges| ==> Before(edges[k], edges[l])
  }

  lemma {:induction false} RowEdgesIncreasing(dist: Distance, positions: seq<Vec>, i: int, j: int)
    requires 0 <= i < j <= |positions|
    ensures Increasing(RowEdges(dist, positions, i, j))
    ensures forall k :: 0 <= k < |RowEdges(dist, positions, i, j)| ==> RowEdges(dist, positions, i, j)[k].0 == i && RowEdges(dist, positions, i, j)[k].1 < j
    decreases j
  {
    if j > i + 1 {
      RowEdgesIncreasing(dist, positions, i, j - 1);
    }
  }

  /** The static edges come in lexicographic order, so no pair appears twice. */
  lemma {:induction false} EdgeListIncreasing(dist: Distance, positions: seq<Vec>, i: int)
    requires 0 <= i <= |positions|
    ensures Increasing(EdgesBefore(dist, positions, i))
    ensures forall k :: 0 <= k < |EdgesBefore(dist, positions, i)| ==> EdgesBefore(dist, positions, i)[k].0 < i
  {
    if i > 0 {
      EdgeListIncreasing(dist, positions, i - 1);
      RowEdgesIncreasing(dist, positions, i - 1, |positions|);
    }
  }

  /** The indices below i of the nodes near the point p, in order. */
  function Qualifying(dist: Distance, world: seq<Vec>, p: Vec, i: int): (q: seq<int>)
    requires 0 <= i <= |world|
    ensures forall k :: 0 <= k < |q| ==> 0 <= q[k] < i && Near(dist, p, world[q[k]], CURSOR_CONNECT_DIST)
  {
    if i == 0 then []
    else if Near(dist, p, world[i - 1], CURSOR_CONNECT_DIST) then Qualifying(dist, world, p, i - 1) + [i - 1]
    else Qualifying(dist, world, p, i - 1)
  }

  /** The qualifying indices below i head those below any j beyond i. */
  lemma {:induction false} QualifyingPrefix(dist: Distance, world: seq<Vec>, p: Vec, i: int, j: int)
    requires 0 <= i <= j <= |world|
    ensures Qualifying(dist, world, p, i) <= Qualifying(dist, world, p, j)
    decreases j
  {
    if i < j {
      QualifyingPrefix(dist, world, p, i, j - 1);
    }
  }

  /**
   * Where the cursor loop stops, at the last node or with MAX_CURSOR_LINES
   * found, the nodes found are the first of all the qualifying ones.
   */
  lemma QualifyingCap(dist: Distance, world: seq<Vec>, p: Vec, i: int)
    requires 0 <= i <= |world|
    requires Qualifying(dist, world, p, i) <= Qualifying(dist, world, p, |world|)
    requires |Qualifying(dist, world, p, i)| <= MAX_CURSOR_LINES
    requires i == |world| || |Qualifying(dist, world, p, i)| == MAX_CURSOR_LINES
    ensures var q := Qualifying(dist, world, p, |world|);
      q[..Min(|q|, MAX_CURSOR_LINES)] == Qualifying(dist, world, p, i)
  {
  }

  /** Every node near p is qualifying, and the list is in increasing order. */
  lemma {:induction false} QualifyingMembers(dist: Distance, world: seq<Vec>, p: Vec, i: int, n: int)
    requires 0 <= i <= |world|
    ensures n in Qualifying(dist, world, p, i) <==> 0 <= n < i && Near(dist, p, world[n], CURSOR_CONNECT_DIST)
    ensures forall k, l :: 0 <= k < l < |Qualifying(dist, world, p, i)| ==> Qualifying(dist, world, p, i)[k] < Qualifying(dist, world, p, i)[l]
  {
    if i > 0 {
      QualifyingMembers(dist, world, p, i - 1, n);
    }
  }

  function Min(a: int, b: int): int {
    if a < b then a else b
  }

  /** A buffer with six numbers replaced from base on. */
  function Overlay(b: seq<real>, base: int, six: seq<real>): (r: seq<real>)
    requires |six| == 6 && 0 <= base && base + 6 <= |b|
    ensures |r| == |b|
  {
    seq(|b|, m requires 0 <= m < |b| => if base <= m < base + 6 then six[m - base] else b[m])
  }

  /** Node indices into the world positions, few enough for the buffer. */
  predicate Fits(world: seq<Vec>, idx: seq<int>) {
    6 * |idx| <= BUFFER_LENGTH && forall k :: 0 <= k < |idx| ==> 0 <= idx[k] < |world|
  }

  /**
   * The buffer after segments from p to the given nodes were written at
   * the front, one after the other: the k-th six numbers are the segment
   * to the k-th node and the numbers beyond them are those of b.
   */
  function Fill(b: seq<real>, p: Vec, world: seq<Vec>, idx: seq<int>): (r: seq<real>)
    requires |b| == BUFFER_LENGTH && Fits(world, idx)
    ensures |r| == BUFFER_LENGTH
    ensures forall m :: 0 <= m < 6 * |idx| ==> r[m] == Segment(p, world[idx[m / 6]])[m % 6]
    ensures forall m :: 6 * |idx| <= m < BUFFER_LENGTH ==> r[m] == b[m]
  {
    seq(BUFFER_LENGTH, m requires 0 <= m < BUFFER_LENGTH =>
      if m < 6 * |idx| then Segment(p, world[idx[m / 6]])[m % 6] else b[m])
  }

  /** Writing the next segment after those already there extends the fill by one node. */
  lemma FillStep(b: seq<real>, p: Vec, world: seq<Vec>, idx: seq<int>, n: int)
    requires |b| == BUFFER_LENGTH && Fits(world, idx) && 6 * (|idx| + 1) <= BUFFER_LENGTH && 0 <= n < |world|
    ensures Fits(world, idx + [n])
    ensures Overlay(Fill(b, p, world, idx), 6 * |idx|, Segment(p, world[n])) == Fill(b, p, world, idx + [n])
  {
    var left := Overlay(Fill(b, p, world, idx), 6 * |idx|, Segment(p, world[n]));
    var right := Fill(b, p, world, idx + [n]);
    forall m | 0 <= m < BUFFER_LENGTH ensures left[m] == right[m] {
      if m < 6 * |idx| {
        assert (idx + [n])[m / 6] == idx[m / 6];
      } else if m < 6 * |idx| + 6 {
        assert m / 6 == |idx| && m % 6 == m - 6 * |idx|;
      }
    }
  }

  /** Writing nothing leaves the buffer as it is. */
  lemma FillNothing(b: seq<real>, p: Vec, world: seq<Vec>)
    requires |b| == BUFFER_LENGTH
    ensures Fill(b, p, world, []) == b
  {
  }

  /**
   * The cursor node and its edges. The buffer is the Float32Array of 48
   * numbers the cursor segments are written to; drawCount is the second
   * argument of the draw range.
   */
  class CursorLayer {
    const buf: array<real>
    var drawCount: int
    var cursorActive: bool
    var meshVisible: bool
    var haloVisible: bool
    var edgesVisible: bool
    var cursorAt: Vec

    /** The buffer has room for MAX_CURSOR_LINES segments and the draw range covers whole segments inside it. */
    ghost predicate Valid()
      reads this
    {
      buf.Length == BUFFER_LENGTH && 0 <= drawCount <= 2 * MAX_CURSOR_LINES && drawCount % 2 == 0
    }

    /** The set-up: a zeroed buffer, nothing drawn or visible, the cursor inactive. */
    constructor ()
      ensures Valid() && fresh(buf)
      ensures buf[..] == seq(BUFFER_LENGTH, _ => 0.0)
      ensures drawCount == 0 && !cursorActive && !meshVisible && !haloVisible && !edgesVisible
    {
      buf := new real[BUFFER_LENGTH](_ => 0.0);
      drawCount := 0;
      cursorActive := false;
      meshVisible := false;
      haloVisible := false;
      edgesVisible := false;
      cursorAt := Vec(0.0, 0.0, 0.0);
    }

    /** onMouseMove: the cursor becomes active (the pointer's coordinates are not modelled). */
    method OnMouseMove()
      modifies this
      ensures cursorActive
      ensures drawCount == old(drawCount) && meshVisible == old(meshVisible) && haloVisible == old(haloVisible)
      ensures edgesVisible == old(edgesVisible) && cursorAt == old(cursorAt)
    {
      cursorActive := true;
    }

    /** onMouseLeave: the cursor, its halo and its edges disappear and nothing is drawn. */
    method OnMouseLeave()
      requires Valid()
      modifies this
      ensures Valid()
      ensures !cursorActive && !meshVisible && !haloVisible && !edgesVisible && drawCount == 0
      ensures cursorAt == old(cursorAt)
    {
      cursorActive := false;
      meshVisible := false;
      haloVisible := false;
      edgesVisible := false;
      drawCount := 0;
    }

    /**
     * The cursor part of one animation frame. When the cursor is active and
     * the pointer's ray meets the plane at p, the cursor node moves there
     * and the buffer is rewritten with one segment from p to each of the
     * first nodes within CURSOR_CONNECT_DIST, in index order, at most
     * MAX_CURSOR_LINES of them; the draw range covers exactly those
     * segments, and the rest of the buffer keeps its old numbers. Otherwise
     * nothing changes.
     */
    method Frame(hit: Option<Vec>, world: seq<Vec>, dist: Distance)
      requires Valid()
      modifies this, buf
      ensures Valid()
      ensures !old(cursorActive) || hit.None? ==>
        drawCount == old(drawCount) && buf[..] == old(buf[..]) && meshVisible == old(meshVisible) &&
        haloVisible == old(haloVisible) && edgesVisible == old(edgesVisible) && cursorAt == old(cursorAt)
      ensures old(cursorActive) && hit.Some? ==>
        var q := Qualifying(dist, world, hit.value, |world|);
        var count := Min(|q|, MAX_CURSOR_LINES);
        && meshVisible && haloVisible && edgesVisible && cursorAt == hit.value
        && drawCount == 2 * count
        && Fits(world, q[..count])
        && buf[..] == Fill(old(buf[..]), hit.value, world, q[..count])
      ensures cursorActive == old(cursorActive)
    {
      if cursorActive && hit.Some? {
        var p := hit.value;
        cursorAt := p;
        meshVisible := true;
        haloVisible := true;
        edgesVisible := true;
        var lineCount := WriteCursorEdges(p, world, dist);
        drawCount := lineCount * 2;
      }
    }

    /**
     * The loop over the nodes that writes the cursor segments: it stops at
     * the last node or once MAX_CURSOR_LINES segments are written, and
     * returns how many were.
     */
    method WriteCursorEdges(p: Vec, world: seq<Vec>, dist: Distance) returns (lineCount: int)
      requires buf.Length == BUFFER_LENGTH
      modifies buf
      ensures var q := Qualifying(dist, world, p, |world|);
        && lineCount == Min(|q|, MAX_CURSOR_LINES)
        && Fits(world, q[..lineCount])
        && buf[..] == Fill(old(buf[..]), p, world, q[..lineCount])
    {
      ghost var initial := buf[..];
      FillNothing(initial, p, world);
      lineCount := 0;
      var i := 0;
      while i < |world| && lineCount < MAX_CURSOR_LINES
        invariant 0 <= i <= |world|
        invariant lineCount == |Qualifying(dist, world, p, i)| <= MAX_CURSOR_LINES
        invariant Fits(world, Qualifying(dist, world, p, i))
        invariant buf[..] == Fill(initial, p, world, Qualifying(dist, world, p, i))
        decreases |world| - i
      {
        ghost var q := Qualifying(dist, world, p, i);
        if Near(dist, p, world[i], CURSOR_CONNECT_DIST) {
          FillStep(initial, p, world, q, i);
          WriteSegment(lineCount * 6, p, world[i]);
          lineCount := lineCount + 1;
        }
        i := i + 1;
      }
      QualifyingPrefix(dist, world, p, i, |world|);
      QualifyingCap(dist, world, p, i);
    }

    /** The six writes of one segment at base. */
    method WriteSegment(base: int, a: Vec, b: Vec)
      requires buf.Length == BUFFER_LENGTH && 0 <= base && base + 6 <= BUFFER_LENGTH
      modifies buf
      ensures buf[..] == Overlay(old(buf[..]), base, Segment(a, b))
    {
      buf[base + 0] := a.x;
      buf[base + 1] := a.y;
      buf[base + 2] := a.z;
      buf[base + 3] := b.x;
      buf[base + 4] := b.y;
      buf[base + 5] := b.z;
    }
  }

  /** The three listeners the effect adds: mousemove and resize on the window, mouseleave on the document. */
  datatype Target = Window | Document
  datatype Listener = Listener(target: Target, event: string, handler: int)

  /** The listeners of one mount, whose handlers are fresh closures numbered by the mount. */
  function MountListeners(mountId: int): set<Listener> {
    {Listener(Window, "mousemove", 3 * mountId), Listener(Document, "mouseleave", 3 * mountId + 1),
     Listener(Window, "resize", 3 * mountId + 2)}
  }

  /**
   * What the effect leaves in the page: the registered listeners (a target
   * keeps one registration per event and handler), the canvas in the mount
   * element and a scheduled animation frame. A missing mount element ends
   * the effect before any of them.
   */
  class Page {
    var listeners: set<Listener>
    var canvasAttached: bool
    var frameScheduled: bool

    constructor ()
      ensures listeners == {} && !canvasAttached && !frameScheduled
    {
      listeners := {};
      canvasAttached := false;
      frameScheduled := false;
    }

    /** The effect body. */
    method Mount(mountPresent: bool, mountId: int)
      modifies this
      ensures mountPresent ==> listeners == old(listeners) + MountListeners(mountId) && canvasAttached && frameScheduled
      ensures !mountPresent ==> listeners == old(listeners) && canvasAttached == old(canvasAttached) && frameScheduled == old(frameScheduled)
    {
      if !mountPresent {
        return;
      }
      canvasAttached := true;
      listeners := listeners + {Listener(Window, "mousemove", 3 * mountId)};
      listeners := listeners + {Listener(Document, "mouseleave", 3 * mountId + 1)};
      frameScheduled := true;
      listeners := listeners + {Listener(Window, "resize", 3 * mountId + 2)};
    }

    /** The cleanup: the frame is cancelled, each listener removed from the target it was added to, the canvas detached. */
    method Cleanup(mountId: int)
      modifies this
      ensures listeners == old(listeners) - MountListeners(mountId)
      ensures !canvasAttached && !frameScheduled
    {
      frameScheduled := false;
      listeners := listeners - {Listener(Window, "resize", 3 * mountId + 2)};
      listeners := listeners - {Listener(Window, "mousemove", 3 * mountId)};
      listeners := listeners - {Listener(Document, "mouseleave", 3 * mountId + 1)};
      if canvasAttached {
        canvasAttached := false;
      }
    }

    /**
     * A mount and its cleanup, as React runs them over the component's
     * life: the page is left with exactly the listeners it had before, and
     * neither canvas nor animation frame.
     */
    method MountThenCleanup(mountId: int)
      requires listeners !! MountListeners(mountId)
      modifies this
      ensures listeners == old(listeners) && !canvasAttached && !frameScheduled
    {
      Mount(true, mountId);
      Cleanup(mountId);
    }

    /**
     * The effect run twice, as React's StrictMode does: mount, clean up,
     * mount again. Only the second mount's listeners are added, so no
     * handler is left registered twice.
     */
    method Remount(first: int, second: int)
      requires listeners !! MountListeners(first)
      modifies this
      ensures listeners == old(listeners) + MountListeners(second) && canvasAttached && frameScheduled
    {
      Mount(true, first);
      Cleanup(first);
      Mount(true, second);
    }
  }
}
