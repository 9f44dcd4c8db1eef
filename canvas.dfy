/** Phase 4 of the layout (crates/layout/src/layout.rs,
    `calculate_canvas_size` and `center_layout`): the canvas is the layout's
    bounding box with floors of 400 by 300 plus a `min_spacing` margin on every
    side, and the whole drawing is translated by one offset so that its
    bounding box sits in the middle of the canvas. */
module Canvas {
  import opened Numeric
  import opened Types
  import opened Extent

  /** The canvas for a layout whose bounding box is `box`. With nothing to
      measure the source's spans are -infinity, so the floors decide. */
  function CanvasSize(minSpacing: real, box: Option<Bounds>): (real, real)
  {
    match box
    case None => (400.0 + 2.0 * minSpacing, 300.0 + 2.0 * minSpacing)
    case Some(b) => (Max(b.maxX - b.minX, 400.0) + 2.0 * minSpacing,
                     Max(b.maxY - b.minY, 300.0) + 2.0 * minSpacing)
  }

  /** The canvas is at least 400 + 2 `min_spacing` wide and 300 + 2
      `min_spacing` high, and leaves at least `min_spacing` on both sides of
      the measured span. */
  lemma CanvasFloors(minSpacing: real, box: Option<Bounds>)
    ensures CanvasSize(minSpacing, box).0 >= 400.0 + 2.0 * minSpacing
    ensures CanvasSize(minSpacing, box).1 >= 300.0 + 2.0 * minSpacing
    ensures box.Some? ==> CanvasSize(minSpacing, box).0 >= box.value.maxX - box.value.minX + 2.0 * minSpacing
    ensures box.Some? ==> CanvasSize(minSpacing, box).1 >= box.value.maxY - box.value.minY + 2.0 * minSpacing
  {
  }

  /** `calculate_canvas_size`. */
  method CalculateCanvasSize(config: Config, nodes: seq<Node>, edges: seq<Edge>) returns (width: real, height: real)
    ensures (width, height) == CanvasSize(config.minSpacing, LayoutBox(nodes, edges))
  {
    var box := MeasureLayout(nodes, edges);
    if box.None? {
      width := 400.0 + 2.0 * config.minSpacing;
      height := 300.0 + 2.0 * config.minSpacing;
    } else {
      var b := box.value;
      width := Max(b.maxX - b.minX, 400.0) + 2.0 * config.minSpacing;
      height := Max(b.maxY - b.minY, 300.0) + 2.0 * config.minSpacing;
    }
  }

  // ---------------------------------------------------------------- shifting

  /** The translation `center_layout` applies. With nothing to measure there
      is also nothing to move, and the offset is taken as zero. */
  function CenterOffset(box: Option<Bounds>, canvasWidth: real, canvasHeight: real): (real, real)
  {
    match box
    case None => (0.0, 0.0)
    case Some(b) => ((canvasWidth - (b.maxX - b.minX)) / 2.0 - b.minX,
                     (canvasHeight - (b.maxY - b.minY)) / 2.0 - b.minY)
  }

  function Move(p: Position, dx: real, dy: real): Position
  {
    Position(p.x + dx, p.y + dy)
  }

  function ShiftNode(n: Node, dx: real, dy: real): Node
  {
    n.(position := Move(n.position, dx, dy))
  }

  function ShiftPath(path: seq<Position>, dx: real, dy: real): (r: seq<Position>)
    ensures |r| == |path|
  {
    seq(|path|, k requires 0 <= k < |path| => Move(path[k], dx, dy))
  }

  function ShiftEdge(e: Edge, dx: real, dy: real): Edge
  {
    e.(path := ShiftPath(e.path, dx, dy))
  }

  function ShiftNodes(nodes: seq<Node>, dx: real, dy: real): (r: seq<Node>)
    ensures |r| == |nodes|
  {
    seq(|nodes|, i requires 0 <= i < |nodes| => ShiftNode(nodes[i], dx, dy))
  }

  function ShiftEdges(edges: seq<Edge>, dx: real, dy: real): (r: seq<Edge>)
    ensures |r| == |edges|
  {
    seq(|edges|, i requires 0 <= i < |edges| => ShiftEdge(edges[i], dx, dy))
  }

  function ShiftBounds(b: Bounds, dx: real, dy: real): Bounds
  {
    Bounds(b.minX + dx, b.maxX + dx, b.minY + dy, b.maxY + dy)
  }

  function ShiftBox(box: Option<Bounds>, dx: real, dy: real): Option<Bounds>
  {
    match box
    case None => None
    case Some(b) => Some(ShiftBounds(b, dx, dy))
  }

  lemma WidenShift(acc: Option<Bounds>, lox: real, hix: real, loy: real, hiy: real, dx: real, dy: real)
    ensures Widen(ShiftBox(acc, dx, dy), lox + dx, hix + dx, loy + dy, hiy + dy) ==
            ShiftBounds(Widen(acc, lox, hix, loy, hiy), dx, dy)
  {
  }

  lemma {:induction false} NodesBoxShift(acc: Option<Bounds>, nodes: seq<Node>, dx: real, dy: real)
    ensures NodesBox(ShiftBox(acc, dx, dy), ShiftNodes(nodes, dx, dy)) == ShiftBox(NodesBox(acc, nodes), dx, dy)
  {
    if |nodes| > 0 {
      var init := nodes[..|nodes| - 1];
      var n := nodes[|nodes| - 1];
      NodesBoxShift(acc, init, dx, dy);
      assert ShiftNodes(nodes, dx, dy)[..|nodes| - 1] == ShiftNodes(init, dx, dy);
      WidenShift(NodesBox(acc, init), n.position.x, n.position.x + n.size.width,
                 n.position.y, n.position.y + n.size.height, dx, dy);
    }
  }

  lemma {:induction false} PointsBoxShift(acc: Option<Bounds>, points: seq<Position>, dx: real, dy: real)
    ensures PointsBox(ShiftBox(acc, dx, dy), ShiftPath(points, dx, dy)) == ShiftBox(PointsBox(acc, points), dx, dy)
  {
    if |points| > 0 {
      var init := points[..|points| - 1];
      var p := points[|points| - 1];
      PointsBoxShift(acc, init, dx, dy);
      assert ShiftPath(points, dx, dy)[..|points| - 1] == ShiftPath(init, dx, dy);
      WidenShift(PointsBox(acc, init), p.x, p.x, p.y, p.y, dx, dy);
    }
  }

  lemma {:induction false} EdgesBoxShift(acc: Option<Bounds>, edges: seq<Edge>, dx: real, dy: real)
    ensures EdgesBox(ShiftBox(acc, dx, dy), ShiftEdges(edges, dx, dy)) == ShiftBox(EdgesBox(acc, edges), dx, dy)
  {
    if |edges| > 0 {
      var init := edges[..|edges| - 1];
      EdgesBoxShift(acc, init, dx, dy);
      assert ShiftEdges(edges, dx, dy)[..|edges| - 1] == ShiftEdges(init, dx, dy);
      PointsBoxShift(EdgesBox(acc, init), edges[|edges| - 1].path, dx, dy);
    }
  }

  /** Moving every node and every path point by one offset moves the layout
      box by that offset. */
  lemma LayoutBoxShift(nodes: seq<Node>, edges: seq<Edge>, dx: real, dy: real)
    ensures LayoutBox(ShiftNodes(nodes, dx, dy), ShiftEdges(edges, dx, dy)) == ShiftBox(LayoutBox(nodes, edges), dx, dy)
  {
    NodesBoxShift(None, nodes, dx, dy);
    EdgesBoxShift(NodesBox(None, nodes), edges, dx, dy);
  }

  /** After centring, the layout box sits in the middle of the canvas: its
      low and high edges add up to the canvas size on each axis. */
  lemma CenteredBox(nodes: seq<Node>, edges: seq<Edge>, canvasWidth: real, canvasHeight: real)
    requires LayoutBox(nodes, edges).Some?
    ensures var (dx, dy) := CenterOffset(LayoutBox(nodes, edges), canvasWidth, canvasHeight);
      var b := LayoutBox(ShiftNodes(nodes, dx, dy), ShiftEdges(edges, dx, dy));
      b.Some? && b.value.minX + b.value.maxX == canvasWidth && b.value.minY + b.value.maxY == canvasHeight
  {
    var (dx, dy) := CenterOffset(LayoutBox(nodes, edges), canvasWidth, canvasHeight);
    LayoutBoxShift(nodes, edges, dx, dy);
  }

  /** With the canvas from `calculate_canvas_size` and a non-negative
      spacing, every node body and every path point lies on the canvas after
      centring, at least `min_spacing` from each border. */
  lemma CenteredInsideCanvas(minSpacing: real, nodes: seq<Node>, edges: seq<Edge>)
    requires minSpacing >= 0.0
    ensures var (w, h) := CanvasSize(minSpacing, LayoutBox(nodes, edges));
      var (dx, dy) := CenterOffset(LayoutBox(nodes, edges), w, h);
      var nodes' := ShiftNodes(nodes, dx, dy);
      var edges' := ShiftEdges(edges, dx, dy);
      (forall i :: 0 <= i < |nodes'| ==> BodyInside(Bounds(minSpacing, w - minSpacing, minSpacing, h - minSpacing), nodes'[i])) &&
      (forall i, k :: 0 <= i < |edges'| && 0 <= k < |edges'[i].path| ==>
        Inside(Bounds(minSpacing, w - minSpacing, minSpacing, h - minSpacing), edges'[i].path[k].x, edges'[i].path[k].y))
  {
    var box := LayoutBox(nodes, edges);
    var (w, h) := CanvasSize(minSpacing, box);
    var (dx, dy) := CenterOffset(box, w, h);
    var nodes' := ShiftNodes(nodes, dx, dy);
    var edges' := ShiftEdges(edges, dx, dy);
    var canvas := Bounds(minSpacing, w - minSpacing, minSpacing, h - minSpacing);
    LayoutBoxContains(nodes', edges');
    LayoutBoxShift(nodes, edges, dx, dy);
    if box.Some? {
      var b := ShiftBounds(box.value, dx, dy);
      assert Encloses(canvas, b);
      forall i | 0 <= i < |nodes'| ensures BodyInside(canvas, nodes'[i]) {
        assert BodyInside(b, nodes'[i]);
      }
      forall i, k | 0 <= i < |edges'| && 0 <= k < |edges'[i].path|
        ensures Inside(canvas, edges'[i].path[k].x, edges'[i].path[k].y)
      {
        assert Inside(b, edges'[i].path[k].x, edges'[i].path[k].y);
      }
    } else {
      NodesBoxGrows(None, nodes);
    }
  }

  /** `center_layout`: measure, then move every node and every path point by
      the one offset that centres the box on the canvas. */
  method CenterLayout(nodes: array<Node>, edges: array<Edge>, canvasWidth: real, canvasHeight: real)
    modifies nodes, edges
    ensures var (dx, dy) := CenterOffset(LayoutBox(old(nodes[..]), old(edges[..])), canvasWidth, canvasHeight);
      nodes[..] == ShiftNodes(old(nodes[..]), dx, dy) && edges[..] == ShiftEdges(old(edges[..]), dx, dy)
  {
    var box := MeasureLayout(nodes[..], edges[..]);
    var dx, dy;
    if box.None? {
      dx, dy := 0.0, 0.0;
    } else {
      var b := box.value;
      dx := (canvasWidth - (b.maxX - b.minX)) / 2.0 - b.minX;
      dy := (canvasHeight - (b.maxY - b.minY)) / 2.0 - b.minY;
    }
    for i := 0 to nodes.Length
      invariant forall k :: 0 <= k < i ==> nodes[k] == ShiftNode(old(nodes[k]), dx, dy)
      invariant forall k :: i <= k < nodes.Length ==> nodes[k] == old(nodes[k])
      invariant edges[..] == old(edges[..])
    {
      nodes[i] := nodes[i].(position := Position(nodes[i].position.x + dx, nodes[i].position.y + dy));
    }
    assert nodes[..] == ShiftNodes(old(nodes[..]), dx, dy);
    for i := 0 to edges.Length
      invariant nodes[..] == ShiftNodes(old(nodes[..]), dx, dy)
      invariant forall k :: 0 <= k < i ==> edges[k] == ShiftEdge(old(edges[k]), dx, dy)
      invariant forall k :: i <= k < edges.Length ==> edges[k] == old(edges[k])
    {
      var path := edges[i].path;
      for j := 0 to |path|
        invariant |path| == |edges[i].path|
        invariant forall k :: 0 <= k < j ==> path[k] == Move(edges[i].path[k], dx, dy)
        invariant forall k :: j <= k < |path| ==> path[k] == edges[i].path[k]
      {
        path := path[j := Position(path[j].x + dx, path[j].y + dy)];
      }
      assert path == ShiftPath(edges[i].path, dx, dy);
      edges[i] := edges[i].(path := path);
    }
    assert edges[..] == ShiftEdges(old(edges[..]), dx, dy);
  }
}
