/** The bounding box the layout code folds over node bodies and path points
    (crates/layout/src/grid.rs:15-30, crates/layout/src/layout.rs:429-449 and
    464-483). The source starts its min accumulators at +infinity and its max
    accumulators at -infinity; `None` stands for that untouched start. */
module Extent {
  import opened Numeric
  import opened Types

  /** Fold one span [lox, hix] x [loy, hiy] into the box. */
  function Widen(b: Option<Bounds>, lox: real, hix: real, loy: real, hiy: real): (r: Bounds)
  {
    match b
    case None => Bounds(lox, hix, loy, hiy)
    case Some(c) => Bounds(Min(c.minX, lox), Max(c.maxX, hix), Min(c.minY, loy), Max(c.maxY, hiy))
  }

  /** The min of `position` and the max of `position + size` over the nodes. */
  function NodesBox(acc: Option<Bounds>, nodes: seq<Node>): Option<Bounds>
  {
    if |nodes| == 0 then acc
    else
      var n := nodes[|nodes| - 1];
      Some(Widen(NodesBox(acc, nodes[..|nodes| - 1]), n.position.x, n.position.x + n.size.width,
                 n.position.y, n.position.y + n.size.height))
  }

  function PointsBox(acc: Option<Bounds>, points: seq<Position>): Option<Bounds>
  {
    if |points| == 0 then acc
    else
      var p := points[|points| - 1];
      Some(Widen(PointsBox(acc, points[..|points| - 1]), p.x, p.x, p.y, p.y))
  }

  function EdgesBox(acc: Option<Bounds>, edges: seq<Edge>): Option<Bounds>
  {
    if |edges| == 0 then acc
    else PointsBox(EdgesBox(acc, edges[..|edges| - 1]), edges[|edges| - 1].path)
  }

  /** The box over every node body and every path point. */
  function LayoutBox(nodes: seq<Node>, edges: seq<Edge>): Option<Bounds>
  {
    EdgesBox(NodesBox(None, nodes), edges)
  }

  /** The accumulator loops shared by `calculate_canvas_size` and `center_layout`. */
  method MeasureLayout(nodes: seq<Node>, edges: seq<Edge>) returns (box: Option<Bounds>)
    ensures box == LayoutBox(nodes, edges)
  {
    box := None;
    for i := 0 to |nodes|
      invariant box == NodesBox(None, nodes[..i])
    {
      assert nodes[..i + 1][..i] == nodes[..i];
      var n := nodes[i];
      box := Some(Widen(box, n.position.x, n.position.x + n.size.width,
                        n.position.y, n.position.y + n.size.height));
    }
    assert nodes[..|nodes|] == nodes;
    ghost var start := box;
    for i := 0 to |edges|
      invariant box == EdgesBox(start, edges[..i])
    {
      assert edges[..i + 1][..i] == edges[..i];
      var path := edges[i].path;
      ghost var before := box;
      for j := 0 to |path|
        invariant box == PointsBox(before, path[..j])
      {
        assert path[..j + 1][..j] == path[..j];
        box := Some(Widen(box, path[j].x, path[j].x, path[j].y, path[j].y));
      }
      assert path[..|path|] == path;
    }
    assert edges[..|edges|] == edges;
  }

  predicate Inside(b: Bounds, x: real, y: real)
  {
    b.minX <= x <= b.maxX && b.minY <= y <= b.maxY
  }

  /** The box exists and contains the point. */
  predicate Covers(b: Option<Bounds>, p: Position)
  {
    b.Some? && Inside(b.value, p.x, p.y)
  }

  /** A box that contains `b`. */
  predicate Encloses(outer: Bounds, b: Bounds)
  {
    outer.minX <= b.minX && b.maxX <= outer.maxX && outer.minY <= b.minY && b.maxY <= outer.maxY
  }

  /** A node body, as the folds see it: the corner `position` and the corner `position + size`. */
  predicate BodyInside(b: Bounds, n: Node)
  {
    b.minX <= n.position.x && n.position.x + n.size.width <= b.maxX &&
      b.minY <= n.position.y && n.position.y + n.size.height <= b.maxY
  }

  lemma {:induction false} PointsBoxGrows(acc: Option<Bounds>, points: seq<Position>)
    ensures PointsBox(acc, points).Some? <==> acc.Some? || |points| > 0
    ensures acc.Some? ==> Encloses(PointsBox(acc, points).value, acc.value)
    ensures forall k :: 0 <= k < |points| ==> Inside(PointsBox(acc, points).value, points[k].x, points[k].y)
  {
    if |points| > 0 {
      var init := points[..|points| - 1];
      PointsBoxGrows(acc, init);
      forall k | 0 <= k < |init| ensures points[k] == init[k] { }
    }
  }

  lemma {:induction false} EdgesBoxGrows(acc: Option<Bounds>, edges: seq<Edge>)
    ensures acc.Some? ==> EdgesBox(acc, edges).Some? && Encloses(EdgesBox(acc, edges).value, acc.value)
  {
    if |edges| > 0 {
      var init := edges[..|edges| - 1];
      EdgesBoxGrows(acc, init);
      PointsBoxGrows(EdgesBox(acc, init), edges[|edges| - 1].path);
    }
  }

  lemma {:induction false} EdgesBoxHasPoint(acc: Option<Bounds>, edges: seq<Edge>, i: nat, k: nat)
    requires i < |edges| && k < |edges[i].path|
    ensures Covers(EdgesBox(acc, edges), edges[i].path[k])
  {
    var init := edges[..|edges| - 1];
    var last := edges[|edges| - 1];
    PointsBoxGrows(EdgesBox(acc, init), last.path);
    if i < |init| {
      assert edges[i] == init[i];
      EdgesBoxHasPoint(acc, init, i, k);
    }
  }

  lemma {:induction false} NodesBoxGrows(acc: Option<Bounds>, nodes: seq<Node>)
    ensures NodesBox(acc, nodes).Some? <==> acc.Some? || |nodes| > 0
    ensures acc.Some? ==> Encloses(NodesBox(acc, nodes).value, acc.value)
    ensures forall i :: 0 <= i < |nodes| ==> BodyInside(NodesBox(acc, nodes).value, nodes[i])
  {
    if |nodes| > 0 {
      var init := nodes[..|nodes| - 1];
      NodesBoxGrows(acc, init);
      forall i | 0 <= i < |init| ensures nodes[i] == init[i] { }
    }
  }

  /** The layout box contains every node body and every path point, and it is
      `None` exactly when there is neither a node nor a path point. */
  lemma LayoutBoxContains(nodes: seq<Node>, edges: seq<Edge>)
    ensures |nodes| > 0 ==> LayoutBox(nodes, edges).Some?
    ensures forall i :: 0 <= i < |nodes| ==> BodyInside(LayoutBox(nodes, edges).value, nodes[i])
    ensures forall i, k :: 0 <= i < |edges| && 0 <= k < |edges[i].path| ==>
      Covers(LayoutBox(nodes, edges), edges[i].path[k])
  {
    NodesBoxGrows(None, nodes);
    EdgesBoxGrows(NodesBox(None, nodes), edges);
    forall i, k | 0 <= i < |edges| && 0 <= k < |edges[i].path|
      ensures Covers(LayoutBox(nodes, edges), edges[i].path[k])
    {
      EdgesBoxHasPoint(NodesBox(None, nodes), edges, i, k);
    }
    if |nodes| > 0 {
      var nb := NodesBox(None, nodes).value;
      var lb := LayoutBox(nodes, edges).value;
      forall i | 0 <= i < |nodes| ensures BodyInside(lb, nodes[i]) {
        assert BodyInside(nb, nodes[i]);
      }
    }
  }
}
