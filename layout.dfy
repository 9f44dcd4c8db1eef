/** The layout pipeline (crates/layout/src/layout.rs, `layout` and both forms
    of `layout_in_place`): initial placement, the force-directed pass, edge
    routing, canvas sizing and centring, in that order. */
module Pipeline {
  import opened Numeric
  import opened Types
  import opened Extent
  import opened ObstacleGrid
  import opened Placement
  import opened Routing
  import opened Canvas

  /** The node positions after the force-directed pass. The pass is not
      modelled: `refine(nodes, i)` stands for the position it gives node `i`
      when it starts from `nodes`; nothing but positions changes. */
  function Refined(nodes: seq<Node>, refine: (seq<Node>, nat) -> Position): (r: seq<Node>)
    ensures OnlyPositions(nodes, r)
  {
    seq(|nodes|, i requires 0 <= i < |nodes| => nodes[i].(position := refine(nodes, i)))
  }

  /** `force_directed`, as an opaque step over the node array. */
  method ForceDirected(nodes: array<Node>, refine: (seq<Node>, nat) -> Position)
    modifies nodes
    ensures nodes[..] == Refined(old(nodes[..]), refine)
  {
    var start := nodes[..];
    for i := 0 to nodes.Length
      invariant forall k :: 0 <= k < i ==> nodes[k] == start[k].(position := refine(start, k))
      invariant forall k :: i <= k < nodes.Length ==> nodes[k] == start[k]
    {
      nodes[i] := nodes[i].(position := refine(start, i));
    }
    assert nodes[..] == Refined(start, refine);
  }

  /** Every edge keeps its endpoints, has no ports assigned and a path of at
      least four points. */
  predicate EdgesKept(edges: seq<(nat, nat)>, out: seq<Edge>)
  {
    |out| == |edges| &&
    forall k :: 0 <= k < |edges| ==>
      out[k].source == edges[k].0 && out[k].target == edges[k].1 &&
      out[k].sourcePort.None? && out[k].targetPort.None? && |out[k].path| >= 4
  }

  /** Every node body and every path point lies in `b`. */
  predicate AllInside(b: Bounds, nodes: seq<Node>, edges: seq<Edge>)
  {
    (forall i :: 0 <= i < |nodes| ==> BodyInside(b, nodes[i])) &&
    (forall i, k :: 0 <= i < |edges| && 0 <= k < |edges[i].path| ==> Inside(b, edges[i].path[k].x, edges[i].path[k].y))
  }

  lemma RoutedEdgesKept(nodes: seq<Node>, edges: seq<(nat, nat)>, routed: seq<Edge>, grids: seq<Grid>)
    requires EdgesWithin(edges, |nodes|) && |routed| == |edges| && |grids| == |edges| + 1
    requires RoutedPrefix(nodes, edges, routed, grids, |edges|)
    ensures EdgesKept(edges, routed)
  {
    forall k | 0 <= k < |edges| ensures Routed(grids[k + 1], nodes, edges[k], routed[k]) {
    }
  }

  lemma ShiftKeepsEdges(edges: seq<(nat, nat)>, routed: seq<Edge>, dx: real, dy: real)
    requires EdgesKept(edges, routed)
    ensures EdgesKept(edges, ShiftEdges(routed, dx, dy))
  {
  }

  /** The routing stage of `layout`: `routed` are the edges routed over the
      grids `grids`, each the one before with the cells `freed` cleared, the
      first built from the nodes `placed`. */
  ghost predicate RoutingStage(placed: seq<Node>, edges: seq<(nat, nat)>, routed: seq<Edge>,
                               grids: seq<Grid>, freed: seq<seq<Cell>>)
    requires EdgesWithin(edges, |placed|)
  {
    |routed| == |edges| && |grids| == |edges| + 1 && |freed| == |edges| &&
    grids[0] == GridSpec(placed, RoutingCellSize) && FreeChain(grids, freed) &&
    ExitsPrefix(grids[0], placed, edges, freed, |edges|) &&
    RoutedPrefix(placed, edges, routed, grids, |edges|)
  }

  /** The last stage of `layout`: the canvas is measured from `placed` and
      `routed`, and both are moved by the centring offset. */
  predicate CentringStage(minSpacing: real, placed: seq<Node>, routed: seq<Edge>, result: LayoutResult)
  {
    (result.canvasWidth, result.canvasHeight) == CanvasSize(minSpacing, LayoutBox(placed, routed)) &&
    var (dx, dy) := CenterOffset(LayoutBox(placed, routed), result.canvasWidth, result.canvasHeight);
    result.nodes == ShiftNodes(placed, dx, dy) && result.edges == ShiftEdges(routed, dx, dy)
  }

  /** The centring stage keeps what the earlier stages promise, puts a floor
      under the canvas and, with a non-negative spacing, puts the whole
      drawing on the canvas. */
  lemma CentringKeeps(minSpacing: real, nodes: seq<Node>, edges: seq<(nat, nat)>,
                      placed: seq<Node>, routed: seq<Edge>, result: LayoutResult)
    requires OnlyPositions(nodes, placed) && EdgesKept(edges, routed)
    requires CentringStage(minSpacing, placed, routed, result)
    ensures OnlyPositions(nodes, result.nodes)
    ensures EdgesKept(edges, result.edges)
    ensures result.canvasWidth >= 400.0 + 2.0 * minSpacing
    ensures result.canvasHeight >= 300.0 + 2.0 * minSpacing
    ensures minSpacing >= 0.0 ==>
      AllInside(Bounds(0.0, result.canvasWidth, 0.0, result.canvasHeight), result.nodes, result.edges)
  {
    var (dx, dy) := CenterOffset(LayoutBox(placed, routed), result.canvasWidth, result.canvasHeight);
    CanvasFloors(minSpacing, LayoutBox(placed, routed));
    ShiftKeepsEdges(edges, routed, dx, dy);
    assert forall i :: 0 <= i < |nodes| ==> result.nodes[i] == ShiftNode(placed[i], dx, dy);
    if minSpacing >= 0.0 {
      CenteredInsideCanvas(minSpacing, placed, routed);
    }
  }

  lemma OnlyPositionsTransitive(a: seq<Node>, b: seq<Node>, c: seq<Node>)
    requires OnlyPositions(a, b) && OnlyPositions(b, c)
    ensures OnlyPositions(a, c)
  {
    assert forall i :: 0 <= i < |a| ==> c[i] == b[i].(position := c[i].position);
  }

  /** Phases 1 and 2 of `layout`, on the node vector. */
  method PlaceNodes(config: Config, nodes: seq<Node>, edges: seq<(nat, nat)>, refine: (seq<Node>, nat) -> Position)
    returns (placed: seq<Node>)
    requires EdgesWithin(edges, |nodes|)
    ensures placed == Refined(PlacedNodes(nodes, edges, config.minSpacing), refine)
  {
    var arr := new Node[|nodes|](i requires 0 <= i < |nodes| => nodes[i]);
    assert arr[..] == nodes;
    InitialPlacement(config, arr, edges);
    ForceDirected(arr, refine);
    placed := arr[..];
  }

  /** Phase 4 of `layout`: size the canvas, then centre the drawing on it. */
  method Finish(config: Config, placed: seq<Node>, routed: seq<Edge>) returns (result: LayoutResult)
    ensures CentringStage(config.minSpacing, placed, routed, result)
  {
    var width, height := CalculateCanvasSize(config, placed, routed);
    var nodes := new Node[|placed|](i requires 0 <= i < |placed| => placed[i]);
    var edges := new Edge[|routed|](i requires 0 <= i < |routed| => routed[i]);
    assert nodes[..] == placed;
    assert edges[..] == routed;
    CenterLayout(nodes, edges, width, height);
    result := LayoutResult(nodes[..], edges[..], width, height);
  }

  /** `CustomLayout::layout`. The ghost results are the intermediate stages. */
  method Layout(config: Config, nodes: seq<Node>, edges: seq<(nat, nat)>, refine: (seq<Node>, nat) -> Position)
    returns (result: LayoutResult, ghost placed: seq<Node>, ghost routed: seq<Edge>,
             ghost grids: seq<Grid>, ghost freed: seq<seq<Cell>>)
    requires EdgesWithin(edges, |nodes|)
    ensures placed == Refined(PlacedNodes(nodes, edges, config.minSpacing), refine)
    ensures RoutingStage(placed, edges, routed, grids, freed)
    ensures CentringStage(config.minSpacing, placed, routed, result)
    ensures OnlyPositions(nodes, result.nodes)
    ensures EdgesKept(edges, result.edges)
    ensures result.canvasWidth >= 400.0 + 2.0 * config.minSpacing
    ensures result.canvasHeight >= 300.0 + 2.0 * config.minSpacing
    ensures config.minSpacing >= 0.0 ==>
      AllInside(Bounds(0.0, result.canvasWidth, 0.0, result.canvasHeight), result.nodes, result.edges)
  {
    var current := PlaceNodes(config, nodes, edges, refine);
    var edgesOut;
    edgesOut, grids, freed := RouteEdges(current, edges);
    placed, routed := current, edgesOut;
    result := Finish(config, current, edgesOut);
    OnlyPositionsTransitive(nodes, PlacedNodes(nodes, edges, config.minSpacing), placed);
    RoutedEdgesKept(placed, edges, routed, grids);
    CentringKeeps(config.minSpacing, nodes, edges, placed, routed, result);
  }

  /** Some run of the four stages from `nodes` and `edges` ends in `result`. */
  ghost predicate LayoutOf(config: Config, nodes: seq<Node>, edges: seq<(nat, nat)>,
                           refine: (seq<Node>, nat) -> Position, result: LayoutResult)
    requires EdgesWithin(edges, |nodes|)
  {
    exists placed: seq<Node>, routed: seq<Edge>, grids: seq<Grid>, freed: seq<seq<Cell>> ::
      placed == Refined(PlacedNodes(nodes, edges, config.minSpacing), refine) &&
      RoutingStage(placed, edges, routed, grids, freed) &&
      CentringStage(config.minSpacing, placed, routed, result)
  }

  /** The records `layout_in_place` hands to `layout`: the caller's nodes
      without attributes, and each edge as its (source, target) pair. */
  function Internal(nodes: seq<Node>): (r: seq<Node>)
    ensures |r| == |nodes|
  {
    seq(|nodes|, i requires 0 <= i < |nodes| => Node(nodes[i].id, nodes[i].size, nodes[i].position, nodes[i].ports, []))
  }

  function Pairs(edges: seq<Edge>): (r: seq<(nat, nat)>)
    ensures |r| == |edges|
  {
    seq(|edges|, k requires 0 <= k < |edges| => (edges[k].source, edges[k].target))
  }

  predicate EndpointsWithin(edges: seq<Edge>, n: nat)
  {
    forall k :: 0 <= k < |edges| ==> edges[k].source < n && edges[k].target < n
  }

  /** `layout` with its stages hidden: the result is a layout of the input,
      with one node per input node and one edge per input edge. */
  method RunLayout(config: Config, nodes: seq<Node>, edges: seq<(nat, nat)>, refine: (seq<Node>, nat) -> Position)
    returns (result: LayoutResult)
    requires EdgesWithin(edges, |nodes|)
    ensures LayoutOf(config, nodes, edges, refine, result)
    ensures |result.nodes| == |nodes| && EdgesKept(edges, result.edges)
  {
    ghost var placed, routed, grids, freed;
    result, placed, routed, grids, freed := Layout(config, nodes, edges, refine);
  }

  /** The write-back loops of `layout_in_place`: each node takes its new
      position and each edge its new path; nothing else changes. */
  method WriteBack(nodes: array<Node>, edges: array<Edge>, result: LayoutResult)
    requires nodes != edges as object
    requires |result.nodes| == nodes.Length && |result.edges| == edges.Length
    modifies nodes, edges
    ensures forall i :: 0 <= i < nodes.Length ==> nodes[i] == old(nodes[i]).(position := result.nodes[i].position)
    ensures forall k :: 0 <= k < edges.Length ==> edges[k] == old(edges[k]).(path := result.edges[k].path)
  {
    for i := 0 to |result.nodes|
      invariant forall j :: 0 <= j < i ==> nodes[j] == old(nodes[j]).(position := result.nodes[j].position)
      invariant forall j :: i <= j < nodes.Length ==> nodes[j] == old(nodes[j])
      invariant edges[..] == old(edges[..])
    {
      nodes[i] := nodes[i].(position := result.nodes[i].position);
    }
    for k := 0 to |result.edges|
      invariant forall j :: 0 <= j < k ==> edges[j] == old(edges[j]).(path := result.edges[j].path)
      invariant forall j :: k <= j < edges.Length ==> edges[j] == old(edges[j])
      invariant forall j :: 0 <= j < nodes.Length ==> nodes[j] == old(nodes[j]).(position := result.nodes[j].position)
    {
      edges[k] := edges[k].(path := result.edges[k].path);
    }
  }

  /** The free function `layout_in_place`: lay out copies of the caller's
      records, then write each node's new position and each edge's new path
      back. The ghost result is the layout computed in between. */
  method LayoutInPlace(nodes: array<Node>, edges: array<Edge>, config: Config, refine: (seq<Node>, nat) -> Position)
    returns (r: Result<(), LayoutError>, ghost result: LayoutResult)
    requires nodes != edges as object
    requires EndpointsWithin(edges[..], nodes.Length)
    modifies nodes, edges
    ensures r == Ok(())
    ensures LayoutOf(config, Internal(old(nodes[..])), Pairs(old(edges[..])), refine, result)
    ensures |result.nodes| == nodes.Length && |result.edges| == edges.Length
    ensures forall i :: 0 <= i < nodes.Length ==> nodes[i] == old(nodes[i]).(position := result.nodes[i].position)
    ensures forall k :: 0 <= k < edges.Length ==> edges[k] == old(edges[k]).(path := result.edges[k].path)
  {
    var internalEdges := Pairs(edges[..]);
    assert EdgesWithin(internalEdges, nodes.Length);
    var res := RunLayout(config, Internal(nodes[..]), internalEdges, refine);
    result := res;
    WriteBack(nodes, edges, res);
    r := Ok(());
  }

  /** The write-back loops of the method form of `layout_in_place`, which
      check each index before writing. */
  method CheckedWriteBack(nodes: array<Node>, edges: array<Edge>, result: LayoutResult)
    returns (r: Result<(), LayoutError>)
    requires nodes != edges as object
    requires |result.nodes| == nodes.Length && |result.edges| == edges.Length
    modifies nodes, edges
    ensures r == Ok(())
    ensures forall i :: 0 <= i < nodes.Length ==> nodes[i] == old(nodes[i]).(position := result.nodes[i].position)
    ensures forall k :: 0 <= k < edges.Length ==> edges[k] == old(edges[k]).(path := result.edges[k].path)
  {
    for i := 0 to |result.nodes|
      invariant forall j :: 0 <= j < i ==> nodes[j] == old(nodes[j]).(position := result.nodes[j].position)
      invariant forall j :: i <= j < nodes.Length ==> nodes[j] == old(nodes[j])
      invariant edges[..] == old(edges[..])
    {
      if i < nodes.Length {
        nodes[i] := nodes[i].(position := result.nodes[i].position);
      } else {
        r := Err(InvalidNodeIndex);
        return;
      }
    }
    for k := 0 to |result.edges|
      invariant forall j :: 0 <= j < k ==> edges[j] == old(edges[j]).(path := result.edges[j].path)
      invariant forall j :: k <= j < edges.Length ==> edges[j] == old(edges[j])
      invariant forall j :: 0 <= j < nodes.Length ==> nodes[j] == old(nodes[j]).(position := result.nodes[j].position)
    {
      if k < edges.Length {
        edges[k] := edges[k].(path := result.edges[k].path);
      } else {
        r := Err(InvalidEdgeIndex);
        return;
      }
    }
    r := Ok(());
  }

  /** The method form `CustomLayout::layout_in_place`: as the free function,
      but each write-back checks its index first and gives up with
      `InvalidNodeIndex` or `InvalidEdgeIndex` when it is out of range. The
      layout keeps both counts, so neither error can occur. */
  method CheckedLayoutInPlace(config: Config, nodes: array<Node>, edges: array<Edge>, refine: (seq<Node>, nat) -> Position)
    returns (r: Result<(), LayoutError>, ghost result: LayoutResult)
    requires nodes != edges as object
    requires EndpointsWithin(edges[..], nodes.Length)
    modifies nodes, edges
    ensures r == Ok(())
    ensures LayoutOf(config, Internal(old(nodes[..])), Pairs(old(edges[..])), refine, result)
    ensures |result.nodes| == nodes.Length && |result.edges| == edges.Length
    ensures forall i :: 0 <= i < nodes.Length ==> nodes[i] == old(nodes[i]).(position := result.nodes[i].position)
    ensures forall k :: 0 <= k < edges.Length ==> edges[k] == old(edges[k]).(path := result.edges[k].path)
  {
    var internalEdges := Pairs(edges[..]);
    assert EdgesWithin(internalEdges, nodes.Length);
    var res := RunLayout(config, Internal(nodes[..]), internalEdges, refine);
    result := res;
    r := CheckedWriteBack(nodes, edges, res);
  }
}
