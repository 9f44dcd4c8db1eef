/** The records shared by every phase of the layout engine (crates/layout/src/types.rs):
    sizes, positions, ports, nodes, edges, the result record, the configuration
    record and its defaults, and a node's effective (port-inclusive) bounds. */
module Types {
  import opened Numeric

  datatype Option<T> = None | Some(value: T)

  datatype Result<T, E> = Ok(value: T) | Err(error: E)

  datatype Size = Size(width: real, height: real)

  datatype Position = Position(x: real, y: real)

  datatype LayoutError = InvalidNodeIndex | InvalidEdgeIndex | LayoutFailed(reason: string)

  datatype PortType = Input | Output

  /** A port; `position` is relative to the owning node's top-left corner.
      `id` is carried along but no layout code reads it. */
  datatype Port = Port(position: Position, size: Size, portType: PortType, id: Option<nat>)

  datatype Node = Node(id: string, size: Size, position: Position, ports: seq<Port>,
                       attributes: seq<(string, string)>)

  datatype Edge = Edge(source: nat, target: nat, sourcePort: Option<nat>, targetPort: Option<nat>,
                       path: seq<Position>)

  datatype LayoutResult = LayoutResult(nodes: seq<Node>, edges: seq<Edge>,
                                       canvasWidth: real, canvasHeight: real)

  /** The layout configuration (`ArchVizLayout`, used under the name `CustomLayout`). */
  datatype Config = Config(iterations: nat, repulsionStrength: real, attractionStrength: real,
                           initialSpacing: real, minSpacing: real,
                           allowDiagonals: bool, spacedEdges: bool)

  /** `Default for ArchVizLayout`. */
  function DefaultConfig(): (c: Config)
    ensures c.iterations == 100 && c.repulsionStrength == 1000.0 && c.attractionStrength == 0.1
    ensures c.initialSpacing == 100.0 && c.minSpacing == 20.0
    ensures c.allowDiagonals && !c.spacedEdges
  {
    Config(100, 1000.0, 0.1, 100.0, 20.0, true, false)
  }

  /** Every edge names two of the `n` nodes (the source indexes with them and
      panics otherwise). */
  predicate EdgesWithin(edges: seq<(nat, nat)>, n: nat)
  {
    forall k :: 0 <= k < |edges| ==> edges[k].0 < n && edges[k].1 < n
  }

  /** The concatenation of a sequence of sequences. */
  function Flatten<T>(ss: seq<seq<T>>): seq<T>
  {
    if |ss| == 0 then [] else Flatten(ss[..|ss| - 1]) + ss[|ss| - 1]
  }

  /** `b` is `a` with at most the node positions changed. */
  predicate OnlyPositions(a: seq<Node>, b: seq<Node>)
  {
    |a| == |b| && forall i :: 0 <= i < |a| ==> b[i] == a[i].(position := b[i].position)
  }

  /** (min_x, max_x, min_y, max_y); for a node, relative to its position. */
  datatype Bounds = Bounds(minX: real, maxX: real, minY: real, maxY: real)

  /** One step of the port loop in `effective_bounds`. */
  function WidenByPort(b: Bounds, p: Port): Bounds
  {
    Bounds(Min(b.minX, p.position.x), Max(b.maxX, p.position.x + p.size.width),
           Min(b.minY, p.position.y), Max(b.maxY, p.position.y + p.size.height))
  }

  /** The body rectangle widened by each port in turn. */
  function PortsBounds(size: Size, ports: seq<Port>): Bounds
  {
    if |ports| == 0 then Bounds(0.0, size.width, 0.0, size.height)
    else WidenByPort(PortsBounds(size, ports[..|ports| - 1]), ports[|ports| - 1])
  }

  function NodeBounds(node: Node): Bounds
  {
    PortsBounds(node.size, node.ports)
  }

  /** `Node::effective_bounds`: four accumulators updated port by port. */
  method EffectiveBounds(node: Node) returns (b: Bounds)
    ensures b == NodeBounds(node)
  {
    var minX, maxX, minY, maxY := 0.0, node.size.width, 0.0, node.size.height;
    for i := 0 to |node.ports|
      invariant Bounds(minX, maxX, minY, maxY) == PortsBounds(node.size, node.ports[..i])
    {
      var port := node.ports[i];
      assert node.ports[..i + 1][..i] == node.ports[..i];
      minX := Min(minX, port.position.x);
      maxX := Max(maxX, port.position.x + port.size.width);
      minY := Min(minY, port.position.y);
      maxY := Max(maxY, port.position.y + port.size.height);
    }
    assert node.ports[..|node.ports|] == node.ports;
    b := Bounds(minX, maxX, minY, maxY);
  }

  /** `Node::effective_size`: the extent of the effective bounds. */
  function EffectiveSize(node: Node): (s: Size)
    ensures node.size.width >= 0.0 ==> s.width >= node.size.width
    ensures node.size.height >= 0.0 ==> s.height >= node.size.height
    ensures s.width == NodeBounds(node).maxX - NodeBounds(node).minX
    ensures s.height == NodeBounds(node).maxY - NodeBounds(node).minY
  {
    BoundsContainBody(node.size, node.ports);
    var b := NodeBounds(node);
    Size(b.maxX - b.minX, b.maxY - b.minY)
  }

  lemma NoPortsBounds(node: Node)
    requires node.ports == []
    ensures NodeBounds(node) == Bounds(0.0, node.size.width, 0.0, node.size.height)
  {
  }

  /** The effective bounds contain the body rectangle [0, width] x [0, height]. */
  lemma {:induction false} BoundsContainBody(size: Size, ports: seq<Port>)
    ensures var b := PortsBounds(size, ports);
      b.minX <= 0.0 && b.maxX >= size.width && b.minY <= 0.0 && b.maxY >= size.height
  {
    if |ports| > 0 {
      BoundsContainBody(size, ports[..|ports| - 1]);
    }
  }

  predicate ContainsPort(b: Bounds, p: Port)
  {
    b.minX <= p.position.x && p.position.x + p.size.width <= b.maxX &&
    b.minY <= p.position.y && p.position.y + p.size.height <= b.maxY
  }

  /** Widening never shrinks the box. */
  lemma WidenGrows(b: Bounds, p: Port)
    ensures var w := WidenByPort(b, p);
      w.minX <= b.minX && w.maxX >= b.maxX && w.minY <= b.minY && w.maxY >= b.maxY
  {
  }

  /** The effective bounds contain every port rectangle. */
  lemma {:induction false} BoundsContainPorts(size: Size, ports: seq<Port>)
    ensures forall k :: 0 <= k < |ports| ==> ContainsPort(PortsBounds(size, ports), ports[k])
  {
    if |ports| > 0 {
      var init := ports[..|ports| - 1];
      BoundsContainPorts(size, init);
      forall k | 0 <= k < |ports|
        ensures ContainsPort(PortsBounds(size, ports), ports[k])
      {
        if k < |ports| - 1 {
          assert ports[k] == init[k];
          WidenGrows(PortsBounds(size, init), ports[|ports| - 1]);
        }
      }
    }
  }

  /** Every bound is attained: by the body edge or by some port's edge. */
  lemma {:induction false} BoundsTight(size: Size, ports: seq<Port>)
    ensures var b := PortsBounds(size, ports);
      && (b.minX == 0.0 || exists k :: 0 <= k < |ports| && b.minX == ports[k].position.x)
      && (b.maxX == size.width ||
          exists k :: 0 <= k < |ports| && b.maxX == ports[k].position.x + ports[k].size.width)
      && (b.minY == 0.0 || exists k :: 0 <= k < |ports| && b.minY == ports[k].position.y)
      && (b.maxY == size.height ||
          exists k :: 0 <= k < |ports| && b.maxY == ports[k].position.y + ports[k].size.height)
  {
    if |ports| > 0 {
      var init := ports[..|ports| - 1];
      BoundsTight(size, init);
      forall k | 0 <= k < |init| ensures ports[k] == init[k] { }
    }
  }

  /** Adding a port never shrinks the effective bounds. */
  lemma AddPortMonotone(size: Size, ports: seq<Port>, p: Port)
    ensures var b, b' := PortsBounds(size, ports), PortsBounds(size, ports + [p]);
      b'.minX <= b.minX && b'.maxX >= b.maxX && b'.minY <= b.minY && b'.maxY >= b.maxY
      && ContainsPort(b', p)
  {
    assert (ports + [p])[..|ports|] == ports;
  }
}
