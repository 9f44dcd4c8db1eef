/** Edge routing (crates/layout/src/layout.rs, `route_edges` and `select_port`):
    each edge leaves its source at an anchor (the best-aligned port centre, or
    the snapped body centre), is snapped to the 5-unit routing grid, extended 25
    units out of the side of the node the anchor sits on, and joined to the
    target's extension by a breadth-first search over the obstacle grid. */
module Routing {
  import opened Numeric
  import opened Types
  import opened Extent
  import opened ObstacleGrid

  const RoutingCellSize: real := 5.0
  const ExtensionLength: real := 25.0
  const SideTolerance: real := 10.0
  const SnapStep: real := 10.0

  // ---------------------------------------------------------------- anchors

  function Center(n: Node): Position
  {
    Position(n.position.x + n.size.width / 2.0, n.position.y + n.size.height / 2.0)
  }

  /** One coordinate of the fallback anchor: the centre rounded to a multiple
      of 10, then clamped by `.max(lo).min(lo + w)`. */
  function ClampedSnap(c: real, lo: real, w: real): (r: real)
    ensures w >= 0.0 ==> lo <= r <= lo + w
    ensures w >= 0.0 && lo <= c <= lo + w ==> Abs(r - c) <= SnapStep / 2.0
    ensures w < 0.0 ==> r == lo + w
  {
    var rounded := Round(c / SnapStep) as real * SnapStep;
    assert Abs(rounded - c) <= SnapStep / 2.0;
    Min(Max(rounded, lo), lo + w)
  }

  /** The anchor of a node without a usable port: its centre snapped to a
      multiple of 10, kept inside the body. With a non-negative size it lies in
      the body rectangle, within 5 units of the centre on each axis. */
  function SnappedCenter(n: Node): (r: Position)
    ensures n.size.width >= 0.0 ==>
      n.position.x <= r.x <= n.position.x + n.size.width && Abs(r.x - Center(n).x) <= 5.0
    ensures n.size.height >= 0.0 ==>
      n.position.y <= r.y <= n.position.y + n.size.height && Abs(r.y - Center(n).y) <= 5.0
  {
    Position(ClampedSnap(Center(n).x, n.position.x, n.size.width),
             ClampedSnap(Center(n).y, n.position.y, n.size.height))
  }

  /** World position of a port's centre. */
  function PortCenter(n: Node, p: Port): Position
  {
    Position(n.position.x + p.position.x + p.size.width / 2.0,
             n.position.y + p.position.y + p.size.height / 2.0)
  }

  /** From the node's centre to the port's centre. */
  function PortOffset(n: Node, p: Port): Position
  {
    Position(PortCenter(n, p).x - Center(n).x, PortCenter(n, p).y - Center(n).y)
  }

  /** From the node's centre to the other node's centre. */
  function Direction(from: Node, to: Node): Position
  {
    Position(Center(to).x - Center(from).x, Center(to).y - Center(from).y)
  }

  function SquaredNorm(v: Position): real
  {
    v.x * v.x + v.y * v.y
  }

  function Dot(a: Position, b: Position): real
  {
    a.x * b.x + a.y * b.y
  }

  /** A port is scored only when both its offset and the direction are non-zero. */
  predicate Qualifies(from: Node, to: Node, p: Port)
  {
    SquaredNorm(PortOffset(from, p)) > 0.0 && SquaredNorm(Direction(from, to)) > 0.0
  }

  /** `d * |d| / m2`: for m2 the squared length of the port offset, this orders
      ports exactly as the cosine between offset and direction does (see
      `ScoreOrderIsKeyOrder`), without a square root. */
  function SignedSquareRatio(d: real, m2: real): real
    requires m2 > 0.0
  {
    d * Abs(d) / m2
  }

  function AlignKey(from: Node, to: Node, p: Port): real
    requires Qualifies(from, to, p)
  {
    SignedSquareRatio(Dot(PortOffset(from, p), Direction(from, to)), SquaredNorm(PortOffset(from, p)))
  }

  /** The port loop of `select_port` over `ports`: the index of the first
      qualifying port of greatest alignment, or `None` when none qualifies. */
  function BestPort(from: Node, to: Node, ports: seq<Port>): (r: Option<nat>)
    ensures r.None? <==> forall j :: 0 <= j < |ports| ==> !Qualifies(from, to, ports[j])
    ensures r.Some? ==> r.value < |ports| && Qualifies(from, to, ports[r.value])
    ensures r.Some? ==> forall j :: 0 <= j < |ports| && Qualifies(from, to, ports[j]) ==>
      AlignKey(from, to, ports[j]) <= AlignKey(from, to, ports[r.value])
    ensures r.Some? ==> forall j :: 0 <= j < r.value && Qualifies(from, to, ports[j]) ==>
      AlignKey(from, to, ports[j]) < AlignKey(from, to, ports[r.value])
  {
    if |ports| == 0 then None
    else
      var init := ports[..|ports| - 1];
      var last := ports[|ports| - 1];
      var prev := BestPort(from, to, init);
      assert forall j :: 0 <= j < |init| ==> init[j] == ports[j];
      if Qualifies(from, to, last) &&
         (prev.None? || AlignKey(from, to, last) > AlignKey(from, to, init[prev.value]))
      then Some(|ports| - 1)
      else prev
  }

  /** One iteration of the port loop: the best of the first `i + 1` ports. */
  lemma BestPortStep(from: Node, to: Node, ports: seq<Port>, i: nat)
    requires i < |ports|
    ensures var prev := BestPort(from, to, ports[..i]);
      BestPort(from, to, ports[..i + 1]) ==
        if Qualifies(from, to, ports[i]) &&
           (prev.None? || AlignKey(from, to, ports[i]) > AlignKey(from, to, ports[prev.value]))
        then Some(i)
        else prev
  {
    assert ports[..i + 1][..i] == ports[..i];
  }

  /** The position `select_port` returns. */
  function Anchor(from: Node, to: Node): Position
  {
    if |from.ports| == 0 then SnappedCenter(from)
    else match BestPort(from, to, from.ports)
      case Some(i) => PortCenter(from, from.ports[i])
      case None => SnappedCenter(from)
  }

  /** `select_port`: the best-scoring port's centre, or the snapped centre when
      the node has no ports or none qualifies. */
  method SelectPort(from: Node, to: Node) returns (pos: Position)
    ensures pos == Anchor(from, to)
  {
    if |from.ports| == 0 {
      return SnappedCenter(from);
    }
    var best: Option<nat> := None;
    var bestKey := 0.0;
    for i := 0 to |from.ports|
      invariant best == BestPort(from, to, from.ports[..i])
      invariant best.Some? ==> best.value < i && bestKey == AlignKey(from, to, from.ports[best.value])
    {
      var port := from.ports[i];
      BestPortStep(from, to, from.ports, i);
      if Qualifies(from, to, port) {
        var key := AlignKey(from, to, port);
        if best.None? || key > bestKey {
          best := Some(i);
          bestKey := key;
        }
      }
    }
    assert from.ports[..|from.ports|] == from.ports;
    match best
    case Some(i) => pos := PortCenter(from, from.ports[i]);
    case None => pos := SnappedCenter(from);
  }

  /** A node without ports is anchored at its snapped centre; a node with ports
      is anchored at a port centre whenever one port qualifies. */
  lemma AnchorCases(from: Node, to: Node)
    ensures |from.ports| == 0 ==> Anchor(from, to) == SnappedCenter(from)
    ensures (exists j :: 0 <= j < |from.ports| && Qualifies(from, to, from.ports[j])) ==>
      exists i :: 0 <= i < |from.ports| && Anchor(from, to) == PortCenter(from, from.ports[i])
    ensures (forall j :: 0 <= j < |from.ports| ==> !Qualifies(from, to, from.ports[j])) ==>
      Anchor(from, to) == SnappedCenter(from)
  {
    if |from.ports| > 0 {
      var r := BestPort(from, to, from.ports);
      if r.Some? {
        assert Anchor(from, to) == PortCenter(from, from.ports[r.value]);
      }
    }
  }

  // ---------------------------------------------------------------- score order

  lemma ProductPositive(a: real, b: real)
    requires a > 0.0 && b > 0.0
    ensures a * b > 0.0
  {
  }

  lemma ProductNonNegative(a: real, b: real)
    requires a >= 0.0 && b >= 0.0
    ensures a * b >= 0.0
  {
  }

  lemma SquareStrict(a: real, b: real)
    requires 0.0 <= a < b
    ensures a * a < b * b
  {
    var d := b - a;
    ProductNonNegative(d, a);
    ProductPositive(d, b);
    assert a * a + d * a + d * b == b * b;
  }

  lemma SignedSquareStrict(u: real, v: real)
    requires u < v
    ensures u * Abs(u) < v * Abs(v)
  {
    if u >= 0.0 {
      SquareStrict(u, v);
    } else if v <= 0.0 {
      SquareStrict(-v, -u);
      assert u * Abs(u) == -((-u) * (-u)) && v * Abs(v) == -((-v) * (-v));
    } else {
      ProductPositive(-u, -u);
      ProductPositive(v, v);
    }
  }

  lemma SignedSquareMonotone(u: real, v: real)
    ensures u < v <==> u * Abs(u) < v * Abs(v)
  {
    if u < v {
      SignedSquareStrict(u, v);
    } else if v < u {
      SignedSquareStrict(v, u);
    }
  }

  lemma RatioSquare(d: real, m: real, s: real)
    requires m > 0.0 && s == m * m && s > 0.0
    ensures (d / m) * Abs(d / m) == SignedSquareRatio(d, s)
  {
    assert Abs(d / m) == Abs(d) / m;
    assert (d / m) * (Abs(d) / m) == (d * Abs(d)) / (m * m);
  }

  /** Dividing by a positive number keeps a strict order. */
  lemma DivideKeepsOrder(u: real, v: real, t: real)
    requires t > 0.0
    ensures u / t > v / t <==> u > v
  {
    var q := u / t - v / t;
    assert q * t == u - v;
    if u > v {
      assert q > 0.0;
    } else {
      assert q <= 0.0;
    }
  }

  /** The source scores a port by `1 - dot / (|offset| * |direction|)` and keeps
      a strictly lower score. For any positive lengths `ma`, `mb` of two port
      offsets (of squares `sa`, `sb`) and `t` of the direction, a strictly lower score is exactly a
      strictly greater `SignedSquareRatio` key. */
  lemma ScoreOrderIsKeyOrder(da: real, sa: real, ma: real, db: real, sb: real, mb: real, t: real)
    requires sa > 0.0 && sb > 0.0 && ma > 0.0 && mb > 0.0 && t > 0.0
    requires ma * ma == sa && mb * mb == sb
    ensures 1.0 - da / (ma * t) < 1.0 - db / (mb * t) <==>
      SignedSquareRatio(db, sb) < SignedSquareRatio(da, sa)
  {
    var u, v := da / ma, db / mb;
    assert da / (ma * t) == u / t;
    assert db / (mb * t) == v / t;
    DivideKeepsOrder(u, v, t);
    SignedSquareMonotone(v, u);
    RatioSquare(da, ma, sa);
    RatioSquare(db, mb, sb);
  }

  // ---------------------------------------------------------------- exits

  datatype Side = Left | Right | Top | Bottom

  /** The side of `n` an anchor sits on: within 10 units of the left edge,
      else of the right edge, else of the top edge; anything else is the bottom. */
  function SideOf(p: Position, n: Node): Side
  {
    if Abs(p.x - n.position.x) < SideTolerance then Left
    else if Abs(p.x - (n.position.x + n.size.width)) < SideTolerance then Right
    else if Abs(p.y - n.position.y) < SideTolerance then Top
    else Bottom
  }

  /** The point 25 units out from `p` on `side`. */
  function Extension(p: Position, side: Side): Position
  {
    match side
    case Left => Position(p.x - ExtensionLength, p.y)
    case Right => Position(p.x + ExtensionLength, p.y)
    case Top => Position(p.x, p.y - ExtensionLength)
    case Bottom => Position(p.x, p.y + ExtensionLength)
  }

  /** Where an edge leaves a node: the anchor snapped to the routing lattice,
      and the snapped point 25 units out on the anchor's side. */
  datatype Exit = Exit(snapped: Position, extension: Position)

  /** Moving a lattice point by a whole number of cells stays on the lattice. */
  lemma LatticeShift(v: real, o: real, c: real, k: int)
    requires c > 0.0 && OnLattice(v, o, c)
    ensures OnLattice(v + k as real * c, o, c)
  {
    var t := (v - o) / c;
    assert (v + k as real * c - o) / c == t + k as real;
    assert (t + k as real).Floor == t.Floor + k;
  }

  /** The exit `route_edges` computes for the edge from `from` to `to` on a
      lattice with origin (ox, oy). The snapped anchor lies on the lattice, at
      most half a cell from the anchor; re-snapping the extension does not move
      it, so the extension lies exactly 25 units out from the snapped anchor. */
  function ExitOf(ox: real, oy: real, from: Node, to: Node): (e: Exit)
    ensures OnLattice(e.snapped.x, ox, RoutingCellSize) && OnLattice(e.snapped.y, oy, RoutingCellSize)
    ensures Abs(e.snapped.x - Anchor(from, to).x) <= RoutingCellSize / 2.0
    ensures Abs(e.snapped.y - Anchor(from, to).y) <= RoutingCellSize / 2.0
    ensures e.extension == Extension(e.snapped, SideOf(Anchor(from, to), from))
    ensures OnLattice(e.extension.x, ox, RoutingCellSize) && OnLattice(e.extension.y, oy, RoutingCellSize)
  {
    var anchor := Anchor(from, to);
    var snapped := NearestGrid(anchor, ox, oy, RoutingCellSize);
    var out := Extension(snapped, SideOf(anchor, from));
    ExtensionOnLattice(snapped, SideOf(anchor, from), ox, oy);
    Exit(snapped, NearestGrid(out, ox, oy, RoutingCellSize))
  }

  /** The extension of a lattice point is a lattice point, which snapping
      leaves where it is. */
  lemma ExtensionOnLattice(p: Position, side: Side, ox: real, oy: real)
    requires OnLattice(p.x, ox, RoutingCellSize) && OnLattice(p.y, oy, RoutingCellSize)
    ensures var out := Extension(p, side);
      OnLattice(out.x, ox, RoutingCellSize) && OnLattice(out.y, oy, RoutingCellSize) &&
      NearestGrid(out, ox, oy, RoutingCellSize) == out
  {
    var out := Extension(p, side);
    match side {
      case Left => LatticeShift(p.x, ox, RoutingCellSize, -5);
      case Right => LatticeShift(p.x, ox, RoutingCellSize, 5);
      case Top => LatticeShift(p.y, oy, RoutingCellSize, -5);
      case Bottom => LatticeShift(p.y, oy, RoutingCellSize, 5);
    }
    SnapLatticePoint(out.x, ox, RoutingCellSize);
    SnapLatticePoint(out.y, oy, RoutingCellSize);
    assert NearestGrid(out, ox, oy, RoutingCellSize) ==
      Position(SnapCoordinate(out.x, ox, RoutingCellSize), SnapCoordinate(out.y, oy, RoutingCellSize));
  }

  /** A node anchored at its snapped centre (no port qualifies) that is at
      least 30 units wide and high is left through its bottom side: the
      centre is at least 10 units from the left, right and top edges. */
  lemma CentreAnchorLeavesDownward(from: Node, to: Node)
    requires from.size.width >= 30.0 && from.size.height >= 30.0
    requires forall j :: 0 <= j < |from.ports| ==> !Qualifies(from, to, from.ports[j])
    ensures SideOf(Anchor(from, to), from) == Bottom
  {
    AnchorCases(from, to);
    var a := SnappedCenter(from);
    assert Abs(a.x - Center(from).x) <= 5.0 && Abs(a.y - Center(from).y) <= 5.0;
  }

  /** A port centre that is strictly inside the body band, more than 10 units
      from the left, right and top edges, is also left through the bottom side;
      one within 10 units of the left edge is left to the left. */
  lemma SideOfPortCentre(from: Node, p: Port)
    ensures Abs(PortCenter(from, p).x - from.position.x) < SideTolerance ==>
      SideOf(PortCenter(from, p), from) == Left
    ensures SideOf(PortCenter(from, p), from) == Bottom <==>
      Abs(p.position.x + p.size.width / 2.0) >= SideTolerance &&
      Abs(p.position.x + p.size.width / 2.0 - from.size.width) >= SideTolerance &&
      Abs(p.position.y + p.size.height / 2.0) >= SideTolerance
  {
    var c := PortCenter(from, p);
    assert c.x - from.position.x == p.position.x + p.size.width / 2.0;
    assert c.x - (from.position.x + from.size.width) == p.position.x + p.size.width / 2.0 - from.size.width;
    assert c.y - from.position.y == p.position.y + p.size.height / 2.0;
  }

  // ---------------------------------------------------------------- freeing cells

  /** `route_edges` frees the cells of both snapped anchors and both extensions
      before searching; the search would otherwise start or end on a blocked cell. */
  function FreeCells(g: Grid, cells: seq<Cell>): (r: Grid)
    requires Valid(g) && |cells| == 4
    requires forall i :: 0 <= i < 4 ==> InBounds(g, cells[i])
    ensures Valid(r) && SameFrame(r, g)
    ensures forall i :: 0 <= i < 4 ==> InBounds(r, cells[i]) && !Blocked(r, cells[i])
    ensures forall c :: InBounds(g, c) && c !in cells ==> Blocked(r, c) == Blocked(g, c)
  {
    var g1 := ClearCell(g, cells[0]);
    var g2 := ClearCell(g1, cells[1]);
    var g3 := ClearCell(g2, cells[2]);
    ClearCell(g3, cells[3])
  }

  /** The four cells freed for an edge: source anchor, target anchor, source
      extension, target extension. */
  function ExitCells(g: Grid, source: Exit, target: Exit): (r: seq<Cell>)
    requires FrameValid(g)
    ensures |r| == 4 && forall i :: 0 <= i < 4 ==> InBounds(g, r[i])
  {
    [PosToGrid(g, source.snapped), PosToGrid(g, target.snapped),
     PosToGrid(g, source.extension), PosToGrid(g, target.extension)]
  }

  /** The exit cells of edge `e` on the lattice of `g`. */
  function EdgeExitCells(g: Grid, nodes: seq<Node>, e: (nat, nat)): (r: seq<Cell>)
    requires FrameValid(g) && e.0 < |nodes| && e.1 < |nodes|
    ensures |r| == 4 && forall i :: 0 <= i < 4 ==> InBounds(g, r[i])
  {
    ExitCells(g, ExitOf(g.originX, g.originY, nodes[e.0], nodes[e.1]),
                 ExitOf(g.originX, g.originY, nodes[e.1], nodes[e.0]))
  }

  /** The exit cells depend on the grid's frame only, not on its obstacles. */
  lemma EdgeExitCellsFrame(g: Grid, h: Grid, nodes: seq<Node>, e: (nat, nat))
    requires FrameValid(g) && SameFrame(g, h) && e.0 < |nodes| && e.1 < |nodes|
    ensures FrameValid(h) && EdgeExitCells(g, nodes, e) == EdgeExitCells(h, nodes, e)
  {
    assert h == Grid(g.cellSize, g.originX, g.originY, g.width, g.height, h.obstacles);
    var se := ExitOf(g.originX, g.originY, nodes[e.0], nodes[e.1]);
    var te := ExitOf(g.originX, g.originY, nodes[e.1], nodes[e.0]);
    PosToGridFrame(g, h, se.snapped);
    PosToGridFrame(g, h, te.snapped);
    PosToGridFrame(g, h, se.extension);
    PosToGridFrame(g, h, te.extension);
  }

  lemma PosToGridFrame(g: Grid, h: Grid, p: Position)
    requires FrameValid(g) && SameFrame(g, h)
    ensures FrameValid(h) && PosToGrid(g, p) == PosToGrid(h, p)
  {
  }

  // ---------------------------------------------------------------- routing

  /** What `find_path` may return between `start` and `end` on `g`. */
  ghost predicate PathFound(g: Grid, start: Position, end: Position, mid: seq<Position>)
    requires Valid(g)
  {
    var s, e := PosToGrid(g, start), PosToGrid(g, end);
    (mid == [start, end] && (s == e || NoWalk(g, s, e))) ||
    (exists cells :: |cells| >= 2 && ShortestWalk(g, cells, s, e) && mid == CellsToPositions(g, cells))
  }

  /** The exits of edge `e` on the lattice of `g`. */
  function SourceExit(g: Grid, nodes: seq<Node>, e: (nat, nat)): Exit
    requires e.0 < |nodes| && e.1 < |nodes|
  {
    ExitOf(g.originX, g.originY, nodes[e.0], nodes[e.1])
  }

  function TargetExit(g: Grid, nodes: seq<Node>, e: (nat, nat)): Exit
    requires e.0 < |nodes| && e.1 < |nodes|
  {
    ExitOf(g.originX, g.originY, nodes[e.1], nodes[e.0])
  }

  /** The routed edge `r` for `e`, searched on `g` (the grid with its exit
      cells freed): same endpoints, no port ids, and a path that runs from the
      snapped source anchor through what `find_path` returned between the two
      extensions to the snapped target anchor. */
  ghost predicate RoutedAs(g: Grid, nodes: seq<Node>, e: (nat, nat), r: Edge)
    requires Valid(g) && e.0 < |nodes| && e.1 < |nodes|
  {
    var se, te := SourceExit(g, nodes, e), TargetExit(g, nodes, e);
    r.source == e.0 && r.target == e.1 && r.sourcePort.None? && r.targetPort.None? &&
    |r.path| >= 4 && r.path[0] == se.snapped && r.path[|r.path| - 1] == te.snapped &&
    PathFound(g, se.extension, te.extension, r.path[1..|r.path| - 1])
  }

  /** The exit computation at the head of the `route_edges` loop body, for one
      end of an edge. */
  method ComputeExit(ox: real, oy: real, from: Node, to: Node) returns (x: Exit)
    ensures x == ExitOf(ox, oy, from, to)
  {
    var pos := SelectPort(from, to);
    var snapped := NearestGrid(pos, ox, oy, RoutingCellSize);
    var ext := NearestGrid(Extension(snapped, SideOf(pos, from)), ox, oy, RoutingCellSize);
    x := Exit(snapped, ext);
  }

  /** One iteration of `route_edges`: free the edge's exit cells in `g`, then
      route the edge on the result. */
  method RouteEdge(g: Grid, nodes: seq<Node>, e: (nat, nat)) returns (edge: Edge, after: Grid)
    requires Valid(g) && g.cellSize == RoutingCellSize && e.0 < |nodes| && e.1 < |nodes|
    ensures after == FreeCells(g, EdgeExitCells(g, nodes, e))
    ensures RoutedAs(after, nodes, e, edge)
  {
    var (s, t) := e;
    var source := ComputeExit(g.originX, g.originY, nodes[s], nodes[t]);
    var target := ComputeExit(g.originX, g.originY, nodes[t], nodes[s]);
    var sourceSnapped, sourceExt := source.snapped, source.extension;
    var targetSnapped, targetExt := target.snapped, target.extension;
    ghost var se, te := SourceExit(g, nodes, e), TargetExit(g, nodes, e);
    after := ClearCell(g, PosToGrid(g, sourceSnapped));
    after := ClearCell(after, PosToGrid(g, targetSnapped));
    after := ClearCell(after, PosToGrid(g, sourceExt));
    after := ClearCell(after, PosToGrid(g, targetExt));
    assert after == FreeCells(g, EdgeExitCells(g, nodes, e));
    var mid, cells := FindPath(after, sourceExt, targetExt);
    var path := [sourceSnapped] + mid + [targetSnapped];
    assert path[1..|path| - 1] == mid;
    edge := Edge(s, t, None, None, path);
    assert SourceExit(after, nodes, e) == se && TargetExit(after, nodes, e) == te;
    assert PathFound(after, sourceExt, targetExt, mid) by {
      if cells != [] {
        assert |cells| >= 2 && ShortestWalk(after, cells, PosToGrid(after, sourceExt), PosToGrid(after, targetExt)) &&
          mid == CellsToPositions(after, cells);
      }
    }
  }

  /** Edge `e`, routed as `edge` on `after`. */
  ghost predicate Routed(after: Grid, nodes: seq<Node>, e: (nat, nat), edge: Edge)
  {
    Valid(after) && e.0 < |nodes| && e.1 < |nodes| && RoutedAs(after, nodes, e, edge)
  }

  /** `after` is `g` with the four cells `cells` freed. */
  ghost predicate FreedBy(g: Grid, after: Grid, cells: seq<Cell>)
  {
    Valid(g) && |cells| == 4 && (forall i :: 0 <= i < 4 ==> InBounds(g, cells[i])) &&
    after == FreeCells(g, cells)
  }

  /** Each grid is the previous one with the next four cells freed. */
  ghost predicate FreeChain(grids: seq<Grid>, freed: seq<seq<Cell>>)
  {
    |grids| == |freed| + 1 &&
    forall j {:trigger FreedBy(grids[j], grids[j + 1], freed[j])} :: 0 <= j < |freed| ==>
      FreedBy(grids[j], grids[j + 1], freed[j])
  }

  /** The first `k` edges were routed as `routed`, edge `j` on `grids[j + 1]`. */
  ghost predicate RoutedPrefix(nodes: seq<Node>, edges: seq<(nat, nat)>, routed: seq<Edge>, grids: seq<Grid>, k: nat)
    requires k <= |edges| && k <= |routed| && k < |grids|
  {
    forall j :: 0 <= j < k ==> Routed(grids[j + 1], nodes, edges[j], routed[j])
  }

  /** The first `k` entries of `freed` are the exit cells of the first `k` edges. */
  ghost predicate ExitsPrefix(g: Grid, nodes: seq<Node>, edges: seq<(nat, nat)>, freed: seq<seq<Cell>>, k: nat)
    requires FrameValid(g) && EdgesWithin(edges, |nodes|) && k <= |edges| && k <= |freed|
  {
    forall j :: 0 <= j < k ==> freed[j] == EdgeExitCells(g, nodes, edges[j])
  }

  lemma FreeChainExtend(grids: seq<Grid>, freed: seq<seq<Cell>>, after: Grid, cells: seq<Cell>)
    requires FreeChain(grids, freed) && FreedBy(grids[|grids| - 1], after, cells)
    ensures FreeChain(grids + [after], freed + [cells])
  {
    var gs, fs := grids + [after], freed + [cells];
    forall j | 0 <= j < |fs| ensures FreedBy(gs[j], gs[j + 1], fs[j]) {
      if j < |freed| {
        assert gs[j] == grids[j] && gs[j + 1] == grids[j + 1] && fs[j] == freed[j];
      }
    }
  }

  lemma RoutedPrefixExtend(nodes: seq<Node>, edges: seq<(nat, nat)>, routed: seq<Edge>, grids: seq<Grid>,
                           k: nat, edge: Edge, after: Grid)
    requires k < |edges| && |routed| == k && |grids| == k + 1
    requires RoutedPrefix(nodes, edges, routed, grids, k) && Routed(after, nodes, edges[k], edge)
    ensures RoutedPrefix(nodes, edges, routed + [edge], grids + [after], k + 1)
  {
    var rs, gs := routed + [edge], grids + [after];
    forall j | 0 <= j < k + 1 ensures Routed(gs[j + 1], nodes, edges[j], rs[j]) {
      if j < k {
        assert gs[j + 1] == grids[j + 1] && rs[j] == routed[j];
      }
    }
  }

  lemma ExitsPrefixExtend(g: Grid, nodes: seq<Node>, edges: seq<(nat, nat)>, freed: seq<seq<Cell>>,
                          k: nat, cells: seq<Cell>)
    requires FrameValid(g) && EdgesWithin(edges, |nodes|) && k < |edges| && |freed| == k
    requires ExitsPrefix(g, nodes, edges, freed, k) && cells == EdgeExitCells(g, nodes, edges[k])
    ensures ExitsPrefix(g, nodes, edges, freed + [cells], k + 1)
  {
    var fs := freed + [cells];
    forall j | 0 <= j < k + 1 ensures fs[j] == EdgeExitCells(g, nodes, edges[j]) {
      if j < k {
        assert fs[j] == freed[j];
      }
    }
  }

  /** `route_edges`: one obstacle grid over all node bodies and ports (cell
      size 5); each edge frees its four exit cells in that grid, for itself and
      for every later edge, and is routed on the grid as it is then. */
  method RouteEdges(nodes: seq<Node>, edges: seq<(nat, nat)>)
    returns (routed: seq<Edge>, ghost grids: seq<Grid>, ghost freed: seq<seq<Cell>>)
    requires EdgesWithin(edges, |nodes|)
    ensures |routed| == |edges| && |freed| == |edges| && |grids| == |edges| + 1
    ensures grids[0] == GridSpec(nodes, RoutingCellSize)
    ensures FreeChain(grids, freed)
    ensures ExitsPrefix(grids[0], nodes, edges, freed, |edges|)
    ensures RoutedPrefix(nodes, edges, routed, grids, |edges|)
  {
    var grid := NewGrid(nodes, RoutingCellSize);
    routed := [];
    grids := [grid];
    freed := [];
    for k := 0 to |edges|
      invariant |routed| == k && |freed| == k && |grids| == k + 1 && grid == grids[k]
      invariant grids[0] == GridSpec(nodes, RoutingCellSize)
      invariant Valid(grid) && grid.cellSize == RoutingCellSize && SameFrame(grid, grids[0])
      invariant FreeChain(grids, freed)
      invariant ExitsPrefix(grids[0], nodes, edges, freed, k)
      invariant RoutedPrefix(nodes, edges, routed, grids, k)
    {
      var edge, after := RouteEdge(grid, nodes, edges[k]);
      ghost var cells := EdgeExitCells(grid, nodes, edges[k]);
      EdgeExitCellsFrame(grid, grids[0], nodes, edges[k]);
      FreeChainExtend(grids, freed, after, cells);
      RoutedPrefixExtend(nodes, edges, routed, grids, k, edge, after);
      ExitsPrefixExtend(grids[0], nodes, edges, freed, k, cells);
      routed := routed + [edge];
      grids := grids + [after];
      freed := freed + [cells];
      grid := after;
    }
  }

  /** Freeing four more cells keeps "blocked exactly when initially blocked
      and not yet freed". */
  lemma FreedStep(g0: Grid, g: Grid, freedBefore: seq<Cell>, cells: seq<Cell>)
    requires Valid(g0) && Valid(g) && SameFrame(g, g0)
    requires |cells| == 4 && forall i :: 0 <= i < 4 ==> InBounds(g, cells[i])
    requires forall c :: InBounds(g0, c) ==> (Blocked(g, c) <==> Blocked(g0, c) && c !in freedBefore)
    ensures SameFrame(FreeCells(g, cells), g0)
    ensures forall c :: InBounds(g0, c) ==>
      (Blocked(FreeCells(g, cells), c) <==> Blocked(g0, c) && c !in freedBefore + cells)
  {
    var after := FreeCells(g, cells);
    forall c | InBounds(g0, c)
      ensures Blocked(after, c) <==> Blocked(g0, c) && c !in freedBefore + cells
    {
      if c in cells {
        var i :| 0 <= i < 4 && cells[i] == c;
        assert !Blocked(after, cells[i]);
      }
    }
  }

  /** Along the grids `route_edges` searches, a cell is blocked in grid `k`
      exactly when the initial grid blocks it and none of the first `k` edges
      freed it: routing only ever removes obstacles, and only exit cells. */
  lemma {:induction false} ObstaclesOnlyFreed(grids: seq<Grid>, freed: seq<seq<Cell>>, k: nat)
    requires FreeChain(grids, freed) && Valid(grids[0]) && k <= |freed|
    ensures Valid(grids[k]) && SameFrame(grids[k], grids[0])
    ensures forall c :: InBounds(grids[0], c) ==>
      (Blocked(grids[k], c) <==> Blocked(grids[0], c) && c !in Flatten(freed[..k]))
  {
    if k > 0 {
      ObstaclesOnlyFreed(grids, freed, k - 1);
      var j := k - 1;
      assert FreedBy(grids[j], grids[j + 1], freed[j]);
      assert freed[..k][..j] == freed[..j];
      assert Flatten(freed[..k]) == Flatten(freed[..j]) + freed[j];
      FreedStep(grids[0], grids[j], Flatten(freed[..j]), freed[j]);
    }
  }

  /** A search walk of edge `k` only enters cells the initial grid leaves
      free, or exit cells freed for edges `0..k`: routed paths cross no node
      body or port block except through those exits. */
  lemma RoutedWalkAvoidsObstacles(grids: seq<Grid>, freed: seq<seq<Cell>>, k: nat, cells: seq<Cell>, i: nat)
    requires FreeChain(grids, freed) && Valid(grids[0]) && k < |freed|
    requires Valid(grids[k + 1]) && IsWalk(grids[k + 1], cells) && 1 <= i < |cells|
    ensures InBounds(grids[0], cells[i])
    ensures Blocked(grids[0], cells[i]) ==> cells[i] in Flatten(freed[..k + 1])
  {
    ObstaclesOnlyFreed(grids, freed, k + 1);
    assert Step(grids[k + 1], cells[i - 1], cells[i]);
  }

  /** No diagonal step between two consecutive path points. */
  predicate AxisAligned(a: Position, b: Position)
  {
    a.x == b.x || a.y == b.y
  }

  /** The property the source's diagonal-segment warning checks: when both
      extensions lie on the grid and the search found a walk between them,
      every segment of the routed path is horizontal or vertical. */
  lemma RoutedPathAxisAligned(g: Grid, nodes: seq<Node>, e: (nat, nat), r: Edge)
    requires Routed(g, nodes, e, r)
    requires OnGrid(g, SourceExit(g, nodes, e).extension) && OnGrid(g, TargetExit(g, nodes, e).extension)
    requires PosToGrid(g, SourceExit(g, nodes, e).extension) != PosToGrid(g, TargetExit(g, nodes, e).extension)
    requires !NoWalk(g, PosToGrid(g, SourceExit(g, nodes, e).extension), PosToGrid(g, TargetExit(g, nodes, e).extension))
    ensures forall i :: 1 <= i < |r.path| ==> AxisAligned(r.path[i - 1], r.path[i])
  {
    var se, te := SourceExit(g, nodes, e), TargetExit(g, nodes, e);
    var s, t := PosToGrid(g, se.extension), PosToGrid(g, te.extension);
    var n := |r.path|;
    var mid := r.path[1..n - 1];
    assert PathFound(g, se.extension, te.extension, mid);
    var cells :| |cells| >= 2 && ShortestWalk(g, cells, s, t) && mid == CellsToPositions(g, cells);
    LatticePointRoundTrip(g, se.extension);
    LatticePointRoundTrip(g, te.extension);
    WalkPositionsAxisAligned(g, cells);
    ExtensionAxisAligned(se.snapped, SideOf(Anchor(nodes[e.0], nodes[e.1]), nodes[e.0]));
    ExtensionAxisAligned(te.snapped, SideOf(Anchor(nodes[e.1], nodes[e.0]), nodes[e.1]));
    FramedAxisAligned(r.path);
  }

  lemma ExtensionAxisAligned(p: Position, side: Side)
    ensures AxisAligned(p, Extension(p, side)) && AxisAligned(Extension(p, side), p)
  {
  }

  /** Consecutive lattice points of a walk differ along one axis only. */
  lemma WalkPositionsAxisAligned(g: Grid, cells: seq<Cell>)
    requires Valid(g) && IsWalk(g, cells)
    ensures var ps := CellsToPositions(g, cells);
      forall i :: 1 <= i < |ps| ==> AxisAligned(ps[i - 1], ps[i])
  {
    forall i | 1 <= i < |cells| ensures AxisAligned(GridToPos(g, cells[i - 1]), GridToPos(g, cells[i])) {
      WalkSegmentAxisAligned(g, cells, i);
    }
  }

  /** A path whose first and last segments and whose interior are axis-aligned
      is axis-aligned throughout. */
  lemma FramedAxisAligned(path: seq<Position>)
    requires |path| >= 4
    requires AxisAligned(path[0], path[1]) && AxisAligned(path[|path| - 2], path[|path| - 1])
    requires var mid := path[1..|path| - 1];
      forall i :: 1 <= i < |mid| ==> AxisAligned(mid[i - 1], mid[i])
    ensures forall i :: 1 <= i < |path| ==> AxisAligned(path[i - 1], path[i])
  {
    var mid := path[1..|path| - 1];
    forall i | 1 <= i < |path| ensures AxisAligned(path[i - 1], path[i]) {
      if 1 < i < |path| - 1 {
        assert path[i - 1] == mid[i - 2] && path[i] == mid[i - 1];
      }
    }
  }
}
