/** The routing obstacle grid (crates/layout/src/grid.rs): a uniform lattice of
    cells over world space, with cells blocked by node bodies and port
    footprints, cell <-> world conversions, grid snapping, the 4-connected
    neighbour function and the breadth-first path search. */
module ObstacleGrid {
  import opened Numeric
  import opened Types
  import opened Extent

  /** A lattice cell `(x, y)`: column x, row y. */
  datatype Cell = Cell(x: nat, y: nat)

  /** `obstacles[y][x]` tells whether cell (x, y) is blocked. */
  datatype Grid = Grid(cellSize: real, originX: real, originY: real,
                       width: nat, height: nat, obstacles: seq<seq<bool>>)

  /** What the conversions need: a positive cell size and at least one cell. */
  predicate FrameValid(g: Grid)
  {
    g.cellSize > 0.0 && g.width >= 1 && g.height >= 1
  }

  /** An obstacle matrix of `h` rows of `w` columns. */
  predicate Dims(obs: seq<seq<bool>>, w: nat, h: nat)
  {
    |obs| == h && forall y :: 0 <= y < h ==> |obs[y]| == w
  }

  predicate Valid(g: Grid)
  {
    FrameValid(g) && Dims(g.obstacles, g.width, g.height)
  }

  predicate SameFrame(a: Grid, b: Grid)
  {
    a.cellSize == b.cellSize && a.originX == b.originX && a.originY == b.originY &&
    a.width == b.width && a.height == b.height
  }

  predicate InBounds(g: Grid, c: Cell)
  {
    c.x < g.width && c.y < g.height
  }

  predicate Blocked(g: Grid, c: Cell)
    requires Valid(g) && InBounds(g, c)
  {
    g.obstacles[c.y][c.x]
  }

  // ---------------------------------------------------------------- construction

  const BodyMargin: real := 7.0
  const PortMarginCells: int := 2
  const CanvasMargin: real := 100.0
  const MinCanvasWidth: real := 400.0
  const MinCanvasHeight: real := 300.0

  /** Origin and dimensions of `Grid::new` (no obstacles yet): the origin is the
      top-left of the node bodies' box, and the lattice spans that box plus 100
      units, at least 400 x 300, with one extra row and column. With no nodes the
      source's origin is +infinity; the model puts it at 0 (nothing is routed then). */
  function GridFrame(nodes: seq<Node>, cellSize: real): (f: Grid)
    requires cellSize > 0.0
    ensures FrameValid(f) && f.cellSize == cellSize && f.obstacles == []
  {
    var span := NodesBox(None, nodes);
    var canvasWidth := if span.None? then MinCanvasWidth
                       else Max(span.value.maxX - span.value.minX + CanvasMargin, MinCanvasWidth);
    var canvasHeight := if span.None? then MinCanvasHeight
                        else Max(span.value.maxY - span.value.minY + CanvasMargin, MinCanvasHeight);
    Grid(cellSize,
         if span.None? then 0.0 else span.value.minX,
         if span.None? then 0.0 else span.value.minY,
         SatUsize(Ceil(canvasWidth / cellSize)) + 1,
         SatUsize(Ceil(canvasHeight / cellSize)) + 1,
         [])
  }

  /** A half-open block of cells [x1, x2) x [y1, y2). */
  datatype Rect = Rect(x1: int, x2: int, y1: int, y2: int)

  predicate InRect(r: Rect, x: int, y: int)
  {
    r.x1 <= x < r.x2 && r.y1 <= y < r.y2
  }

  /** The cells of a node body expanded by 7 units (grid.rs:38-43). */
  function BodyRect(f: Grid, n: Node): (r: Rect)
    requires f.cellSize > 0.0
    ensures r.x1 >= 0 && r.y1 >= 0
  {
    var c := f.cellSize;
    Rect(SatUsize(Floor((n.position.x - BodyMargin - f.originX) / c)),
         SatUsize(Ceil((n.position.x + n.size.width + BodyMargin - f.originX) / c)),
         SatUsize(Floor((n.position.y - BodyMargin - f.originY) / c)),
         SatUsize(Ceil((n.position.y + n.size.height + BodyMargin - f.originY) / c)))
  }

  /** End of a port block: `(v).min(limit - 1) as usize + 1`, with the cast of a
      negative `i32` clamped so that a port wholly before the grid blocks nothing. */
  function PortEnd(v: int, limit: nat): (e: int)
    requires limit >= 1
    ensures 0 <= e <= limit
    ensures v >= -1 ==> e == MinInt(v, limit - 1) + 1
  {
    MaxInt(MinInt(v, limit - 1), -1) + 1
  }

  /** One axis of a port block: the cells from two before the port's start,
      clamped at 0, to two past its end, clipped to the grid by `PortEnd`. */
  function PortSpan(o: real, c: real, lo: real, hi: real, limit: nat): (s: (int, int))
    requires c > 0.0 && limit >= 1
    ensures s.0 >= 0
  {
    (MaxInt(Floor((lo - o) / c) - PortMarginCells, 0), PortEnd(Ceil((hi - o) / c) + PortMarginCells, limit))
  }

  /** The cells of a port expanded by 2 cells on each side (grid.rs:55-72), start
      clamped at 0 and end clipped to the grid. */
  function PortRect(f: Grid, n: Node, p: Port): (r: Rect)
    requires FrameValid(f)
    ensures r.x1 >= 0 && r.y1 >= 0
  {
    var left := n.position.x + p.position.x;
    var top := n.position.y + p.position.y;
    var sx := PortSpan(f.originX, f.cellSize, left, left + p.size.width, f.width);
    var sy := PortSpan(f.originY, f.cellSize, top, top + p.size.height, f.height);
    Rect(sx.0, sx.1, sy.0, sy.1)
  }

  /** Some node among the first `count` covers cell (x, y) with its body. */
  predicate BodiesCover(f: Grid, nodes: seq<Node>, count: nat, x: int, y: int)
    requires f.cellSize > 0.0 && count <= |nodes|
  {
    exists i :: 0 <= i < count && InRect(BodyRect(f, nodes[i]), x, y)
  }

  /** One of the first `count` ports of `n` covers cell (x, y). */
  predicate NodePortsCover(f: Grid, n: Node, count: nat, x: int, y: int)
    requires FrameValid(f) && count <= |n.ports|
  {
    exists k :: 0 <= k < count && InRect(PortRect(f, n, n.ports[k]), x, y)
  }

  /** Some port of one of the first `count` nodes covers cell (x, y). */
  predicate PortsCover(f: Grid, nodes: seq<Node>, count: nat, x: int, y: int)
    requires FrameValid(f) && count <= |nodes|
  {
    exists i :: 0 <= i < count && NodePortsCover(f, nodes[i], |nodes[i].ports|, x, y)
  }

  predicate Covered(f: Grid, nodes: seq<Node>, x: int, y: int)
    requires FrameValid(f)
  {
    BodiesCover(f, nodes, |nodes|, x, y) || PortsCover(f, nodes, |nodes|, x, y)
  }

  /** The grid `Grid::new` builds: cell (x, y) is an obstacle exactly when some
      expanded node body or expanded port covers it. */
  function GridSpec(nodes: seq<Node>, cellSize: real): (g: Grid)
    requires cellSize > 0.0
    ensures Valid(g) && SameFrame(g, GridFrame(nodes, cellSize))
    ensures forall y, x :: 0 <= y < g.height && 0 <= x < g.width ==>
      g.obstacles[y][x] == Covered(GridFrame(nodes, cellSize), nodes, x, y)
  {
    var f := GridFrame(nodes, cellSize);
    var obstacles := seq(f.height, y => seq(f.width, x => Covered(f, nodes, x, y)));
    assert Dims(obstacles, f.width, f.height);
    f.(obstacles := obstacles)
  }

  /** The two nested range loops that block one rectangle, clipped to the grid. */
  method FillRect(obs: seq<seq<bool>>, w: nat, h: nat, r: Rect) returns (res: seq<seq<bool>>)
    requires Dims(obs, w, h) && r.x1 >= 0 && r.y1 >= 0
    ensures Dims(res, w, h)
    ensures forall y, x :: 0 <= y < h && 0 <= x < w ==> res[y][x] == (obs[y][x] || InRect(r, x, y))
  {
    res := obs;
    var yEnd := MinInt(r.y2, h);
    var y := r.y1;
    while y < yEnd
      invariant r.y1 <= y && (y <= yEnd || y == r.y1)
      invariant Dims(res, w, h)
      invariant forall yy, x :: 0 <= yy < h && 0 <= x < w ==>
        res[yy][x] == (obs[yy][x] || (InRect(r, x, yy) && yy < y))
    {
      var xEnd := MinInt(r.x2, w);
      var x := r.x1;
      while x < xEnd
        invariant r.x1 <= x && (x <= xEnd || x == r.x1)
        invariant Dims(res, w, h)
        invariant forall yy, xx :: 0 <= yy < h && 0 <= xx < w ==>
          res[yy][xx] == (obs[yy][xx] || (InRect(r, xx, yy) && (yy < y || (yy == y && xx < x))))
      {
        res := res[y := res[y][x := true]];
        x := x + 1;
      }
      y := y + 1;
    }
  }

  /** `Grid::new`: frame from the node box, then bodies, then ports, blocked in place. */
  method NewGrid(nodes: seq<Node>, cellSize: real) returns (g: Grid)
    requires cellSize > 0.0
    ensures g == GridSpec(nodes, cellSize)
  {
    var f := GridFrame(nodes, cellSize);
    var obstacles := BlockBodies(f, nodes);
    obstacles := BlockPorts(f, nodes, obstacles);
    g := f.(obstacles := obstacles);
    var spec := GridSpec(nodes, cellSize);
    assert |g.obstacles| == |spec.obstacles|;
    forall y | 0 <= y < f.height ensures g.obstacles[y] == spec.obstacles[y] {
      assert |g.obstacles[y]| == |spec.obstacles[y]|;
    }
  }

  /** The first loop of `Grid::new`: every node body, expanded, on an empty matrix. */
  method BlockBodies(f: Grid, nodes: seq<Node>) returns (obstacles: seq<seq<bool>>)
    requires FrameValid(f)
    ensures Dims(obstacles, f.width, f.height)
    ensures forall y, x :: 0 <= y < f.height && 0 <= x < f.width ==>
      obstacles[y][x] == BodiesCover(f, nodes, |nodes|, x, y)
  {
    var w, h := f.width, f.height;
    obstacles := seq(h, _ => seq(w, _ => false));
    for i := 0 to |nodes|
      invariant Dims(obstacles, w, h)
      invariant forall y, x :: 0 <= y < h && 0 <= x < w ==>
        obstacles[y][x] == BodiesCover(f, nodes, i, x, y)
    {
      obstacles := FillRect(obstacles, w, h, BodyRect(f, nodes[i]));
    }
  }

  /** The second loop of `Grid::new`: every port of every node, expanded. */
  method BlockPorts(f: Grid, nodes: seq<Node>, obs: seq<seq<bool>>) returns (obstacles: seq<seq<bool>>)
    requires FrameValid(f) && Dims(obs, f.width, f.height)
    ensures Dims(obstacles, f.width, f.height)
    ensures forall y, x :: 0 <= y < f.height && 0 <= x < f.width ==>
      obstacles[y][x] == (obs[y][x] || PortsCover(f, nodes, |nodes|, x, y))
  {
    var w, h := f.width, f.height;
    obstacles := obs;
    for i := 0 to |nodes|
      invariant Dims(obstacles, w, h)
      invariant forall y, x :: 0 <= y < h && 0 <= x < w ==>
        obstacles[y][x] == (obs[y][x] || PortsCover(f, nodes, i, x, y))
    {
      ghost var before := obstacles;
      obstacles := BlockNodePorts(f, nodes[i], obstacles);
      forall y, x | 0 <= y < h && 0 <= x < w
        ensures obstacles[y][x] == (obs[y][x] || PortsCover(f, nodes, i + 1, x, y))
      {
        assert PortsCover(f, nodes, i + 1, x, y) ==
          (PortsCover(f, nodes, i, x, y) || NodePortsCover(f, nodes[i], |nodes[i].ports|, x, y));
      }
    }
  }

  /** The inner port loop of `Grid::new`, for one node. */
  method BlockNodePorts(f: Grid, node: Node, obs: seq<seq<bool>>) returns (obstacles: seq<seq<bool>>)
    requires FrameValid(f) && Dims(obs, f.width, f.height)
    ensures Dims(obstacles, f.width, f.height)
    ensures forall y, x :: 0 <= y < f.height && 0 <= x < f.width ==>
      obstacles[y][x] == (obs[y][x] || NodePortsCover(f, node, |node.ports|, x, y))
  {
    var w, h := f.width, f.height;
    obstacles := obs;
    for k := 0 to |node.ports|
      invariant Dims(obstacles, w, h)
      invariant forall y, x :: 0 <= y < h && 0 <= x < w ==>
        obstacles[y][x] == (obs[y][x] || NodePortsCover(f, node, k, x, y))
    {
      obstacles := FillRect(obstacles, w, h, PortRect(f, node, node.ports[k]));
    }
  }

  /** Every node body, expanded by 7 units, lies inside the lattice: the 100-unit
      margin means no body block is ever clipped. */
  lemma {:induction false} BodiesInsideGrid(nodes: seq<Node>, cellSize: real, i: nat)
    requires cellSize > 0.0 && i < |nodes|
    ensures var f := GridFrame(nodes, cellSize);
      BodyRect(f, nodes[i]).x2 < f.width && BodyRect(f, nodes[i]).y2 < f.height
  {
    var f := GridFrame(nodes, cellSize);
    var n := nodes[i];
    NodesBoxGrows(None, nodes);
    var b := NodesBox(None, nodes).value;
    assert BodyInside(b, n);
    var wx := (n.position.x + n.size.width + BodyMargin - f.originX) / cellSize;
    var cw := Max(b.maxX - b.minX + CanvasMargin, MinCanvasWidth);
    assert n.position.x + n.size.width + BodyMargin - f.originX <= cw;
    DivMonotone(n.position.x + n.size.width + BodyMargin - f.originX, cw, cellSize);
    var hy := (n.position.y + n.size.height + BodyMargin - f.originY) / cellSize;
    var ch := Max(b.maxY - b.minY + CanvasMargin, MinCanvasHeight);
    assert n.position.y + n.size.height + BodyMargin - f.originY <= ch;
    DivMonotone(n.position.y + n.size.height + BodyMargin - f.originY, ch, cellSize);
  }

  /** The length from the first lattice line to the last, over `cells` cells. */
  function LatticeLength(cells: nat, c: real): real
  {
    (cells - 1) as real * c
  }

  /** The frame starts at the top-left of the node bodies and reaches at least
      100 units past every body, and at least 400 x 300 units in all. */
  lemma GridFrameSpans(nodes: seq<Node>, cellSize: real)
    requires cellSize > 0.0
    ensures var f := GridFrame(nodes, cellSize);
      LatticeLength(f.width, cellSize) >= MinCanvasWidth &&
      LatticeLength(f.height, cellSize) >= MinCanvasHeight &&
      forall i :: 0 <= i < |nodes| ==>
        f.originX <= nodes[i].position.x && f.originY <= nodes[i].position.y &&
        nodes[i].position.x + nodes[i].size.width + CanvasMargin <= f.originX + LatticeLength(f.width, cellSize) &&
        nodes[i].position.y + nodes[i].size.height + CanvasMargin <= f.originY + LatticeLength(f.height, cellSize)
  {
    var f := GridFrame(nodes, cellSize);
    NodesBoxGrows(None, nodes);
    var span := NodesBox(None, nodes);
    if span.None? {
      AxisCovers(0.0, -CanvasMargin, MinCanvasWidth, cellSize, f.width);
      AxisCovers(0.0, -CanvasMargin, MinCanvasHeight, cellSize, f.height);
    } else {
      var b := span.value;
      AxisCovers(b.minX, b.maxX, MinCanvasWidth, cellSize, f.width);
      AxisCovers(b.minY, b.maxY, MinCanvasHeight, cellSize, f.height);
      forall i | 0 <= i < |nodes|
        ensures f.originX <= nodes[i].position.x && f.originY <= nodes[i].position.y
        ensures nodes[i].position.x + nodes[i].size.width + CanvasMargin <= f.originX + LatticeLength(f.width, cellSize)
        ensures nodes[i].position.y + nodes[i].size.height + CanvasMargin <= f.originY + LatticeLength(f.height, cellSize)
      {
        assert BodyInside(b, nodes[i]);
      }
    }
  }

  /** One axis of the frame: `ceil(max(hi - lo + 100, least) / c) + 1` cells
      reach 100 past `hi` from `lo`, and span at least `least`. */
  lemma AxisCovers(lo: real, hi: real, least: real, c: real, cells: nat)
    requires c > 0.0 && least > 0.0
    requires cells == SatUsize(Ceil(Max(hi - lo + CanvasMargin, least) / c)) + 1
    ensures LatticeLength(cells, c) >= least
    ensures lo + LatticeLength(cells, c) >= hi + CanvasMargin
  {
    CeilCovers(Max(hi - lo + CanvasMargin, least), c);
  }

  /** `ceil(v / c)` whole cells cover a positive length `v`. */
  lemma CeilCovers(v: real, c: real)
    requires c > 0.0 && v > 0.0
    ensures Ceil(v / c) >= 1 && Ceil(v / c) as real * c >= v
  {
    var k := Ceil(v / c);
    assert k as real >= v / c;
    assert k as real * c >= (v / c) * c;
  }

  lemma DivMonotone(a: real, b: real, c: real)
    requires c > 0.0 && a <= b
    ensures a / c <= b / c
  {
  }

  // ---------------------------------------------------------------- conversions

  /** `Grid::pos_to_grid`: the nearest cell, clamped into the grid (negative
      values saturate to 0 through `as usize`). */
  function PosToGrid(g: Grid, p: Position): (c: Cell)
    requires FrameValid(g)
    ensures InBounds(g, c)
  {
    Cell(MinInt(SatUsize(Round((p.x - g.originX) / g.cellSize)), g.width - 1),
         MinInt(SatUsize(Round((p.y - g.originY) / g.cellSize)), g.height - 1))
  }

  /** `Grid::grid_to_pos`: the world position of a cell's lattice point. */
  function GridToPos(g: Grid, c: Cell): Position
  {
    Position(g.originX + c.x as real * g.cellSize, g.originY + c.y as real * g.cellSize)
  }

  lemma LatticeCoordinate(o: real, k: int, c: real)
    requires c > 0.0
    ensures (o + k as real * c - o) / c == k as real
  {
    assert o + k as real * c - o == k as real * c;
  }

  /** Round trip: a cell's lattice point maps back to that cell. */
  lemma CellRoundTrip(g: Grid, c: Cell)
    requires FrameValid(g) && InBounds(g, c)
    ensures PosToGrid(g, GridToPos(g, c)) == c
  {
    var p := GridToPos(g, c);
    LatticeCoordinate(g.originX, c.x, g.cellSize);
    LatticeCoordinate(g.originY, c.y, g.cellSize);
    assert (p.x - g.originX) / g.cellSize == c.x as real;
    assert (p.y - g.originY) / g.cellSize == c.y as real;
    RoundOfInteger(c.x);
    RoundOfInteger(c.y);
    assert Round((p.x - g.originX) / g.cellSize) == c.x;
  }

  /** The value `v` is `o + k * c` for an integer k. */
  predicate OnLattice(v: real, o: real, c: real)
    requires c > 0.0
  {
    ((v - o) / c).Floor as real == (v - o) / c
  }

  /** One coordinate of `nearest_grid`: `o + round((v - o) / c) * c`. */
  function SnapCoordinate(v: real, o: real, c: real): (r: real)
    requires c > 0.0
    ensures OnLattice(r, o, c)
    ensures Abs(r - v) <= c / 2.0
  {
    var k := Round((v - o) / c);
    LatticeCoordinate(o, k, c);
    SnapDistance(v, o, c);
    o + k as real * c
  }

  /** `nearest_grid`: snap a point to the lattice through (originX, originY)
      with spacing `cellSize`; each coordinate moves by at most half a cell. */
  function NearestGrid(p: Position, originX: real, originY: real, cellSize: real): (r: Position)
    requires cellSize > 0.0
    ensures OnLattice(r.x, originX, cellSize) && OnLattice(r.y, originY, cellSize)
    ensures Abs(r.x - p.x) <= cellSize / 2.0 && Abs(r.y - p.y) <= cellSize / 2.0
  {
    Position(SnapCoordinate(p.x, originX, cellSize), SnapCoordinate(p.y, originY, cellSize))
  }

  lemma SnapDistance(v: real, o: real, c: real)
    requires c > 0.0
    ensures var k := Round((v - o) / c);
      Abs(o + k as real * c - v) <= c / 2.0
  {
    var t := (v - o) / c;
    var k := Round(t);
    var d := k as real - t;
    assert t * c == v - o;
    assert o + k as real * c - v == d * c;
    HalfScaled(d, c);
    assert -(c / 2.0) <= o + k as real * c - v <= c / 2.0;
    assert Abs(o + k as real * c - v) <= c / 2.0;
  }

  lemma HalfScaled(d: real, c: real)
    requires c > 0.0 && -0.5 <= d <= 0.5
    ensures -(c / 2.0) <= d * c <= c / 2.0
  {
    assert (0.5 - d) * c >= 0.0;
    assert (d + 0.5) * c >= 0.0;
  }

  /** The lattice point lies within the grid's lattice. */
  predicate OnGrid(g: Grid, p: Position)
    requires FrameValid(g)
  {
    OnLattice(p.x, g.originX, g.cellSize) && OnLattice(p.y, g.originY, g.cellSize) &&
    0.0 <= (p.x - g.originX) / g.cellSize <= (g.width - 1) as real &&
    0.0 <= (p.y - g.originY) / g.cellSize <= (g.height - 1) as real
  }

  lemma LatticeIndex(v: real, o: real, c: real, limit: nat) returns (k: nat)
    requires c > 0.0 && OnLattice(v, o, c) && 0.0 <= (v - o) / c <= limit as real
    ensures k <= limit && k as real == (v - o) / c && MinInt(SatUsize(Round((v - o) / c)), limit) == k
    ensures o + k as real * c == v
  {
    var t := (v - o) / c;
    k := t.Floor;
    RoundOfInteger(k);
    assert t * c == v - o;
  }

  /** Round trip the other way: a lattice point of the grid is the lattice
      point of its own cell. */
  lemma LatticePointRoundTrip(g: Grid, p: Position)
    requires FrameValid(g) && OnGrid(g, p)
    ensures GridToPos(g, PosToGrid(g, p)) == p
  {
    var kx := LatticeIndex(p.x, g.originX, g.cellSize, g.width - 1);
    var ky := LatticeIndex(p.y, g.originY, g.cellSize, g.height - 1);
    assert PosToGrid(g, p) == Cell(kx, ky);
    assert GridToPos(g, Cell(kx, ky)) == Position(p.x, p.y);
  }

  /** A lattice point snaps to itself. */
  lemma {:induction false} SnapLatticePoint(v: real, o: real, c: real)
    requires c > 0.0 && OnLattice(v, o, c)
    ensures SnapCoordinate(v, o, c) == v
  {
    var t := (v - o) / c;
    RoundOfInteger(t.Floor);
    assert t * c == v - o;
  }

  /** Snapping is idempotent. */
  lemma NearestGridIdempotent(p: Position, originX: real, originY: real, cellSize: real)
    requires cellSize > 0.0
    ensures var q := NearestGrid(p, originX, originY, cellSize);
      NearestGrid(q, originX, originY, cellSize) == q
  {
    var q := NearestGrid(p, originX, originY, cellSize);
    SnapLatticePoint(q.x, originX, cellSize);
    SnapLatticePoint(q.y, originY, cellSize);
    assert SnapCoordinate(q.x, originX, cellSize) == q.x;
  }

  // ---------------------------------------------------------------- neighbours

  predicate Adjacent(a: Cell, b: Cell)
  {
    (a.y == b.y && (a.x == b.x + 1 || b.x == a.x + 1)) ||
    (a.x == b.x && (a.y == b.y + 1 || b.y == a.y + 1))
  }

  /** One move of the search: from `a` to a 4-adjacent, in-grid, free cell `b`. */
  predicate Step(g: Grid, a: Cell, b: Cell)
    requires Valid(g)
  {
    InBounds(g, a) && InBounds(g, b) && Adjacent(a, b) && !Blocked(g, b)
  }

  /** Position of `n` in the order left, right, up, down as seen from `c`. */
  function DirRank(c: Cell, n: Cell): int
  {
    if n.x < c.x then 0 else if n.x > c.x then 1 else if n.y < c.y then 2 else 3
  }

  /** `Grid::neighbors`: the free, in-grid, 4-adjacent cells, in the order
      left, right, up, down. */
  function Neighbors(g: Grid, c: Cell): (r: seq<Cell>)
    requires Valid(g) && InBounds(g, c)
    ensures |r| <= 4
    ensures forall n :: n in r <==> Step(g, c, n)
    ensures forall i, j :: 0 <= i < j < |r| ==> DirRank(c, r[i]) < DirRank(c, r[j])
  {
    var left := if c.x > 0 && !g.obstacles[c.y][c.x - 1] then [Cell(c.x - 1, c.y)] else [];
    var right := if c.x < g.width - 1 && !g.obstacles[c.y][c.x + 1] then [Cell(c.x + 1, c.y)] else [];
    var up := if c.y > 0 && !g.obstacles[c.y - 1][c.x] then [Cell(c.x, c.y - 1)] else [];
    var down := if c.y < g.height - 1 && !g.obstacles[c.y + 1][c.x] then [Cell(c.x, c.y + 1)] else [];
    left + right + up + down
  }

  /** Clearing one cell (`grid.obstacles[y][x] = false`). */
  function ClearCell(g: Grid, c: Cell): (r: Grid)
    requires Valid(g) && InBounds(g, c)
    ensures Valid(r) && SameFrame(r, g) && !Blocked(r, c)
    ensures forall n :: InBounds(g, n) && n != c ==> Blocked(r, n) == Blocked(g, n)
  {
    g.(obstacles := g.obstacles[c.y := g.obstacles[c.y][c.x := false]])
  }

  // ---------------------------------------------------------------- walks and reachability

  /** A walk: a first cell in the grid, then steps to 4-adjacent, in-grid, free cells. */
  predicate IsWalk(g: Grid, p: seq<Cell>)
    requires Valid(g)
  {
    |p| >= 1 && InBounds(g, p[0]) && forall i :: 1 <= i < |p| ==> Step(g, p[i - 1], p[i])
  }

  predicate WalkBetween(g: Grid, p: seq<Cell>, s: Cell, e: Cell)
    requires Valid(g)
  {
    IsWalk(g, p) && p[0] == s && p[|p| - 1] == e
  }

  /** No walk leads from `s` to `e`. */
  ghost predicate NoWalk(g: Grid, s: Cell, e: Cell)
    requires Valid(g)
  {
    forall p :: !WalkBetween(g, p, s, e)
  }

  /** `cells` walks from `s` to `e`, and no walk from `s` to `e` has fewer cells. */
  ghost predicate ShortestWalk(g: Grid, cells: seq<Cell>, s: Cell, e: Cell)
    requires Valid(g)
  {
    WalkBetween(g, cells, s, e) && forall p :: WalkBetween(g, p, s, e) ==> |p| >= |cells|
  }

  /** Dropping the last cell of a walk leaves a walk. */
  lemma WalkPrefix(g: Grid, p: seq<Cell>)
    requires Valid(g) && IsWalk(g, p) && |p| > 1
    ensures IsWalk(g, p[..|p| - 1])
  {
    var q := p[..|p| - 1];
    forall i | 1 <= i < |q| ensures Step(g, q[i - 1], q[i]) {
      assert Step(g, p[i - 1], p[i]);
    }
  }

  /** Every neighbour of `c` has been discovered. */
  ghost predicate Closed(g: Grid, cameFrom: map<Cell, Option<Cell>>, c: Cell)
    requires Valid(g)
  {
    forall n :: Step(g, c, n) ==> n in cameFrom
  }

  /** The discovered cell `c` hangs below its parent, one step further away. */
  ghost predicate ParentLink(g: Grid, cameFrom: map<Cell, Option<Cell>>, dist: map<Cell, nat>, c: Cell)
    requires Valid(g) && c in cameFrom && cameFrom.Keys == dist.Keys
  {
    cameFrom[c].Some? && cameFrom[c].value in cameFrom &&
    Step(g, cameFrom[c].value, c) && dist[c] == dist[cameFrom[c].value] + 1
  }

  /** The breadth-first search tree: `cameFrom` as the source keeps it, and a
      ghost `dist` giving each discovered cell's depth, which no walk from `s`
      undercuts. */
  ghost predicate SearchTree(g: Grid, s: Cell, cameFrom: map<Cell, Option<Cell>>, dist: map<Cell, nat>)
    requires Valid(g)
  {
    cameFrom.Keys == dist.Keys && s in cameFrom && cameFrom[s] == None && dist[s] == 0 &&
    (forall c :: c in cameFrom ==> InBounds(g, c)) &&
    (forall c :: c in cameFrom && cameFrom[c].None? ==> c == s) &&
    (forall c {:trigger ParentLink(g, cameFrom, dist, c)} ::
      c in cameFrom && c != s ==> ParentLink(g, cameFrom, dist, c)) &&
    (forall c, p :: c in cameFrom && WalkBetween(g, p, s, c) ==> |p| >= dist[c] + 1)
  }

  /** Once every discovered cell closer than `k` is closed, the end of every
      walk from `s` of at most `k` steps has been discovered. */
  lemma {:induction false} WalkDiscovered(g: Grid, s: Cell, cameFrom: map<Cell, Option<Cell>>,
                                          dist: map<Cell, nat>, k: nat, p: seq<Cell>)
    requires Valid(g) && SearchTree(g, s, cameFrom, dist)
    requires forall d :: d in cameFrom && dist[d] < k ==> Closed(g, cameFrom, d)
    requires IsWalk(g, p) && p[0] == s && |p| <= k + 1
    ensures p[|p| - 1] in cameFrom
  {
    if |p| > 1 {
      var q := p[..|p| - 1];
      WalkPrefix(g, p);
      WalkDiscovered(g, s, cameFrom, dist, k, q);
      var before := q[|q| - 1];
      assert WalkBetween(g, q, s, before);
      assert Closed(g, cameFrom, before);
      assert Step(g, before, p[|p| - 1]);
    }
  }

  /** Discovering an undiscovered neighbour of `cur` keeps the tree exact. */
  lemma Discover(g: Grid, s: Cell, cameFrom: map<Cell, Option<Cell>>, dist: map<Cell, nat>,
                 cur: Cell, n: Cell)
    requires Valid(g) && SearchTree(g, s, cameFrom, dist)
    requires cur in cameFrom && n !in cameFrom && Step(g, cur, n)
    requires forall d :: d in cameFrom && dist[d] < dist[cur] ==> Closed(g, cameFrom, d)
    ensures SearchTree(g, s, cameFrom[n := Some(cur)], dist[n := dist[cur] + 1])
  {
    var k := dist[cur];
    var cf, ds := cameFrom[n := Some(cur)], dist[n := k + 1];
    forall c, p | c in cf && WalkBetween(g, p, s, c) ensures |p| >= ds[c] + 1 {
      if c == n {
        if |p| <= k + 1 {
          WalkDiscovered(g, s, cameFrom, dist, k, p);
        }
      } else {
        assert ds[c] == dist[c];
      }
    }
    forall c | c in cf && c != s ensures ParentLink(g, cf, ds, c) {
      if c != n {
        assert ParentLink(g, cameFrom, dist, c);
      }
    }
  }

  ghost function AllCells(g: Grid): set<Cell>
  {
    set x: nat, y: nat | x < g.width && y < g.height :: Cell(x, y)
  }

  /** The state between two pops of the search loop: the tree, a queue of
      discovered cells ordered by depth and spanning at most two depths, every
      discovered cell off the queue closed, and the goal, once discovered, queued. */
  ghost predicate Frontier(g: Grid, s: Cell, e: Cell, queue: seq<Cell>,
                           cameFrom: map<Cell, Option<Cell>>, dist: map<Cell, nat>)
    requires Valid(g)
  {
    SearchTree(g, s, cameFrom, dist) &&
    (forall i :: 0 <= i < |queue| ==> queue[i] in cameFrom) &&
    (forall i, j :: 0 <= i <= j < |queue| ==> dist[queue[i]] <= dist[queue[j]]) &&
    (forall i :: 0 <= i < |queue| ==> dist[queue[i]] <= dist[queue[0]] + 1) &&
    (forall c {:trigger Closed(g, cameFrom, c)} :: c in cameFrom && c !in queue ==> Closed(g, cameFrom, c)) &&
    (e in cameFrom ==> e in queue)
  }

  lemma KeysInGrid(g: Grid, s: Cell, cameFrom: map<Cell, Option<Cell>>, dist: map<Cell, nat>)
    requires Valid(g) && SearchTree(g, s, cameFrom, dist)
    ensures cameFrom.Keys <= AllCells(g)
  {
    forall c | c in cameFrom ensures c in AllCells(g) {
      assert InBounds(g, c) && c == Cell(c.x, c.y);
    }
  }

  /** Discovering more cells leaves fewer to discover. */
  lemma FewerUndiscovered<T>(all: set<T>, before: set<T>, after: set<T>)
    requires before <= after <= all && before != after
    ensures all - after < all - before
  {
    assert exists x :: x in after && x !in before;
    var added :| added in after && added !in before;
    assert added in (all - before) - (all - after);
  }

  /** The state inside the neighbour loop for `current` at depth `k`: as
      `Frontier`, except that `current` is off the queue and not yet closed, and
      the queue spans depths `k` and `k + 1`. */
  ghost predicate Visiting(g: Grid, s: Cell, e: Cell, current: Cell, k: nat,
                           queue0: seq<Cell>, keys0: set<Cell>, queue: seq<Cell>,
                           cameFrom: map<Cell, Option<Cell>>, dist: map<Cell, nat>)
    requires Valid(g)
  {
    SearchTree(g, s, cameFrom, dist) && current in cameFrom && dist[current] == k && current != e &&
    (forall i :: 0 <= i < |queue| ==> queue[i] in cameFrom) &&
    (forall i, j :: 0 <= i <= j < |queue| ==> dist[queue[i]] <= dist[queue[j]]) &&
    (forall i :: 0 <= i < |queue| ==> k <= dist[queue[i]] <= k + 1) &&
    (forall c {:trigger Closed(g, cameFrom, c)} ::
      c in cameFrom && c !in queue && c != current ==> Closed(g, cameFrom, c)) &&
    (e in cameFrom ==> e in queue) &&
    keys0 <= cameFrom.Keys &&
    (cameFrom.Keys == keys0 ==> queue == queue0)
  }

  lemma StartVisit(g: Grid, s: Cell, e: Cell, current: Cell, queue0: seq<Cell>,
                   cameFrom: map<Cell, Option<Cell>>, dist: map<Cell, nat>)
    requires Valid(g) && Frontier(g, s, e, [current] + queue0, cameFrom, dist) && current != e
    ensures current in cameFrom
    ensures Visiting(g, s, e, current, dist[current], queue0, cameFrom.Keys, queue0, cameFrom, dist)
  {
    var q0 := [current] + queue0;
    assert q0[0] == current;
    assert forall i :: 0 <= i < |queue0| ==> queue0[i] == q0[i + 1];
    forall c | c in cameFrom && c !in queue0 && c != current ensures Closed(g, cameFrom, c) {
      assert c !in q0;
    }
  }

  lemma VisitOne(g: Grid, s: Cell, e: Cell, current: Cell, k: nat, queue0: seq<Cell>, keys0: set<Cell>,
                 queue: seq<Cell>, cameFrom: map<Cell, Option<Cell>>, dist: map<Cell, nat>, n: Cell)
    requires Valid(g) && Visiting(g, s, e, current, k, queue0, keys0, queue, cameFrom, dist)
    requires Step(g, current, n) && n !in cameFrom
    ensures Visiting(g, s, e, current, k, queue0, keys0, queue + [n],
                     cameFrom[n := Some(current)], dist[n := k + 1])
  {
    forall d | d in cameFrom && dist[d] < k
      ensures Closed(g, cameFrom, d)
    {
      assert d !in queue;
    }
    Discover(g, s, cameFrom, dist, current, n);
    var q, cf, ds := queue + [n], cameFrom[n := Some(current)], dist[n := k + 1];
    forall c | c in cf && c !in q && c != current ensures Closed(g, cf, c) {
      assert c !in queue && c != n;
      assert Closed(g, cameFrom, c);
    }
    assert cf.Keys != keys0 by {
      assert n in cf.Keys;
    }
  }

  lemma EndVisit(g: Grid, s: Cell, e: Cell, current: Cell, k: nat, queue0: seq<Cell>, keys0: set<Cell>,
                 queue: seq<Cell>, cameFrom: map<Cell, Option<Cell>>, dist: map<Cell, nat>)
    requires Valid(g) && Visiting(g, s, e, current, k, queue0, keys0, queue, cameFrom, dist)
    requires Closed(g, cameFrom, current)
    ensures Frontier(g, s, e, queue, cameFrom, dist)
  {
  }

  /** The `for neighbor in self.neighbors(current)` loop of `find_path`: every
      neighbour not yet in `came_from` is queued with `current` as its parent.
      Afterwards `current` is closed and the frontier invariant holds again. */
  method VisitNeighbours(g: Grid, ghost s: Cell, ghost e: Cell, current: Cell, queue0: seq<Cell>,
                         cameFrom0: map<Cell, Option<Cell>>, ghost dist0: map<Cell, nat>)
    returns (queue: seq<Cell>, cameFrom: map<Cell, Option<Cell>>, ghost dist: map<Cell, nat>)
    requires Valid(g) && Frontier(g, s, e, [current] + queue0, cameFrom0, dist0) && current != e
    ensures Frontier(g, s, e, queue, cameFrom, dist)
    ensures cameFrom0.Keys <= cameFrom.Keys
    ensures cameFrom.Keys == cameFrom0.Keys ==> queue == queue0
  {
    StartVisit(g, s, e, current, queue0, cameFrom0, dist0);
    ghost var k := dist0[current];
    queue, cameFrom, dist := queue0, cameFrom0, dist0;
    var nbrs := Neighbors(g, current);
    var j := 0;
    while j < |nbrs|
      invariant 0 <= j <= |nbrs|
      invariant Visiting(g, s, e, current, k, queue0, cameFrom0.Keys, queue, cameFrom, dist)
      invariant forall t :: 0 <= t < j ==> nbrs[t] in cameFrom
    {
      var n := nbrs[j];
      if n !in cameFrom {
        VisitOne(g, s, e, current, k, queue0, cameFrom0.Keys, queue, cameFrom, dist, n);
        queue := queue + [n];
        cameFrom := cameFrom[n := Some(current)];
        dist := dist[n := k + 1];
      }
      j := j + 1;
    }
    assert Closed(g, cameFrom, current);
    EndVisit(g, s, e, current, k, queue0, cameFrom0.Keys, queue, cameFrom, dist);
  }

  /** The reconstruction loop of `find_path`: follow `came_from` from the goal
      back to the start, then reverse. */
  method TracePath(g: Grid, ghost s: Cell, e: Cell, cameFrom: map<Cell, Option<Cell>>,
                   ghost dist: map<Cell, nat>) returns (cells: seq<Cell>)
    requires Valid(g) && SearchTree(g, s, cameFrom, dist) && e in cameFrom
    ensures WalkBetween(g, cells, s, e) && |cells| == dist[e] + 1
  {
    var rev := [e];
    var cur := e;
    while cameFrom[cur].Some?
      invariant cur in cameFrom
      invariant |rev| >= 1 && rev[0] == e && rev[|rev| - 1] == cur
      invariant |rev| + dist[cur] == dist[e] + 1
      invariant InBounds(g, cur)
      invariant forall i :: 0 <= i < |rev| - 1 ==> Step(g, rev[i + 1], rev[i])
      decreases dist[cur]
    {
      assert ParentLink(g, cameFrom, dist, cur);
      var prev := cameFrom[cur].value;
      rev := rev + [prev];
      cur := prev;
    }
    cells := seq(|rev|, t requires 0 <= t < |rev| => rev[|rev| - 1 - t]);
    forall i | 1 <= i < |cells| ensures Step(g, cells[i - 1], cells[i]) {
      assert cells[i - 1] == rev[|rev| - i] && cells[i] == rev[|rev| - 1 - i];
    }
  }

  /** The world positions of a cell sequence. */
  function CellsToPositions(g: Grid, cells: seq<Cell>): (r: seq<Position>)
    ensures |r| == |cells|
    ensures forall i :: 0 <= i < |cells| ==> r[i] == GridToPos(g, cells[i])
  {
    seq(|cells|, i requires 0 <= i < |cells| => GridToPos(g, cells[i]))
  }

  /** `Grid::find_path`: breadth-first search from the start's cell to the end's
      cell. Returns `[start, end]` when both are the same cell or no walk exists;
      otherwise the lattice points of a shortest walk (`cells`). */
  method FindPath(g: Grid, start: Position, end: Position) returns (path: seq<Position>, ghost cells: seq<Cell>)
    requires Valid(g)
    ensures |path| >= 2
    ensures PosToGrid(g, start) == PosToGrid(g, end) ==> cells == []
    ensures cells == [] ==>
      path == [start, end] &&
      (PosToGrid(g, start) == PosToGrid(g, end) || NoWalk(g, PosToGrid(g, start), PosToGrid(g, end)))
    ensures cells != [] ==>
      |cells| >= 2 && path == CellsToPositions(g, cells) &&
      ShortestWalk(g, cells, PosToGrid(g, start), PosToGrid(g, end))
  {
    var s := PosToGrid(g, start);
    var e := PosToGrid(g, end);
    if s == e {
      return [start, end], [];
    }
    var queue := [s];
    var cameFrom: map<Cell, Option<Cell>> := map[s := None];
    ghost var dist: map<Cell, nat> := map[s := 0];
    var found := false;
    while |queue| > 0
      invariant Frontier(g, s, e, queue, cameFrom, dist)
      invariant !found
      decreases AllCells(g) - cameFrom.Keys, |queue|
    {
      var current := queue[0];
      ghost var keys0, queue0 := cameFrom.Keys, queue;
      queue := queue[1..];
      if current == e {
        found := true;
        break;
      }
      assert queue0 == [current] + queue;
      queue, cameFrom, dist := VisitNeighbours(g, s, e, current, queue, cameFrom, dist);
      if cameFrom.Keys != keys0 {
        KeysInGrid(g, s, cameFrom, dist);
        FewerUndiscovered(AllCells(g), keys0, cameFrom.Keys);
      }
    }
    if !found {
      forall p ensures !WalkBetween(g, p, s, e) {
        if WalkBetween(g, p, s, e) {
          WalkDiscovered(g, s, cameFrom, dist, |p| - 1, p);
        }
      }
      return [start, end], [];
    }
    var forward := TracePath(g, s, e, cameFrom, dist);
    cells := forward;
    path := CellsToPositions(g, forward);
  }

  /** Consecutive lattice points of a walk are one cell apart along exactly one
      axis, so every segment of a found path is axis-aligned. */
  lemma WalkSegmentAxisAligned(g: Grid, cells: seq<Cell>, i: nat)
    requires Valid(g) && IsWalk(g, cells) && 1 <= i < |cells|
    ensures var a, b := GridToPos(g, cells[i - 1]), GridToPos(g, cells[i]);
      (a.y == b.y && Abs(a.x - b.x) == g.cellSize) || (a.x == b.x && Abs(a.y - b.y) == g.cellSize)
  {
    assert Step(g, cells[i - 1], cells[i]);
    var a, b := cells[i - 1], cells[i];
    var pa, pb := GridToPos(g, a), GridToPos(g, b);
    var c := g.cellSize;
    if a.y == b.y {
      assert pa.y == pb.y;
      if a.x == b.x + 1 {
        NextMultiple(b.x, c);
        assert pa.x - pb.x == c;
      } else {
        NextMultiple(a.x, c);
        assert pb.x - pa.x == c;
      }
    } else {
      assert a.x == b.x && pa.x == pb.x;
      if a.y == b.y + 1 {
        NextMultiple(b.y, c);
        assert pa.y - pb.y == c;
      } else {
        NextMultiple(a.y, c);
        assert pb.y - pa.y == c;
      }
    }
  }

  lemma NextMultiple(k: int, c: real)
    requires c > 0.0
    ensures (k + 1) as real * c == k as real * c + c
  {
  }

  // ---------------------------------------------------------------- what the obstacle blocks cover

  lemma ScaleLt(u: real, v: real, c: real)
    requires c > 0.0 && u < v
    ensures u * c < v * c
  {
    assert (v - u) * c > 0.0;
  }

  /** A lattice coordinate at or beyond `lo` in world space is at or beyond the
      cell coordinate `(lo - o) / c`. */
  lemma LatticeAtLeast(o: real, c: real, x: int, lo: real)
    requires c > 0.0 && o + x as real * c >= lo
    ensures x as real >= (lo - o) / c
  {
    var a := (lo - o) / c;
    assert a * c == lo - o;
    if x as real < a {
      ScaleLt(x as real, a, c);
    }
  }

  lemma LatticeBelow(o: real, c: real, x: int, hi: real)
    requires c > 0.0 && o + x as real * c < hi
    ensures x as real < (hi - o) / c
  {
    var b := (hi - o) / c;
    assert b * c == hi - o;
    if x as real >= b {
      if x as real > b {
        ScaleLt(b, x as real, c);
      }
    }
  }

  lemma LatticeAtMost(o: real, c: real, x: int, hi: real)
    requires c > 0.0 && o + x as real * c <= hi
    ensures x as real <= (hi - o) / c
  {
    var b := (hi - o) / c;
    assert b * c == hi - o;
    if x as real > b {
      ScaleLt(b, x as real, c);
    }
  }

  /** Every cell whose lattice point lies in a node body expanded by 7 units
      (closed at the top-left, open at the bottom-right) is an obstacle. */
  lemma BodyCellBlocked(nodes: seq<Node>, cellSize: real, i: nat, cell: Cell)
    requires cellSize > 0.0 && i < |nodes|
    requires InBounds(GridSpec(nodes, cellSize), cell)
    requires var n, q := nodes[i], GridToPos(GridSpec(nodes, cellSize), cell);
      n.position.x - BodyMargin <= q.x < n.position.x + n.size.width + BodyMargin &&
      n.position.y - BodyMargin <= q.y < n.position.y + n.size.height + BodyMargin
    ensures Blocked(GridSpec(nodes, cellSize), cell)
  {
    var f := GridFrame(nodes, cellSize);
    assert GridToPos(GridSpec(nodes, cellSize), cell) == GridToPos(f, cell);
    BodyCellInRect(f, nodes[i], cell);
    assert BodiesCover(f, nodes, |nodes|, cell.x, cell.y);
  }

  lemma BodyCellInRect(f: Grid, n: Node, cell: Cell)
    requires f.cellSize > 0.0
    requires var q := GridToPos(f, cell);
      n.position.x - BodyMargin <= q.x < n.position.x + n.size.width + BodyMargin &&
      n.position.y - BodyMargin <= q.y < n.position.y + n.size.height + BodyMargin
    ensures InRect(BodyRect(f, n), cell.x, cell.y)
  {
    var c := f.cellSize;
    LatticeAtLeast(f.originX, c, cell.x, n.position.x - BodyMargin);
    LatticeBelow(f.originX, c, cell.x, n.position.x + n.size.width + BodyMargin);
    LatticeAtLeast(f.originY, c, cell.y, n.position.y - BodyMargin);
    LatticeBelow(f.originY, c, cell.y, n.position.y + n.size.height + BodyMargin);
  }

  /** Every cell whose lattice point lies in a port expanded by two cells on
      each side is an obstacle. */
  lemma PortCellBlocked(nodes: seq<Node>, cellSize: real, i: nat, k: nat, cell: Cell)
    requires cellSize > 0.0 && i < |nodes| && k < |nodes[i].ports|
    requires InBounds(GridSpec(nodes, cellSize), cell)
    requires var n, p, q := nodes[i], nodes[i].ports[k], GridToPos(GridSpec(nodes, cellSize), cell);
      n.position.x + p.position.x - 2.0 * cellSize <= q.x <= n.position.x + p.position.x + p.size.width + 2.0 * cellSize &&
      n.position.y + p.position.y - 2.0 * cellSize <= q.y <= n.position.y + p.position.y + p.size.height + 2.0 * cellSize
    ensures Blocked(GridSpec(nodes, cellSize), cell)
  {
    var f := GridFrame(nodes, cellSize);
    assert GridToPos(GridSpec(nodes, cellSize), cell) == GridToPos(f, cell);
    PortCellInRect(f, nodes[i], nodes[i].ports[k], cell);
    assert NodePortsCover(f, nodes[i], |nodes[i].ports|, cell.x, cell.y);
    assert PortsCover(f, nodes, |nodes|, cell.x, cell.y);
  }

  lemma PortCellInRect(f: Grid, n: Node, p: Port, cell: Cell)
    requires FrameValid(f) && InBounds(f, cell)
    requires var q, c := GridToPos(f, cell), f.cellSize;
      n.position.x + p.position.x - 2.0 * c <= q.x <= n.position.x + p.position.x + p.size.width + 2.0 * c &&
      n.position.y + p.position.y - 2.0 * c <= q.y <= n.position.y + p.position.y + p.size.height + 2.0 * c
    ensures InRect(PortRect(f, n, p), cell.x, cell.y)
  {
    var c := f.cellSize;
    var left, top := n.position.x + p.position.x, n.position.y + p.position.y;
    MarginSpan(f.originX, c, cell.x, left, left + p.size.width);
    MarginSpan(f.originY, c, cell.y, top, top + p.size.height);
    PortEndCovers(Ceil((left + p.size.width - f.originX) / c) + PortMarginCells, f.width, cell.x);
    PortEndCovers(Ceil((top + p.size.height - f.originY) / c) + PortMarginCells, f.height, cell.y);
  }

  lemma PortEndCovers(v: int, limit: nat, x: nat)
    requires limit >= 1 && x <= v && x < limit
    ensures x < PortEnd(v, limit)
  {
  }

  lemma PortEndBound(v: int, limit: nat, x: nat)
    requires limit >= 1 && x < PortEnd(v, limit)
    ensures x <= v
  {
  }

  /** A lattice coordinate within two cells of [lo, hi] lies between the
      port block's start and end indices. */
  lemma MarginSpan(o: real, c: real, x: int, lo: real, hi: real)
    requires c > 0.0
    requires lo - 2.0 * c <= o + x as real * c <= hi + 2.0 * c
    ensures Floor((lo - o) / c) - PortMarginCells <= x <= Ceil((hi - o) / c) + PortMarginCells
  {
    assert o + (x + 2) as real * c == o + x as real * c + 2.0 * c;
    assert o + (x - 2) as real * c == o + x as real * c - 2.0 * c;
    LatticeAtLeast(o, c, x + 2, lo);
    LatticeAtMost(o, c, x - 2, hi);
  }

  /** With the corrected end, every cell of a port block has its lattice point
      (`GridToPos`) less than three cells from the port along each axis. */
  lemma PortBlockNearPort(f: Grid, n: Node, p: Port, x: nat, y: nat)
    requires FrameValid(f) && InRect(PortRect(f, n, p), x, y)
    ensures var left, top := n.position.x + p.position.x, n.position.y + p.position.y;
      NearSpan(f.originX, f.cellSize, x, left, left + p.size.width) &&
      NearSpan(f.originY, f.cellSize, y, top, top + p.size.height)
  {
    var c := f.cellSize;
    var left, top := n.position.x + p.position.x, n.position.y + p.position.y;
    PortAxisNear(f.originX, c, x, left, left + p.size.width, f.width);
    PortAxisNear(f.originY, c, y, top, top + p.size.height, f.height);
  }

  /** The lattice coordinate `o + x * c` of index x lies less than three
      cells outside [lo, hi]. */
  predicate NearSpan(o: real, c: real, x: int, lo: real, hi: real)
  {
    lo - 3.0 * c < o + x as real * c < hi + 3.0 * c
  }

  /** One axis of `PortBlockNearPort`. */
  lemma PortAxisNear(o: real, c: real, x: nat, lo: real, hi: real, limit: nat)
    requires c > 0.0 && limit >= 1
    requires PortSpan(o, c, lo, hi, limit).0 <= x < PortSpan(o, c, lo, hi, limit).1
    ensures NearSpan(o, c, x, lo, hi)
  {
    PortEndBound(Ceil((hi - o) / c) + PortMarginCells, limit, x);
    LatticeNear(o, c, x, lo, hi);
  }

  lemma LatticeNear(o: real, c: real, x: int, lo: real, hi: real)
    requires c > 0.0
    requires x >= Floor((lo - o) / c) - PortMarginCells
    requires x <= Ceil((hi - o) / c) + PortMarginCells
    ensures lo - 3.0 * c < o + x as real * c < hi + 3.0 * c
  {
    var a, b := (lo - o) / c, (hi - o) / c;
    assert a * c == lo - o && b * c == hi - o;
    ScaleLt(a - 3.0, x as real, c);
    ScaleLt(x as real, b + 3.0, c);
    assert (a - 3.0) * c == a * c - 3.0 * c;
    assert (b + 3.0) * c == b * c + 3.0 * c;
  }

  // ---------------------------------------------------------------- the port-block end as written

  /** The end of a port block exactly as written: the `i32` end is clamped by
      `min(limit - 1)`, cast to `usize` (a negative value wraps modulo 2^64),
      and one is added (wrapping, as in a release build; a debug build panics
      at -1). */
  function PortEndAsWritten(v: int, limit: nat): (e: int)
    requires 1 <= limit < UsizeModulus
    ensures v >= -1 ==> e == PortEnd(v, limit)
    ensures -UsizeModulus <= v < -1 ==> e == UsizeModulus + v + 1
  {
    (WrapUsize(MinInt(v, limit - 1)) + 1) % UsizeModulus
  }

  /** `PortRect` with the end as written. It agrees with `PortRect` except where
      the corrected block is empty along an axis. */
  function PortRectAsWritten(f: Grid, n: Node, p: Port): (r: Rect)
    requires FrameValid(f) && f.width < UsizeModulus && f.height < UsizeModulus
    ensures r.x1 == PortRect(f, n, p).x1 && r.y1 == PortRect(f, n, p).y1
    ensures PortRect(f, n, p).x2 > 0 ==> r.x2 == PortRect(f, n, p).x2
    ensures PortRect(f, n, p).y2 > 0 ==> r.y2 == PortRect(f, n, p).y2
  {
    var c := f.cellSize;
    var left := n.position.x + p.position.x;
    var top := n.position.y + p.position.y;
    Rect(MaxInt(Floor((left - f.originX) / c) - PortMarginCells, 0),
         PortEndAsWritten(Ceil((left + p.size.width - f.originX) / c) + PortMarginCells, f.width),
         MaxInt(Floor((top - f.originY) / c) - PortMarginCells, 0),
         PortEndAsWritten(Ceil((top + p.size.height - f.originY) / c) + PortMarginCells, f.height))
  }

  /** The node of the counterexample: at (0, 0), 10 x 10, with one 5 x 5 port
      whose top-left is 40 units to the left of the node. */
  function FarLeftPortNode(): Node
  {
    Node("n", Size(10.0, 10.0), Position(0.0, 0.0),
         [Port(Position(-40.0, 0.0), Size(5.0, 5.0), Input, None)], [])
  }

  /** As written, that port blocks every column of rows 0 to 3 of an 81 x 61
      grid, including cells 400 units from the port; the corrected block is
      empty. */
  lemma PortBlockOverreach()
    ensures var n := FarLeftPortNode(); var f := GridFrame([n], 5.0);
      f.width == 81 && f.height == 61 &&
      (forall x, y :: 0 <= x < f.width && 0 <= y <= 3 ==> InRect(PortRectAsWritten(f, n, n.ports[0]), x, y)) &&
      GridToPos(f, Cell(80, 0)).x == 400.0 &&
      PortRect(f, n, n.ports[0]).x2 == 0
  {
    var n := FarLeftPortNode();
    var f := GridFrame([n], 5.0);
    assert NodesBox(None, [n]) == Some(Bounds(0.0, 10.0, 0.0, 10.0));
    assert f.width == 81 && f.height == 61;
    var p := n.ports[0];
    assert Floor((-40.0 - 0.0) / 5.0) == -8;
    assert Ceil((-40.0 + 5.0 - 0.0) / 5.0) == -7;
    assert Floor((0.0 - 0.0) / 5.0) == 0;
    assert Ceil((0.0 + 5.0 - 0.0) / 5.0) == 1;
    var r := PortRectAsWritten(f, n, p);
    assert r == Rect(0, UsizeModulus - 4, 0, 4);
  }
}
