# archviz layout engine — a Dafny model

This project models the automatic layout engine of the `archviz` architecture
viewer (`crates/layout`) together with the node-size estimate of its graph view
(`crates/graphview/src/node.rs`). The layout pipeline takes a set of boxes
(nodes, with optional ports on their border) and a list of connections
(edges, given as pairs of node indices). It then:

1. clusters each node with its not-yet-clustered neighbours and stacks the
   clusters as columns (`initial_placement`);
2. runs the force-directed pass (`force_directed`), which stays an opaque
   step here;
3. builds an obstacle grid of 5-unit cells over the placed nodes
   (`Grid::new`) and routes every edge. Routing picks a port or the snapped
   node centre at each end (`select_port`), leaves the node by a fixed
   25-unit extension on the side the anchor lies on, and searches for a
   shortest 4-connected walk with breadth-first search (`find_path`);
4. sizes the canvas from the extent of nodes and paths
   (`calculate_canvas_size`) and shifts everything so that the extent is
   centred on it (`center_layout`);
5. writes the new positions and paths back into the caller's nodes and edges
   (`layout_in_place`).

Modules, one per concern of the source:

| module | file | models |
|---|---|---|
| `Numeric` | numeric.dfy | f64 `floor`, `ceil` and `round` (half away from zero); `as usize` (saturating); `usize` wrap-around; min/max/abs |
| `Types` | types.dfy | `types.rs`: the records, the configuration defaults, `effective_bounds` and `effective_size` |
| `Extent` | extent.dfy | the min/max folds over node bodies and path points shared by `calculate_canvas_size` and `center_layout` |
| `ObstacleGrid` | grid.rs → grid.dfy | the grid frame, blocked cells, cell/position conversion, `neighbors`, `nearest_grid` and the breadth-first `find_path` |
| `Routing` | routing.dfy | `select_port`, the exit extensions and `route_edges` |
| `Placement` | placement.dfy | `initial_placement`: clustering, column stacking and the spacing it guarantees |
| `Canvas` | canvas.dfy | `calculate_canvas_size` and `center_layout` |
| `Pipeline` | layout.dfy | `layout`, both forms of `layout_in_place`, and `force_directed` as an opaque step |
| `GraphNodes` | node_size.dfy | `GraphNode::estimate_node_size` and `estimate_dimensions` |

Coordinates are `real`. Every rounding the source does on purpose is written
out: `floor`, `ceil`, `round` and the casts to `usize`. A cast from `f64` to
`usize` saturates, and the model clamps it at 0 in the same way. The one
integer cast that can wrap, the port block's end cell, is modelled both as
written (with its wrap-around, under "## Findings") and corrected; the grid
uses the corrected form (see "## Left out"). Edges arrive as
`(nat, nat)` index pairs, as in the source. The caller must keep them within
the node list, because the source indexes with them and panics otherwise.

In these points the model follows the code as written:

- Self-loops are routed like any other edge.
- There is a single force-directed stage, run once.
- The node exit extension is a fixed 25 units. The `spaced_edges` setting
  (`types.rs:118`) is never read.
- The anchor's side is decided in this order: left, right, top, else bottom.
  The tolerance is 10 units.
- Routed edges carry no port indices. The result literal at `layout.rs:344-348`
  leaves both ports unset.
- Column stacking uses `min_spacing`. The `initial_spacing` setting
  (`types.rs:115`) is never read.
- The result's `grid` field (`types.rs:107`) is always `None`. The obstacle
  grid is not translated by the centring.
- A port blocks its rectangle's cells widened by 2 cells on each side, clipped
  to the grid. This holds for the corrected end cell; the end as written can
  wrap (see "## Findings"). A node body blocks a 7-unit margin around itself.
- The routing grid spans the node extent plus 100 units, with floors of 400
  and 300.
- Exit cells are computed on the grid frame from before the edge's cells are
  cleared. The frame never changes, so this is the same frame.
- The diagonal-segment check in `route_edges` only prints a diagnostic. The
  model drops it and proves instead that a path found by the search between
  two extensions on the grid has no diagonal segment
  (`Routing.RoutedPathAxisAligned`).

## Model

| member | source | states |
|---|---|---|
| Numeric.Floor | crates/layout/src/grid.rs:55-57 | f64 `floor`: the greatest integer not above the value |
| Numeric.Ceil | crates/layout/src/grid.rs:61-63 | f64 `ceil`: the least integer not below the value |
| Numeric.Round | crates/layout/src/grid.rs:92-96 | f64 `round`: an integer within one half of the value, on the value's side of zero |
| Numeric.RoundOfInteger | crates/layout/src/grid.rs:92-96 | rounding an integer gives it back |
| Numeric.RoundHalfAwayFromZero | crates/layout/src/grid.rs:92-96 | halves round away from zero: k + 1/2 goes to k + 1 and −k − 1/2 to −(k + 1) |
| Numeric.SatUsize | crates/layout/src/grid.rs:92-96 | `f64 as usize` saturates: negative values become 0, others are kept |
| Numeric.WrapUsize | crates/layout/src/grid.rs:61-72 | `i32 as usize` wraps a negative value to value + 2^64 and keeps a non-negative one |
| Types.DefaultConfig | crates/layout/src/types.rs:121-133 | the defaults: 100 iterations, repulsion 1000, attraction 0.1, spacings 100 and 20, diagonals allowed, edges not spaced |
| Types.EffectiveBounds | crates/layout/src/types.rs:66-80 | the port loop computes the body rectangle widened by every port, in order |
| Types.BoundsContainBody | crates/layout/src/types.rs:66-80 | the effective bounds contain the body rectangle |
| Types.BoundsContainPorts | crates/layout/src/types.rs:72-77 | the effective bounds contain every port rectangle |
| Types.BoundsTight | crates/layout/src/types.rs:66-80 | each of the four bounds is attained by the body or by some port, so the bounds are the smallest box containing them |
| Types.AddPortMonotone | crates/layout/src/types.rs:72-77 | adding a port never shrinks the bounds, and the new bounds contain that port |
| Types.NoPortsBounds | crates/layout/src/types.rs:66-80 | a node without ports has the body rectangle as its bounds |
| Types.WidenGrows | crates/layout/src/types.rs:73-76 | one widening step never shrinks the box |
| Types.EffectiveSize | crates/layout/src/types.rs:83-89 | the effective size spans the effective bounds and is at least the body size |
| Extent.MeasureLayout | crates/layout/src/layout.rs:429-449 | the folds over node bodies and then path points compute `LayoutBox`, which is absent when there is nothing to measure |
| Extent.PointsBoxGrows | crates/layout/src/layout.rs:441-448 | folding points never shrinks the box, contains every point, and gives a box exactly when there is a start box or a point |
| Extent.EdgesBoxGrows | crates/layout/src/layout.rs:440-449 | folding edges never shrinks the box |
| Extent.EdgesBoxHasPoint | crates/layout/src/layout.rs:440-449 | the folded box covers every point of every path |
| Extent.NodesBoxGrows | crates/layout/src/layout.rs:433-438 | folding nodes never shrinks the box, contains every body, and gives a box exactly when there is a start box or a node |
| Extent.LayoutBoxContains | crates/layout/src/layout.rs:429-449 | the layout box exists when there are nodes and contains every body and every path point |
| ObstacleGrid.GridFrame | crates/layout/src/grid.rs:14-34 | the frame has the given cell size, at least one row and one column, and no obstacles yet |
| ObstacleGrid.GridFrameSpans | crates/layout/src/grid.rs:15-34 | the origin is at or before every body on both axes; the lattice reaches at least 100 units past every body and spans at least 400 by 300 |
| ObstacleGrid.BodyRect | crates/layout/src/grid.rs:37-50 | a body's blocked cell rectangle starts at a non-negative cell |
| ObstacleGrid.BodiesInsideGrid | crates/layout/src/grid.rs:31-50 | every body's blocked rectangle lies inside the grid |
| ObstacleGrid.PortEnd | crates/layout/src/grid.rs:61-72 | corrected port block end: clamped to the grid, and equal to the source's value whenever that one does not wrap |
| ObstacleGrid.PortSpan | crates/layout/src/grid.rs:55-72 | a port's blocked cell span along one axis starts at a non-negative cell |
| ObstacleGrid.PortRect | crates/layout/src/grid.rs:52-80 | a port's blocked rectangle (corrected end) starts at a non-negative cell |
| ObstacleGrid.GridSpec | crates/layout/src/grid.rs:14-90 | the grid has the frame's shape, and a cell is blocked exactly when some body or port rectangle covers it |
| ObstacleGrid.FillRect | crates/layout/src/grid.rs:43-49 | marking a rectangle blocks exactly its in-grid cells and keeps all others |
| ObstacleGrid.BlockBodies | crates/layout/src/grid.rs:37-50 | after the body loop, a cell is blocked exactly when some body rectangle covers it |
| ObstacleGrid.BlockPorts | crates/layout/src/grid.rs:52-80 | after the port loops, a cell is blocked exactly when it was, or some port rectangle covers it |
| ObstacleGrid.BlockNodePorts | crates/layout/src/grid.rs:53-79 | the same for the ports of one node |
| ObstacleGrid.NewGrid | crates/layout/src/grid.rs:14-90 | `Grid::new` builds exactly `GridSpec` |
| ObstacleGrid.BodyCellBlocked | crates/layout/src/grid.rs:37-50 | every in-grid cell whose position lies within 7 units of a body is blocked |
| ObstacleGrid.BodyCellInRect | crates/layout/src/grid.rs:38-42 | such a cell lies in the body's blocked rectangle |
| ObstacleGrid.PortCellBlocked | crates/layout/src/grid.rs:52-80 | every in-grid cell within two cells of a port is blocked |
| ObstacleGrid.PortCellInRect | crates/layout/src/grid.rs:55-72 | such a cell lies in the port's blocked rectangle |
| ObstacleGrid.PortEndCovers | crates/layout/src/grid.rs:61-72 | the clamped end covers every in-grid cell up to the unclamped end |
| ObstacleGrid.PortEndBound | crates/layout/src/grid.rs:61-72 | the clamped end covers nothing past the unclamped end |
| ObstacleGrid.MarginSpan | crates/layout/src/grid.rs:55-72 | a lattice point within two cells of a span lies between floor − 2 and ceil + 2 of it |
| ObstacleGrid.PortBlockNearPort | crates/layout/src/grid.rs:52-80 | corrected: every cell a port blocks lies within three cells of that port on both axes |
| ObstacleGrid.PortAxisNear | crates/layout/src/grid.rs:55-72 | the same along one axis |
| ObstacleGrid.LatticeNear | crates/layout/src/grid.rs:55-72 | a cell between floor − 2 and ceil + 2 lies within three cells of the span |
| ObstacleGrid.PortEndAsWritten | crates/layout/src/grid.rs:61-72 | as written: the end equals the corrected one while the clamped value is at least −1, and wraps to 2^64 + v + 1 below that |
| ObstacleGrid.PortRectAsWritten | crates/layout/src/grid.rs:52-80 | as written: the same start, and the same end whenever the corrected end is positive |
| ObstacleGrid.PortBlockOverreach | crates/layout/src/grid.rs:61-72 | as written, a port 40 units left of the grid blocks every column of rows 0 to 3, including a cell 400 units from the origin; the corrected rectangle is empty |
| ObstacleGrid.PosToGrid | crates/layout/src/grid.rs:92-96 | a position maps to a cell inside the grid |
| ObstacleGrid.CellRoundTrip | crates/layout/src/grid.rs:92-103 | `pos_to_grid(grid_to_pos(c)) == c` for every in-grid cell |
| ObstacleGrid.LatticeCoordinate | crates/layout/src/grid.rs:92-103 | a lattice point's scaled offset is its index |
| ObstacleGrid.LatticeIndex | crates/layout/src/grid.rs:92-96 | a lattice point in range converts to the cell of its index |
| ObstacleGrid.LatticePointRoundTrip | crates/layout/src/grid.rs:92-103 | `grid_to_pos(pos_to_grid(p)) == p` for a lattice point inside the grid |
| ObstacleGrid.SnapCoordinate | crates/layout/src/grid.rs:172-179 | one axis of the snap lands on the lattice, within half a cell |
| ObstacleGrid.NearestGrid | crates/layout/src/grid.rs:172-179 | `nearest_grid` lands on the lattice within half a cell on each axis |
| ObstacleGrid.SnapDistance | crates/layout/src/grid.rs:172-179 | rounding to the nearest lattice index moves a coordinate by at most half a cell |
| ObstacleGrid.SnapLatticePoint | crates/layout/src/grid.rs:172-179 | a lattice coordinate snaps to itself |
| ObstacleGrid.NearestGridIdempotent | crates/layout/src/grid.rs:172-179 | snapping twice is snapping once |
| ObstacleGrid.Neighbors | crates/layout/src/grid.rs:153-169 | at most four cells: exactly the free in-grid cells one step left, right, up or down, in that order |
| ObstacleGrid.ClearCell | crates/layout/src/layout.rs:247-251 | clearing a cell frees it and changes no other cell |
| ObstacleGrid.WalkPrefix | crates/layout/src/grid.rs:113-133 | a walk without its last cell is a walk |
| ObstacleGrid.WalkDiscovered | crates/layout/src/grid.rs:113-133 | once every cell up to distance k is expanded, the end of every walk of at most k steps from the start is discovered |
| ObstacleGrid.Discover | crates/layout/src/grid.rs:122-130 | recording a newly reached neighbour keeps the search tree sound: parents are steps, and distances are shortest |
| ObstacleGrid.KeysInGrid | crates/layout/src/grid.rs:113-133 | every discovered cell is in the grid |
| ObstacleGrid.StartVisit | crates/layout/src/grid.rs:116-121 | dequeuing a cell that is not the goal starts its expansion with the search invariant intact |
| ObstacleGrid.VisitOne | crates/layout/src/grid.rs:122-130 | discovering one neighbour keeps the expansion invariant |
| ObstacleGrid.EndVisit | crates/layout/src/grid.rs:122-132 | once every neighbour is seen, the queue again satisfies the breadth-first frontier invariant |
| ObstacleGrid.VisitNeighbours | crates/layout/src/grid.rs:122-132 | the neighbour loop keeps the frontier invariant, only adds discovered cells, and leaves the queue alone when it discovers none |
| ObstacleGrid.TracePath | crates/layout/src/grid.rs:139-150 | following the parent links back from the goal gives a walk from start to goal one cell longer than the goal's distance |
| ObstacleGrid.CellsToPositions | crates/layout/src/grid.rs:147-149 | each cell of the walk becomes its cell position, in order |
| ObstacleGrid.FindPath | crates/layout/src/grid.rs:105-151 | the same cell gives `[start, end]`; an unreachable goal gives `[start, end]` and there is no walk; otherwise the result is a shortest walk between the two cells, as positions |
| ObstacleGrid.WalkSegmentAxisAligned | crates/layout/src/grid.rs:153-169 | consecutive cells of a walk are one cell apart along exactly one axis |
| Routing.ClampedSnap | crates/layout/src/layout.rs:359-364 | a centre coordinate rounded to a multiple of 10 and clamped to the node stays on the node, and within 5 units of the centre |
| Routing.SnappedCenter | crates/layout/src/layout.rs:354-368 | a port-less anchor lies on the node, within 5 units of its centre on each axis |
| Routing.BestPort | crates/layout/src/layout.rs:383-404 | no port is chosen exactly when none qualifies (a port qualifies when its centre is off the node centre and the two node centres differ); otherwise the chosen one qualifies, has the best alignment score, and is the first with that score, so a lone qualifying port is chosen even when it points away from the target |
| Routing.BestPortStep | crates/layout/src/layout.rs:383-404 | one loop step replaces the best port only by a strictly better one that qualifies (its centre is off the node centre and the two node centres differ) |
| Routing.SelectPort | crates/layout/src/layout.rs:354-427 | `select_port` returns the anchor: the snapped centre without ports, else the best port's centre, else the snapped centre |
| Routing.AnchorCases | crates/layout/src/layout.rs:406-425 | the anchor is a port centre when some port qualifies, and the snapped centre when none does or there are no ports |
| Routing.SignedSquareMonotone | crates/layout/src/layout.rs:391-398 | the exact key keeps the order of the source's cosine |
| Routing.ScoreOrderIsKeyOrder | crates/layout/src/layout.rs:391-398 | one port scores better than another under the source's cosine formula exactly when its exact key is larger |
| Routing.RatioSquare | crates/layout/src/layout.rs:391-398 | the key equals the cosine times its absolute value |
| Routing.ExitOf | crates/layout/src/layout.rs:242-319 | the snapped anchor is on the lattice within half a cell of the anchor; the extension leaves it by 25 units on the anchor's side and is on the lattice |
| Routing.ExtensionOnLattice | crates/layout/src/layout.rs:266-285 | extending a lattice point keeps it on the lattice, so snapping it again changes nothing |
| Routing.LatticeShift | crates/layout/src/layout.rs:266-285 | moving a lattice point by whole cells keeps it on the lattice |
| Routing.CentreAnchorLeavesDownward | crates/layout/src/layout.rs:254-264 | a node of at least 30 by 30 on which no port qualifies is left downward |
| Routing.SideOfPortCentre | crates/layout/src/layout.rs:254-264 | a port centre near the left border leaves left; it leaves downward exactly when it is far from the left, right and top borders |
| Routing.FreeCells | crates/layout/src/layout.rs:321-325 | freeing the four exit cells clears them and changes no other cell |
| Routing.ExitCells | crates/layout/src/layout.rs:247-251 | the four exit cells lie in the grid |
| Routing.EdgeExitCells | crates/layout/src/layout.rs:239-325 | an edge's four exit cells lie in the grid |
| Routing.EdgeExitCellsFrame | crates/layout/src/layout.rs:247-325 | exit cells depend only on the grid frame, not on its obstacles |
| Routing.PosToGridFrame | crates/layout/src/grid.rs:92-96 | cell conversion depends only on the grid frame |
| Routing.ComputeExit | crates/layout/src/layout.rs:242-319 | the exit computation gives `ExitOf` |
| Routing.RouteEdge | crates/layout/src/layout.rs:236-348 | one loop body frees the edge's exit cells, then builds snapped anchor, extension, search result, extension and snapped anchor, in that order |
| Routing.RouteEdges | crates/layout/src/layout.rs:210-352 | one routed edge per input edge, in order; the first grid is `Grid::new` of the nodes; each step frees exactly that edge's exit cells and routes it on the freed grid |
| Routing.FreeChainExtend | crates/layout/src/layout.rs:235-349 | appending one step extends the chain of freed grids |
| Routing.RoutedPrefixExtend | crates/layout/src/layout.rs:235-349 | appending one routed edge extends the routed prefix |
| Routing.ExitsPrefixExtend | crates/layout/src/layout.rs:235-349 | appending one edge's exit cells extends the exits prefix |
| Routing.FreedStep | crates/layout/src/layout.rs:321-325 | after a step, a cell is blocked exactly when it was blocked at the start and no step so far freed it |
| Routing.ObstaclesOnlyFreed | crates/layout/src/layout.rs:235-349 | the grid an edge is routed on differs from `Grid::new` only in the exit cells freed so far |
| Routing.RoutedWalkAvoidsObstacles | crates/layout/src/layout.rs:321-327 | a cell of a routed walk that `Grid::new` blocked is one of the exit cells freed so far |
| Routing.RoutedPathAxisAligned | crates/layout/src/layout.rs:328-342 | when both extensions are lattice points inside the grid, they map to different cells, and the search finds a walk between them, every segment of the full path is horizontal or vertical; an extension off the grid is clamped by `pos_to_grid` and can give a diagonal first or last segment, which is the case the source's warning reports |
| Routing.ExtensionAxisAligned | crates/layout/src/layout.rs:266-319 | the anchor-to-extension segment is horizontal or vertical |
| Routing.WalkPositionsAxisAligned | crates/layout/src/grid.rs:139-150 | the positions of a walk form horizontal and vertical segments |
| Routing.FramedAxisAligned | crates/layout/src/layout.rs:328-330 | framing an aligned middle with aligned end segments keeps every segment aligned |
| Placement.Gather | crates/layout/src/layout.rs:120-129 | a node's sweep takes exactly the untaken nodes it adds, each at most once, and marks them |
| Placement.GatherLinked | crates/layout/src/layout.rs:120-129 | every node the sweep adds shares an edge with the seed |
| Placement.GatherComplete | crates/layout/src/layout.rs:120-129 | after the sweep, every neighbour of the seed is taken |
| Placement.FirstLink | crates/layout/src/layout.rs:121 | the index of the first edge joining two nodes in either direction, or the edge count when none does |
| Placement.GatherInEdgeOrder | crates/layout/src/layout.rs:120-129 | the sweep adds each node at its first edge to the seed, so the added nodes come in the order of those edges |
| Placement.ClustersUpTo | crates/layout/src/layout.rs:113-131 | there is one `assigned` flag per node |
| Placement.Clusters | crates/layout/src/layout.rs:110-132 | every cluster holds valid node indices |
| Placement.NewClusterFresh | crates/layout/src/layout.rs:117-129 | a new cluster shares no node with the earlier ones |
| Placement.StepPartitioned | crates/layout/src/layout.rs:113-131 | one outer step keeps the flags marking exactly the clustered nodes, no node in two clusters, and every visited node clustered |
| Placement.StepSeeded | crates/layout/src/layout.rs:113-131 | one outer step keeps every cluster non-empty and led by a seed already visited, seeds increasing |
| Placement.StepStars | crates/layout/src/layout.rs:113-131 | one outer step keeps every member linked to its seed |
| Placement.NewClusterGreedy | crates/layout/src/layout.rs:120-129 | after a node's sweep, each of its neighbours is in some cluster so far |
| Placement.GreedyAppend | crates/layout/src/layout.rs:113-131 | appending such a cluster keeps that property for all seeds |
| Placement.StepGreedy | crates/layout/src/layout.rs:113-131 | one outer step keeps seeds and greediness |
| Placement.StepInvariant | crates/layout/src/layout.rs:113-131 | one outer step keeps the whole clustering invariant |
| Placement.ClustersUpToInvariant | crates/layout/src/layout.rs:113-131 | the invariant holds after every number of outer steps |
| Placement.StepOrder | crates/layout/src/layout.rs:113-131 | one outer step keeps every seed the lowest node not in an earlier cluster, and every cluster's other members in the order of their first edge to the seed |
| Placement.ClustersUpToOrdered | crates/layout/src/layout.rs:113-131 | seeds are lowest and members in edge order after every number of outer steps |
| Placement.InitialInvariant | crates/layout/src/layout.rs:110-111 | it holds before the first step |
| Placement.ClustersPartition | crates/layout/src/layout.rs:110-132 | the clusters partition the nodes: no node twice, and every node in some cluster |
| Placement.ClustersAreStars | crates/layout/src/layout.rs:110-132 | clusters are non-empty, seeded in increasing order, members are linked to their seed, and every neighbour of a seed is in that cluster or an earlier one; each seed is the lowest node not in an earlier cluster, and the other members follow in the order of their first edge to the seed, which with `ClustersPartition` determines the clusters |
| Placement.GatherNeighbours | crates/layout/src/layout.rs:120-129 | the in-place sweep over the `assigned` array computes `Gather` |
| Placement.ClusterNodes | crates/layout/src/layout.rs:110-132 | the clustering loop computes `Clusters` |
| Placement.ColumnWidthIsMax | crates/layout/src/layout.rs:145-149 | a column's width is the widest member's width, and 100 for an empty column |
| Placement.PlaceColumn | crates/layout/src/layout.rs:136-143 | stacking a column keeps the node count |
| Placement.PlaceAll | crates/layout/src/layout.rs:134-151 | placing all columns keeps the node count |
| Placement.PlacedNodes | crates/layout/src/layout.rs:108-152 | placement changes only positions |
| Placement.PlaceColumnOnlyPositions | crates/layout/src/layout.rs:136-143 | stacking a column changes only positions |
| Placement.PlaceColumnSameSizes | crates/layout/src/layout.rs:136-143 | stacking a column keeps every size |
| Placement.PlaceAllOnlyPositions | crates/layout/src/layout.rs:134-151 | placing all columns changes only positions |
| Placement.MeasureColumn | crates/layout/src/layout.rs:145-150 | the width fold computes `ColumnWidth` |
| Placement.StackColumn | crates/layout/src/layout.rs:136-143 | the stacking loop computes `PlaceColumn` on the node array |
| Placement.InitialPlacement | crates/layout/src/layout.rs:108-152 | `initial_placement` computes `PlacedNodes` on the node array |
| Placement.ColumnWidthSizesOnly | crates/layout/src/layout.rs:145-149 | a column's width depends only on sizes |
| Placement.ColumnOffsetSizesOnly | crates/layout/src/layout.rs:136-143 | a member's offset depends only on sizes |
| Placement.ColumnXSizesOnly | crates/layout/src/layout.rs:134-151 | a column's x depends only on sizes |
| Placement.ColumnOffsetTail | crates/layout/src/layout.rs:136-143 | offsets unfold one member at a time |
| Placement.ColumnXTail | crates/layout/src/layout.rs:134-151 | column x unfolds one column at a time |
| Placement.PlaceColumnKeeps | crates/layout/src/layout.rs:136-143 | stacking a column leaves every non-member untouched |
| Placement.PlaceColumnMoves | crates/layout/src/layout.rs:136-143 | the m-th member lands at the column's x and its offset |
| Placement.PlaceAllKeeps | crates/layout/src/layout.rs:134-151 | nodes in no cluster are untouched |
| Placement.PlaceAllStep | crates/layout/src/layout.rs:134-151 | placing all columns is placing the first and moving right by its width plus `min_spacing` |
| Placement.PlaceAllMovesFirst | crates/layout/src/layout.rs:134-151 | members of the first column keep the position it gives them |
| Placement.PlaceAllMoves | crates/layout/src/layout.rs:134-151 | member m of column c lands at (x + column x, member offset) |
| Placement.PlacementPosition | crates/layout/src/layout.rs:108-152 | each clustered node lands at (its column's x, its offset in the column) |
| Placement.ColumnOffsetMonotone | crates/layout/src/layout.rs:136-143 | offsets grow down a column |
| Placement.ColumnXMonotone | crates/layout/src/layout.rs:134-151 | column x grows left to right |
| Placement.PlacementNonNegative | crates/layout/src/layout.rs:108-152 | with non-negative sizes and spacing, every placed node is at x ≥ 0 and y ≥ 0 |
| Placement.SameColumnApart | crates/layout/src/layout.rs:136-143 | within a column, a later member starts below the bottom of an earlier one |
| Placement.EarlierColumnApart | crates/layout/src/layout.rs:134-151 | a member of a later column starts to the right of every member of an earlier one |
| Placement.PlacementApart | crates/layout/src/layout.rs:108-152 | with non-negative sizes and spacing, any two distinct placed nodes do not overlap: one lies wholly left of or above the other |
| Canvas.CanvasFloors | crates/layout/src/layout.rs:451-452 | the canvas is at least 400 + 2·spacing by 300 + 2·spacing, and exceeds the layout's extent by 2·spacing on each axis |
| Canvas.CalculateCanvasSize | crates/layout/src/layout.rs:429-455 | the canvas is the extent padded by `min_spacing` on each side, with floors of 400 and 300 |
| Canvas.ShiftPath | crates/layout/src/layout.rs:496-499 | a shifted path keeps its length |
| Canvas.ShiftNodes | crates/layout/src/layout.rs:490-493 | shifting keeps the node count |
| Canvas.ShiftEdges | crates/layout/src/layout.rs:495-500 | shifting keeps the edge count |
| Canvas.WidenShift | crates/layout/src/layout.rs:464-483 | widening commutes with shifting |
| Canvas.NodesBoxShift | crates/layout/src/layout.rs:464-469 | the box of shifted nodes is the shifted box |
| Canvas.PointsBoxShift | crates/layout/src/layout.rs:471-478 | the box of shifted points is the shifted box |
| Canvas.EdgesBoxShift | crates/layout/src/layout.rs:471-483 | the box of shifted edges is the shifted box |
| Canvas.LayoutBoxShift | crates/layout/src/layout.rs:464-500 | the extent of the shifted layout is the shifted extent |
| Canvas.CenteredBox | crates/layout/src/layout.rs:485-500 | after centring, the extent's left and right edges sum to the canvas width, and likewise vertically |
| Canvas.CenteredInsideCanvas | crates/layout/src/layout.rs:429-500 | after sizing and centring, every body and every path point lies at least `min_spacing` inside the canvas |
| Canvas.CenterLayout | crates/layout/src/layout.rs:457-501 | every node and every path point moves by the offset computed from the extent |
| Pipeline.Refined | crates/layout/src/layout.rs:154-208 | the force-directed pass changes only positions |
| Pipeline.ForceDirected | crates/layout/src/layout.rs:154-208 | the node array holds the refined nodes |
| Pipeline.RoutedEdgesKept | crates/layout/src/layout.rs:344-348 | routed edges keep their endpoints, carry no ports and have at least four points |
| Pipeline.ShiftKeepsEdges | crates/layout/src/layout.rs:495-500 | centring keeps that |
| Pipeline.CentringKeeps | crates/layout/src/layout.rs:53-62 | after centring: only positions changed, edges kept, canvas floors met, and everything lies inside the canvas |
| Pipeline.OnlyPositionsTransitive | crates/layout/src/layout.rs:41-63 | changing only positions twice changes only positions |
| Pipeline.PlaceNodes | crates/layout/src/layout.rs:41-48 | copying, placing and refining gives the refined placement |
| Pipeline.Finish | crates/layout/src/layout.rs:53-62 | measuring, centring and assembling gives the centred result with the computed canvas size |
| Pipeline.Layout | crates/layout/src/layout.rs:41-63 | `layout` places, refines, routes and centres; only positions change, one edge per input with its endpoints, the canvas floors hold, and everything lies inside the canvas |
| Pipeline.Internal | crates/layout/src/layout.rs:11-20 | the conversion keeps the node count |
| Pipeline.Pairs | crates/layout/src/layout.rs:22-23 | the conversion keeps the edge count |
| Pipeline.RunLayout | crates/layout/src/layout.rs:41-63 | the result is the layout of the inputs, with one node and one kept edge per input |
| Pipeline.WriteBack | crates/layout/src/layout.rs:28-34 | every caller node gets only its new position and every caller edge only its new path |
| Pipeline.LayoutInPlace | crates/layout/src/layout.rs:5-38 | the free `layout_in_place` succeeds and writes the layout's positions and paths back |
| Pipeline.CheckedWriteBack | crates/layout/src/layout.rs:88-104 | the method's write-back never takes its error branches, and writes positions and paths |
| Pipeline.CheckedLayoutInPlace | crates/layout/src/layout.rs:66-107 | the method `layout_in_place` succeeds and writes the layout's positions and paths back |
| GraphNodes.Utf8Width | crates/graphview/src/node.rs:44-45 | a character takes 1 to 4 bytes, and exactly 1 when it is ASCII |
| GraphNodes.Utf8LenBounds | crates/graphview/src/node.rs:44-45 | `str::len` lies between the character count and four times it, and equals it exactly for ASCII text |
| GraphNodes.EstimateNodeSize | crates/graphview/src/node.rs:37-74 | the loop computes `NodeSize` |
| GraphNodes.EstimateDimensions | crates/graphview/src/node.rs:77-79 | the width covers the base width, name, type and every partition with its margin; the height covers the header |
| GraphNodes.MaxSwcWidthIsMax | crates/graphview/src/node.rs:62-65 | the widest swc label is attained and is at least every label; it is 60 with no swcs, and never below 50 |
| GraphNodes.StackHeightBounds | crates/graphview/src/node.rs:56-59 | each block is at least 85 tall, so the stack is at least 93 per partition |
| GraphNodes.StackHeightAppend | crates/graphview/src/node.rs:56-59 | one more partition adds its block and 8 |
| GraphNodes.WidestPartitionIsMax | crates/graphview/src/node.rs:61-67 | the widest block is attained and is at least every block |
| GraphNodes.NodeSizeWidth | crates/graphview/src/node.rs:43-70 | the width covers the base width, name, type and every block plus 16, and equals the header width or some block plus 16 |
| GraphNodes.NodeSizeHeight | crates/graphview/src/node.rs:48-71 | with no children the size is the header alone; otherwise the height is at least 40 + 93 per partition |
| GraphNodes.NodeSizeAppend | crates/graphview/src/node.rs:56-73 | one more partition never narrows the node, and adds its block and 8 to the height (plus 12 for the first) |
| GraphNodes.Shapes | crates/graphview/src/node.rs:56-68 | reducing children to their shape keeps their count |
| GraphNodes.MaxSwcWidthShape | crates/graphview/src/node.rs:62-65 | the widest swc label depends only on the swc names |
| GraphNodes.PartsShape | crates/graphview/src/node.rs:56-68 | the stack height and widest block depend only on the shape |
| GraphNodes.NodeSizeDependsOnShape | crates/graphview/src/node.rs:37-74 | the estimate ignores `kind` and everything below the swcs |

## Left out

- ObstacleGrid.NewGrid / ObstacleGrid.GridSpec: use the corrected port end cell (`ObstacleGrid.PortEnd`), not the end as written at `grid.rs:61-72`. Where the clamped `i32` end is below −1 the source's cast wraps and the block runs to the grid's far edge (see "## Findings"). At exactly −1 the source computes `usize::MAX + 1`, which panics in a debug build and gives 0 in a release build; the model gives 0. The saturating `f64 as i32` casts at `grid.rs:56-69` are modelled as unbounded integers, so coordinates beyond the `i32` range are not modelled.
- Pipeline.ForceDirected: the force simulation (repulsion, attraction, damping, iteration count) is not modelled. The pass is a parameter `refine` that gives each node its new position, so only "nothing but positions changes" is stated about it.
- Routing.BestPort: compares ports by the exact key dot·|dot|/|offset|² rather than the f64 cosine, so no square root is needed. `Routing.ScoreOrderIsKeyOrder` proves that the two orders agree. Rounding differences between the two are not modelled.
- Floating point: f64 and f32 are modelled as exact reals. NaN, infinities and rounding error are not modelled. Neither is f32's inexact 7.2 character width in the node size estimate.
- Canvas.CenterLayout: with no nodes and no path points the source computes a NaN offset. The model uses 0, and there is nothing to shift in that case.
- ObstacleGrid.GridFrame: with no nodes the source's folds give infinite bounds. The model puts the origin at 0.
- Placement.ColumnWidthIsMax: the `unwrap_or(100.0)` fallback applies only to an empty cluster, which clustering never produces.
- Pipeline.CheckedLayoutInPlace: the two length-mismatch error branches are unreachable, because the result always has one node and one edge per input. The contract states success.
- Pipeline.LayoutInPlace: requires every edge endpoint to be a valid node index. The source panics on a bad index.
- The `LayoutNode` and `LayoutEdge` traits (`types.rs:23-39`) are modelled by arrays of `Node` and `Edge`. Their getters and setters become reads and writes of the fields.
- The diagnostic `println!` calls are left out.
- The SVG export (`svg.rs`) and the UI crates are left out, apart from the size estimate.
- GraphNodes.EstimateDimensions: the UI-only fields of `GraphNode` (drag state, zoom, pan, selection, container offset) are left out.
- A child's `kind` string is carried but never read, as in the source.
- `Port.id` is carried but never read by any layout code.
- The `allow_diagonals`, `spaced_edges`, `initial_spacing`, `repulsion_strength` and `attraction_strength` settings are kept in `Config`. No modelled code reads them: the first three are unused by the code, and the last two feed only the force pass.

## Findings

| source | as written | input that shows it | evidently intended | confidence | as-written member | corrected member |
|---|---|---|---|---|---|---|
| crates/layout/src/grid.rs:61-72 | the port block's end cell is `(ceil + 2).min(width - 1) as usize + 1`; when the clamped `i32` is below −1 the cast wraps to about 2^64, so the block runs to the grid's far edge | `FarLeftPortNode`: a 10 by 10 node at the origin with a 5 by 5 port 40 units to its left; `ceil` gives −7, the clamp −5, and the end wraps to 2^64 − 4, so the port blocks all 81 columns of rows 0 to 3 | the end clamps at 0, so a port wholly before the grid blocks nothing | not executed | ObstacleGrid.PortRectAsWritten, ObstacleGrid.PortBlockOverreach | ObstacleGrid.PortRect, ObstacleGrid.PortBlockNearPort |
