/** The size estimate a graph-view node uses before it is first rendered
    (crates/graphview/src/node.rs:37-79): a header sized by the node's name
    and type, and below it one stacked block per partition child, each
    block tall enough for its software components (swcs) and wide enough
    for two of them side by side. Sizes are `real`; see the README for the
    f32 rounding this leaves out. */
module GraphNodes {
  import opened Numeric

  /** A partition or swc inside a node; `kind` is "partition" or "swc". */
  datatype NodeChild = NodeChild(name: string, kind: string, children: seq<NodeChild>)

  /** The fields of a graph-view node that its size depends on, plus its
      identity and placement. */
  datatype GraphNode = GraphNode(id: nat, name: string, nodeType: string, x: real, y: real,
                                 width: real, height: real, children: seq<NodeChild>)

  /** Bytes in one UTF-8 encoded character. */
  function Utf8Width(c: char): (n: nat)
    ensures 1 <= n <= 4
    ensures n == 1 <==> (c as int) < 0x80
  {
    if (c as int) < 0x80 then 1
    else if (c as int) < 0x800 then 2
    else if (c as int) < 0x1_0000 then 3
    else 4
  }

  /** `str::len`: the length of the UTF-8 encoding, in bytes. */
  function Utf8Len(s: string): nat
  {
    if |s| == 0 then 0 else Utf8Width(s[0]) + Utf8Len(s[1..])
  }

  predicate Ascii(s: string)
  {
    forall i :: 0 <= i < |s| ==> (s[i] as int) < 0x80
  }

  /** A string is at least as many bytes long as it has characters, and
      exactly that many when every character is ASCII. */
  lemma {:induction false} Utf8LenBounds(s: string)
    ensures |s| <= Utf8Len(s) <= 4 * |s|
    ensures Utf8Len(s) == |s| <==> Ascii(s)
  {
    if |s| > 0 {
      Utf8LenBounds(s[1..]);
      if Ascii(s) {
        assert forall i :: 0 <= i < |s[1..]| ==> s[1..][i] == s[i + 1];
      }
      if Utf8Len(s) == |s| {
        forall i | 0 <= i < |s| ensures (s[i] as int) < 0x80 {
          if i > 0 {
            assert s[i] == s[1..][i - 1];
          }
        }
      }
    }
  }

  const BaseWidth: real := 120.0
  const HeaderHeight: real := 28.0

  /** Room for the name at 7.2 per byte plus 24 of padding. */
  function NameWidth(name: string): real
  {
    Utf8Len(name) as real * 7.2 + 24.0
  }

  /** Room for the type label at 6 per byte plus 40. */
  function TypeWidth(nodeType: string): real
  {
    Utf8Len(nodeType) as real * 6.0 + 40.0
  }

  /** The width of the header alone. */
  function HeaderWidth(name: string, nodeType: string): real
  {
    Max(Max(NameWidth(name), TypeWidth(nodeType)), BaseWidth)
  }

  /** A partition's block: 40 plus 45 per swc, counting at least one. */
  function PartitionHeight(p: NodeChild): real
  {
    40.0 + MaxInt(|p.children|, 1) as real * 45.0
  }

  /** Room for a child's label (a partition's or a swc's): 6 per byte plus 50. */
  function LabelWidth(c: NodeChild): real
  {
    Utf8Len(c.name) as real * 6.0 + 50.0
  }

  /** The widest swc label of a partition, or 60 when it has none. */
  function MaxSwcWidth(swcs: seq<NodeChild>): real
  {
    if |swcs| == 0 then 60.0
    else if |swcs| == 1 then LabelWidth(swcs[0])
    else Max(MaxSwcWidth(swcs[..|swcs| - 1]), LabelWidth(swcs[|swcs| - 1]))
  }

  /** A partition is as wide as its label, or as two of its widest swcs
      side by side with 20 between, whichever is more. */
  function PartitionWidth(p: NodeChild): real
  {
    Max(LabelWidth(p), MaxSwcWidth(p.children) * 2.0 + 20.0)
  }

  /** The stacked blocks, each followed by 8 of spacing. */
  function StackHeight(parts: seq<NodeChild>): real
  {
    if |parts| == 0 then 0.0
    else StackHeight(parts[..|parts| - 1]) + PartitionHeight(parts[|parts| - 1]) + 8.0
  }

  /** The widest block, starting from 0. */
  function WidestPartition(parts: seq<NodeChild>): real
  {
    if |parts| == 0 then 0.0
    else Max(WidestPartition(parts[..|parts| - 1]), PartitionWidth(parts[|parts| - 1]))
  }

  /** The estimate as a value: the header alone when there are no children;
      otherwise wide enough for the header and for every block with 8 of
      margin on each side, and tall enough for the header, the stack and 12
      below it. */
  function NodeSize(name: string, nodeType: string, children: seq<NodeChild>): (real, real)
  {
    if |children| == 0 then (HeaderWidth(name, nodeType), HeaderHeight)
    else (Max(HeaderWidth(name, nodeType), WidestPartition(children) + 16.0),
          HeaderHeight + StackHeight(children) + 12.0)
  }

  /** `GraphNode::estimate_node_size`: one pass over the partitions that
      sums their heights and keeps the widest. */
  method EstimateNodeSize(name: string, nodeType: string, children: seq<NodeChild>)
    returns (width: real, height: real)
    ensures (width, height) == NodeSize(name, nodeType, children)
  {
    var contentWidth := Max(Max(Utf8Len(name) as real * 7.2 + 24.0, Utf8Len(nodeType) as real * 6.0 + 40.0), 120.0);
    if |children| == 0 {
      return contentWidth, 28.0;
    }
    var total := 0.0;
    var widest := 0.0;
    for i := 0 to |children|
      invariant total == StackHeight(children[..i])
      invariant widest == WidestPartition(children[..i])
    {
      assert children[..i + 1][..i] == children[..i];
      var child := children[i];
      var swcCount := MaxInt(|child.children|, 1);
      total := total + (40.0 + swcCount as real * 45.0) + 8.0;
      var labelWidth := Utf8Len(child.name) as real * 6.0 + 50.0;
      var partitionWidth := Max(labelWidth, MaxSwcWidth(child.children) * 2.0 + 20.0);
      widest := Max(widest, partitionWidth);
    }
    assert children[..|children|] == children;
    width := Max(contentWidth, widest + 16.0);
    height := 28.0 + total + 12.0;
  }

  /** `GraphNode::estimate_dimensions`: the estimate for the node's own name,
      type and children. */
  function EstimateDimensions(node: GraphNode): (r: (real, real))
    ensures r.0 >= BaseWidth && r.0 >= NameWidth(node.name) && r.0 >= TypeWidth(node.nodeType)
    ensures r.1 >= HeaderHeight
    ensures forall k :: 0 <= k < |node.children| ==> r.0 >= PartitionWidth(node.children[k]) + 16.0
  {
    NodeSizeWidth(node.name, node.nodeType, node.children);
    StackHeightBounds(node.children);
    NodeSize(node.name, node.nodeType, node.children)
  }

  // ----- the lemmas -----

  /** The widest swc label is 60 when there is none; otherwise it is at
      least every label and equal to one of them. Either way it is at least 50. */
  lemma {:induction false} MaxSwcWidthIsMax(swcs: seq<NodeChild>)
    ensures |swcs| == 0 ==> MaxSwcWidth(swcs) == 60.0
    ensures forall k :: 0 <= k < |swcs| ==> MaxSwcWidth(swcs) >= LabelWidth(swcs[k])
    ensures |swcs| > 0 ==> exists k :: 0 <= k < |swcs| && MaxSwcWidth(swcs) == LabelWidth(swcs[k])
    ensures MaxSwcWidth(swcs) >= 50.0
  {
    if |swcs| > 1 {
      var init := swcs[..|swcs| - 1];
      MaxSwcWidthIsMax(init);
      assert forall k :: 0 <= k < |init| ==> init[k] == swcs[k];
      if MaxSwcWidth(swcs) == MaxSwcWidth(init) {
        var k :| 0 <= k < |init| && MaxSwcWidth(init) == LabelWidth(init[k]);
        assert MaxSwcWidth(swcs) == LabelWidth(swcs[k]);
      } else {
        assert MaxSwcWidth(swcs) == LabelWidth(swcs[|swcs| - 1]);
      }
    } else if |swcs| == 1 {
      assert MaxSwcWidth(swcs) == LabelWidth(swcs[0]);
    }
  }

  /** Every block is at least 85 tall, so the stack is at least 93 per partition. */
  lemma {:induction false} StackHeightBounds(parts: seq<NodeChild>)
    ensures StackHeight(parts) >= 93.0 * |parts| as real
    ensures forall k :: 0 <= k < |parts| ==> PartitionHeight(parts[k]) >= 85.0
  {
    if |parts| > 0 {
      StackHeightBounds(parts[..|parts| - 1]);
      assert forall k :: 0 <= k < |parts| - 1 ==> parts[k] == parts[..|parts| - 1][k];
    }
  }

  /** Adding a partition adds its block and its spacing to the stack. */
  lemma StackHeightAppend(parts: seq<NodeChild>, p: NodeChild)
    ensures StackHeight(parts + [p]) == StackHeight(parts) + PartitionHeight(p) + 8.0
  {
    assert (parts + [p])[..|parts|] == parts;
  }

  /** The widest block is at least every block and, when there is one, equal
      to one of them. */
  lemma {:induction false} WidestPartitionIsMax(parts: seq<NodeChild>)
    ensures forall k :: 0 <= k < |parts| ==> WidestPartition(parts) >= PartitionWidth(parts[k])
    ensures |parts| > 0 ==> exists k :: 0 <= k < |parts| && WidestPartition(parts) == PartitionWidth(parts[k])
  {
    if |parts| > 0 {
      var init := parts[..|parts| - 1];
      WidestPartitionIsMax(init);
      assert forall k :: 0 <= k < |init| ==> init[k] == parts[k];
      if |init| > 0 && WidestPartition(parts) == WidestPartition(init) {
        var k :| 0 <= k < |init| && WidestPartition(init) == PartitionWidth(init[k]);
        assert WidestPartition(parts) == PartitionWidth(parts[k]);
      }
      if |init| == 0 {
        MaxSwcWidthIsMax(parts[0].children);
        assert WidestPartition(parts) == PartitionWidth(parts[0]);
      }
    }
  }

  /** The estimated width is at least the base width and both label widths,
      at least every block plus its margins, and no wider than it needs to
      be: it equals the header width or one block plus 16. */
  lemma NodeSizeWidth(name: string, nodeType: string, children: seq<NodeChild>)
    ensures NodeSize(name, nodeType, children).0 >= BaseWidth
    ensures NodeSize(name, nodeType, children).0 >= NameWidth(name)
    ensures NodeSize(name, nodeType, children).0 >= TypeWidth(nodeType)
    ensures forall k :: 0 <= k < |children| ==> NodeSize(name, nodeType, children).0 >= PartitionWidth(children[k]) + 16.0
    ensures NodeSize(name, nodeType, children).0 == HeaderWidth(name, nodeType) ||
            exists k :: 0 <= k < |children| && NodeSize(name, nodeType, children).0 == PartitionWidth(children[k]) + 16.0
  {
    WidestPartitionIsMax(children);
  }

  /** A node without children is just its header: 28 tall and as wide as the
      widest of its name, its type and the base width. With children it is at
      least 40 plus 93 per partition tall. */
  lemma NodeSizeHeight(name: string, nodeType: string, children: seq<NodeChild>)
    ensures |children| == 0 ==> NodeSize(name, nodeType, children) == (HeaderWidth(name, nodeType), HeaderHeight)
    ensures |children| > 0 ==> NodeSize(name, nodeType, children).1 >= 40.0 + 93.0 * |children| as real
    ensures NodeSize(name, nodeType, children).1 >= HeaderHeight
  {
    StackHeightBounds(children);
  }

  /** Adding a partition never narrows the node and makes it taller by the
      new block, its spacing and, for the first partition, the 12 of footer. */
  lemma NodeSizeAppend(name: string, nodeType: string, children: seq<NodeChild>, p: NodeChild)
    ensures NodeSize(name, nodeType, children + [p]).0 >= NodeSize(name, nodeType, children).0
    ensures NodeSize(name, nodeType, children + [p]).1 ==
            NodeSize(name, nodeType, children).1 + PartitionHeight(p) + 8.0 + (if |children| == 0 then 12.0 else 0.0)
  {
    StackHeightAppend(children, p);
    assert (children + [p])[..|children|] == children;
  }

  /** A child's kind and everything below its swcs do not matter: only the
      partition names, the swc names and the swc counts do. */
  function Shape(c: NodeChild): NodeChild
  {
    NodeChild(c.name, [], seq(|c.children|, k requires 0 <= k < |c.children| => NodeChild(c.children[k].name, [], [])))
  }

  function Shapes(parts: seq<NodeChild>): (r: seq<NodeChild>)
    ensures |r| == |parts|
  {
    seq(|parts|, k requires 0 <= k < |parts| => Shape(parts[k]))
  }

  lemma {:induction false} MaxSwcWidthShape(swcs: seq<NodeChild>, shaped: seq<NodeChild>)
    requires |shaped| == |swcs|
    requires forall k :: 0 <= k < |swcs| ==> shaped[k].name == swcs[k].name
    ensures MaxSwcWidth(shaped) == MaxSwcWidth(swcs)
  {
    if |swcs| > 1 {
      MaxSwcWidthShape(swcs[..|swcs| - 1], shaped[..|shaped| - 1]);
    }
  }

  lemma {:induction false} PartsShape(parts: seq<NodeChild>)
    ensures StackHeight(Shapes(parts)) == StackHeight(parts)
    ensures WidestPartition(Shapes(parts)) == WidestPartition(parts)
  {
    if |parts| > 0 {
      var init := parts[..|parts| - 1];
      var last := parts[|parts| - 1];
      var shaped := Shapes(parts);
      PartsShape(init);
      assert shaped[..|parts| - 1] == Shapes(init);
      assert shaped[|parts| - 1] == Shape(last);
      MaxSwcWidthShape(last.children, Shape(last).children);
      assert PartitionHeight(Shape(last)) == PartitionHeight(last);
      assert PartitionWidth(Shape(last)) == PartitionWidth(last);
    }
  }

  /** The estimate of a node is the estimate of its shape. */
  lemma NodeSizeDependsOnShape(name: string, nodeType: string, children: seq<NodeChild>)
    ensures NodeSize(name, nodeType, Shapes(children)) == NodeSize(name, nodeType, children)
  {
    PartsShape(children);
  }
}
