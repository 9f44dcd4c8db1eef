/** Phase 1 of the layout (crates/layout/src/layout.rs, `initial_placement`):
    greedy clustering of the nodes by their edges, then one column per cluster,
    left to right, each cluster's nodes stacked top to bottom. */
module Placement {
  import opened Numeric
  import opened Types

  predicate NoDup<T(==)>(s: seq<T>)
  {
    forall p, q :: 0 <= p < q < |s| ==> s[p] != s[q]
  }

  /** Some edge joins `a` and `b`, in either direction. */
  ghost predicate Linked(a: nat, b: nat, edges: seq<(nat, nat)>)
  {
    exists k :: 0 <= k < |edges| && ((edges[k].0 == a && edges[k].1 == b) || (edges[k].0 == b && edges[k].1 == a))
  }

  // ---------------------------------------------------------------- clustering

  /** The edge loop for seed `i`: each edge from `i` to an unassigned node, or
      from an unassigned node to `i`, adds that node, in edge order. Returns
      the nodes added and the new `assigned` flags: a node is flagged after
      the loop exactly when it was before or was added, and the added nodes are
      distinct and were not flagged before. */
  function Gather(i: nat, edges: seq<(nat, nat)>, taken: seq<bool>): (r: (seq<nat>, seq<bool>))
    requires EdgesWithin(edges, |taken|)
    ensures |r.1| == |taken|
    ensures forall v :: 0 <= v < |taken| ==> (r.1[v] <==> taken[v] || v in r.0)
    ensures forall j :: 0 <= j < |r.0| ==> r.0[j] < |taken| && !taken[r.0[j]]
    ensures NoDup(r.0)
  {
    if |edges| == 0 then ([], taken)
    else
      var e := edges[|edges| - 1];
      var (added, flags) := Gather(i, edges[..|edges| - 1], taken);
      if e.0 == i && !flags[e.1] then (added + [e.1], flags[e.1 := true])
      else if e.1 == i && !flags[e.0] then (added + [e.0], flags[e.0 := true])
      else (added, flags)
  }

  /** Every node the edge loop adds shares an edge with the seed. */
  lemma {:induction false} GatherLinked(i: nat, edges: seq<(nat, nat)>, taken: seq<bool>)
    requires EdgesWithin(edges, |taken|)
    ensures forall j :: 0 <= j < |Gather(i, edges, taken).0| ==> Linked(i, Gather(i, edges, taken).0[j], edges)
  {
    if |edges| > 0 {
      var init := edges[..|edges| - 1];
      var e := edges[|edges| - 1];
      GatherLinked(i, init, taken);
      var added := Gather(i, init, taken).0;
      forall j | 0 <= j < |added| ensures Linked(i, added[j], edges) {
        var k :| 0 <= k < |init| && ((init[k].0 == i && init[k].1 == added[j]) ||
                                     (init[k].0 == added[j] && init[k].1 == i));
        assert edges[k] == init[k];
      }
      assert Linked(i, e.1, edges) || e.0 != i;
      assert Linked(i, e.0, edges) || e.1 != i;
    }
  }

  /** After the edge loop, every node sharing an edge with the seed is flagged. */
  lemma {:induction false} GatherComplete(i: nat, edges: seq<(nat, nat)>, taken: seq<bool>)
    requires EdgesWithin(edges, |taken|)
    ensures forall k :: 0 <= k < |edges| && edges[k].0 == i ==> Gather(i, edges, taken).1[edges[k].1]
    ensures forall k :: 0 <= k < |edges| && edges[k].1 == i ==> Gather(i, edges, taken).1[edges[k].0]
  {
    if |edges| > 0 {
      var init := edges[..|edges| - 1];
      GatherComplete(i, init, taken);
      var flags := Gather(i, init, taken).1;
      var after := Gather(i, edges, taken).1;
      assert forall v :: 0 <= v < |taken| && flags[v] ==> after[v];
      forall k | 0 <= k < |init| ensures edges[k] == init[k] { }
    }
  }

  /** Edge `e` joins `a` and `b`, in either direction. */
  predicate Joins(e: (nat, nat), a: nat, b: nat)
  {
    (e.0 == a && e.1 == b) || (e.0 == b && e.1 == a)
  }

  /** The index of the first edge joining `a` and `b`, or `|edges|` when none does. */
  function FirstLink(a: nat, b: nat, edges: seq<(nat, nat)>): (k: nat)
    ensures k <= |edges|
    ensures k < |edges| ==> Joins(edges[k], a, b)
    ensures forall j :: 0 <= j < k && j < |edges| ==> !Joins(edges[j], a, b)
  {
    if |edges| == 0 then 0
    else
      var first := FirstLink(a, b, edges[..|edges| - 1]);
      if first < |edges| - 1 then first
      else if Joins(edges[|edges| - 1], a, b) then |edges| - 1
      else |edges|
  }

  /** The edge loop adds each node at the first edge joining it to the seed,
      so the added nodes come in the order of their first such edge. */
  lemma {:induction false} GatherInEdgeOrder(i: nat, edges: seq<(nat, nat)>, taken: seq<bool>)
    requires EdgesWithin(edges, |taken|)
    ensures forall j :: 0 <= j < |Gather(i, edges, taken).0| ==>
      FirstLink(i, Gather(i, edges, taken).0[j], edges) < |edges|
    ensures forall j, j' :: 0 <= j < j' < |Gather(i, edges, taken).0| ==>
      FirstLink(i, Gather(i, edges, taken).0[j], edges) < FirstLink(i, Gather(i, edges, taken).0[j'], edges)
  {
    if |edges| > 0 {
      var init := edges[..|edges| - 1];
      var e := edges[|edges| - 1];
      GatherInEdgeOrder(i, init, taken);
      GatherComplete(i, init, taken);
      var added := Gather(i, init, taken).0;
      var flags := Gather(i, init, taken).1;
      assert forall j :: 0 <= j < |added| ==> FirstLink(i, added[j], init) < |init|;
      forall j | 0 <= j < |added| ensures FirstLink(i, added[j], edges) == FirstLink(i, added[j], init) { }
      if e.0 == i && !flags[e.1] {
        FreshLinkIsLast(i, e.1, edges, flags, taken);
      } else if e.1 == i && !flags[e.0] {
        FreshLinkIsLast(i, e.0, edges, flags, taken);
      }
    }
  }

  /** A node still unflagged after the loop over all edges but the last, and
      joined to the seed by the last edge, has that edge as its first link. */
  lemma FreshLinkIsLast(i: nat, v: nat, edges: seq<(nat, nat)>, flags: seq<bool>, taken: seq<bool>)
    requires |edges| > 0 && EdgesWithin(edges, |taken|)
    requires flags == Gather(i, edges[..|edges| - 1], taken).1
    requires v < |flags| && !flags[v] && Joins(edges[|edges| - 1], i, v)
    ensures FirstLink(i, v, edges) == |edges| - 1
  {
    var init := edges[..|edges| - 1];
    LinkedIsFlagged(i, v, init, taken);
    assert FirstLink(i, v, init) == |init|;
  }

  /** A node with an edge to the seed is flagged by the edge loop. */
  lemma LinkedIsFlagged(i: nat, v: nat, edges: seq<(nat, nat)>, taken: seq<bool>)
    requires EdgesWithin(edges, |taken|)
    ensures FirstLink(i, v, edges) < |edges| ==> Gather(i, edges, taken).1[v]
  {
    GatherComplete(i, edges, taken);
  }

  /** The state of the outer loop: the clusters so far and the `assigned` flags. */
  datatype Clustering = Clustering(clusters: seq<seq<nat>>, taken: seq<bool>)

  /** One turn of the outer loop, for node `i`. */
  function ClusterStep(edges: seq<(nat, nat)>, st: Clustering, i: nat): Clustering
    requires i < |st.taken| && EdgesWithin(edges, |st.taken|)
  {
    if st.taken[i] then st
    else
      var (added, flags) := Gather(i, edges, st.taken[i := true]);
      Clustering(st.clusters + [[i] + added], flags)
  }

  /** The outer loop after nodes `0..i`. */
  function ClustersUpTo(n: nat, edges: seq<(nat, nat)>, i: nat): (st: Clustering)
    requires i <= n && EdgesWithin(edges, n)
    ensures |st.taken| == n
  {
    if i == 0 then Clustering([], seq(n, _ => false))
    else ClusterStep(edges, ClustersUpTo(n, edges, i - 1), i - 1)
  }

  /** The clusters `initial_placement` builds for `n` nodes; every member is
      a node index. */
  function Clusters(n: nat, edges: seq<(nat, nat)>): (cs: seq<seq<nat>>)
    requires EdgesWithin(edges, n)
    ensures forall c :: 0 <= c < |cs| ==> IndicesWithin(cs[c], n)
  {
    ClustersUpToInvariant(n, edges, n);
    ClusterIndices(ClustersUpTo(n, edges, n).clusters, n);
    ClustersUpTo(n, edges, n).clusters
  }

  /** The flags mark exactly the clustered nodes, each clustered once, and
      nodes `0..i` are all clustered. */
  ghost predicate Partitioned(n: nat, st: Clustering, i: nat)
  {
    i <= n && |st.taken| == n &&
    (forall v :: 0 <= v < n ==> (st.taken[v] <==> v in Flatten(st.clusters))) &&
    (forall v: nat :: v in Flatten(st.clusters) ==> v < n) &&
    NoDup(Flatten(st.clusters)) &&
    (forall v :: 0 <= v < i ==> st.taken[v])
  }

  /** Clusters are non-empty, led by seeds below `i` in increasing order. */
  ghost predicate Seeded(cs: seq<seq<nat>>, i: nat)
  {
    (forall c :: 0 <= c < |cs| ==> |cs[c]| >= 1 && cs[c][0] < i) &&
    (forall c, d :: 0 <= c < d < |cs| ==> cs[c][0] < cs[d][0])
  }

  /** Every member after the seed shares an edge with the seed. */
  ghost predicate Stars(cs: seq<seq<nat>>, edges: seq<(nat, nat)>)
  {
    forall c, m :: 0 <= c < |cs| && 1 <= m < |cs[c]| ==> Linked(cs[c][0], cs[c][m], edges)
  }

  /** Every node sharing an edge with a seed is in that seed's cluster or an
      earlier one. */
  ghost predicate Greedy(cs: seq<seq<nat>>, edges: seq<(nat, nat)>)
    requires forall c :: 0 <= c < |cs| ==> |cs[c]| >= 1
  {
    GreedyFrom(cs, edges, false) && GreedyFrom(cs, edges, true)
  }

  /** One direction of `Greedy`: edges leaving a seed, or (`reversed`)
      edges entering it. */
  ghost predicate GreedyFrom(cs: seq<seq<nat>>, edges: seq<(nat, nat)>, reversed: bool)
    requires forall c :: 0 <= c < |cs| ==> |cs[c]| >= 1
  {
    forall c, k :: 0 <= c < |cs| && 0 <= k < |edges| && Near(edges[k], reversed) == cs[c][0] ==>
      Far(edges[k], reversed) in Flatten(cs[..c + 1])
  }

  function Near(e: (nat, nat), reversed: bool): nat
  {
    if reversed then e.1 else e.0
  }

  function Far(e: (nat, nat), reversed: bool): nat
  {
    if reversed then e.0 else e.1
  }


  lemma FlattenAppend<T>(ss: seq<seq<T>>, s: seq<T>)
    ensures Flatten(ss + [s]) == Flatten(ss) + s
  {
    assert (ss + [s])[..|ss|] == ss;
  }

  lemma NoDupAppend<T>(a: seq<T>, b: seq<T>)
    requires NoDup(a) && NoDup(b) && forall x :: x in a ==> x !in b
    ensures NoDup(a + b)
  {
    forall p, q | 0 <= p < q < |a + b| ensures (a + b)[p] != (a + b)[q] {
      if p < |a| && q >= |a| {
        assert (a + b)[p] in a && (a + b)[q] in b;
      }
    }
  }

  /** The new cluster `[i] + added` has no repeats and shares no node with
      the earlier clusters. */
  lemma NewClusterFresh(n: nat, edges: seq<(nat, nat)>, st: Clustering, i: nat)
    requires i < n && EdgesWithin(edges, n) && Partitioned(n, st, i) && !st.taken[i]
    ensures var added := Gather(i, edges, st.taken[i := true]).0;
      NoDup(Flatten(st.clusters) + ([i] + added))
  {
    var start := st.taken[i := true];
    var added := Gather(i, edges, start).0;
    var c := [i] + added;
    assert NoDup(c) by {
      forall p, q | 0 <= p < q < |c| ensures c[p] != c[q] {
        if p == 0 {
          assert c[q] == added[q - 1] && !start[added[q - 1]];
        } else {
          assert c[p] == added[p - 1] && c[q] == added[q - 1];
        }
      }
    }
    forall x: nat | x in Flatten(st.clusters) ensures x !in c {
      assert x < n && st.taken[x];
    }
    NoDupAppend(Flatten(st.clusters), c);
  }

  lemma StepPartitioned(n: nat, edges: seq<(nat, nat)>, st: Clustering, i: nat, count: nat)
    requires i < n && count == i + 1 && EdgesWithin(edges, n) && Partitioned(n, st, i)
    ensures Partitioned(n, ClusterStep(edges, st, i), count)
  {
    if !st.taken[i] {
      var (added, flags) := Gather(i, edges, st.taken[i := true]);
      var c := [i] + added;
      FlattenAppend(st.clusters, c);
      NewClusterFresh(n, edges, st, i);
      forall v | 0 <= v < n ensures flags[v] <==> v in Flatten(st.clusters + [c]) {
        if v in c && v != i {
          assert v in added;
        }
      }
    }
  }

  lemma StepSeeded(n: nat, edges: seq<(nat, nat)>, st: Clustering, i: nat, count: nat)
    requires i < n && count == i + 1 && EdgesWithin(edges, n) && Partitioned(n, st, i) && Seeded(st.clusters, i)
    ensures Seeded(ClusterStep(edges, st, i).clusters, count)
  {
  }

  lemma StepStars(n: nat, edges: seq<(nat, nat)>, st: Clustering, i: nat)
    requires i < n && EdgesWithin(edges, n) && |st.taken| == n && Stars(st.clusters, edges)
    ensures Stars(ClusterStep(edges, st, i).clusters, edges)
  {
    if !st.taken[i] {
      var added := Gather(i, edges, st.taken[i := true]).0;
      GatherLinked(i, edges, st.taken[i := true]);
      var cs' := st.clusters + [[i] + added];
      forall d, m | 0 <= d < |cs'| && 1 <= m < |cs'[d]| ensures Linked(cs'[d][0], cs'[d][m], edges) {
        if d == |st.clusters| {
          assert cs'[d][m] == added[m - 1];
        }
      }
    }
  }

  /** The new cluster takes every node sharing an edge with its seed that
      was still free. */
  lemma NewClusterGreedy(n: nat, edges: seq<(nat, nat)>, st: Clustering, i: nat)
    requires i < n && EdgesWithin(edges, n) && Partitioned(n, st, i) && !st.taken[i]
    ensures var added := Gather(i, edges, st.taken[i := true]).0;
      var all := Flatten(st.clusters) + ([i] + added);
      (forall k :: 0 <= k < |edges| && edges[k].0 == i ==> edges[k].1 in all) &&
      (forall k :: 0 <= k < |edges| && edges[k].1 == i ==> edges[k].0 in all)
  {
    var (added, flags) := Gather(i, edges, st.taken[i := true]);
    GatherComplete(i, edges, st.taken[i := true]);
    var all := Flatten(st.clusters) + ([i] + added);
    forall v | 0 <= v < n && flags[v] ensures v in all {
      if !st.taken[v] && v != i {
        assert v in added;
      }
    }
  }

  /** Appending a cluster that holds every neighbour of its seed keeps `Greedy`. */
  lemma GreedyAppend(cs: seq<seq<nat>>, c: seq<nat>, edges: seq<(nat, nat)>)
    requires forall d :: 0 <= d < |cs| ==> |cs[d]| >= 1
    requires |c| >= 1 && Greedy(cs, edges)
    requires forall k :: 0 <= k < |edges| && edges[k].0 == c[0] ==> edges[k].1 in Flatten(cs) + c
    requires forall k :: 0 <= k < |edges| && edges[k].1 == c[0] ==> edges[k].0 in Flatten(cs) + c
    ensures Greedy(cs + [c], edges)
  {
    GreedyFromAppend(cs, c, edges, false);
    GreedyFromAppend(cs, c, edges, true);
  }

  lemma GreedyFromAppend(cs: seq<seq<nat>>, c: seq<nat>, edges: seq<(nat, nat)>, reversed: bool)
    requires forall d :: 0 <= d < |cs| ==> |cs[d]| >= 1
    requires |c| >= 1 && GreedyFrom(cs, edges, reversed)
    requires forall k :: 0 <= k < |edges| && Near(edges[k], reversed) == c[0] ==> Far(edges[k], reversed) in Flatten(cs) + c
    ensures GreedyFrom(cs + [c], edges, reversed)
  {
    var cs' := cs + [c];
    FlattenAppend(cs, c);
    forall d, k | 0 <= d < |cs'| && 0 <= k < |edges| && Near(edges[k], reversed) == cs'[d][0]
      ensures Far(edges[k], reversed) in Flatten(cs'[..d + 1])
    {
      if d < |cs| {
        assert cs'[d] == cs[d] && cs'[..d + 1] == cs[..d + 1];
      } else {
        assert cs'[d] == c && cs'[..d + 1] == cs';
      }
    }
  }

  lemma StepGreedy(n: nat, edges: seq<(nat, nat)>, st: Clustering, i: nat, count: nat)
    requires i < n && count == i + 1 && EdgesWithin(edges, n) && Partitioned(n, st, i) && Seeded(st.clusters, i)
    requires Greedy(st.clusters, edges)
    ensures Seeded(ClusterStep(edges, st, i).clusters, count)
    ensures Greedy(ClusterStep(edges, st, i).clusters, edges)
  {
    StepSeeded(n, edges, st, i, count);
    if !st.taken[i] {
      var added := Gather(i, edges, st.taken[i := true]).0;
      NewClusterGreedy(n, edges, st, i);
      GreedyAppend(st.clusters, [i] + added, edges);
    }
  }

  /** What the outer loop keeps after nodes `0..i`. */
  ghost predicate ClusterInvariant(n: nat, edges: seq<(nat, nat)>, st: Clustering, i: nat)
  {
    Partitioned(n, st, i) && Seeded(st.clusters, i) && Stars(st.clusters, edges) && Greedy(st.clusters, edges)
  }

  /** The turn for node `count - 1` takes the invariant from `count - 1` nodes
      to `count`. */
  lemma StepInvariant(n: nat, edges: seq<(nat, nat)>, st: Clustering, count: nat, next: Clustering)
    requires 0 < count <= n && EdgesWithin(edges, n) && ClusterInvariant(n, edges, st, count - 1)
    requires next == ClusterStep(edges, st, count - 1)
    ensures ClusterInvariant(n, edges, next, count)
  {
    StepPartitioned(n, edges, st, count - 1, count);
    StepStars(n, edges, st, count - 1);
    StepGreedy(n, edges, st, count - 1, count);
    assert ClusterInvariant(n, edges, ClusterStep(edges, st, count - 1), count);
  }

  lemma {:induction false} ClustersUpToInvariant(n: nat, edges: seq<(nat, nat)>, i: nat)
    requires i <= n && EdgesWithin(edges, n)
    ensures ClusterInvariant(n, edges, ClustersUpTo(n, edges, i), i)
  {
    if i == 0 {
      InitialInvariant(n, edges);
    } else {
      ClustersUpToInvariant(n, edges, i - 1);
      StepInvariant(n, edges, ClustersUpTo(n, edges, i - 1), i, ClustersUpTo(n, edges, i));
    }
  }

  /** Before the loop: no clusters and no flags set. */
  lemma InitialInvariant(n: nat, edges: seq<(nat, nat)>)
    requires EdgesWithin(edges, n)
    ensures ClusterInvariant(n, edges, ClustersUpTo(n, edges, 0), 0)
  {
    var st := ClustersUpTo(n, edges, 0);
    assert Flatten(st.clusters) == [];
    assert forall v :: 0 <= v < n ==> !st.taken[v];
  }

  /** Every node below a cluster's seed lies in an earlier cluster: each seed
      is the lowest node not yet clustered. */
  ghost predicate LowestSeeds(cs: seq<seq<nat>>)
    requires forall c :: 0 <= c < |cs| ==> |cs[c]| >= 1
  {
    forall c, v :: 0 <= c < |cs| && 0 <= v < cs[c][0] ==> v in Flatten(cs[..c])
  }

  /** The members after each seed come in the order of their first edge to it. */
  ghost predicate EdgeOrdered(cs: seq<seq<nat>>, edges: seq<(nat, nat)>)
    requires forall c :: 0 <= c < |cs| ==> |cs[c]| >= 1
  {
    forall c, m, m' :: 0 <= c < |cs| && 1 <= m < m' < |cs[c]| ==>
      FirstLink(cs[c][0], cs[c][m], edges) < FirstLink(cs[c][0], cs[c][m'], edges)
  }

  ghost predicate OrderInvariant(cs: seq<seq<nat>>, edges: seq<(nat, nat)>)
  {
    (forall c :: 0 <= c < |cs| ==> |cs[c]| >= 1) && LowestSeeds(cs) && EdgeOrdered(cs, edges)
  }

  /** The turn for node `i` keeps seeds lowest and members in edge order. */
  lemma StepOrder(n: nat, edges: seq<(nat, nat)>, i: nat)
    requires 0 < i <= n && EdgesWithin(edges, n)
    requires OrderInvariant(ClustersUpTo(n, edges, i - 1).clusters, edges)
    ensures OrderInvariant(ClustersUpTo(n, edges, i).clusters, edges)
  {
    var st := ClustersUpTo(n, edges, i - 1);
    assert ClustersUpTo(n, edges, i) == ClusterStep(edges, st, i - 1);
    if !st.taken[i - 1] {
      var added := Gather(i - 1, edges, st.taken[i - 1 := true]).0;
      assert ClustersUpTo(n, edges, i).clusters == st.clusters + [[i - 1] + added];
      ClustersUpToBelow(n, edges, i - 1);
      GatherInEdgeOrder(i - 1, edges, st.taken[i - 1 := true]);
      NewClusterOrdered(edges, st.clusters, i - 1, added);
    }
  }

  /** Appending a cluster seeded at `i`, when every node below `i` is already
      clustered and the other members come in edge order, keeps the order
      invariant. */
  lemma NewClusterOrdered(edges: seq<(nat, nat)>, cs: seq<seq<nat>>, i: nat, added: seq<nat>)
    requires forall v :: 0 <= v < i ==> v in Flatten(cs)
    requires forall j, j' :: 0 <= j < j' < |added| ==> FirstLink(i, added[j], edges) < FirstLink(i, added[j'], edges)
    requires OrderInvariant(cs, edges)
    ensures OrderInvariant(cs + [[i] + added], edges)
  {
    StepLowestSeeds(cs, i, added);
    StepEdgeOrdered(edges, cs, i, added);
  }

  /** A new cluster seeded at `i`, when every node below `i` is already
      clustered, keeps the seeds lowest. */
  lemma StepLowestSeeds(cs: seq<seq<nat>>, i: nat, added: seq<nat>)
    requires forall v :: 0 <= v < i ==> v in Flatten(cs)
    requires forall c :: 0 <= c < |cs| ==> |cs[c]| >= 1
    requires LowestSeeds(cs)
    ensures var cs' := cs + [[i] + added];
      (forall c :: 0 <= c < |cs'| ==> |cs'[c]| >= 1) && LowestSeeds(cs')
  {
    var cs' := cs + [[i] + added];
    forall c, v | 0 <= c < |cs'| && 0 <= v < cs'[c][0] ensures v in Flatten(cs'[..c]) {
      if c < |cs| {
        assert cs'[..c] == cs[..c] && cs'[c] == cs[c];
      } else {
        assert cs'[..c] == cs;
      }
    }
  }

  /** A new cluster made of `i` and the nodes the edge loop gathered for it,
      in the order of their first edge to `i`, keeps every cluster's members
      in edge order. */
  lemma StepEdgeOrdered(edges: seq<(nat, nat)>, cs: seq<seq<nat>>, i: nat, added: seq<nat>)
    requires forall j, j' :: 0 <= j < j' < |added| ==> FirstLink(i, added[j], edges) < FirstLink(i, added[j'], edges)
    requires forall c :: 0 <= c < |cs| ==> |cs[c]| >= 1
    requires EdgeOrdered(cs, edges)
    ensures var cs' := cs + [[i] + added];
      (forall c :: 0 <= c < |cs'| ==> |cs'[c]| >= 1) && EdgeOrdered(cs', edges)
  {
    var cs' := cs + [[i] + added];
    forall c, m, m' | 0 <= c < |cs'| && 1 <= m < m' < |cs'[c]|
      ensures FirstLink(cs'[c][0], cs'[c][m], edges) < FirstLink(cs'[c][0], cs'[c][m'], edges)
    {
      if c < |cs| {
        assert cs'[c] == cs[c];
        assert FirstLink(cs[c][0], cs[c][m], edges) < FirstLink(cs[c][0], cs[c][m'], edges);
      } else {
        assert cs'[c][0] == i && cs'[c][m] == added[m - 1] && cs'[c][m'] == added[m' - 1];
        assert FirstLink(i, added[m - 1], edges) < FirstLink(i, added[m' - 1], edges);
      }
    }
  }

  lemma {:induction false} ClustersUpToOrdered(n: nat, edges: seq<(nat, nat)>, i: nat)
    requires i <= n && EdgesWithin(edges, n)
    ensures OrderInvariant(ClustersUpTo(n, edges, i).clusters, edges)
  {
    if i > 0 {
      ClustersUpToOrdered(n, edges, i - 1);
      StepOrder(n, edges, i);
    }
  }

  /** After the turns for nodes `0..i`, every node below `i` is clustered. */
  lemma ClustersUpToBelow(n: nat, edges: seq<(nat, nat)>, i: nat)
    requires i <= n && EdgesWithin(edges, n)
    ensures forall v :: 0 <= v < i ==> v in Flatten(ClustersUpTo(n, edges, i).clusters)
  {
    ClustersUpToInvariant(n, edges, i);
  }

  /** The clusters partition the nodes: every node index lies in exactly one
      cluster, at exactly one place. */
  lemma ClustersPartition(n: nat, edges: seq<(nat, nat)>)
    requires EdgesWithin(edges, n)
    ensures NoDup(Flatten(Clusters(n, edges)))
    ensures forall v: nat :: v in Flatten(Clusters(n, edges)) <==> v < n
  {
    ClustersUpToInvariant(n, edges, n);
  }

  /** Each cluster is a star around its seed: the seed comes first, seeds
      increase from cluster to cluster, every other member shares an edge with
      the seed, and every node sharing an edge with a seed is in that seed's
      cluster or an earlier one. Each seed is the lowest node not in an earlier
      cluster, and the other members follow in the order of their first edge to
      the seed. With `ClustersPartition` this fixes the clusters completely. */
  lemma ClustersAreStars(n: nat, edges: seq<(nat, nat)>)
    requires EdgesWithin(edges, n)
    ensures var cs := Clusters(n, edges);
      (forall c :: 0 <= c < |cs| ==> |cs[c]| >= 1) &&
      (forall c, d :: 0 <= c < d < |cs| ==> cs[c][0] < cs[d][0]) &&
      (forall c, m :: 0 <= c < |cs| && 1 <= m < |cs[c]| ==> Linked(cs[c][0], cs[c][m], edges)) &&
      (forall c, k :: 0 <= c < |cs| && 0 <= k < |edges| && edges[k].0 == cs[c][0] ==>
        edges[k].1 in Flatten(cs[..c + 1])) &&
      (forall c, k :: 0 <= c < |cs| && 0 <= k < |edges| && edges[k].1 == cs[c][0] ==>
        edges[k].0 in Flatten(cs[..c + 1])) &&
      (forall c, v :: 0 <= c < |cs| && 0 <= v < cs[c][0] ==> v in Flatten(cs[..c])) &&
      (forall c, m, m' :: 0 <= c < |cs| && 1 <= m < m' < |cs[c]| ==>
        FirstLink(cs[c][0], cs[c][m], edges) < FirstLink(cs[c][0], cs[c][m'], edges))
  {
    ClustersUpToInvariant(n, edges, n);
    ClustersUpToOrdered(n, edges, n);
  }

  /** The edge loop of `initial_placement` for seed `i`, over the flag array. */
  method GatherNeighbours(i: nat, edges: seq<(nat, nat)>, taken: array<bool>) returns (added: seq<nat>)
    requires EdgesWithin(edges, taken.Length)
    modifies taken
    ensures (added, taken[..]) == Gather(i, edges, old(taken[..]))
  {
    added := [];
    assert edges[..0] == [];
    for k := 0 to |edges|
      invariant (added, taken[..]) == Gather(i, edges[..k], old(taken[..]))
    {
      assert edges[..k + 1][..k] == edges[..k];
      var (a, b) := edges[k];
      if a == i && !taken[b] {
        added := added + [b];
        taken[b] := true;
      } else if b == i && !taken[a] {
        added := added + [a];
        taken[a] := true;
      }
    }
    assert edges[..|edges|] == edges;
  }

  /** The clustering loops of `initial_placement`, over a flag array. */
  method ClusterNodes(n: nat, edges: seq<(nat, nat)>) returns (clusters: seq<seq<nat>>)
    requires EdgesWithin(edges, n)
    ensures clusters == Clusters(n, edges)
  {
    clusters := [];
    var taken := new bool[n](_ => false);
    assert taken[..] == seq(n, _ => false);
    for i := 0 to n
      invariant Clustering(clusters, taken[..]) == ClustersUpTo(n, edges, i)
    {
      if taken[i] {
        continue;
      }
      taken[i] := true;
      var added := GatherNeighbours(i, edges, taken);
      clusters := clusters + [[i] + added];
    }
  }

  // ------------------------------------------------------------------ columns

  /** `a` and `b` hold as many nodes, pairwise of the same size. */
  predicate SameSizes(a: seq<Node>, b: seq<Node>)
  {
    |a| == |b| && forall i :: 0 <= i < |a| ==> a[i].size == b[i].size
  }

  predicate IndicesWithin(cluster: seq<nat>, n: nat)
  {
    forall m :: 0 <= m < |cluster| ==> cluster[m] < n
  }

  /** The fold `max_by` over the member widths, or 100 for an empty cluster. */
  function ColumnWidth(nodes: seq<Node>, cluster: seq<nat>): real
    requires IndicesWithin(cluster, |nodes|)
  {
    if |cluster| == 0 then 100.0
    else if |cluster| == 1 then nodes[cluster[0]].size.width
    else Max(ColumnWidth(nodes, cluster[..|cluster| - 1]), nodes[cluster[|cluster| - 1]].size.width)
  }

  /** A column is as wide as its widest member, and 100 when it is empty. */
  lemma {:induction false} ColumnWidthIsMax(nodes: seq<Node>, cluster: seq<nat>)
    requires IndicesWithin(cluster, |nodes|)
    ensures |cluster| == 0 ==> ColumnWidth(nodes, cluster) == 100.0
    ensures forall m :: 0 <= m < |cluster| ==> nodes[cluster[m]].size.width <= ColumnWidth(nodes, cluster)
    ensures |cluster| > 0 ==>
      exists m :: 0 <= m < |cluster| && ColumnWidth(nodes, cluster) == nodes[cluster[m]].size.width
  {
    if |cluster| > 1 {
      var init := cluster[..|cluster| - 1];
      ColumnWidthIsMax(nodes, init);
      assert forall m :: 0 <= m < |init| ==> init[m] == cluster[m];
    }
  }

  /** The column loop: members of `cluster` go to `x`, stacked down from `y`,
      each `minSpacing` below the bottom of the one before. */
  function PlaceColumn(nodes: seq<Node>, cluster: seq<nat>, x: real, y: real, minSpacing: real): (r: seq<Node>)
    requires IndicesWithin(cluster, |nodes|)
    ensures |r| == |nodes|
    decreases |cluster|
  {
    if |cluster| == 0 then nodes
    else
      var v := cluster[0];
      PlaceColumn(nodes[v := nodes[v].(position := Position(x, y))], cluster[1..], x,
                  y + nodes[v].size.height + minSpacing, minSpacing)
  }

  /** The cluster loop: one column per cluster, left to right, each
      `minSpacing` right of the widest member of the one before. */
  function PlaceAll(nodes: seq<Node>, clusters: seq<seq<nat>>, x: real, minSpacing: real): (r: seq<Node>)
    requires forall c :: 0 <= c < |clusters| ==> IndicesWithin(clusters[c], |nodes|)
    ensures |r| == |nodes|
    decreases |clusters|
  {
    if |clusters| == 0 then nodes
    else
      var placed := PlaceColumn(nodes, clusters[0], x, 0.0, minSpacing);
      PlaceAll(placed, clusters[1..], x + ColumnWidth(placed, clusters[0]) + minSpacing, minSpacing)
  }

  /** The positions `initial_placement` gives the nodes. */
  function PlacedNodes(nodes: seq<Node>, edges: seq<(nat, nat)>, minSpacing: real): (r: seq<Node>)
    requires EdgesWithin(edges, |nodes|)
    ensures OnlyPositions(nodes, r)
  {
    PlaceAllOnlyPositions(nodes, Clusters(|nodes|, edges), 0.0, minSpacing);
    PlaceAll(nodes, Clusters(|nodes|, edges), 0.0, minSpacing)
  }

  lemma {:induction false} PlaceColumnOnlyPositions(nodes: seq<Node>, cluster: seq<nat>, x: real, y: real, minSpacing: real)
    requires IndicesWithin(cluster, |nodes|)
    ensures OnlyPositions(nodes, PlaceColumn(nodes, cluster, x, y, minSpacing))
    decreases |cluster|
  {
    if |cluster| > 0 {
      var v := cluster[0];
      PlaceColumnOnlyPositions(nodes[v := nodes[v].(position := Position(x, y))], cluster[1..], x,
                               y + nodes[v].size.height + minSpacing, minSpacing);
    }
  }

  lemma PlaceColumnSameSizes(nodes: seq<Node>, cluster: seq<nat>, x: real, y: real, minSpacing: real)
    requires IndicesWithin(cluster, |nodes|)
    ensures SameSizes(nodes, PlaceColumn(nodes, cluster, x, y, minSpacing))
  {
    var r := PlaceColumn(nodes, cluster, x, y, minSpacing);
    PlaceColumnOnlyPositions(nodes, cluster, x, y, minSpacing);
    assert forall i :: 0 <= i < |nodes| ==> r[i].size == nodes[i].size;
  }

  lemma {:induction false} PlaceAllOnlyPositions(nodes: seq<Node>, cs: seq<seq<nat>>, x: real, minSpacing: real)
    requires forall c :: 0 <= c < |cs| ==> IndicesWithin(cs[c], |nodes|)
    ensures OnlyPositions(nodes, PlaceAll(nodes, cs, x, minSpacing))
    decreases |cs|
  {
    if |cs| > 0 {
      var placed := PlaceColumn(nodes, cs[0], x, 0.0, minSpacing);
      PlaceColumnOnlyPositions(nodes, cs[0], x, 0.0, minSpacing);
      PlaceAllOnlyPositions(placed, cs[1..], x + ColumnWidth(placed, cs[0]) + minSpacing, minSpacing);
    }
  }


  lemma ClusterIndices(cs: seq<seq<nat>>, n: nat)
    requires forall v: nat :: v in Flatten(cs) ==> v < n
    ensures forall c :: 0 <= c < |cs| ==> IndicesWithin(cs[c], n)
  {
    forall c, m | 0 <= c < |cs| && 0 <= m < |cs[c]| ensures cs[c][m] < n {
      FlattenHas(cs, c, m);
    }
  }

  lemma {:induction false} FlattenHas<T>(cs: seq<seq<T>>, c: nat, m: nat)
    requires c < |cs| && m < |cs[c]|
    ensures cs[c][m] in Flatten(cs)
  {
    var init := cs[..|cs| - 1];
    if c < |init| {
      assert cs[c] == init[c];
      FlattenHas(init, c, m);
    }
  }

  /** The widest-member fold of `initial_placement` over one placed cluster. */
  method MeasureColumn(nodes: array<Node>, cluster: seq<nat>) returns (width: real)
    requires IndicesWithin(cluster, nodes.Length)
    ensures width == ColumnWidth(nodes[..], cluster)
  {
    if |cluster| == 0 {
      return 100.0;
    }
    width := nodes[cluster[0]].size.width;
    for m := 1 to |cluster|
      invariant width == ColumnWidth(nodes[..], cluster[..m])
    {
      assert cluster[..m + 1][..m] == cluster[..m];
      width := Max(width, nodes[cluster[m]].size.width);
    }
    assert cluster[..|cluster|] == cluster;
  }

  /** The column loop of `initial_placement` for one cluster at `x`. */
  method StackColumn(minSpacing: real, nodes: array<Node>, cluster: seq<nat>, x: real)
    requires IndicesWithin(cluster, nodes.Length)
    modifies nodes
    ensures nodes[..] == PlaceColumn(old(nodes[..]), cluster, x, 0.0, minSpacing)
  {
    var y := 0.0;
    for m := 0 to |cluster|
      invariant PlaceColumn(nodes[..], cluster[m..], x, y, minSpacing) ==
                PlaceColumn(old(nodes[..]), cluster, x, 0.0, minSpacing)
    {
      assert cluster[m..][1..] == cluster[m + 1..];
      var v := cluster[m];
      nodes[v] := nodes[v].(position := Position(x, y));
      y := y + nodes[v].size.height + minSpacing;
    }
  }

  /** `initial_placement`: cluster the nodes, then set every node position,
      column by column. */
  method InitialPlacement(config: Config, nodes: array<Node>, edges: seq<(nat, nat)>)
    requires EdgesWithin(edges, nodes.Length)
    modifies nodes
    ensures nodes[..] == PlacedNodes(old(nodes[..]), edges, config.minSpacing)
  {
    var clusters := ClusterNodes(nodes.Length, edges);
    var x := 0.0;
    for c := 0 to |clusters|
      invariant PlaceAll(nodes[..], clusters[c..], x, config.minSpacing) ==
                PlacedNodes(old(nodes[..]), edges, config.minSpacing)
    {
      var cluster := clusters[c];
      StackColumn(config.minSpacing, nodes, cluster, x);
      assert clusters[c..][1..] == clusters[c + 1..];
      var width := MeasureColumn(nodes, cluster);
      x := x + width + config.minSpacing;
    }
  }

  // ------------------------------------------------------- where nodes land

  /** The y of the `m`-th member of a column started at 0: the first member
      is at 0 and each next one sits the previous member's height plus
      `minSpacing` lower. */
  function ColumnOffset(nodes: seq<Node>, cluster: seq<nat>, m: nat, minSpacing: real): real
    requires IndicesWithin(cluster, |nodes|) && m <= |cluster|
  {
    if m == 0 then 0.0
    else ColumnOffset(nodes, cluster, m - 1, minSpacing) + nodes[cluster[m - 1]].size.height + minSpacing
  }

  /** The x of the `c`-th column: the widths of the earlier columns, each
      plus `minSpacing`. */
  function ColumnX(nodes: seq<Node>, cs: seq<seq<nat>>, c: nat, minSpacing: real): real
    requires forall d :: 0 <= d < |cs| ==> IndicesWithin(cs[d], |nodes|)
    requires c <= |cs|
  {
    if c == 0 then 0.0
    else ColumnX(nodes, cs, c - 1, minSpacing) + ColumnWidth(nodes, cs[c - 1]) + minSpacing
  }

  lemma {:induction false} ColumnWidthSizesOnly(a: seq<Node>, b: seq<Node>, cluster: seq<nat>)
    requires SameSizes(a, b) && IndicesWithin(cluster, |a|)
    ensures ColumnWidth(a, cluster) == ColumnWidth(b, cluster)
  {
    if |cluster| > 1 {
      var init := cluster[..|cluster| - 1];
      assert forall m :: 0 <= m < |init| ==> init[m] == cluster[m];
      ColumnWidthSizesOnly(a, b, init);
    }
  }

  lemma {:induction false} ColumnOffsetSizesOnly(a: seq<Node>, b: seq<Node>, cluster: seq<nat>, m: nat, minSpacing: real)
    requires SameSizes(a, b) && IndicesWithin(cluster, |a|) && m <= |cluster|
    ensures ColumnOffset(a, cluster, m, minSpacing) == ColumnOffset(b, cluster, m, minSpacing)
  {
    if m > 0 {
      ColumnOffsetSizesOnly(a, b, cluster, m - 1, minSpacing);
    }
  }

  /** Dropping the first member shifts every later offset up by that
      member's height plus `minSpacing`. */
  lemma {:induction false} ColumnOffsetTail(nodes: seq<Node>, cluster: seq<nat>, m: nat, minSpacing: real)
    requires IndicesWithin(cluster, |nodes|) && 0 < |cluster| && m < |cluster|
    ensures ColumnOffset(nodes, cluster, m + 1, minSpacing) ==
            nodes[cluster[0]].size.height + minSpacing + ColumnOffset(nodes, cluster[1..], m, minSpacing)
  {
    if m > 0 {
      ColumnOffsetTail(nodes, cluster, m - 1, minSpacing);
    }
  }

  lemma {:induction false} ColumnXTail(nodes: seq<Node>, cs: seq<seq<nat>>, c: nat, minSpacing: real)
    requires forall d :: 0 <= d < |cs| ==> IndicesWithin(cs[d], |nodes|)
    requires 0 < |cs| && c < |cs|
    ensures ColumnX(nodes, cs, c + 1, minSpacing) ==
            ColumnWidth(nodes, cs[0]) + minSpacing + ColumnX(nodes, cs[1..], c, minSpacing)
  {
    if c > 0 {
      ColumnXTail(nodes, cs, c - 1, minSpacing);
    }
  }

  lemma {:induction false} ColumnXSizesOnly(a: seq<Node>, b: seq<Node>, cs: seq<seq<nat>>, c: nat, minSpacing: real)
    requires SameSizes(a, b) && forall d :: 0 <= d < |cs| ==> IndicesWithin(cs[d], |a|)
    requires c <= |cs|
    ensures ColumnX(a, cs, c, minSpacing) == ColumnX(b, cs, c, minSpacing)
  {
    if c > 0 {
      ColumnXSizesOnly(a, b, cs, c - 1, minSpacing);
      ColumnWidthSizesOnly(a, b, cs[c - 1]);
    }
  }

  /** The column loop leaves every node outside the cluster as it was. */
  lemma {:induction false} PlaceColumnKeeps(nodes: seq<Node>, cluster: seq<nat>, x: real, y: real, minSpacing: real, v: nat)
    requires IndicesWithin(cluster, |nodes|) && v < |nodes| && v !in cluster
    ensures PlaceColumn(nodes, cluster, x, y, minSpacing)[v] == nodes[v]
    decreases |cluster|
  {
    if |cluster| > 0 {
      var u := cluster[0];
      assert v !in cluster[1..];
      PlaceColumnKeeps(nodes[u := nodes[u].(position := Position(x, y))], cluster[1..], x,
                       y + nodes[u].size.height + minSpacing, minSpacing, v);
    }
  }

  /** The column loop moves the `m`-th member of the cluster to `x` and to
      `y` plus its offset in the column. */
  lemma {:induction false} PlaceColumnMoves(nodes: seq<Node>, cluster: seq<nat>, x: real, y: real, minSpacing: real, m: nat)
    requires IndicesWithin(cluster, |nodes|) && NoDup(cluster) && m < |cluster|
    ensures PlaceColumn(nodes, cluster, x, y, minSpacing)[cluster[m]].position ==
            Position(x, y + ColumnOffset(nodes, cluster, m, minSpacing))
    decreases |cluster|
  {
    var v := cluster[0];
    var moved := nodes[v := nodes[v].(position := Position(x, y))];
    var rest := cluster[1..];
    var y' := y + nodes[v].size.height + minSpacing;
    if m == 0 {
      assert v !in rest by {
        forall q | 0 <= q < |rest| ensures rest[q] != v {
          assert rest[q] == cluster[q + 1];
        }
      }
      PlaceColumnKeeps(moved, rest, x, y', minSpacing, v);
    } else {
      assert NoDup(rest) by {
        forall p, q | 0 <= p < q < |rest| ensures rest[p] != rest[q] {
          assert rest[p] == cluster[p + 1] && rest[q] == cluster[q + 1];
        }
      }
      assert cluster[m] == rest[m - 1];
      PlaceColumnMoves(moved, rest, x, y', minSpacing, m - 1);
      assert SameSizes(nodes, moved);
      ColumnOffsetSizesOnly(nodes, moved, rest, m - 1, minSpacing);
      ColumnOffsetTail(nodes, cluster, m - 1, minSpacing);
    }
  }

  lemma {:induction false} FlattenCons<T>(cs: seq<seq<T>>)
    requires 0 < |cs|
    ensures Flatten(cs) == cs[0] + Flatten(cs[1..])
  {
    if |cs| > 1 {
      var init := cs[..|cs| - 1];
      FlattenCons(init);
      assert init[1..] == cs[1..][..|cs[1..]| - 1];
    } else {
      assert cs[1..] == [];
    }
  }

  lemma NoDupSplit<T>(a: seq<T>, b: seq<T>)
    requires NoDup(a + b)
    ensures NoDup(a) && NoDup(b) && forall x :: x in a ==> x !in b
  {
    assert forall p :: 0 <= p < |a| ==> (a + b)[p] == a[p];
    assert forall q :: 0 <= q < |b| ==> (a + b)[|a| + q] == b[q];
  }

  /** The cluster loop leaves every node outside the clusters as it was. */
  lemma {:induction false} PlaceAllKeeps(nodes: seq<Node>, cs: seq<seq<nat>>, x: real, minSpacing: real, v: nat)
    requires forall c :: 0 <= c < |cs| ==> IndicesWithin(cs[c], |nodes|)
    requires NoDup(Flatten(cs)) && v < |nodes| && v !in Flatten(cs)
    ensures PlaceAll(nodes, cs, x, minSpacing)[v] == nodes[v]
    decreases |cs|
  {
    if |cs| > 0 {
      var placed := PlaceColumn(nodes, cs[0], x, 0.0, minSpacing);
      FlattenCons(cs);
      NoDupSplit(cs[0], Flatten(cs[1..]));
      PlaceColumnKeeps(nodes, cs[0], x, 0.0, minSpacing, v);
      PlaceAllKeeps(placed, cs[1..], x + ColumnWidth(placed, cs[0]) + minSpacing, minSpacing, v);
    }
  }

  lemma PlaceAllStep(nodes: seq<Node>, cs: seq<seq<nat>>, x: real, minSpacing: real)
    requires forall d :: 0 <= d < |cs| ==> IndicesWithin(cs[d], |nodes|)
    requires 0 < |cs|
    ensures var placed := PlaceColumn(nodes, cs[0], x, 0.0, minSpacing);
      PlaceAll(nodes, cs, x, minSpacing) ==
      PlaceAll(placed, cs[1..], x + ColumnWidth(placed, cs[0]) + minSpacing, minSpacing)
  {
  }

  lemma PlaceAllMovesFirst(nodes: seq<Node>, cs: seq<seq<nat>>, x: real, minSpacing: real, m: nat)
    requires forall d :: 0 <= d < |cs| ==> IndicesWithin(cs[d], |nodes|)
    requires NoDup(Flatten(cs)) && 0 < |cs| && m < |cs[0]|
    ensures PlaceAll(nodes, cs, x, minSpacing)[cs[0][m]].position ==
            Position(x, ColumnOffset(nodes, cs[0], m, minSpacing))
  {
    var placed := PlaceColumn(nodes, cs[0], x, 0.0, minSpacing);
    var rest := cs[1..];
    var v := cs[0][m];
    var x' := x + ColumnWidth(placed, cs[0]) + minSpacing;
    assert v !in Flatten(rest) && NoDup(Flatten(rest)) && NoDup(cs[0]) by {
      FlattenCons(cs);
      NoDupSplit(cs[0], Flatten(rest));
      assert v in cs[0];
    }
    var r := PlaceAll(placed, rest, x', minSpacing);
    PlaceAllStep(nodes, cs, x, minSpacing);
    assert r[v] == placed[v] by {
      PlaceAllKeeps(placed, rest, x', minSpacing, v);
    }
    assert placed[v].position == Position(x, ColumnOffset(nodes, cs[0], m, minSpacing)) by {
      PlaceColumnMoves(nodes, cs[0], x, 0.0, minSpacing, m);
    }
  }

  /** The cluster loop moves the `m`-th member of the `c`-th cluster to the
      `c`-th column's x and to its offset in the column. */
  lemma {:induction false} PlaceAllMoves(nodes: seq<Node>, cs: seq<seq<nat>>, x: real, minSpacing: real, c: nat, m: nat)
    requires forall d :: 0 <= d < |cs| ==> IndicesWithin(cs[d], |nodes|)
    requires NoDup(Flatten(cs)) && c < |cs| && m < |cs[c]|
    ensures PlaceAll(nodes, cs, x, minSpacing)[cs[c][m]].position ==
            Position(x + ColumnX(nodes, cs, c, minSpacing), ColumnOffset(nodes, cs[c], m, minSpacing))
    decreases |cs|
  {
    if c == 0 {
      PlaceAllMovesFirst(nodes, cs, x, minSpacing, m);
    } else {
      var placed := PlaceColumn(nodes, cs[0], x, 0.0, minSpacing);
      var rest := cs[1..];
      var x' := x + ColumnWidth(placed, cs[0]) + minSpacing;
      assert cs[c] == rest[c - 1];
      assert NoDup(Flatten(rest)) by {
        FlattenCons(cs);
        NoDupSplit(cs[0], Flatten(rest));
      }
      PlaceAllMoves(placed, rest, x', minSpacing, c - 1, m);
      PlaceColumnSameSizes(nodes, cs[0], x, 0.0, minSpacing);
      ColumnWidthSizesOnly(nodes, placed, cs[0]);
      ColumnXSizesOnly(nodes, placed, rest, c - 1, minSpacing);
      ColumnXTail(nodes, cs, c - 1, minSpacing);
      ColumnOffsetSizesOnly(nodes, placed, cs[c], m, minSpacing);
    }
  }

  // ------------------------------------------------- the placement promises

  lemma {:induction false} FlattenIndex<T>(cs: seq<seq<T>>, v: T) returns (c: nat, m: nat)
    requires v in Flatten(cs)
    ensures c < |cs| && m < |cs[c]| && cs[c][m] == v
  {
    var init := cs[..|cs| - 1];
    if v in Flatten(init) {
      c, m := FlattenIndex(init, v);
      assert cs[c] == init[c];
    } else {
      c := |cs| - 1;
      m :| 0 <= m < |cs[c]| && cs[c][m] == v;
    }
  }

  /** Where `initial_placement` puts the `m`-th member of the `c`-th
      cluster: at the x of its column and its offset in the column. */
  lemma PlacementPosition(nodes: seq<Node>, edges: seq<(nat, nat)>, minSpacing: real, c: nat, m: nat)
    requires EdgesWithin(edges, |nodes|)
    requires c < |Clusters(|nodes|, edges)| && m < |Clusters(|nodes|, edges)[c]|
    ensures var cs := Clusters(|nodes|, edges);
      PlacedNodes(nodes, edges, minSpacing)[cs[c][m]].position ==
      Position(ColumnX(nodes, cs, c, minSpacing), ColumnOffset(nodes, cs[c], m, minSpacing))
  {
    ClustersPartition(|nodes|, edges);
    PlaceAllMoves(nodes, Clusters(|nodes|, edges), 0.0, minSpacing, c, m);
  }

  predicate SizesNonNegative(nodes: seq<Node>)
  {
    forall i :: 0 <= i < |nodes| ==> nodes[i].size.width >= 0.0 && nodes[i].size.height >= 0.0
  }

  /** Two node bodies that do not overlap: one lies wholly left of or above
      the other. */
  predicate Apart(a: Node, b: Node)
  {
    a.position.x + a.size.width <= b.position.x || b.position.x + b.size.width <= a.position.x ||
    a.position.y + a.size.height <= b.position.y || b.position.y + b.size.height <= a.position.y
  }

  lemma {:induction false} ColumnOffsetMonotone(nodes: seq<Node>, cluster: seq<nat>, m1: nat, m2: nat, minSpacing: real)
    requires IndicesWithin(cluster, |nodes|) && SizesNonNegative(nodes) && minSpacing >= 0.0
    requires m1 <= m2 <= |cluster|
    ensures ColumnOffset(nodes, cluster, m1, minSpacing) <= ColumnOffset(nodes, cluster, m2, minSpacing)
  {
    if m1 < m2 {
      ColumnOffsetMonotone(nodes, cluster, m1, m2 - 1, minSpacing);
    }
  }

  lemma {:induction false} ColumnXMonotone(nodes: seq<Node>, cs: seq<seq<nat>>, c1: nat, c2: nat, minSpacing: real)
    requires forall d :: 0 <= d < |cs| ==> IndicesWithin(cs[d], |nodes|)
    requires SizesNonNegative(nodes) && minSpacing >= 0.0 && c1 <= c2 <= |cs|
    ensures ColumnX(nodes, cs, c1, minSpacing) <= ColumnX(nodes, cs, c2, minSpacing)
  {
    if c1 < c2 {
      ColumnXMonotone(nodes, cs, c1, c2 - 1, minSpacing);
      ColumnWidthIsMax(nodes, cs[c2 - 1]);
    }
  }

  /** Every node lands at non-negative coordinates when no size and not the
      spacing is negative. */
  lemma PlacementNonNegative(nodes: seq<Node>, edges: seq<(nat, nat)>, minSpacing: real)
    requires EdgesWithin(edges, |nodes|) && SizesNonNegative(nodes) && minSpacing >= 0.0
    ensures forall v :: 0 <= v < |nodes| ==>
      PlacedNodes(nodes, edges, minSpacing)[v].position.x >= 0.0 &&
      PlacedNodes(nodes, edges, minSpacing)[v].position.y >= 0.0
  {
    var cs := Clusters(|nodes|, edges);
    ClustersPartition(|nodes|, edges);
    forall v: nat | v < |nodes|
      ensures PlacedNodes(nodes, edges, minSpacing)[v].position.x >= 0.0
      ensures PlacedNodes(nodes, edges, minSpacing)[v].position.y >= 0.0
    {
      var c, m := FlattenIndex(cs, v);
      PlacementPosition(nodes, edges, minSpacing, c, m);
      ColumnXMonotone(nodes, cs, 0, c, minSpacing);
      ColumnOffsetMonotone(nodes, cs[c], 0, m, minSpacing);
    }
  }

  /** A member placed below another in the same column clears its bottom. */
  lemma SameColumnApart(nodes: seq<Node>, edges: seq<(nat, nat)>, minSpacing: real, c: nat, m1: nat, m2: nat)
    requires EdgesWithin(edges, |nodes|) && SizesNonNegative(nodes) && minSpacing >= 0.0
    requires c < |Clusters(|nodes|, edges)| && m1 < m2 < |Clusters(|nodes|, edges)[c]|
    ensures var r := PlacedNodes(nodes, edges, minSpacing);
      var cluster := Clusters(|nodes|, edges)[c];
      r[cluster[m1]].position.y + r[cluster[m1]].size.height <= r[cluster[m2]].position.y
  {
    var cluster := Clusters(|nodes|, edges)[c];
    PlacementPosition(nodes, edges, minSpacing, c, m1);
    PlacementPosition(nodes, edges, minSpacing, c, m2);
    ColumnOffsetMonotone(nodes, cluster, m1 + 1, m2, minSpacing);
    assert PlacedNodes(nodes, edges, minSpacing)[cluster[m1]].size == nodes[cluster[m1]].size;
  }

  /** A member of an earlier column ends left of every member of a later one. */
  lemma EarlierColumnApart(nodes: seq<Node>, edges: seq<(nat, nat)>, minSpacing: real, c1: nat, m1: nat, c2: nat, m2: nat)
    requires EdgesWithin(edges, |nodes|) && SizesNonNegative(nodes) && minSpacing >= 0.0
    requires c1 < c2 < |Clusters(|nodes|, edges)|
    requires m1 < |Clusters(|nodes|, edges)[c1]| && m2 < |Clusters(|nodes|, edges)[c2]|
    ensures var r := PlacedNodes(nodes, edges, minSpacing);
      var cs := Clusters(|nodes|, edges);
      r[cs[c1][m1]].position.x + r[cs[c1][m1]].size.width <= r[cs[c2][m2]].position.x
  {
    var cs := Clusters(|nodes|, edges);
    PlacementPosition(nodes, edges, minSpacing, c1, m1);
    PlacementPosition(nodes, edges, minSpacing, c2, m2);
    ColumnXMonotone(nodes, cs, c1 + 1, c2, minSpacing);
    ColumnWidthIsMax(nodes, cs[c1]);
    assert PlacedNodes(nodes, edges, minSpacing)[cs[c1][m1]].size == nodes[cs[c1][m1]].size;
  }

  /** No two placed node bodies overlap when no size and not the spacing is
      negative. */
  lemma PlacementApart(nodes: seq<Node>, edges: seq<(nat, nat)>, minSpacing: real, v: nat, w: nat)
    requires EdgesWithin(edges, |nodes|) && SizesNonNegative(nodes) && minSpacing >= 0.0
    requires v < |nodes| && w < |nodes| && v != w
    ensures Apart(PlacedNodes(nodes, edges, minSpacing)[v], PlacedNodes(nodes, edges, minSpacing)[w])
  {
    var cs := Clusters(|nodes|, edges);
    ClustersPartition(|nodes|, edges);
    var cv, mv := FlattenIndex(cs, v);
    var cw, mw := FlattenIndex(cs, w);
    if cv < cw {
      EarlierColumnApart(nodes, edges, minSpacing, cv, mv, cw, mw);
    } else if cw < cv {
      EarlierColumnApart(nodes, edges, minSpacing, cw, mw, cv, mv);
    } else if mv < mw {
      SameColumnApart(nodes, edges, minSpacing, cv, mv, mw);
    } else {
      assert mw < mv;
      SameColumnApart(nodes, edges, minSpacing, cv, mw, mv);
    }
  }
}
