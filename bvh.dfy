/**
 * constructBvh and canSplit (app.js): replace a node's children by one
 * intermediate node per group of splitNodes, and recurse into the
 * intermediates whose area is above the minimum.
 */
module Bvh {
  import opened Geometry
  import opened Tree
  import opened Cluster

  /** canSplit: the node's footprint is above 2500 squared. */
  predicate CanSplit(m: Measures, node: Node) {
    MinArea < m.area(node.extent)
  }

  /** The intermediate node made for one group: the members under their extent. */
  function Intermediate(g: seq<Node>): Node
    requires g != []
  {
    Inner(Bound(g), g)
  }

  function Intermediates(gs: seq<seq<Node>>): (ns: seq<Node>)
    requires NonEmptyGroups(gs)
    ensures |ns| == |gs|
    ensures forall k :: 0 <= k < |gs| ==> ns[k] == Intermediate(gs[k])
  {
    seq(|gs|, k requires 0 <= k < |gs| => Intermediate(gs[k]))
  }

  /** Every node of `ns` has children, fewer than `bound` of them. */
  predicate SmallerThan(ns: seq<Node>, bound: nat) {
    forall i :: 0 <= i < |ns| ==> ns[i].Inner? && |ns[i].nodes| < bound
  }

  /**
   * constructBvh on a node with the given extent and children. A node with at
   * most one child is an end node and comes back unchanged; otherwise its
   * children become the intermediates of its groups, in group order.
   */
  function Build(m: Measures, extent: Box, ns: seq<Node>): (r: Node)
    ensures r.Inner? && r.extent == extent
    ensures |ns| <= 1 ==> r == Inner(extent, ns)
    ensures |ns| >= 2 ==> |r.nodes| == |Split(m, extent, ns)| >= 2
    decreases |ns|, 1
  {
    if |ns| <= 1 then Inner(extent, ns)
    else
      var gs := Split(m, extent, ns);
      Inner(extent, Expand(m, Intermediates(gs), |ns|))
  }

  /** The second map of constructBvh: recurse into each intermediate that canSplit admits. */
  function Expand(m: Measures, inters: seq<Node>, bound: nat): (r: seq<Node>)
    requires SmallerThan(inters, bound)
    ensures |r| == |inters|
    ensures forall i :: 0 <= i < |r| ==> r[i].Inner? && r[i].extent == inters[i].extent
    decreases bound, 0, |inters|
  {
    if inters == [] then []
    else
      var init, n := inters[..|inters| - 1], inters[|inters| - 1];
      Expand(m, init, bound) + [if CanSplit(m, n) then Build(m, n.extent, n.nodes) else n]
  }

  lemma {:induction false} ExpandAt(m: Measures, inters: seq<Node>, bound: nat, i: int)
    requires SmallerThan(inters, bound) && 0 <= i < |inters|
    ensures Expand(m, inters, bound)[i] ==
      if CanSplit(m, inters[i]) then Build(m, inters[i].extent, inters[i].nodes) else inters[i]
    decreases |inters|
  {
    var init := inters[..|inters| - 1];
    if i < |inters| - 1 {
      ExpandAt(m, init, bound, i);
    }
  }

  /**
   * constructBvh as the program runs it: end nodes come back as they are;
   * otherwise `nodes` is overwritten first with the intermediates and then
   * with the intermediates after recursion.
   */
  method ConstructBvh(m: Measures, node: Node) returns (r: Node)
    requires node.Inner?
    ensures r == Build(m, node.extent, node.nodes)
    decreases |node.nodes|, 1
  {
    if |node.nodes| <= 1 {
      return node;
    }
    var groups := SplitNodes(m, node.extent, node.nodes);
    var intermediates := MakeIntermediates(groups);
    r := node.(nodes := intermediates);
    var expanded := ExpandNodes(m, r.nodes, |node.nodes|);
    r := r.(nodes := expanded);
  }

  /** The first map of constructBvh: an intermediate node per group. */
  method MakeIntermediates(groups: seq<seq<Node>>) returns (ns: seq<Node>)
    requires NonEmptyGroups(groups)
    ensures ns == Intermediates(groups)
  {
    ns := [];
    for k := 0 to |groups|
      invariant ns == Intermediates(groups)[..k]
    {
      ns := ns + [Inner(Bound(groups[k]), groups[k])];
    }
  }

  /** The second map of constructBvh, calling it back on each intermediate canSplit admits. */
  method ExpandNodes(m: Measures, inters: seq<Node>, bound: nat) returns (expanded: seq<Node>)
    requires SmallerThan(inters, bound)
    ensures expanded == Expand(m, inters, bound)
    decreases bound, 0
  {
    expanded := [];
    for k := 0 to |inters|
      invariant expanded == Expand(m, inters[..k], bound)
    {
      var n := inters[k];
      assert inters[..k + 1][..k] == inters[..k];
      if CanSplit(m, n) {
        var sub := ConstructBvh(m, n);
        expanded := expanded + [sub];
      } else {
        expanded := expanded + [n];
      }
    }
    assert inters[..|inters|] == inters;
  }

  /**
   * Child i of a split node is the intermediate of group i, with that
   * group's extent; whether it is expanded further is decided by canSplit
   * alone, and an intermediate canSplit rejects keeps its members.
   */
  lemma BuildChild(m: Measures, extent: Box, ns: seq<Node>, i: int)
    requires |ns| >= 2 && 0 <= i < |Split(m, extent, ns)|
    ensures var g, c := Split(m, extent, ns)[i], Build(m, extent, ns).nodes[i];
      c.Inner? && c.extent == Bound(g) &&
      (!CanSplit(m, Intermediate(g)) ==> c.nodes == g) &&
      (CanSplit(m, Intermediate(g)) ==> c == Build(m, Bound(g), g))
  {
    var gs := Split(m, extent, ns);
    IntermediatesSmaller(m, extent, ns);
    ExpandAt(m, Intermediates(gs), |ns|, i);
  }

  /** Every member of a group is one of the children that were split. */
  lemma GroupMember(m: Measures, extent: Box, ns: seq<Node>, k: int, x: Node)
    requires 0 <= k < |Split(m, extent, ns)| && x in Split(m, extent, ns)[k]
    ensures x in ns
  {
    var gs := Split(m, extent, ns);
    ConcatMembers(gs, x);
    assert x in multiset(Concat(gs));
  }

  /** Construction neither loses nor duplicates a leaf. */
  lemma {:induction false} BuildLeaves(m: Measures, extent: Box, ns: seq<Node>)
    ensures multiset(LeavesOf(Build(m, extent, ns).nodes)) == multiset(LeavesOf(ns))
    decreases |ns|, 1
  {
    if |ns| >= 2 {
      var gs := Split(m, extent, ns);
      var inters := Intermediates(gs);
      IntermediatesSmaller(m, extent, ns);
      assert Build(m, extent, ns).nodes == Expand(m, inters, |ns|);
      ExpandLeaves(m, inters, |ns|);
      IntermediatesLeaves(gs);
      LeavesOfPermutation(Concat(gs), ns);
    }
  }

  /** Each intermediate of a split holds fewer nodes than were split. */
  lemma IntermediatesSmaller(m: Measures, extent: Box, ns: seq<Node>)
    requires |ns| >= 2
    ensures SmallerThan(Intermediates(Split(m, extent, ns)), |ns|)
  {
  }

  /** The intermediates have, side by side, the leaves of all group members. */
  lemma IntermediatesLeaves(gs: seq<seq<Node>>)
    requires NonEmptyGroups(gs)
    ensures LeavesOf(Intermediates(gs)) == LeavesOf(Concat(gs))
  {
    var inters := Intermediates(gs);
    forall k | 0 <= k < |gs| ensures Leaves(inters[k]) == LeavesOf(gs[k]) { }
    LeavesOfConcat(gs, inters);
  }

  lemma {:induction false} ExpandLeaves(m: Measures, inters: seq<Node>, bound: nat)
    requires SmallerThan(inters, bound)
    ensures multiset(LeavesOf(Expand(m, inters, bound))) == multiset(LeavesOf(inters))
    decreases bound, 0, |inters|
  {
    if inters != [] {
      var init, n := inters[..|inters| - 1], inters[|inters| - 1];
      ExpandLeaves(m, init, bound);
      var r := Expand(m, inters, bound);
      var r0 := Expand(m, init, bound);
      assert r == r0 + [r[|r| - 1]];
      assert r[..|r| - 1] == r0;
      if CanSplit(m, n) {
        BuildLeaves(m, n.extent, n.nodes);
      }
    }
  }

  lemma {:induction false} LeavesOfLeaves(ns: seq<Node>)
    requires forall i :: 0 <= i < |ns| ==> ns[i].Leaf?
    ensures LeavesOf(ns) == ns
    decreases |ns|
  {
    if ns != [] {
      LeavesOfLeaves(ns[..|ns| - 1]);
      assert ns == ns[..|ns| - 1] + [ns[|ns| - 1]];
    }
  }

  /** Built from raw boxes, the tree's leaves are exactly those boxes. */
  lemma BuildKeepsBoxes(m: Measures, extent: Box, boxes: seq<Node>)
    requires forall i :: 0 <= i < |boxes| ==> boxes[i].Leaf?
    ensures multiset(Leaves(Build(m, extent, boxes))) == multiset(boxes)
  {
    BuildLeaves(m, extent, boxes);
    LeavesOfLeaves(boxes);
  }

  /** Side by side, the intermediates have the extent of all the group members together. */
  lemma BoundOfIntermediates(gs: seq<seq<Node>>)
    requires NonEmptyGroups(gs) && gs != []
    ensures Concat(gs) != []
    ensures Bound(Intermediates(gs)) == Bound(Concat(gs))
  {
    var all := Concat(gs);
    var inters := Intermediates(gs);
    ConcatLengthAtLeast(gs, 0);
    var e := Bound(all);
    var bs := Extents(inters);
    BoundCoversGroups(gs);
    var ab := Extents(all);
    var p0 :| 0 <= p0 < |ab| && ab[p0].minX == e.minX;
    var p1 :| 0 <= p1 < |ab| && ab[p1].minY == e.minY;
    var p2 :| 0 <= p2 < |ab| && ab[p2].maxX == e.maxX;
    var p3 :| 0 <= p3 < |ab| && ab[p3].maxY == e.maxY;
    var k0 := GroupOf(gs, p0);
    var k1 := GroupOf(gs, p1);
    var k2 := GroupOf(gs, p2);
    var k3 := GroupOf(gs, p3);
    assert bs[k0].minX == e.minX && bs[k1].minY == e.minY && bs[k2].maxX == e.maxX && bs[k3].maxY == e.maxY;
    EncloseUnique(bs, e);
  }

  /** The extent of all members covers the extent of each group. */
  lemma BoundCoversGroups(gs: seq<seq<Node>>)
    requires NonEmptyGroups(gs) && Concat(gs) != []
    ensures CoversAll(Bound(Concat(gs)), Extents(Intermediates(gs)))
  {
    var all := Concat(gs);
    var e := Bound(all);
    var bs := Extents(Intermediates(gs));
    forall k | 0 <= k < |gs| ensures Contains(e, bs[k]) {
      forall j | 0 <= j < |gs[k]| ensures Contains(e, Extents(gs[k])[j]) {
        ConcatMembers(gs, gs[k][j]);
        var p :| 0 <= p < |all| && all[p] == gs[k][j];
        assert Extents(all)[p] == gs[k][j].extent;
      }
    }
  }

  /** A member of the concatenation lies inside the extent of the group it came from. */
  lemma GroupOf(gs: seq<seq<Node>>, p: int) returns (k: int)
    requires NonEmptyGroups(gs) && 0 <= p < |Concat(gs)|
    ensures 0 <= k < |gs| && Contains(Bound(gs[k]), Concat(gs)[p].extent)
  {
    var x := Concat(gs)[p];
    ConcatMembers(gs, x);
    k :| 0 <= k < |gs| && x in gs[k];
    var j :| 0 <= j < |gs[k]| && gs[k][j] == x;
    assert Extents(gs[k])[j] == x.extent;
  }

  /** Two node lists holding the same nodes have the same extent. */
  lemma BoundSameNodes(a: seq<Node>, b: seq<Node>)
    requires a != [] && multiset(a) == multiset(b)
    ensures b != [] && Bound(a) == Bound(b)
  {
    assert |b| == |multiset(b)| == |a|;
    forall i | 0 <= i < |a| ensures Extents(a)[i] in Extents(b) {
      assert a[i] in multiset(b);
      var j :| 0 <= j < |b| && b[j] == a[i];
      assert Extents(b)[j] == a[i].extent;
    }
    forall j | 0 <= j < |b| ensures Extents(b)[j] in Extents(a) {
      assert b[j] in multiset(a);
      var i :| 0 <= i < |a| && a[i] == b[j];
      assert Extents(a)[i] == b[j].extent;
    }
    EncloseSameElements(Extents(a), Extents(b));
  }

  /**
   * Construction keeps every node tight: every intermediate it creates, and
   * every node it expands, has exactly the extent of its direct children.
   */
  lemma {:induction false} BuildTight(m: Measures, extent: Box, ns: seq<Node>)
    requires forall i :: 0 <= i < |ns| ==> Tight(ns[i])
    ensures forall i :: 0 <= i < |Build(m, extent, ns).nodes| ==> Tight(Build(m, extent, ns).nodes[i])
    ensures ns != [] && extent == Bound(ns) ==> Tight(Build(m, extent, ns))
    decreases |ns|, 1
  {
    if |ns| >= 2 {
      var gs := Split(m, extent, ns);
      var inters := Intermediates(gs);
      IntermediatesSmaller(m, extent, ns);
      forall k | 0 <= k < |gs| ensures Tight(inters[k]) {
        forall j | 0 <= j < |gs[k]| ensures Tight(gs[k][j]) {
          GroupMember(m, extent, ns, k, gs[k][j]);
        }
      }
      ExpandTight(m, inters, |ns|);
      var r := Build(m, extent, ns);
      if extent == Bound(ns) {
        ExpandExtents(m, inters, |ns|);
        BoundOfIntermediates(gs);
        BoundSameNodes(Concat(gs), ns);
      }
    }
  }

  lemma ExpandExtents(m: Measures, inters: seq<Node>, bound: nat)
    requires SmallerThan(inters, bound) && inters != []
    ensures Bound(Expand(m, inters, bound)) == Bound(inters)
  {
    assert Extents(Expand(m, inters, bound)) == Extents(inters);
  }

  lemma {:induction false} ExpandTight(m: Measures, inters: seq<Node>, bound: nat)
    requires SmallerThan(inters, bound)
    requires forall i :: 0 <= i < |inters| ==> Tight(inters[i])
    ensures forall i :: 0 <= i < |inters| ==> Tight(Expand(m, inters, bound)[i])
    decreases bound, 0, |inters|
  {
    if inters != [] {
      var init, n := inters[..|inters| - 1], inters[|inters| - 1];
      var r, r0 := Expand(m, inters, bound), Expand(m, init, bound);
      ExpandTight(m, init, bound);
      assert r == r0 + [r[|r| - 1]];
      if CanSplit(m, n) {
        BuildTight(m, n.extent, n.nodes);
      }
      assert Tight(r[|r| - 1]);
      forall i | 0 <= i < |r| - 1 ensures Tight(r[i]) {
        assert r[i] == r0[i];
      }
    }
  }

  /**
   * A node below the root as construction leaves it: an intermediate that
   * canSplit admits and that had two or more members holds only further
   * intermediates; every other intermediate holds raw boxes directly.
   */
  ghost predicate Settled(m: Measures, n: Node)
    decreases n
  {
    match n
    case Leaf(_) => true
    case Inner(_, cs) =>
      cs != [] &&
      if CanSplit(m, n) && |cs| >= 2 then
        forall i :: 0 <= i < |cs| ==> cs[i].Inner? && Settled(m, cs[i])
      else
        forall i :: 0 <= i < |cs| ==> cs[i].Leaf?
  }

  /**
   * Built from raw boxes, a root with two or more of them holds only
   * intermediates, and every node below it is settled: recursion went exactly
   * into the intermediates with more than one member and area above the
   * minimum.
   */
  lemma {:induction false} BuildSettled(m: Measures, extent: Box, ns: seq<Node>)
    requires forall i :: 0 <= i < |ns| ==> ns[i].Leaf?
    ensures var r := Build(m, extent, ns);
      forall i :: 0 <= i < |r.nodes| ==> Settled(m, r.nodes[i]) && (|ns| >= 2 <==> r.nodes[i].Inner?)
    decreases |ns|, 1
  {
    if |ns| >= 2 {
      forall k | 0 <= k < |Build(m, extent, ns).nodes|
        ensures Settled(m, Build(m, extent, ns).nodes[k]) && Build(m, extent, ns).nodes[k].Inner?
      {
        SettledChild(m, extent, ns, k);
      }
    }
  }

  /** Child k of a node built from two or more raw boxes is a settled intermediate. */
  lemma {:induction false} SettledChild(m: Measures, extent: Box, ns: seq<Node>, k: int)
    requires forall i :: 0 <= i < |ns| ==> ns[i].Leaf?
    requires |ns| >= 2 && 0 <= k < |Build(m, extent, ns).nodes|
    ensures Settled(m, Build(m, extent, ns).nodes[k]) && Build(m, extent, ns).nodes[k].Inner?
    decreases |ns|, 0
  {
    var gs := Split(m, extent, ns);
    var g, c := gs[k], Build(m, extent, ns).nodes[k];
    BuildChild(m, extent, ns, k);
    forall j | 0 <= j < |g| ensures g[j].Leaf? {
      GroupMember(m, extent, ns, k, g[j]);
    }
    assert CanSplit(m, c) == CanSplit(m, Intermediate(g));
    if CanSplit(m, c) && |g| >= 2 {
      BuildSettled(m, Bound(g), g);
    }
  }
}
