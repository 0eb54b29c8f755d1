/**
 * The fetch callback's use of the builder (app.js): a root over all the raw
 * boxes with nodeId 1 and parentId 0, constructBvh on it, and the walk that
 * turns the finished hierarchy into the BVH layer.
 */
module Layer {
  import opened Geometry
  import opened Tree
  import opened Cluster
  import opened Bvh
  import opened Flatten

  /**
   * One raw box per input extent (bboxes.map, each with its own extent):
   * raw boxes only, and their extents are the input extents, in order.
   */
  function Boxes(extents: seq<Box>): (ns: seq<Node>)
    ensures |ns| == |extents|
    ensures forall i :: 0 <= i < |ns| ==> ns[i] == Leaf(extents[i])
    ensures Extents(ns) == extents
  {
    seq(|extents|, i requires 0 <= i < |extents| => Leaf(extents[i]))
  }

  /**
   * Builds the hierarchy over the boxes under the root extent `extent` and
   * flattens it with the root numbered 1 and its parent 0: the layer has one
   * feature per node, the root's first, the boxes are exactly the leaves, and
   * the final depth is the height of the hierarchy.
   */
  method BuildLayer(m: Measures, extent: Box, extents: seq<Box>) returns (bvh: Node, features: seq<Record>, depth: nat)
    ensures bvh == Build(m, extent, Boxes(extents))
    ensures multiset(Leaves(bvh)) == multiset(Boxes(extents))
    ensures Flattened(bvh, 1, 0, features, depth)
    ensures features[0].nodeId == 1 && features[0].parentId == 0 && features[0].extent == extent
    ensures extents != [] && extent == Enclose(extents) ==> Tight(bvh)
  {
    var root := Inner(extent, Boxes(extents));
    bvh := ConstructBvh(m, root);
    BuildKeepsBoxes(m, extent, Boxes(extents));
    if extents != [] && extent == Enclose(extents) {
      BoxesTight(m, extent, extents);
    }
    features, depth := FlattenBvh(bvh, 1, 0);
  }

  /**
   * When the root extent is the union of the boxes (turf.extent of the whole
   * collection), every node of the hierarchy has exactly the extent of its
   * direct children.
   */
  lemma BoxesTight(m: Measures, extent: Box, extents: seq<Box>)
    requires extents != [] && extent == Enclose(extents)
    ensures Tight(Build(m, extent, Boxes(extents)))
  {
    BuildTight(m, extent, Boxes(extents));
  }

  /**
   * A single box is not returned as a bare leaf: the root keeps it as its one
   * child, so the layer has two features, the box one level below the root.
   */
  lemma SingleBoxLayer(m: Measures, extent: Box, b: Box, features: seq<Record>, depth: nat)
    requires Flattened(Build(m, extent, Boxes([b])), 1, 0, features, depth)
    ensures |features| == 2 && depth == 2
    ensures features[1] == Record(b, 2, 2, 1)
  {
    SingleBoxTree(m, extent, b);
    assert ParentLink(features, LevelOrder([Build(m, extent, Boxes([b]))]), 1, 1);
  }

  /** The hierarchy over a single box: the root over that box, two nodes on two levels. */
  lemma SingleBoxTree(m: Measures, extent: Box, b: Box)
    ensures var root := Build(m, extent, Boxes([b]));
      root == Inner(extent, [Leaf(b)]) && Size(root) == 2 && Height(root) == 2 &&
      LevelOrder([root]) == [root, Leaf(b)]
  {
    var leaf := Leaf(b);
    var root := Build(m, extent, Boxes([b]));
    assert Boxes([b]) == [leaf];
    assert [leaf][..0] == [];
    assert SizeOf([leaf]) == SizeOf([]) + Size(leaf);
    assert MaxHeight([leaf]) == Max(MaxHeight([]), Height(leaf));
    assert Children([root]) == [leaf] by {
      assert [root][..0] == [];
    }
    assert Children([leaf]) == [];
    assert LevelOrder([root]) == [root] + LevelOrder([leaf]);
    assert LevelOrder([leaf]) == [leaf] + LevelOrder([]);
  }

  /** A non-empty list whose nodes all have height `h` has height `h`. */
  lemma {:induction false} MaxHeightSame(ns: seq<Node>, h: nat)
    requires ns != [] && forall i :: 0 <= i < |ns| ==> Height(ns[i]) == h
    ensures MaxHeight(ns) == h
    decreases |ns|
  {
    var init := ns[..|ns| - 1];
    if init != [] {
      MaxHeightSame(init, h);
    }
  }

  /**
   * Two boxes give three levels: each is wrapped in an intermediate of its
   * own, which has a single member and is therefore left as it is.
   */
  lemma TwoBoxesHeight(m: Measures, extent: Box, a: Box, b: Box)
    ensures Height(Build(m, extent, Boxes([a, b]))) == 3
  {
    var r := Build(m, extent, Boxes([a, b]));
    forall i | 0 <= i < |r.nodes| ensures Height(r.nodes[i]) == 2 {
      TwoBoxesChild(m, extent, a, b, i);
    }
    MaxHeightSame(r.nodes, 2);
  }

  /** Child i of the root over two boxes is an intermediate over one of them. */
  lemma TwoBoxesChild(m: Measures, extent: Box, a: Box, b: Box, i: int)
    requires 0 <= i < |Build(m, extent, Boxes([a, b])).nodes|
    ensures Height(Build(m, extent, Boxes([a, b])).nodes[i]) == 2
  {
    var leaves := Boxes([a, b]);
    BuildChild(m, extent, leaves, i);
    var x := TwoBoxesGroup(m, extent, a, b, i);
    WrappedLeaf(Build(m, extent, leaves).nodes[i], x);
  }

  /** With two boxes, every group is a single box. */
  lemma TwoBoxesGroup(m: Measures, extent: Box, a: Box, b: Box, i: int) returns (x: Node)
    requires 0 <= i < |Split(m, extent, Boxes([a, b]))|
    ensures Split(m, extent, Boxes([a, b]))[i] == [x] && x.Leaf?
  {
    var leaves := Boxes([a, b]);
    var g := Split(m, extent, leaves)[i];
    x := g[0];
    assert g == [x];
    GroupMember(m, extent, leaves, i, x);
  }

  /** A node holding one raw box has height 2. */
  lemma WrappedLeaf(c: Node, x: Node)
    requires c.Inner? && c.nodes == [x] && x.Leaf?
    ensures Height(c) == 2
  {
    assert [x][..0] == [];
    assert MaxHeight([x]) == Max(MaxHeight([]), Height(x));
  }
}
