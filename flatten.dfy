/**
 * The level-by-level walk over the finished hierarchy (app.js) that turns
 * every node into one feature of the BVH layer: its extent, its level
 * (`depth`), a fresh `nodeId`, and the `nodeId` of its parent. The walk
 * ends after the first level that has no children, and its last level
 * number is the maximum depth.
 */
module Flatten {
  import opened Geometry
  import opened Tree

  /** One feature of the BVH layer. */
  datatype Record = Record(extent: Box, depth: nat, nodeId: int, parentId: int)

  /** A node on the current level with the identifiers the walk attached to it. */
  datatype Visit = Visit(node: Node, nodeId: int, parentId: int)

  /** A raw box has no `nodes` and contributes no children. */
  function ChildrenOf(n: Node): seq<Node> {
    if n.Inner? then n.nodes else []
  }

  /** The children of a level, parent by parent, in order. */
  function Children(ns: seq<Node>): seq<Node>
    decreases |ns|
  {
    if ns == [] then [] else Children(ns[..|ns| - 1]) + ChildrenOf(ns[|ns| - 1])
  }

  function Nodes(vs: seq<Visit>): (ns: seq<Node>)
    ensures |ns| == |vs|
    ensures forall i {:trigger ns[i]} :: 0 <= i < |vs| ==> ns[i] == vs[i].node
    decreases |vs|
  {
    if vs == [] then [] else Nodes(vs[..|vs| - 1]) + [vs[|vs| - 1].node]
  }

  lemma {:induction false} SizeOfAppend(a: seq<Node>, b: seq<Node>)
    ensures SizeOf(a + b) == SizeOf(a) + SizeOf(b)
    decreases |b|
  {
    if b == [] {
      assert a + b == a;
    } else {
      assert (a + b)[..|a + b| - 1] == a + b[..|b| - 1];
      SizeOfAppend(a, b[..|b| - 1]);
    }
  }

  /** Every node of a level is counted once, and the rest are below it. */
  lemma {:induction false} SizeOfChildren(ns: seq<Node>)
    ensures SizeOf(ns) == |ns| + SizeOf(Children(ns))
    decreases |ns|
  {
    if ns != [] {
      var init := ns[..|ns| - 1];
      SizeOfChildren(init);
      SizeOfAppend(Children(init), ChildrenOf(ns[|ns| - 1]));
    }
  }

  lemma {:induction false} MaxHeightAppend(a: seq<Node>, b: seq<Node>)
    ensures MaxHeight(a + b) == Max(MaxHeight(a), MaxHeight(b))
    decreases |b|
  {
    if b == [] {
      assert a + b == a;
    } else {
      assert (a + b)[..|a + b| - 1] == a + b[..|b| - 1];
      MaxHeightAppend(a, b[..|b| - 1]);
    }
  }

  /** A non-empty level is one level above the tallest of its children. */
  lemma {:induction false} MaxHeightChildren(ns: seq<Node>)
    requires ns != []
    ensures MaxHeight(ns) == 1 + MaxHeight(Children(ns))
    decreases |ns|
  {
    var init, x := ns[..|ns| - 1], ns[|ns| - 1];
    MaxHeightAppend(Children(init), ChildrenOf(x));
    if init != [] {
      MaxHeightChildren(init);
    }
  }

  /** Breadth-first order: the level itself, then the levels below it. */
  function LevelOrder(ns: seq<Node>): (r: seq<Node>)
    ensures |r| == SizeOf(ns)
    decreases SizeOf(ns)
  {
    if ns == [] then []
    else
      SizeOfChildren(ns);
      ns + LevelOrder(Children(ns))
  }

  /** The features pushed for one level. */
  function LevelRecords(level: seq<Visit>, depth: nat): (rs: seq<Record>)
    ensures |rs| == |level|
    ensures forall i {:trigger rs[i]} :: 0 <= i < |level| ==>
      rs[i] == Record(level[i].node.extent, depth, level[i].nodeId, level[i].parentId)
    decreases |level|
  {
    if level == [] then []
    else
      var v := level[|level| - 1];
      LevelRecords(level[..|level| - 1], depth) + [Record(v.node.extent, depth, v.nodeId, v.parentId)]
  }

  /** Children of one node, numbered consecutively after `last`. */
  function Numbered(cs: seq<Node>, last: int, parent: int): (vs: seq<Visit>)
    ensures |vs| == |cs|
    decreases |cs|
  {
    if cs == [] then []
    else Numbered(cs[..|cs| - 1], last, parent) + [Visit(cs[|cs| - 1], last + |cs|, parent)]
  }

  /** Child j gets the j-th identifier after `last` and names `parent`. */
  lemma {:induction false} NumberedAll(cs: seq<Node>, last: int, parent: int)
    ensures forall j {:trigger Numbered(cs, last, parent)[j]} :: 0 <= j < |cs| ==>
      Numbered(cs, last, parent)[j] == Visit(cs[j], last + 1 + j, parent)
    decreases |cs|
  {
    if cs != [] {
      NumberedAll(cs[..|cs| - 1], last, parent);
    }
  }

  /**
   * The next level with its identifiers, when the last identifier handed
   * out is `last`: one visit per child of this level's nodes (NextLevelNodes,
   * NextLevelIds, NextLevelParents).
   */
  function NextLevel(level: seq<Visit>, last: int): seq<Visit>
    decreases |level|
  {
    if level == [] then []
    else
      var init, v := level[..|level| - 1], level[|level| - 1];
      var front := NextLevel(init, last);
      front + Numbered(ChildrenOf(v.node), last + |front|, v.nodeId)
  }

  /** The next level holds exactly the children of this one, in order. */
  lemma {:induction false} NextLevelNodes(level: seq<Visit>, last: int)
    ensures Nodes(NextLevel(level, last)) == Children(Nodes(level))
    decreases |level|
  {
    if level != [] {
      var init, v := level[..|level| - 1], level[|level| - 1];
      var front := NextLevel(init, last);
      var cs := ChildrenOf(v.node);
      NextLevelNodes(init, last);
      NodesAppend(front, Numbered(cs, last + |front|, v.nodeId));
      NodesNumbered(cs, last + |front|, v.nodeId);
      assert Nodes(level)[..|level| - 1] == Nodes(init);
    }
  }

  lemma NodesAppend(a: seq<Visit>, b: seq<Visit>)
    ensures Nodes(a + b) == Nodes(a) + Nodes(b)
  {
    assert forall i :: 0 <= i < |a + b| ==> Nodes(a + b)[i] == (Nodes(a) + Nodes(b))[i];
  }

  lemma {:induction false} NodesNumbered(cs: seq<Node>, last: int, parent: int)
    ensures Nodes(Numbered(cs, last, parent)) == cs
    decreases |cs|
  {
    if cs != [] {
      var init := cs[..|cs| - 1];
      NodesNumbered(init, last, parent);
      assert cs == init + [cs[|cs| - 1]];
    }
  }

  /** The identifiers of the next level are the ones after `last`, in order. */
  lemma {:induction false} NextLevelIds(level: seq<Visit>, last: int)
    ensures forall j :: 0 <= j < |NextLevel(level, last)| ==> NextLevel(level, last)[j].nodeId == last + 1 + j
    decreases |level|
  {
    if level != [] {
      var init := level[..|level| - 1];
      NextLevelIds(init, last);
      NumberedAll(ChildrenOf(level[|level| - 1].node), last + |NextLevel(init, last)|, level[|level| - 1].nodeId);
    }
  }

  /**
   * Node j of the next level is child j of this level's nodes; its parent
   * identifier is that of the node i of this level it is a child of.
   */
  lemma {:induction false} NextLevelParents(level: seq<Visit>, last: int)
    ensures forall j :: 0 <= j < |NextLevel(level, last)| ==>
      exists i :: 0 <= i < |level| && NextLevel(level, last)[j].parentId == level[i].nodeId &&
        ChildOf(Nodes(level), i, j)
    decreases |level|
  {
    if level != [] {
      var init := level[..|level| - 1];
      NextLevelParents(init, last);
      var front := NextLevel(init, last);
      var next := NextLevel(level, last);
      forall j | 0 <= j < |next|
        ensures exists i :: 0 <= i < |level| && next[j].parentId == level[i].nodeId && ChildOf(Nodes(level), i, j)
      {
        if j < |front| {
          var i :| 0 <= i < |init| && front[j].parentId == init[i].nodeId && ChildOf(Nodes(init), i, j);
          ParentInFront(level, last, j, i);
        } else {
          ParentIsLast(level, last, j);
        }
      }
    } else {
      assert NextLevel(level, last) == [];
    }
  }

  /** A parent found among all but the last node of a level stays the parent. */
  lemma ParentInFront(level: seq<Visit>, last: int, j: int, i: int)
    requires level != [] && 0 <= i < |level| - 1
    requires var front := NextLevel(level[..|level| - 1], last);
      0 <= j < |front| && front[j].parentId == level[..|level| - 1][i].nodeId &&
      ChildOf(Nodes(level[..|level| - 1]), i, j)
    ensures j < |NextLevel(level, last)|
    ensures NextLevel(level, last)[j].parentId == level[i].nodeId && ChildOf(Nodes(level), i, j)
  {
    var init, v := level[..|level| - 1], level[|level| - 1];
    assert Nodes(level) == Nodes(init) + [v.node];
    ChildOfKept(Nodes(init), [v.node], i, j);
  }

  /** The children numbered for the last node of a level name that node as parent. */
  lemma ParentIsLast(level: seq<Visit>, last: int, j: int)
    requires level != [] && |NextLevel(level[..|level| - 1], last)| <= j < |NextLevel(level, last)|
    ensures NextLevel(level, last)[j].parentId == level[|level| - 1].nodeId &&
      ChildOf(Nodes(level), |level| - 1, j)
  {
    var init, v := level[..|level| - 1], level[|level| - 1];
    var front, cs := NextLevel(init, last), ChildrenOf(v.node);
    NextLevelNodes(init, last);
    NumberedAll(cs, last + |front|, v.nodeId);
    assert NextLevel(level, last)[j] == Numbered(cs, last + |front|, v.nodeId)[j - |front|];
    assert Nodes(level) == Nodes(init) + [v.node];
    ChildOfLast(Nodes(init), v.node, j);
  }

  /** The children of the last node of a level are the last of the level's children. */
  lemma ChildOfLast(init: seq<Node>, x: Node, c: int)
    requires |Children(init)| <= c < |Children(init)| + |ChildrenOf(x)|
    ensures ChildOf(init + [x], |init|, c)
  {
    var ns := init + [x];
    assert ns[..|init|] == init;
    assert ns[..|init| + 1] == ns;
    assert ns[..|ns| - 1] == init;
  }

  /** The children of two stretches of a level, one after the other. */
  lemma {:induction false} ChildrenAppend(a: seq<Node>, b: seq<Node>)
    ensures Children(a + b) == Children(a) + Children(b)
    decreases |b|
  {
    if b == [] {
      assert a + b == a;
    } else {
      assert (a + b)[..|a + b| - 1] == a + b[..|b| - 1];
      ChildrenAppend(a, b[..|b| - 1]);
    }
  }

  /** The number of nodes in and below a level. */
  function Pending(level: seq<Visit>): nat
    decreases |level|
  {
    if level == [] then 0 else Pending(level[..|level| - 1]) + Size(level[|level| - 1].node)
  }

  lemma {:induction false} PendingSize(level: seq<Visit>)
    ensures Pending(level) == SizeOf(Nodes(level))
    decreases |level|
  {
    if level != [] {
      PendingSize(level[..|level| - 1]);
    }
  }

  /** The identifiers of a level are consecutive and end with `last`. */
  ghost predicate Numbering(level: seq<Visit>, last: int) {
    forall i :: 0 <= i < |level| ==> level[i].nodeId == last - |level| + 1 + i
  }

  /** The next level is numbered consecutively up to its last identifier. */
  lemma NextNumbering(level: seq<Visit>, last: int)
    ensures Numbering(NextLevel(level, last), last + |NextLevel(level, last)|)
  {
    NextLevelIds(level, last);
  }

  /** Breadth-first order unfolded once. */
  lemma LevelOrderStep(ns: seq<Node>)
    requires ns != []
    ensures LevelOrder(ns) == ns + LevelOrder(Children(ns))
  {
  }

  /** The next level is smaller than this one, so the walk ends. */
  lemma Shrinks(level: seq<Visit>, last: int)
    requires level != []
    ensures Pending(NextLevel(level, last)) < Pending(level)
  {
    NextLevelNodes(level, last);
    SizeOfChildren(Nodes(level));
    PendingSize(level);
    PendingSize(NextLevel(level, last));
  }

  /**
   * Node `c` of `Children(ns)` is a child of `ns[p]`: the children of the
   * nodes before `p` come before it, and it is among those of `ns[p]`.
   */
  ghost predicate ChildOf(ns: seq<Node>, p: int, c: int) {
    0 <= p < |ns| && |Children(ns[..p])| <= c < |Children(ns[..p + 1])|
  }

  /**
   * Feature k names as its parent the feature `parentId - first`, which
   * comes before it and is one level up, and whose node is the one whose
   * children take position k in breadth-first order (position k - 1 of
   * the children of `done`).
   */
  ghost predicate ParentLink(features: seq<Record>, done: seq<Node>, first: int, k: int) {
    0 <= k < |features| && k < |done| &&
    var p := features[k].parentId - first;
    0 <= p < k && features[k].depth == features[p].depth + 1 && ChildOf(done, p, k - 1)
  }

  /**
   * The features pushed so far are those of the nodes `done`, one by one:
   * numbered from `first`, on levels 1 to `depth`, and linked to their parents.
   */
  ghost predicate Pushed(features: seq<Record>, done: seq<Node>, first: int, depth: nat) {
    |features| == |done| &&
    (forall k :: 0 <= k < |features| ==>
      features[k].nodeId == first + k && features[k].extent == done[k].extent && 1 <= features[k].depth <= depth) &&
    (forall k :: 0 < k < |features| ==> ParentLink(features, done, first, k))
  }

  /**
   * `v`, which is child `c` of the nodes `done`, names as its parent the
   * pushed feature on level `depth` of the node it is a child of.
   */
  ghost predicate HasParent(features: seq<Record>, done: seq<Node>, first: int, depth: nat, v: Visit, c: int) {
    exists p :: 0 <= p < |features| && v.parentId == first + p &&
      features[p].depth == depth && ChildOf(done, p, c)
  }

  /**
   * The level about to be pushed: numbered on from the pushed features,
   * holding as many nodes as the pushed nodes have children that are not
   * pushed yet, and each of them, the child `|features| + i - 1` of the
   * pushed nodes, has its parent among the features pushed last.
   */
  ghost predicate Frontier(level: seq<Visit>, last: int, features: seq<Record>, done: seq<Node>, first: int, depth: nat) {
    Numbering(level, last) && last == first + |features| + |level| - 1 &&
    |Children(done)| == |done| + |level| - 1 &&
    (features != [] ==> forall i :: 0 <= i < |level| ==> HasParent(features, done, first, depth, level[i], |features| + i - 1))
  }

  /** Pushing the frontier keeps everything pushed, with the new features linked to their parents. */
  lemma PushKeeps(features: seq<Record>, level: seq<Visit>, last: int, done: seq<Node>, first: int, depth: nat)
    requires Pushed(features, done, first, depth) && Frontier(level, last, features, done, first, depth)
    ensures Pushed(features + LevelRecords(level, depth + 1), done + Nodes(level), first, depth + 1)
  {
    PushNumbers(features, level, last, done, first, depth);
    PushLinks(features, level, last, done, first, depth);
  }

  /** The pushed features stay numbered by position, with the extents of their nodes. */
  lemma PushNumbers(features: seq<Record>, level: seq<Visit>, last: int, done: seq<Node>, first: int, depth: nat)
    requires Pushed(features, done, first, depth)
    requires Numbering(level, last) && last == first + |features| + |level| - 1
    ensures var out, done' := features + LevelRecords(level, depth + 1), done + Nodes(level);
      |out| == |done'| &&
      forall k :: 0 <= k < |out| ==>
        out[k].nodeId == first + k && out[k].extent == done'[k].extent && 1 <= out[k].depth <= depth + 1
  {
    var out, done' := features + LevelRecords(level, depth + 1), done + Nodes(level);
    forall k | 0 <= k < |out|
      ensures out[k].nodeId == first + k && out[k].extent == done'[k].extent && 1 <= out[k].depth <= depth + 1
    {
      if k >= |features| {
        assert out[k] == LevelRecords(level, depth + 1)[k - |features|];
        assert done'[k] == Nodes(level)[k - |features|];
      }
    }
  }

  /** Every pushed feature but the first stays linked to its parent, and so is every new one. */
  lemma PushLinks(features: seq<Record>, level: seq<Visit>, last: int, done: seq<Node>, first: int, depth: nat)
    requires Pushed(features, done, first, depth) && Frontier(level, last, features, done, first, depth)
    ensures var out, done' := features + LevelRecords(level, depth + 1), done + Nodes(level);
      forall k :: 0 < k < |out| ==> ParentLink(out, done', first, k)
  {
    var out, done' := features + LevelRecords(level, depth + 1), done + Nodes(level);
    forall k | 0 < k < |out| ensures ParentLink(out, done', first, k) {
      if k < |features| {
        assert ParentLink(features, done, first, k);
        LinkKept(features, LevelRecords(level, depth + 1), done, Nodes(level), first, k);
      } else {
        var i := k - |features|;
        assert HasParent(features, done, first, depth, level[i], |features| + i - 1);
        LinkNew(features, LevelRecords(level, depth + 1), done, Nodes(level), level[i], first, depth, i);
      }
    }
  }

  /** What is a child of a node stays its child when more nodes follow. */
  lemma ChildOfKept(ns: seq<Node>, more: seq<Node>, p: int, c: int)
    requires ChildOf(ns, p, c)
    ensures ChildOf(ns + more, p, c)
  {
    assert (ns + more)[..p] == ns[..p];
    assert (ns + more)[..p + 1] == ns[..p + 1];
  }

  /** A parent link among pushed features survives further pushes. */
  lemma LinkKept(features: seq<Record>, more: seq<Record>, done: seq<Node>, moreDone: seq<Node>, first: int, k: int)
    requires ParentLink(features, done, first, k)
    ensures ParentLink(features + more, done + moreDone, first, k)
  {
    var out := features + more;
    var p := features[k].parentId - first;
    assert out[k] == features[k] && out[p] == features[p];
    ChildOfKept(done, moreDone, p, k - 1);
  }

  /**
   * A frontier node pushed (as `more[i]`, for node `moreDone[i]`) with its
   * parent's level plus one is linked to its parent.
   */
  lemma LinkNew(features: seq<Record>, more: seq<Record>, done: seq<Node>, moreDone: seq<Node>,
                v: Visit, first: int, depth: nat, i: int)
    requires 0 <= i < |more| == |moreDone| && |features| == |done|
    requires more[i] == Record(v.node.extent, depth + 1, v.nodeId, v.parentId) && moreDone[i] == v.node
    requires HasParent(features, done, first, depth, v, |features| + i - 1)
    ensures ParentLink(features + more, done + moreDone, first, |features| + i)
  {
    var out := features + more;
    var k := |features| + i;
    var p :| 0 <= p < |features| && v.parentId == first + p &&
      features[p].depth == depth && ChildOf(done, p, k - 1);
    assert out[k] == more[i];
    assert out[p] == features[p];
    ChildOfKept(done, moreDone, p, k - 1);
  }

  /** After pushing the frontier, the next level is the frontier. */
  lemma NextFrontier(features: seq<Record>, level: seq<Visit>, last: int, done: seq<Node>, first: int, depth: nat,
                     out: seq<Record>, next: seq<Visit>, newLast: int)
    requires level != [] && Frontier(level, last, features, done, first, depth) && |features| == |done|
    requires out == features + LevelRecords(level, depth + 1)
    requires next == NextLevel(level, last) && newLast == last + |next|
    ensures Frontier(next, newLast, out, done + Nodes(level), first, depth + 1)
  {
    NextNumbering(level, last);
    NextLevelNodes(level, last);
    ChildrenAppend(done, Nodes(level));
    NextParents(features, level, last, done, first, depth);
  }

  /** Each node of the next level has its parent among the frontier's features. */
  lemma NextParents(features: seq<Record>, level: seq<Visit>, last: int, done: seq<Node>, first: int, depth: nat)
    requires Numbering(level, last) && last == first + |features| + |level| - 1 && |features| == |done|
    requires |Children(done)| == |done| + |level| - 1
    ensures forall j :: 0 <= j < |NextLevel(level, last)| ==>
      HasParent(features + LevelRecords(level, depth + 1), done + Nodes(level), first, depth + 1,
        NextLevel(level, last)[j], |features| + |level| + j - 1)
  {
    var next := NextLevel(level, last);
    NextLevelParents(level, last);
    forall j | 0 <= j < |next|
      ensures HasParent(features + LevelRecords(level, depth + 1), done + Nodes(level), first, depth + 1,
        next[j], |features| + |level| + j - 1)
    {
      var i :| 0 <= i < |level| && next[j].parentId == level[i].nodeId && ChildOf(Nodes(level), i, j);
      ParentOnFrontier(features, level, done, first, depth, i, j, next[j]);
    }
  }

  /** Child j of the frontier, a child of its node i, has the feature pushed for that node as its parent. */
  lemma ParentOnFrontier(features: seq<Record>, level: seq<Visit>, done: seq<Node>, first: int, depth: nat,
                         i: int, j: int, v: Visit)
    requires 0 <= i < |level| && |features| == |done| && level[i].nodeId == first + |features| + i
    requires |Children(done)| == |done| + |level| - 1
    requires v.parentId == level[i].nodeId && ChildOf(Nodes(level), i, j)
    ensures HasParent(features + LevelRecords(level, depth + 1), done + Nodes(level), first, depth + 1,
      v, |features| + |level| + j - 1)
  {
    var out, done' := features + LevelRecords(level, depth + 1), done + Nodes(level);
    var p := |features| + i;
    assert out[p] == LevelRecords(level, depth + 1)[i];
    assert done'[..p] == done + Nodes(level)[..i];
    assert done'[..p + 1] == done + Nodes(level)[..i + 1];
    ChildrenAppend(done, Nodes(level)[..i]);
    ChildrenAppend(done, Nodes(level)[..i + 1]);
    assert ChildOf(done', p, |features| + |level| + j - 1);
  }

  /** The breadth-first order still to be pushed moves on by the level just pushed. */
  lemma OrderMoves(done: seq<Node>, level: seq<Visit>, last: int)
    requires level != []
    ensures done + LevelOrder(Nodes(level)) == (done + Nodes(level)) + LevelOrder(Nodes(NextLevel(level, last)))
  {
    LevelOrderStep(Nodes(level));
    NextLevelNodes(level, last);
  }

  /** The levels below a non-empty level are one fewer than those from it. */
  lemma HeightMoves(level: seq<Visit>, last: int)
    requires level != []
    ensures MaxHeight(Nodes(level)) == 1 + MaxHeight(Nodes(NextLevel(level, last)))
  {
    MaxHeightChildren(Nodes(level));
    NextLevelNodes(level, last);
  }

  /**
   * The state of the walk from `root` at the head of the loop: `depth`
   * levels pushed (the nodes `done`), and `level` about to be pushed.
   */
  ghost predicate Walk(root: Node, rootId: int, rootParentId: int,
                       features: seq<Record>, done: seq<Node>, level: seq<Visit>, last: int, depth: nat) {
    level != [] &&
    Pushed(features, done, rootId, depth) &&
    Frontier(level, last, features, done, rootId, depth) &&
    done + LevelOrder(Nodes(level)) == LevelOrder([root]) &&
    depth + MaxHeight(Nodes(level)) == Height(root) &&
    (features == [] ==> level == [Visit(root, rootId, rootParentId)] && depth == 0) &&
    (features != [] ==> features[0] == Record(root.extent, 1, rootId, rootParentId))
  }

  /** The walk starts with nothing pushed and the root as the only node of the first level. */
  lemma WalkStart(root: Node, rootId: int, rootParentId: int)
    ensures Walk(root, rootId, rootParentId, [], [], [Visit(root, rootId, rootParentId)], rootId, 0)
  {
    assert Nodes([Visit(root, rootId, rootParentId)]) == [root];
    assert MaxHeight([root]) == Height(root) by {
      assert [root][..0] == [];
    }
  }

  /** One pass of the loop, which pushes `out` and moves on to a non-empty `next`, keeps the walk's state. */
  lemma WalkOn(root: Node, rootId: int, rootParentId: int,
               features: seq<Record>, done: seq<Node>, level: seq<Visit>, last: int, depth: nat,
               out: seq<Record>, next: seq<Visit>, newLast: int)
    requires Walk(root, rootId, rootParentId, features, done, level, last, depth)
    requires out == features + LevelRecords(level, depth + 1)
    requires next == NextLevel(level, last) && newLast == last + |next| && next != []
    ensures Walk(root, rootId, rootParentId, out, done + Nodes(level), next, newLast, depth + 1)
  {
    PushKeeps(features, level, last, done, rootId, depth);
    NextFrontier(features, level, last, done, rootId, depth, out, next, newLast);
    OrderMoves(done, level, last);
    HeightMoves(level, last);
    FirstRecord(root, rootId, rootParentId, features, level, depth, out);
  }

  /** After a pass that leaves no next level, every node is pushed and the walk is complete. */
  lemma WalkEnd(root: Node, rootId: int, rootParentId: int,
                features: seq<Record>, done: seq<Node>, level: seq<Visit>, last: int, depth: nat,
                out: seq<Record>)
    requires Walk(root, rootId, rootParentId, features, done, level, last, depth)
    requires out == features + LevelRecords(level, depth + 1)
    requires NextLevel(level, last) == []
    ensures Flattened(root, rootId, rootParentId, out, depth + 1)
  {
    var pushed := done + Nodes(level);
    PushKeeps(features, level, last, done, rootId, depth);
    LastLevel(root, done, level, last, depth);
    FirstRecord(root, rootId, rootParentId, features, level, depth, out);
    Finished(out, pushed, root, rootId, rootParentId, depth + 1);
  }

  /** When a level has no children, it completes the breadth-first order and the height. */
  lemma LastLevel(root: Node, done: seq<Node>, level: seq<Visit>, last: int, depth: nat)
    requires level != [] && NextLevel(level, last) == []
    requires done + LevelOrder(Nodes(level)) == LevelOrder([root])
    requires depth + MaxHeight(Nodes(level)) == Height(root)
    ensures done + Nodes(level) == LevelOrder([root]) && depth + 1 == Height(root)
  {
    var pushed := done + Nodes(level);
    OrderMoves(done, level, last);
    HeightMoves(level, last);
    assert Nodes(NextLevel(level, last)) == [];
    assert pushed + [] == pushed;
  }

  /**
   * The layer once the loop has ended: one feature per node of the tree, in
   * breadth-first order, numbered consecutively from the root's id, at depths
   * 1 up to the tree's height; the root comes first with its own parent id, and
   * every other feature k names as parent the feature, one level up, of the
   * node whose children take position k - 1 among the children of the
   * breadth-first order (the node k's node is a child of: LevelOrderRoot).
   */
  ghost predicate Flattened(root: Node, rootId: int, rootParentId: int, features: seq<Record>, depth: nat) {
    |features| == Size(root) && depth == Height(root) &&
    features != [] && features[0] == Record(root.extent, 1, rootId, rootParentId) &&
    (forall k :: 0 <= k < |features| ==>
      features[k].nodeId == rootId + k &&
      features[k].extent == LevelOrder([root])[k].extent &&
      1 <= features[k].depth <= depth) &&
    (forall k :: 0 < k < |features| ==> ParentLink(features, LevelOrder([root]), rootId, k))
  }

  /**
   * The walk from the root: one feature per node in breadth-first order,
   * numbered from the root's identifier, each below the root naming an
   * earlier feature one level up as its parent, and a maximum depth equal
   * to the height of the hierarchy.
   */
  method FlattenBvh(root: Node, rootId: int, rootParentId: int) returns (features: seq<Record>, depth: nat)
    ensures Flattened(root, rootId, rootParentId, features, depth)
  {
    var level := [Visit(root, rootId, rootParentId)];
    features := [];
    depth := 0;
    var newNodeId := rootId;
    ghost var done: seq<Node> := [];
    WalkStart(root, rootId, rootParentId);
    while true
      invariant Walk(root, rootId, rootParentId, features, done, level, newNodeId, depth)
      decreases Pending(level)
    {
      var next;
      ghost var pushed := done + Nodes(level);
      features, next, newNodeId := WalkLevel(root, rootId, rootParentId, features, done, level, newNodeId, depth);
      depth := depth + 1;
      done := pushed;
      if |next| == 0 {
        break;
      }
      level := next;
    }
  }

  /** One pass of the loop (VisitLevel), with the walk's state carried over to the next level. */
  method WalkLevel(root: Node, rootId: int, rootParentId: int,
                   features: seq<Record>, ghost done: seq<Node>, level: seq<Visit>, last: int, depth: nat)
    returns (out: seq<Record>, next: seq<Visit>, newLast: int)
    requires Walk(root, rootId, rootParentId, features, done, level, last, depth)
    ensures next != [] ==> Walk(root, rootId, rootParentId, out, done + Nodes(level), next, newLast, depth + 1)
    ensures next != [] ==> Pending(next) < Pending(level)
    ensures next == [] ==> Flattened(root, rootId, rootParentId, out, depth + 1)
  {
    out, next, newLast := VisitLevel(level, depth + 1, features, last);
    if next != [] {
      WalkOn(root, rootId, rootParentId, features, done, level, last, depth, out, next, newLast);
      Shrinks(level, last);
    } else {
      WalkEnd(root, rootId, rootParentId, features, done, level, last, depth, out);
    }
  }

  /** Once every node is pushed, the pushed features are those of the whole breadth-first order. */
  lemma Finished(features: seq<Record>, done: seq<Node>, root: Node, rootId: int, rootParentId: int, depth: nat)
    requires Pushed(features, done, rootId, depth) && done == LevelOrder([root])
    requires depth == Height(root)
    requires features != [] && features[0] == Record(root.extent, 1, rootId, rootParentId)
    ensures Flattened(root, rootId, rootParentId, features, depth)
  {
    assert SizeOf([root]) == Size(root) by {
      assert [root][..0] == [];
    }
  }

  /** The children of a breadth-first order are the breadth-first order of the children. */
  lemma {:induction false} ChildrenOfLevelOrder(ns: seq<Node>)
    ensures Children(LevelOrder(ns)) == LevelOrder(Children(ns))
    decreases SizeOf(ns)
  {
    if ns != [] {
      var cs := Children(ns);
      SizeOfChildren(ns);
      ChildrenAppend(ns, LevelOrder(cs));
      ChildrenOfLevelOrder(cs);
      if cs != [] {
        LevelOrderStep(cs);
      }
    }
  }

  /** Breadth-first order from the root: the root, then the children of the order itself. */
  lemma LevelOrderRoot(root: Node)
    ensures LevelOrder([root]) == [root] + Children(LevelOrder([root]))
  {
    LevelOrderStep([root]);
    ChildrenOfLevelOrder([root]);
  }

  /** At most one node of a level has child `c` among its children. */
  lemma ChildOfUnique(ns: seq<Node>, p: int, q: int, c: int)
    requires ChildOf(ns, p, c) && ChildOf(ns, q, c)
    ensures p == q
  {
    if p < q {
      assert ns[..q] == ns[..p + 1] + ns[p + 1..q];
      ChildrenAppend(ns[..p + 1], ns[p + 1..q]);
    } else if q < p {
      assert ns[..p] == ns[..q + 1] + ns[q + 1..p];
      ChildrenAppend(ns[..q + 1], ns[q + 1..p]);
    }
  }

  /** Child `c` of a level, when a child of node p, is the matching one among p's children. */
  lemma ChildOfNode(ns: seq<Node>, p: int, c: int)
    requires ChildOf(ns, p, c)
    ensures var o := c - |Children(ns[..p])|;
      0 <= o < |ChildrenOf(ns[p])| && c < |Children(ns)| && Children(ns)[c] == ChildrenOf(ns[p])[o]
  {
    ChildrenSplit(ns, p);
    PickMiddle(Children(ns[..p]), ChildrenOf(ns[p]), Children(ns[p + 1..]), c);
  }

  lemma PickMiddle<T>(x: seq<T>, y: seq<T>, z: seq<T>, c: int)
    requires |x| <= c < |x| + |y|
    ensures (x + y + z)[c] == y[c - |x|]
  {
  }

  /** The children of a level: those of the nodes before p, of p, and of the nodes after it. */
  lemma ChildrenSplit(ns: seq<Node>, p: int)
    requires 0 <= p < |ns|
    ensures Children(ns[..p + 1]) == Children(ns[..p]) + ChildrenOf(ns[p])
    ensures Children(ns) == Children(ns[..p + 1]) + Children(ns[p + 1..])
  {
    assert ns[..p + 1][..p] == ns[..p];
    ChildrenTake(ns, p + 1);
  }

  /** The children of a level, cut after its first i nodes. */
  lemma ChildrenTake(ns: seq<Node>, i: int)
    requires 0 <= i <= |ns|
    ensures Children(ns) == Children(ns[..i]) + Children(ns[i..])
  {
    ChildrenAppend(ns[..i], ns[i..]);
    assert ns[..i] + ns[i..] == ns;
  }

  /**
   * In a flattened layer, feature k > 0 names as parent the feature, one
   * level up, of the node whose children take position k in breadth-first
   * order: that node is unique (ChildOfUnique), and k's node is the
   * matching child of it (LevelOrderAt and ChildOfNode).
   */
  lemma FlattenedParent(root: Node, rootId: int, rootParentId: int, features: seq<Record>, depth: nat, k: int)
    requires Flattened(root, rootId, rootParentId, features, depth) && 0 < k < |features|
    ensures var p := features[k].parentId - rootId;
      0 <= p < k && features[k].depth == features[p].depth + 1 && ChildOf(LevelOrder([root]), p, k - 1)
  {
    assert ParentLink(features, LevelOrder([root]), rootId, k);
  }

  /** Position k > 0 of the breadth-first order from the root is child k - 1 of the order. */
  lemma LevelOrderAt(root: Node, k: int)
    requires 0 < k < |LevelOrder([root])|
    ensures k - 1 < |Children(LevelOrder([root]))| && LevelOrder([root])[k] == Children(LevelOrder([root]))[k - 1]
  {
    LevelOrderRoot(root);
    PickAfter(LevelOrder([root]), root, Children(LevelOrder([root])), k);
  }

  lemma PickAfter<T>(s: seq<T>, x: T, t: seq<T>, k: int)
    requires s == [x] + t && 0 < k < |s|
    ensures k - 1 < |t| && s[k] == t[k - 1]
  {
  }

  /** The first feature pushed is the root's. */
  lemma FirstRecord(root: Node, rootId: int, rootParentId: int,
                    features: seq<Record>, level: seq<Visit>, depth: nat, out: seq<Record>)
    requires level != [] && out == features + LevelRecords(level, depth + 1)
    requires features == [] ==> level == [Visit(root, rootId, rootParentId)] && depth == 0
    requires features != [] ==> features[0] == Record(root.extent, 1, rootId, rootParentId)
    ensures out != [] && out[0] == Record(root.extent, 1, rootId, rootParentId)
  {
  }

  /** One pass of the reduce: push a feature per node and gather the numbered children. */
  method VisitLevel(level: seq<Visit>, depth: nat, features: seq<Record>, last: int)
    returns (out: seq<Record>, next: seq<Visit>, newLast: int)
    ensures out == features + LevelRecords(level, depth)
    ensures next == NextLevel(level, last)
    ensures newLast == last + |next|
  {
    out, next, newLast := features, [], last;
    for i := 0 to |level|
      invariant out == features + LevelRecords(level[..i], depth)
      invariant next == NextLevel(level[..i], last)
      invariant newLast == last + |next|
    {
      out, next, newLast := VisitNode(level, i, depth, features, last, out, next, newLast);
    }
    assert level[..|level|] == level;
  }

  /** The reduce's step for node i: push its feature and append its numbered children. */
  method VisitNode(level: seq<Visit>, i: int, depth: nat, features: seq<Record>, last: int,
                   out: seq<Record>, next: seq<Visit>, newLast: int)
    returns (out': seq<Record>, next': seq<Visit>, newLast': int)
    requires 0 <= i < |level|
    requires out == features + LevelRecords(level[..i], depth)
    requires next == NextLevel(level[..i], last) && newLast == last + |next|
    ensures out' == features + LevelRecords(level[..i + 1], depth)
    ensures next' == NextLevel(level[..i + 1], last) && newLast' == last + |next'|
  {
    var n := level[i];
    VisitStep(level, i, depth, last);
    out' := out + [Record(n.node.extent, depth, n.nodeId, n.parentId)];
    var numbered: seq<Visit> := [];
    newLast' := newLast;
    if n.node.Inner? {
      numbered, newLast' := NumberChildren(n.node.nodes, newLast, n.nodeId);
    }
    assert numbered == Numbered(ChildrenOf(n.node), newLast, n.nodeId);
    next' := next + numbered;
  }

  /** The features and the next level after one more node of the level. */
  lemma VisitStep(level: seq<Visit>, i: int, depth: nat, last: int)
    requires 0 <= i < |level|
    ensures var v := level[i];
      LevelRecords(level[..i + 1], depth) == LevelRecords(level[..i], depth) + [Record(v.node.extent, depth, v.nodeId, v.parentId)]
    ensures var v, front := level[i], NextLevel(level[..i], last);
      NextLevel(level[..i + 1], last) == front + Numbered(ChildrenOf(v.node), last + |front|, v.nodeId)
  {
    assert level[..i + 1][..i] == level[..i];
  }

  /** The inner map: give each child the next identifier and its parent's identifier. */
  method NumberChildren(cs: seq<Node>, last: int, parent: int) returns (vs: seq<Visit>, newLast: int)
    ensures vs == Numbered(cs, last, parent)
    ensures newLast == last + |cs|
  {
    vs, newLast := [], last;
    for j := 0 to |cs|
      invariant vs == Numbered(cs[..j], last, parent)
      invariant newLast == last + j
    {
      assert cs[..j + 1][..j] == cs[..j];
      newLast := newLast + 1;
      vs := vs + [Visit(cs[j], newLast, parent)];
    }
    assert cs[..|cs|] == cs;
  }
}
