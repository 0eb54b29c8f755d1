/**
 * The hierarchy's nodes. A raw input box (a bbox polygon feature, which has an
 * `extent` but no `nodes` field) is a `Leaf`; the root and every intermediate
 * node built by constructBvh carry a `nodes` list and are `Inner`.
 */
module Tree {
  import opened Geometry

  datatype Node = Leaf(extent: Box) | Inner(extent: Box, nodes: seq<Node>)

  function Extents(ns: seq<Node>): (bs: seq<Box>)
    ensures |bs| == |ns|
    ensures forall i :: 0 <= i < |ns| ==> bs[i] == ns[i].extent
  {
    seq(|ns|, i requires 0 <= i < |ns| => ns[i].extent)
  }

  /** The extent of a non-empty member list (turf.extent of their polygons). */
  function Bound(ns: seq<Node>): Box
    requires ns != []
  {
    Enclose(Extents(ns))
  }

  function Concat<T>(gs: seq<seq<T>>): seq<T>
    decreases |gs|
  {
    if gs == [] then [] else Concat(gs[..|gs| - 1]) + gs[|gs| - 1]
  }

  lemma {:induction false} ConcatAppend<T>(a: seq<seq<T>>, b: seq<seq<T>>)
    ensures Concat(a + b) == Concat(a) + Concat(b)
    decreases |b|
  {
    if b == [] {
      assert a + b == a;
    } else {
      var init, x := b[..|b| - 1], b[|b| - 1];
      assert (a + b)[..|a + b| - 1] == a + init;
      ConcatAppend(a, init);
      calc {
        Concat(a + b);
        Concat(a + init) + x;
        (Concat(a) + Concat(init)) + x;
        Concat(a) + (Concat(init) + x);
      }
    }
  }

  /** Every element of a concatenation comes from one of its parts, and conversely. */
  lemma {:induction false} ConcatMembers<T>(gs: seq<seq<T>>, x: T)
    ensures x in Concat(gs) <==> exists k :: 0 <= k < |gs| && x in gs[k]
    decreases |gs|
  {
    if gs != [] {
      var init := gs[..|gs| - 1];
      ConcatMembers(init, x);
      if x in Concat(init) {
        var k :| 0 <= k < |init| && x in init[k];
        assert x in gs[k];
      }
      forall k | 0 <= k < |gs| - 1 ensures gs[k] == init[k] { }
    }
  }

  /** The raw boxes at the bottom of a node, in left-to-right order. */
  function Leaves(n: Node): seq<Node>
    decreases n, 1
  {
    match n
    case Leaf(_) => [n]
    case Inner(_, ns) => LeavesOf(ns)
  }

  function LeavesOf(ns: seq<Node>): seq<Node>
    decreases ns, 0
  {
    if ns == [] then [] else LeavesOf(ns[..|ns| - 1]) + Leaves(ns[|ns| - 1])
  }

  lemma {:induction false} LeavesOfAppend(a: seq<Node>, b: seq<Node>)
    ensures LeavesOf(a + b) == LeavesOf(a) + LeavesOf(b)
    decreases |b|
  {
    if b == [] {
      assert a + b == a;
    } else {
      assert (a + b)[..|a + b| - 1] == a + b[..|b| - 1];
      LeavesOfAppend(a, b[..|b| - 1]);
    }
  }

  /** Reordering a node list does not change the multiset of its leaves. */
  lemma {:induction false} LeavesOfPermutation(a: seq<Node>, b: seq<Node>)
    requires multiset(a) == multiset(b)
    ensures multiset(LeavesOf(a)) == multiset(LeavesOf(b))
    decreases |a|
  {
    if a == [] {
      assert |b| == |multiset(b)| == 0;
    } else {
      var x := a[|a| - 1];
      var init := a[..|a| - 1];
      assert a == init + [x];
      assert multiset(a) == multiset(init) + multiset{x};
      assert x in multiset(b);
      var j :| 0 <= j < |b| && b[j] == x;
      var rest := Without(b, j);
      LeavesOfPermutation(init, rest);
      assert LeavesOf(a) == LeavesOf(init) + Leaves(x);
    }
  }

  /**
   * Helper for LeavesOfPermutation: `b` without its element j, whose leaves
   * are those of `b` less that element's.
   */
  lemma Without(b: seq<Node>, j: int) returns (rest: seq<Node>)
    requires 0 <= j < |b|
    ensures multiset(rest) == multiset(b) - multiset{b[j]}
    ensures multiset(LeavesOf(b)) == multiset(LeavesOf(rest)) + multiset(Leaves(b[j]))
  {
    var x := b[j];
    rest := b[..j] + b[j + 1..];
    assert b == b[..j] + [x] + b[j + 1..];
    assert multiset(b) == multiset(b[..j]) + multiset{x} + multiset(b[j + 1..]);
    LeavesOfAppend(b[..j], [x]);
    LeavesOfAppend(b[..j] + [x], b[j + 1..]);
    LeavesOfAppend(b[..j], b[j + 1..]);
    assert LeavesOf([x]) == Leaves(x) by {
      assert [x][..0] == [];
    }
  }

  /** The leaves of groups laid side by side are the leaves of their concatenation. */
  lemma {:induction false} LeavesOfConcat(gs: seq<seq<Node>>, parts: seq<Node>)
    requires |parts| == |gs|
    requires forall k :: 0 <= k < |gs| ==> Leaves(parts[k]) == LeavesOf(gs[k])
    ensures LeavesOf(parts) == LeavesOf(Concat(gs))
    decreases |gs|
  {
    if gs != [] {
      var n := |gs| - 1;
      LeavesOfConcat(gs[..n], parts[..n]);
      LeavesOfAppend(Concat(gs[..n]), gs[n]);
      assert parts[..n] == parts[..|parts| - 1];
    }
  }

  /** Number of nodes of a tree, the tree itself included. */
  function Size(n: Node): nat
    decreases n, 1
  {
    match n
    case Leaf(_) => 1
    case Inner(_, ns) => 1 + SizeOf(ns)
  }

  function SizeOf(ns: seq<Node>): nat
    decreases ns, 0
  {
    if ns == [] then 0 else SizeOf(ns[..|ns| - 1]) + Size(ns[|ns| - 1])
  }

  /** Number of levels of a tree: a node without children is one level. */
  function Height(n: Node): nat
    decreases n, 1
  {
    match n
    case Leaf(_) => 1
    case Inner(_, ns) => 1 + MaxHeight(ns)
  }

  /** Greatest height in a list, 0 for the empty list. */
  function MaxHeight(ns: seq<Node>): nat
    decreases ns, 0
  {
    if ns == [] then 0 else Max(MaxHeight(ns[..|ns| - 1]), Height(ns[|ns| - 1]))
  }

  /**
   * Every node that has children has exactly the extent of its direct
   * children, all the way down.
   */
  ghost predicate Tight(n: Node)
    decreases n
  {
    match n
    case Leaf(_) => true
    case Inner(e, ns) =>
      (ns != [] ==> e == Bound(ns)) &&
      forall i :: 0 <= i < |ns| ==> Tight(ns[i])
  }
}
