/**
 * splitNodes (app.js): sort a node's children by centroid key, cluster them
 * greedily around each group's first member, and fall back to cutting the
 * sorted list into two halves when fewer than two groups result.
 */
module Cluster {
  import opened Geometry
  import opened Tree
  import opened Sorting

  /** The comparator's key for a child: the order key of its extent (orderNode). */
  function KeyOf(m: Measures): Node -> int {
    (n: Node) => m.orderKey(n.extent)
  }

  predicate NonEmptyGroups<T>(gs: seq<seq<T>>) {
    forall k :: 0 <= k < |gs| ==> gs[k] != []
  }

  /** Distance from the representative (first member) of group k to `n`. */
  function DistanceTo(m: Measures, gs: seq<seq<Node>>, k: int, n: Node): real
    requires 0 <= k < |gs| && gs[k] != []
  {
    m.distance(gs[k][0].extent, n.extent)
  }

  /** Group j is nearest to `n`, and no earlier group is as near. */
  ghost predicate IsNearest(m: Measures, gs: seq<seq<Node>>, n: Node, j: int)
    requires NonEmptyGroups(gs)
  {
    0 <= j < |gs| &&
    (forall i :: 0 <= i < |gs| ==> DistanceTo(m, gs, j, n) <= DistanceTo(m, gs, i, n)) &&
    (forall i :: 0 <= i < j ==> DistanceTo(m, gs, j, n) < DistanceTo(m, gs, i, n))
  }

  /**
   * The scan over the first `count` groups with a strict `<`: the index of the
   * earliest group at minimal distance, or -1 when there is no group.
   */
  function Nearest(m: Measures, gs: seq<seq<Node>>, n: Node, count: nat): (j: int)
    requires count <= |gs| && NonEmptyGroups(gs)
    ensures -1 <= j < count
    ensures j == -1 <==> count == 0
    ensures j >= 0 ==> forall i :: 0 <= i < count ==> DistanceTo(m, gs, j, n) <= DistanceTo(m, gs, i, n)
    ensures j >= 0 ==> forall i :: 0 <= i < j ==> DistanceTo(m, gs, j, n) < DistanceTo(m, gs, i, n)
    decreases count
  {
    if count == 0 then -1
    else
      var j := Nearest(m, gs, n, count - 1);
      if j < 0 || DistanceTo(m, gs, count - 1, n) < DistanceTo(m, gs, j, n) then count - 1 else j
  }

  /** One step of the greedy pass: `n` joins its nearest group or opens a new one. */
  function Place(m: Measures, threshold: real, gs: seq<seq<Node>>, n: Node): (r: seq<seq<Node>>)
    requires NonEmptyGroups(gs)
    ensures NonEmptyGroups(r)
    ensures |r| == |gs| || |r| == |gs| + 1
    ensures forall k :: 0 <= k < |gs| ==> r[k][0] == gs[k][0]
    ensures (forall i :: 0 <= i < |gs| ==> threshold < DistanceTo(m, gs, i, n)) ==> r == gs + [[n]]
    ensures (exists i :: 0 <= i < |gs| && DistanceTo(m, gs, i, n) <= threshold) ==>
              exists j :: IsNearest(m, gs, n, j) && DistanceTo(m, gs, j, n) <= threshold &&
                r == gs[j := gs[j] + [n]]
  {
    var j := Nearest(m, gs, n, |gs|);
    if j < 0 || threshold < DistanceTo(m, gs, j, n) then gs + [[n]] else gs[j := gs[j] + [n]]
  }

  /** The greedy pass over a sorted child list, child by child. */
  function Greedy(m: Measures, threshold: real, s: seq<Node>): (gs: seq<seq<Node>>)
    ensures NonEmptyGroups(gs)
    ensures |gs| <= |s|
    ensures s != [] ==> gs != []
    decreases |s|
  {
    if s == [] then [] else Place(m, threshold, Greedy(m, threshold, s[..|s| - 1]), s[|s| - 1])
  }

  lemma ConcatSingleton<T>(g: seq<T>)
    ensures Concat([g]) == g
  {
    assert [g][..0] == [];
  }

  lemma ConcatUpdateSnoc<T>(gs: seq<seq<T>>, j: int, x: T)
    requires 0 <= j < |gs|
    ensures multiset(Concat(gs[j := gs[j] + [x]])) == multiset(Concat(gs)) + multiset{x}
  {
    var gs' := gs[j := gs[j] + [x]];
    assert gs == gs[..j] + [gs[j]] + gs[j + 1..];
    assert gs' == gs[..j] + [gs[j] + [x]] + gs[j + 1..];
    ConcatAppend(gs[..j] + [gs[j]], gs[j + 1..]);
    ConcatAppend(gs[..j], [gs[j]]);
    ConcatAppend(gs[..j] + [gs[j] + [x]], gs[j + 1..]);
    ConcatAppend(gs[..j], [gs[j] + [x]]);
    ConcatSingleton(gs[j]);
    ConcatSingleton(gs[j] + [x]);
  }

  /** The greedy groups hold every child exactly once. */
  lemma {:induction false} GreedyPartition(m: Measures, threshold: real, s: seq<Node>)
    ensures multiset(Concat(Greedy(m, threshold, s))) == multiset(s)
    decreases |s|
  {
    if s != [] {
      var init, n := s[..|s| - 1], s[|s| - 1];
      assert s == init + [n];
      GreedyPartition(m, threshold, init);
      var gs := Greedy(m, threshold, init);
      var j := Nearest(m, gs, n, |gs|);
      if j < 0 || threshold < DistanceTo(m, gs, j, n) {
        ConcatAppend(gs, [[n]]);
        ConcatSingleton([n]);
      } else {
        ConcatUpdateSnoc(gs, j, n);
      }
    }
  }

  /** `a` occurs in `b` as a subsequence (in order, not necessarily adjacent). */
  predicate IsSubseq<T(==)>(a: seq<T>, b: seq<T>)
    decreases |b|
  {
    a == [] ||
    (b != [] &&
     ((a[|a| - 1] == b[|b| - 1] && IsSubseq(a[..|a| - 1], b[..|b| - 1])) ||
      IsSubseq(a, b[..|b| - 1])))
  }

  /** Members keep the sorted order inside each greedy group. */
  lemma {:induction false} GreedyKeepsOrder(m: Measures, threshold: real, s: seq<Node>)
    ensures forall k :: 0 <= k < |Greedy(m, threshold, s)| ==> IsSubseq(Greedy(m, threshold, s)[k], s)
    decreases |s|
  {
    if s != [] {
      var init, n := s[..|s| - 1], s[|s| - 1];
      GreedyKeepsOrder(m, threshold, init);
      var gs := Greedy(m, threshold, init);
      var r := Greedy(m, threshold, s);
      assert r == Place(m, threshold, gs, n);
      forall k | 0 <= k < |r| ensures IsSubseq(r[k], s) {
        if k < |gs| && r[k] == gs[k] {
          assert IsSubseq(gs[k], init);
        } else if k < |gs| {
          assert r[k] == gs[k] + [n];
          assert r[k][..|r[k]| - 1] == gs[k];
          assert IsSubseq(gs[k], init);
        } else {
          assert r[k] == [n];
          assert [n][..0] == [];
        }
      }
    }
  }

  /** Number of non-empty groups (groups.filter(g => 0 < g.length).length). */
  function NonEmptyCount<T>(gs: seq<seq<T>>): (c: nat)
    ensures c <= |gs|
    ensures NonEmptyGroups(gs) ==> c == |gs|
    decreases |gs|
  {
    if gs == [] then 0
    else NonEmptyCount(gs[..|gs| - 1]) + (if gs[|gs| - 1] != [] then 1 else 0)
  }

  /**
   * Math.round(n / 2) || 1: half the children rounded up, and 1 when there
   * are none. With at least two children it leaves exactly two chunks.
   */
  function Capacity(n: nat): (c: nat)
    ensures c >= 1
    ensures n >= 2 ==> c < n <= 2 * c
    ensures n == 1 ==> c == 1
  {
    var rounded := (n + 1) / 2;
    if rounded == 0 then 1 else rounded
  }

  lemma MulMono(a: int, b: int, c: int)
    requires 0 <= a <= b && 0 <= c
    ensures a * c <= b * c
  {
    assert b * c - a * c == (b - a) * c;
  }

  lemma DivUnique(i: int, c: int, q: int)
    requires c >= 1 && 0 <= q && q * c <= i < q * c + c
    ensures i / c == q
  {
    var d := i / c;
    assert d * c <= i < d * c + c;
    if d < q {
      MulMono(d + 1, q, c);
    } else if q < d {
      MulMono(q + 1, d, c);
    }
  }

  /** Number of chunks of size `c` that `n` elements fill: ceil(n / c). */
  function ChunkCount(n: nat, c: nat): nat
    requires c >= 1
  {
    if n == 0 then 0 else (n - 1) / c + 1
  }

  /** Chunk k exists exactly when it starts before the end. */
  lemma ChunkExists(n: nat, c: nat, k: nat)
    requires c >= 1
    ensures k < ChunkCount(n, c) <==> k * c < n
  {
    if n > 0 {
      var q := (n - 1) / c;
      assert q * c <= n - 1 < q * c + c;
      if k <= q {
        MulMono(k, q, c);
      } else {
        MulMono(q + 1, k, c);
      }
    }
  }

  /** Chunk k of size `c`: the elements from k * c up to the next chunk or the end. */
  function Chunk<T>(s: seq<T>, c: nat, k: nat): seq<T>
    requires c >= 1 && k * c < |s|
  {
    s[k * c .. Min(k * c + c, |s|)]
  }

  /**
   * The fallback: consecutive chunks of `c` elements of the sorted list, the
   * last one possibly shorter.
   */
  function Chunks<T>(s: seq<T>, c: nat): (gs: seq<seq<T>>)
    requires c >= 1
    ensures |gs| == ChunkCount(|s|, c)
    ensures forall k: nat :: k < |gs| ==> k * c < |s| && gs[k] == Chunk(s, c, k)
  {
    var gs := seq(ChunkCount(|s|, c), (k: int) requires 0 <= k < ChunkCount(|s|, c) =>
      ChunkExists(|s|, c, k);
      Chunk(s, c, k));
    assert forall k: nat :: k < |gs| ==> k * c < |s| by {
      forall k: nat | k < |gs| ensures k * c < |s| {
        ChunkExists(|s|, c, k);
      }
    }
    gs
  }

  /** The box at sorted position i lands in chunk floor(i / c), at offset i - floor(i / c) * c. */
  lemma ChunkPosition<T>(s: seq<T>, c: nat, i: nat)
    requires c >= 1 && i < |s|
    ensures i / c < |Chunks(s, c)|
    ensures 0 <= i - (i / c) * c < |Chunks(s, c)[i / c]|
    ensures Chunks(s, c)[i / c][i - (i / c) * c] == s[i]
  {
    var k := i / c;
    assert k * c <= i < k * c + c;
    ChunkExists(|s|, c, k);
  }

  /** With the fallback's capacity, 0, 1 or 2+ children give 0, 1 or 2 chunks. */
  lemma FallbackHalves<T>(s: seq<T>)
    ensures var c := Capacity(|s|);
      Chunks(s, c) ==
        if |s| == 0 then [] else if |s| == 1 then [s] else [s[..c], s[c..]]
  {
    var c := Capacity(|s|);
    var n := |s|;
    var r := Chunks(s, c);
    if n == 1 {
      assert c == 1 && |r| == 1;
      assert r[0] == Chunk(s, c, 0) == s[0..1] == s;
      assert r == [r[0]];
    } else if n >= 2 {
      DivUnique(n - 1, c, 1);
      assert |r| == 2;
      assert r[0] == Chunk(s, c, 0) == s[..c];
      assert r[1] == Chunk(s, c, 1) == s[c..];
      assert r == [r[0], r[1]];
    }
  }

  /** Appending one element never removes a chunk and adds at most one. */
  lemma ChunkCountSnoc(n: nat, c: nat)
    requires c >= 1
    ensures ChunkCount(n + 1, c) == n / c + 1
    ensures ChunkCount(n, c) == n / c <==> (n / c) * c == n
    ensures ChunkCount(n, c) == n / c || ChunkCount(n, c) == n / c + 1
  {
    var q := n / c;
    assert q * c <= n < q * c + c;
    if n > 0 {
      if q * c == n {
        assert (q - 1) * c == q * c - c;
        DivUnique(n - 1, c, q - 1);
      } else {
        DivUnique(n - 1, c, q);
      }
    }
  }

  /** A chunk before the one that receives element n is full and ends before n. */
  lemma FullChunk(n: nat, c: nat, k: nat)
    requires c >= 1 && k < n / c
    ensures k * c + c <= n
  {
    var q := n / c;
    assert q * c <= n;
    MulMono(k + 1, q, c);
    assert (k + 1) * c == k * c + c;
  }

  /** Appending one element to the list extends the chunking as the reduce callback does. */
  lemma ChunksSnoc<T>(s: seq<T>, x: T, c: nat)
    requires c >= 1
    ensures var gi, r, r' := |s| / c, Chunks(s, c), Chunks(s + [x], c);
      (|r| == gi || |r| == gi + 1) && |r'| == gi + 1 &&
      (forall k :: 0 <= k < gi ==> r'[k] == r[k]) &&
      r'[gi] == (if gi < |r| then r[gi] else []) + [x]
  {
    var n := |s|;
    var gi := n / c;
    var r, r' := Chunks(s, c), Chunks(s + [x], c);
    ChunkCountSnoc(n, c);
    forall k | 0 <= k < gi ensures r'[k] == r[k] {
      FullChunkSnoc(s, x, c, k);
    }
    LastChunkSnoc(s, x, c);
  }

  lemma FullChunkSnoc<T>(s: seq<T>, x: T, c: nat, k: nat)
    requires c >= 1 && k < |s| / c
    ensures k * c < |s| && Chunk(s + [x], c, k) == Chunk(s, c, k)
  {
    FullChunk(|s|, c, k);
  }

  lemma LastChunkSnoc<T>(s: seq<T>, x: T, c: nat)
    requires c >= 1
    ensures var gi := |s| / c;
      gi * c < |s| + 1 &&
      Chunk(s + [x], c, gi) == (if gi * c < |s| then Chunk(s, c, gi) else []) + [x]
  {
    var n := |s|;
    var gi := n / c;
    assert gi * c <= n < gi * c + c;
    assert Chunk(s + [x], c, gi) == (s + [x])[gi * c .. n + 1];
    if gi * c < n {
      assert Chunk(s, c, gi) == s[gi * c .. n];
    }
  }

  /** A group of at least two non-empty groups is smaller than all of them together. */
  lemma {:induction false} ConcatLengthAtLeast<T>(gs: seq<seq<T>>, k: int)
    requires 0 <= k < |gs|
    ensures |Concat(gs)| >= |gs[k]|
    decreases |gs|
  {
    if k < |gs| - 1 {
      ConcatLengthAtLeast(gs[..|gs| - 1], k);
    }
  }

  lemma GroupSmaller<T>(gs: seq<seq<T>>, k: int)
    requires NonEmptyGroups(gs) && |gs| >= 2 && 0 <= k < |gs|
    ensures |gs[k]| < |Concat(gs)|
  {
    assert gs == gs[..k] + [gs[k]] + gs[k + 1..];
    ConcatAppend(gs[..k] + [gs[k]], gs[k + 1..]);
    ConcatAppend(gs[..k], [gs[k]]);
    ConcatSingleton(gs[k]);
    if k > 0 {
      ConcatLengthAtLeast(gs[..k], 0);
    } else {
      ConcatLengthAtLeast(gs[k + 1..], 0);
    }
  }

  /**
   * splitNodes as a function of the node's extent and children: the greedy
   * groups of the sorted children, or the two halves of the sorted children
   * when fewer than two groups are non-empty.
   */
  function Split(m: Measures, extent: Box, ns: seq<Node>): (gs: seq<seq<Node>>)
    ensures NonEmptyGroups(gs)
    ensures multiset(Concat(gs)) == multiset(ns)
    ensures |ns| >= 2 ==> |gs| >= 2
    ensures |ns| >= 2 ==> forall k :: 0 <= k < |gs| ==> |gs[k]| < |ns|
  {
    var sorted := SortByKey(ns, KeyOf(m));
    var greedy := Greedy(m, m.threshold(extent), sorted);
    GreedyPartition(m, m.threshold(extent), sorted);
    FallbackPartition(sorted);
    var gs := if NonEmptyCount(greedy) < 2 then Chunks(sorted, Capacity(|sorted|)) else greedy;
    if |ns| >= 2 then PartsSmaller(gs); gs else gs
  }

  /** The fallback chunks hold every child once, and there are two of them from two children on. */
  lemma FallbackPartition<T>(s: seq<T>)
    ensures var gs := Chunks(s, Capacity(|s|));
      NonEmptyGroups(gs) && multiset(Concat(gs)) == multiset(s) && (|s| >= 2 ==> |gs| == 2)
  {
    var c := Capacity(|s|);
    FallbackHalves(s);
    if |s| == 1 {
      ConcatSingleton(s);
    } else if |s| >= 2 {
      assert s == s[..c] + s[c..];
      ConcatAppend([s[..c]], [s[c..]]);
      ConcatSingleton(s[..c]);
      ConcatSingleton(s[c..]);
      assert [s[..c], s[c..]] == [s[..c]] + [s[c..]];
    }
  }

  /** When two or more non-empty groups share the children, each holds fewer than all. */
  lemma PartsSmaller<T>(gs: seq<seq<T>>)
    requires NonEmptyGroups(gs) && |gs| >= 2
    ensures forall k :: 0 <= k < |gs| ==> |gs[k]| < |Concat(gs)|
  {
    forall k | 0 <= k < |gs| ensures |gs[k]| < |Concat(gs)| {
      GroupSmaller(gs, k);
    }
  }

  /**
   * splitNodes as the program runs it: the children are sorted (the engine's
   * stable sort), the greedy pass scans the groups for every child, and the
   * fallback pads the result with empty groups up to index floor(i / c)
   * before pushing child i.
   */
  method SplitNodes(m: Measures, extent: Box, nodes: seq<Node>) returns (groups: seq<seq<Node>>)
    ensures groups == Split(m, extent, nodes)
  {
    groups := [];
    var distanceThreshold := m.threshold(extent);
    var sorted := SortByKey(nodes, KeyOf(m));
    for index := 0 to |sorted|
      invariant groups == Greedy(m, distanceThreshold, sorted[..index])
    {
      groups := PlaceChild(m, distanceThreshold, groups, sorted[index]);
      assert sorted[..index + 1][..index] == sorted[..index];
    }
    assert sorted[..|sorted|] == sorted;
    ghost var greedy := groups;
    if NonEmptyCount(groups) < 2 {
      groups := Halves(sorted);
    }
    assert groups == if NonEmptyCount(greedy) < 2 then Chunks(sorted, Capacity(|sorted|)) else greedy;
  }

  /** One iteration of the greedy loop: `n` joins the nearest group within the threshold, or opens a new one. */
  method PlaceChild(m: Measures, distanceThreshold: real, groups: seq<seq<Node>>, n: Node) returns (r: seq<seq<Node>>)
    requires NonEmptyGroups(groups)
    ensures r == Place(m, distanceThreshold, groups, n)
  {
    var minIndex, minDistance := NearestGroup(m, groups, n);
    if minIndex < 0 || distanceThreshold < minDistance {
      r := groups + [[n]];
    } else {
      r := groups[minIndex := groups[minIndex] + [n]];
    }
  }

  /**
   * The inner scan over the groups: the earliest group whose first member is
   * nearest to `n`. A negative index stands for minDistance == Infinity.
   */
  method NearestGroup(m: Measures, groups: seq<seq<Node>>, n: Node) returns (minIndex: int, minDistance: real)
    requires NonEmptyGroups(groups)
    ensures minIndex == Nearest(m, groups, n, |groups|)
    ensures minIndex >= 0 ==> minDistance == DistanceTo(m, groups, minIndex, n)
  {
    minDistance := 0.0;
    minIndex := -1;
    for index := 0 to |groups|
      invariant minIndex == Nearest(m, groups, n, index)
      invariant minIndex >= 0 ==> minDistance == DistanceTo(m, groups, minIndex, n)
    {
      var distance := m.distance(groups[index][0].extent, n.extent);
      if minIndex < 0 || distance < minDistance {
        minDistance := distance;
        minIndex := index;
      }
    }
  }

  /**
   * The fallback reduce: child i goes to group floor(i / c), the groups up to
   * it being created empty first.
   */
  method Halves(sorted: seq<Node>) returns (result: seq<seq<Node>>)
    ensures result == Chunks(sorted, Capacity(|sorted|))
  {
    var capacityOfGroup := Capacity(|sorted|);
    result := [];
    for index := 0 to |sorted|
      invariant result == Chunks(sorted[..index], capacityOfGroup)
    {
      var gi := index / capacityOfGroup;
      ChunksSnoc(sorted[..index], sorted[index], capacityOfGroup);
      ghost var before := result;
      result := PushInto(result, gi, sorted[index]);
      assert sorted[..index + 1] == sorted[..index] + [sorted[index]];
      assert forall k :: 0 <= k < gi ==> result[k] == before[k];
    }
    assert sorted[..|sorted|] == sorted;
  }

  /**
   * One step of the reduce: pad with empty groups while there is no group
   * `gi`, then append `x` to group `gi`.
   */
  method PushInto<T>(groups: seq<seq<T>>, gi: nat, x: T) returns (result: seq<seq<T>>)
    ensures |result| == Max(|groups|, gi + 1)
    ensures forall k :: 0 <= k < |result| && k != gi ==> result[k] == if k < |groups| then groups[k] else []
    ensures result[gi] == (if gi < |groups| then groups[gi] else []) + [x]
  {
    result := groups;
    while |result| <= gi
      invariant |groups| <= |result| <= Max(|groups|, gi + 1)
      invariant result[..|groups|] == groups
      invariant forall k :: |groups| <= k < |result| ==> result[k] == []
      decreases gi + 1 - |result|
    {
      result := result + [[]];
    }
    result := result[gi := result[gi] + [x]];
  }
}
