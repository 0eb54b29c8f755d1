# BVH builder model

A Dafny model of the bounding-volume-hierarchy builder in `app.js` of the
bvh-example map demo. Each input feature is reduced to its bounding box. The
builder then:

- sorts a node's children by a centroid key (`orderNode`);
- clusters them greedily around each group's first member, and cuts the
  sorted list into two halves when fewer than two groups come out
  (`splitNodes`);
- replaces the children with one intermediate node per group, and recurses
  into the intermediates whose area is above 2500² (`constructBvh`,
  `canSplit`);
- walks the finished tree level by level, turning every node into one
  feature of the BVH layer with a depth, a fresh `nodeId` and its parent's
  `nodeId`.

The modules follow that structure:

- `Geometry` holds boxes, their union (`turf.extent`) and the abstract
  geodesic measures.
- `Tree` holds the node datatype and its leaves, size and height.
- `Sorting` holds the stable sort by key.
- `Cluster` holds `splitNodes`.
- `Bvh` holds `constructBvh` and `canSplit`.
- `Flatten` holds the breadth-first `while (true)` loop.
- `Layer` holds the fetch callback's use of the builder: a root over all
  boxes with `nodeId` 1 and `parentId` 0.

The imperative parts are methods with loops. Each is proved equal to a
specification function, or proved directly against the properties the
program promises:

- `SplitNodes`' `forEach` loops, the fallback `reduce` with its padding
  `while`, and `constructBvh`'s two `map`s.
- The flattening loop. Its invariant `Walk` ties the features pushed so far
  to the breadth-first order of the tree.

The recursive structure is datatypes and functions: `Split`, `Build`/`Expand`,
`LevelOrder`.

## Model

| member | source | states |
|---|---|---|
| Sorting.SortByKey | app.js:88-95 | the children sorted by the comparator's key: ordered by key, a permutation of the input, and stable (the elements of each key keep their relative order) |
| Sorting.StableSortUnique | app.js:88-95 | every ordering that is sorted by key and stable equals SortByKey's, so the engine's sort gives the same list whatever its algorithm |
| Sorting.InsertWithKey | app.js:88-95 | inserting one child puts it after every child with the same key and leaves the relative order of all others unchanged |
| Sorting.SortedSameKeysEqual | app.js:88-95 | two key-ordered lists that agree key by key on their members and their order are equal |
| Cluster.KeyOf | app.js:74-80 | the comparator's key of a child: the order key of its extent (definition, no contract of its own; its use is stated by SortByKey) |
| Cluster.DistanceTo | app.js:102-104 | the distance from a group's first member to a child (definition, no contract of its own; its use is stated by Nearest and Place) |
| Cluster.Nearest | app.js:98-109 | the scan over the groups yields the earliest group whose first member is at minimal distance (strict `<` keeps the first of ties), and no index only when there is no group |
| Cluster.NearestGroup | app.js:98-109 | the inner `forEach` computes exactly Nearest's index, with `minDistance` that group's distance |
| Cluster.Place | app.js:110-116 | a child farther than the threshold from every group opens a new group `[n]`; otherwise it is appended to a nearest group whose distance is within the threshold; the first members of existing groups never change |
| Cluster.PlaceChild | app.js:97-116 | one iteration of the outer `forEach` is Place |
| Cluster.Greedy | app.js:96-117 | the greedy pass gives non-empty groups, no more groups than children, and at least one group when there is a child |
| Cluster.GreedyPartition | app.js:96-117 | concatenating the greedy groups gives a permutation of the sorted children |
| Cluster.GreedyKeepsOrder | app.js:96-117 | each greedy group is a subsequence of the sorted children: members keep sorted order |
| Cluster.NonEmptyCount | app.js:119 | the count of non-empty groups is at most the group count, and equal to it when no group is empty |
| Cluster.Capacity | app.js:121 | half the children rounded (`Math.round(N / 2)`, or 1 when that is 0) is at least 1; with N >= 2 it is below N and at least half of N |
| Cluster.Chunks | app.js:122-127 | the fallback's result has ceil(N / c) chunks; chunk k is the sorted children from k·c up to the next chunk or the end |
| Cluster.ChunkPosition | app.js:123-125 | the child at sorted position i lands in group floor(i / c) at offset i − floor(i / c)·c |
| Cluster.FallbackHalves | app.js:121-127 | with the fallback capacity, 0, 1 and N >= 2 children give no group, one group, and exactly the two halves `[s[..c], s[c..]]` |
| Cluster.FallbackPartition | app.js:121-127 | the fallback groups are non-empty, hold every child exactly once, and are two from two children on |
| Cluster.ChunksSnoc | app.js:122-126 | handling one more child keeps the earlier full chunks, and extends chunk floor(i / c), created empty first if missing, by that child |
| Cluster.PushInto | app.js:124-125 | the padding `while` and the push: groups up to `gi` exist, group `gi` gains the child at its end, and all others are unchanged |
| Cluster.Halves | app.js:121-127 | the fallback `reduce` computes exactly Chunks of the sorted children with the fallback capacity |
| Cluster.Split | app.js:84-130 | splitNodes' result: non-empty groups whose concatenation is a permutation of the children; with N >= 2 children, at least two groups, each with fewer than N members |
| Cluster.SplitNodes | app.js:84-130 | the program's loops compute exactly Split: sort, greedy pass, and fallback when fewer than two groups are non-empty |
| Bvh.CanSplit | app.js:133-137 | canSplit: the area of the node's extent is above `MinArea` = 2500 · 2500 (definition, no contract of its own; its effect is stated by BuildChild and BuildSettled) |
| Bvh.Intermediates | app.js:146-153 | one intermediate per group, in group order, whose members are the group and whose extent is the group's union extent |
| Bvh.MakeIntermediates | app.js:146-153 | the first `map` computes exactly Intermediates |
| Bvh.IntermediatesSmaller | app.js:143-153 | every intermediate of a split of N >= 2 children has fewer than N members, so the recursion terminates |
| Bvh.Build | app.js:140-164 | constructBvh keeps the node's extent; a node with at most one child comes back unchanged; otherwise it gets one child per group, at least two |
| Bvh.Expand | app.js:156-162 | the second `map` keeps the number of children and each child's extent |
| Bvh.ExpandAt | app.js:156-162 | child i after the second `map` is constructBvh of intermediate i when canSplit admits it, else that intermediate |
| Bvh.ExpandNodes | app.js:156-162 | the second `map`, calling construction back, computes exactly Expand |
| Bvh.ConstructBvh | app.js:140-164 | the program's constructBvh computes exactly Build |
| Bvh.BuildChild | app.js:133-162 | child i of a split node has its group's union extent; canSplit alone decides recursion; a child canSplit rejects keeps its raw members |
| Bvh.GroupMember | app.js:84-130 | every member of a group is one of the children that were split |
| Bvh.BuildLeaves | app.js:140-164 | construction neither loses nor duplicates a leaf: the multiset of leaves is unchanged |
| Bvh.ExpandLeaves | app.js:156-162 | the second `map` keeps the multiset of leaves |
| Bvh.BuildKeepsBoxes | app.js:140-164 | built over raw boxes, the tree's leaves are exactly those boxes |
| Bvh.BoundOfIntermediates | app.js:146-153 | the union of the intermediates' extents is the union of all members' extents |
| Bvh.BuildTight | app.js:146-162 | construction keeps every node tight (the extent is the union of its children's extents), including the root when its extent is that of its children |
| Bvh.ExpandTight | app.js:156-162 | the second `map` keeps every child tight |
| Bvh.BuildSettled | app.js:155-162 | from raw boxes, the root with two or more boxes holds only intermediates, and every node below is settled: recursion went exactly into intermediates with canSplit true and at least two members; every other intermediate holds raw boxes |
| Bvh.SettledChild | app.js:155-162 | each child of a root built over two or more raw boxes is a settled intermediate |
| Geometry.Enclose | app.js:148-150 | `turf.extent` of boxes covers each box, attains each bound, lies inside every covering box, and is valid when the boxes are |
| Geometry.EncloseSameElements | app.js:148-150 | the extent depends only on which boxes occur |
| Tree.LeavesOfPermutation | app.js:146-162 | reordering a node list does not change the multiset of its leaves |
| Flatten.LevelRecords | app.js:201-208 | the features pushed for a level: one per node, in order, with its extent, the level's depth, its `nodeId` and its `parentId` |
| Flatten.NumberedAll | app.js:210-214 | child j of a node gets id `last + 1 + j` and its parent's `nodeId` |
| Flatten.NumberChildren | app.js:210-214 | the inner `map` computes exactly Numbered and advances `newNodeId` by the number of children |
| Flatten.NextLevelNodes | app.js:202-215 | the next level holds exactly the children of this level's nodes, parent by parent, in order; end nodes contribute none |
| Flatten.NextLevelIds | app.js:210-214 | the next level's ids are consecutive after the last id handed out |
| Flatten.NextLevel | app.js:209-215 | the `concat` of the numbered children, parent by parent; its contents are stated by NextLevelNodes, NextLevelIds and NextLevelParents (definition, no contract of its own) |
| Flatten.NextLevelParents | app.js:209-215 | node j of the next level, which is child j of this level's nodes, records the `nodeId` of the node i of this level whose children take position j (the children of the nodes before i come first) |
| Flatten.ChildrenOfLevelOrder | app.js:193-218 | the children of a breadth-first order are the breadth-first order of the children |
| Flatten.LevelOrderRoot | app.js:193-218 | breadth-first order from the root is the root followed by the children of that order, so position k > 0 holds child k − 1 |
| Flatten.LevelOrderAt | app.js:193-218 | position k > 0 of the breadth-first order from the root is child k − 1 of the order |
| Flatten.ChildOfUnique | app.js:209-214 | at most one node of a level has the child at a given position among its children |
| Flatten.ChildOfNode | app.js:209-214 | the child at position c, when attributed to node p, is p's own child number c minus the children of the nodes before p |
| Flatten.VisitLevel | app.js:200-216 | one pass of the `reduce` pushes LevelRecords of the level and yields NextLevel with the counter advanced by its length |
| Flatten.Shrinks | app.js:217 | the nodes still to visit decrease with every level, so the loop ends |
| Flatten.VisitNode | app.js:201-215 | one step of the `reduce` extends the pushed features and the next level exactly as LevelRecords and NextLevel do for one more node |
| Flatten.PushKeeps | app.js:201-215 | pushing a level keeps every feature numbered by position and linked, by position in breadth-first order, to the feature one level up of the node it is a child of |
| Flatten.WalkStart | app.js:193-197 | before the loop, nothing is pushed and the root alone forms the first level |
| Flatten.WalkOn | app.js:198-217 | a pass that leaves a non-empty next level keeps the loop invariant |
| Flatten.LastLevel | app.js:217-218 | a level without children completes the breadth-first order, and its depth is the tree's height |
| Flatten.WalkEnd | app.js:198-218 | a pass that leaves no next level completes the layer |
| Flatten.WalkLevel | app.js:198-217 | one loop iteration either keeps the invariant with fewer nodes left, or ends with the layer complete |
| Flatten.FlattenBvh | app.js:193-218 | the layer holds one feature per node in breadth-first order. Ids run consecutively from the root's id. The root comes first at depth 1 with its own parent id. Every other feature k names as parent the feature p one level up whose node's children take position k − 1 among the children in breadth-first order, that is, the node it is a child of. The final depth is the tree's height |
| Flatten.FlattenedParent | app.js:209-214 | in a finished layer, feature k > 0 names as parent an earlier feature p one level up, and position k falls among p's children in breadth-first order; with ChildOfUnique, p is the only such node, and with LevelOrderAt and ChildOfNode, k's node is p's matching child |
| Layer.Boxes | app.js:185-188 | one raw box per input extent, in order; their extents are exactly the input extents |
| Layer.BuildLayer | app.js:183-218 | the program's pipeline: the tree is Build over the boxes; its leaves are exactly the boxes; the layer is flattened from id 1 with root parent 0; when the root extent is the union of the boxes, the tree is tight |
| Layer.BoxesTight | app.js:183-188 | with the root extent the union of the boxes (`turf.extent` of the collection), every node of the built tree has exactly the extent of its children |
| Layer.SingleBoxTree | app.js:140-143 | one box gives a root that keeps it as its single child: two nodes on two levels |
| Layer.SingleBoxLayer | app.js:193-218 | with one box the layer has two features, and the depth is 2 |
| Layer.TwoBoxesHeight | app.js:140-164 | with two boxes the hierarchy always has three levels |

## Left out

- The geodesic numerics are abstract fields of `Measures`. These are
  `turf.area`, `turf.centroid` and `turf.distance`, the threshold
  `sqrt(area) * 0.5`, and `orderNode`'s rounded `lat_lon` string. Box
  coordinates are integers, and union uses integer min/max.
- `orderNode` is the abstract integer `orderKey`. It ranks the boxes of one
  call as the string comparison of their joined keys does. Every lemma holds
  for every `orderKey`. The string comparison itself is not modelled.
- The engine's sort algorithm is not modelled. `Array.prototype.sort` is taken
  to be stable, as ES2019 requires. StableSortUnique shows that any stable,
  ordered result equals SortByKey's.
- Cluster.NearestGroup: the source's initial `minDistance = Infinity` is
  represented by `minIndex < 0`. Distances are finite reals, so a group at
  infinite distance or at NaN does not arise.
- In-place mutation and aliasing are modelled on values:
  - `node.nodes` is overwritten twice in `constructBvh`;
  - the sort reorders `node.nodes` in place;
  - the flattening writes `nodeId`/`parentId` onto the tree's nodes.

  The ids of a node live in its `Visit` record instead.
- The `depth` parameter of `constructBvh` and `splitNodes` does not affect the
  result, so it is not modelled.
- `turf.bboxPolygon` and the features' geometry: a record keeps only the
  extent and the properties `depth`, `nodeId` and `parentId`.
- The root's extent (`turf.extent` of the whole collection, app.js:184) is a
  parameter of BuildLayer. BuildLayer and BoxesTight state what follows when it
  is the union of the boxes.
- These are not modelled: UI, rendering, style caches and random colours;
  `fetch` and TopoJSON/GeoJSON parsing; projection transforms; the
  `console.log` lines; the depth slider and zoom (app.js:1-71, 166-180,
  219-237).

## Edge cases

- One box: a root with one child is returned unchanged and keeps the box as
  its child (app.js:143). The layer has two features, and the final depth is
  2 (Layer.SingleBoxLayer).
- Two boxes: each group becomes an intermediate node over its members
  (app.js:146-153). An intermediate with one member is not subdivided further
  (app.js:143), so the hierarchy always has three levels and the final depth
  is 3 (Layer.TwoBoxesHeight).
