/**
 * Axis-aligned boxes and the geometric measures the builder consults.
 *
 * A box is the four numbers [minX, minY, maxX, maxY] that turf.extent returns.
 * The geodesic computations (turf.area, turf.centroid, turf.distance) are not
 * modelled: they enter as the function fields of `Measures`.
 */
module Geometry {

  datatype Box = Box(minX: int, minY: int, maxX: int, maxY: int)

  predicate Valid(b: Box) {
    b.minX <= b.maxX && b.minY <= b.maxY
  }

  /** `outer` covers `inner` on both axes. */
  predicate Contains(outer: Box, inner: Box) {
    outer.minX <= inner.minX && outer.minY <= inner.minY &&
    inner.maxX <= outer.maxX && inner.maxY <= outer.maxY
  }

  /** `e` covers every box of `bs`. */
  predicate CoversAll(e: Box, bs: seq<Box>) {
    forall i :: 0 <= i < |bs| ==> Contains(e, bs[i])
  }

  /** Each of the four bounds of `e` is the matching bound of some box of `bs`. */
  ghost predicate Attained(e: Box, bs: seq<Box>) {
    (exists i :: 0 <= i < |bs| && bs[i].minX == e.minX) &&
    (exists i :: 0 <= i < |bs| && bs[i].minY == e.minY) &&
    (exists i :: 0 <= i < |bs| && bs[i].maxX == e.maxX) &&
    (exists i :: 0 <= i < |bs| && bs[i].maxY == e.maxY)
  }

  function Min(a: int, b: int): int { if a <= b then a else b }
  function Max(a: int, b: int): int { if a <= b then b else a }

  /** Componentwise min/max of two boxes. */
  function Union(a: Box, b: Box): Box {
    Box(Min(a.minX, b.minX), Min(a.minY, b.minY), Max(a.maxX, b.maxX), Max(a.maxY, b.maxY))
  }

  /**
   * The extent of a non-empty collection of boxes (turf.extent of a feature
   * collection): it covers every box, and every box that covers them all
   * covers it, so it is the least covering box.
   */
  function Enclose(bs: seq<Box>): (e: Box)
    requires bs != []
    ensures CoversAll(e, bs)
    ensures Attained(e, bs)
    ensures forall c :: CoversAll(c, bs) ==> Contains(c, e)
    ensures (forall i :: 0 <= i < |bs| ==> Valid(bs[i])) ==> Valid(e)
    decreases |bs|
  {
    if |bs| == 1 then bs[0]
    else
      var init := bs[..|bs| - 1];
      var e := Union(Enclose(init), bs[|bs| - 1]);
      assert forall i :: 0 <= i < |init| ==> init[i] == bs[i];
      e
  }

  /** A covering box whose bounds are all attained is the extent. */
  lemma EncloseUnique(bs: seq<Box>, e: Box)
    requires bs != []
    requires CoversAll(e, bs) && Attained(e, bs)
    ensures e == Enclose(bs)
  {
    var f := Enclose(bs);
    var i0 :| 0 <= i0 < |bs| && bs[i0].minX == e.minX;
    var i1 :| 0 <= i1 < |bs| && bs[i1].minY == e.minY;
    var i2 :| 0 <= i2 < |bs| && bs[i2].maxX == e.maxX;
    var i3 :| 0 <= i3 < |bs| && bs[i3].maxY == e.maxY;
    assert Contains(f, bs[i0]) && Contains(f, bs[i1]) && Contains(f, bs[i2]) && Contains(f, bs[i3]);
    assert Contains(e, f);
  }

  /** The extent depends only on which boxes occur, not on their order or multiplicity. */
  lemma EncloseSameElements(bs: seq<Box>, cs: seq<Box>)
    requires bs != [] && cs != []
    requires forall i :: 0 <= i < |bs| ==> bs[i] in cs
    requires forall j :: 0 <= j < |cs| ==> cs[j] in bs
    ensures Enclose(bs) == Enclose(cs)
  {
    var e := Enclose(bs);
    forall j | 0 <= j < |cs| ensures Contains(e, cs[j]) {
      var i :| 0 <= i < |bs| && bs[i] == cs[j];
    }
    var i0 :| 0 <= i0 < |bs| && bs[i0].minX == e.minX;
    var i1 :| 0 <= i1 < |bs| && bs[i1].minY == e.minY;
    var i2 :| 0 <= i2 < |bs| && bs[i2].maxX == e.maxX;
    var i3 :| 0 <= i3 < |bs| && bs[i3].maxY == e.maxY;
    var j0 :| 0 <= j0 < |cs| && cs[j0] == bs[i0];
    var j1 :| 0 <= j1 < |cs| && cs[j1] == bs[i1];
    var j2 :| 0 <= j2 < |cs| && cs[j2] == bs[i2];
    var j3 :| 0 <= j3 < |cs| && cs[j3] == bs[i3];
    assert Attained(e, cs);
    EncloseUnique(cs, e);
  }

  /**
   * The geodesic measures, left abstract.
   *   orderKey   rank of the rounded-centroid key "round(lat*1000)_round(lon*1000)"
   *              under string order (orderNode)
   *   distance   metres between the centroids of two boxes (turf.distance * 1000)
   *   area       square metres of a box (turf.area of its polygon)
   *   threshold  the clustering radius derived from a box, sqrt(area) * 0.5
   */
  datatype Measures = Measures(
    orderKey: Box -> int,
    distance: (Box, Box) -> real,
    area: Box -> real,
    threshold: Box -> real)

  /** The minimum footprint a node needs to be subdivided: 2500 squared. */
  const MinArea: real := 2500.0 * 2500.0
}
