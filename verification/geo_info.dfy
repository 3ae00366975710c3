/** The geometry and centre-method dispatch of `sendQuery`, without the
    HTTP request and JSON parsing around it: pick the ring whose centre is
    wanted from the first search result's GeoJSON geometry, and the centre
    routine from the `method` flag. */
module GeoInfo {
  import opened GeoTypes
  import opened SphericalArea
  import opened RegionSelector
  import opened Centroid

  /** The `type` tag of a geometry that is neither a polygon nor a
      multipolygon; those two tags select the branches of their own. */
  type OtherKind = s: string | s != "Polygon" && s != "MultiPolygon" witness "Point"

  /** A GeoJSON geometry, discriminated by its `type` member. */
  datatype Geometry =
    | PolygonGeometry(rings: Polygon)
    | MultiPolygonGeometry(polygons: seq<Polygon>)
    | OtherGeometry(kind: OtherKind)

  /** The centre `sendQuery` stores: the weighted centre of a ring (its
      vector mean on the sphere, whose trigonometry is not modelled), the
      arithmetic mean centre, or nothing when `method` is neither 0 nor 1
      and `center` stays `undefined`. */
  datatype Center = WeightCenterOf(ring: Ring) | MeanCenterAt(point: Coord) | Unset

  /** The ring whose centre `sendQuery` computes (`latlngs`), and that
      centre. The source stores only the centre, next to the whole GeoJSON
      geometry; the ring is kept here so that the selection can be seen. */
  datatype Found = Found(ring: Ring, center: Center)

  /** `latlngs`: the outer ring of a polygon, the outer ring of the
      largest polygon of a multipolygon, and `false` (not found) for any
      other geometry. */
  function ChooseRing(mag: EdgeMagnitude, g: Geometry): (r: Result<Ring>)
    ensures g.OtherGeometry? ==> r == Err(UnsupportedGeometryType)
    ensures g.PolygonGeometry? ==> (r.Ok? <==> 0 < |g.rings|)
    ensures g.PolygonGeometry? && r.Ok? ==> r.value == g.rings[0]
    ensures g.PolygonGeometry? && r.Err? ==> r.error == MissingOuterRing
    ensures g.MultiPolygonGeometry? ==> (r.Ok? <==> MaxAreaPoly(mag, g.polygons).Ok?)
    ensures g.MultiPolygonGeometry? && r.Err? ==> r.error == MaxAreaPoly(mag, g.polygons).error
    ensures g.MultiPolygonGeometry? && r.Ok? ==>
              exists k :: IsLastMaximum(Measure(mag, g.polygons).value, k)
                && 0 < |g.polygons[k]| && r.value == g.polygons[k][0]
  {
    match g
    case MultiPolygonGeometry(polys) =>
      var poly :- MaxAreaPoly(mag, polys);
      assert 0 < |polys| && Measure(mag, polys).Ok?;
      var k :| IsLastMaximum(Measure(mag, polys).value, k) && poly == polys[k];
      assert NetArea(mag, polys[k]).Ok?;
      Ok(poly[0])
    case PolygonGeometry(rings) =>
      if |rings| == 0 then Err(MissingOuterRing) else Ok(rings[0])
    case OtherGeometry(_) =>
      Err(UnsupportedGeometryType)
  }

  /** The `switch (this.method)`: 0 selects the weighted centre, 1 the
      arithmetic mean, and any other value leaves the centre unset. */
  function ChooseCenter(methodCode: int, ring: Ring): (c: Result<Center>)
    ensures c.Ok? && c.value.WeightCenterOf? <==> methodCode == 0
    ensures c.Ok? && c.value.Unset? <==> methodCode != 0 && methodCode != 1
    ensures methodCode == 0 ==> c.value.ring == ring
    ensures methodCode == 1 ==> (c.Err? <==> |ring| == 0)
    ensures methodCode == 1 && c.Ok? ==> c.value.MeanCenterAt? && Ok(c.value.point) == CenterMean(ring)
    ensures c.Err? ==> c.error == EmptyRing
  {
    if methodCode == 0 then Ok(WeightCenterOf(ring))
    else if methodCode == 1 then
      var p :- CenterMean(ring);
      Ok(MeanCenterAt(p))
    else Ok(Unset)
  }

  /** The dispatch of `sendQuery` for the first search result's geometry. */
  function Locate(mag: EdgeMagnitude, g: Geometry, methodCode: int): (r: Result<Found>)
    ensures r.Ok? ==> ChooseRing(mag, g) == Ok(r.value.ring)
    ensures r.Ok? ==> ChooseCenter(methodCode, r.value.ring) == Ok(r.value.center)
    ensures ChooseRing(mag, g).Err? ==> r == Err(ChooseRing(mag, g).error)
    ensures r.Ok? <==> ChooseRing(mag, g).Ok? && ChooseCenter(methodCode, ChooseRing(mag, g).value).Ok?
    ensures ChooseRing(mag, g).Ok? && r.Err? ==> r.error == EmptyRing
    ensures methodCode != 1 ==> (r.Ok? <==> ChooseRing(mag, g).Ok?)
  {
    var ring :- ChooseRing(mag, g);
    var center :- ChooseCenter(methodCode, ring);
    Ok(Found(ring, center))
  }

  /** The ring chosen for a multipolygon belongs to a part whose net area
      is at least that of every part. */
  lemma ChooseRingIsLargest(mag: EdgeMagnitude, polys: seq<Polygon>)
    requires 0 < |polys| && Measure(mag, polys).Ok?
    ensures ChooseRing(mag, MultiPolygonGeometry(polys)).Ok?
    ensures exists k :: 0 <= k < |polys| && 0 < |polys[k]|
              && ChooseRing(mag, MultiPolygonGeometry(polys)).value == polys[k][0]
              && forall j :: 0 <= j < |polys| ==> NetArea(mag, polys[j]).value <= NetArea(mag, polys[k]).value
  {
    MaxAreaPolyIsLargest(mag, polys);
    var vals := Measure(mag, polys).value;
    var k :| IsLastMaximum(vals, k) && MaxAreaPoly(mag, polys).value == polys[k];
    assert NetArea(mag, polys[k]) == Ok(vals[k]);
  }

  /** With method 1 a polygon's centre is the mean of its outer ring,
      and a polygon whose outer ring is empty has no centre. */
  lemma MeanMethodOnPolygon(mag: EdgeMagnitude, outer: Ring, holes: seq<Ring>)
    ensures 0 < |outer| ==>
              Locate(mag, PolygonGeometry([outer] + holes), 1)
                == Ok(Found(outer, MeanCenterAt(CenterMean(outer).value)))
    ensures |outer| == 0 ==> Locate(mag, PolygonGeometry([outer] + holes), 1) == Err(EmptyRing)
  {
  }

  /** A polygon's outer ring is used unchanged, whatever the ring. */
  lemma PolygonUsesOuterRing(mag: EdgeMagnitude, outer: Ring, holes: seq<Ring>)
    ensures Locate(mag, PolygonGeometry([outer] + holes), 0) == Ok(Found(outer, WeightCenterOf(outer)))
  {
  }

  /** A multipolygon with a single polygon uses that polygon's outer
      ring. */
  lemma SinglePartMultiPolygon(mag: EdgeMagnitude, p: Polygon)
    requires NetArea(mag, p).Ok?
    ensures ChooseRing(mag, MultiPolygonGeometry([p])) == Ok(p[0])
  {
  }

  /** Of two hole-free parts with different areas the larger one's ring
      is used, in either order. */
  lemma LargerPartWins(mag: EdgeMagnitude, small: Ring, large: Ring)
    requires Area(mag, small).Ok? && Area(mag, large).Ok?
    requires Area(mag, small).value < Area(mag, large).value
    ensures ChooseRing(mag, MultiPolygonGeometry([[small], [large]])) == Ok(large)
    ensures ChooseRing(mag, MultiPolygonGeometry([[large], [small]])) == Ok(large)
  {
  }
}
