/** `getCenterMean`: the arithmetic mean of a ring's longitudes and
    latitudes, returned as `[lon, lat]`.

    The source never initialises its accumulators, so as written every
    result is `NaN` (`CenterMeanAsWritten`). `CenterMean` and
    `GetCenterMean` model the evidently intended mean, with the
    accumulators started at zero. */
module Centroid {
  import opened GeoTypes
  import opened Sums
  import JsNumbers

  function Lons(ring: Ring): (xs: seq<real>)
    ensures |xs| == |ring|
    ensures forall i :: 0 <= i < |ring| ==> xs[i] == ring[i].lon
  {
    seq(|ring|, i requires 0 <= i < |ring| => ring[i].lon)
  }

  function Lats(ring: Ring): (ys: seq<real>)
    ensures |ys| == |ring|
    ensures forall i :: 0 <= i < |ring| ==> ys[i] == ring[i].lat
  {
    seq(|ring|, i requires 0 <= i < |ring| => ring[i].lat)
  }

  /** The mean of `xs` lies between its least and its greatest element. */
  lemma MeanBetween(xs: seq<real>)
    requires |xs| > 0
    ensures exists i :: 0 <= i < |xs| && xs[i] <= Sum(xs) / |xs| as real
    ensures exists j :: 0 <= j < |xs| && Sum(xs) / |xs| as real <= xs[j]
  {
    var m := Sum(xs) / |xs| as real;
    if forall i :: 0 <= i < |xs| ==> m < xs[i] {
      SumAbove(xs, m);
      assert false;
    }
    if forall j :: 0 <= j < |xs| ==> xs[j] < m {
      SumBelow(xs, m);
      assert false;
    }
  }

  /** The arithmetic mean centre of a ring. An empty ring has none (the
      source divides 0 by 0). */
  function CenterMean(ring: Ring): (r: Result<Coord>)
    ensures r.Err? <==> |ring| == 0
    ensures r.Err? ==> r.error == EmptyRing
  {
    if |ring| == 0 then Err(EmptyRing)
    else
      var n := |ring| as real;
      Ok(Coord(Sum(Lons(ring)) / n, Sum(Lats(ring)) / n))
  }

  /** The mean centre lies within the longitude range and within the
      latitude range of the ring's points; no wrap-around at the
      antimeridian is applied. */
  lemma MeanWithinRange(ring: Ring)
    requires |ring| > 0
    ensures var c := CenterMean(ring).value;
      && (exists i :: 0 <= i < |ring| && ring[i].lon <= c.lon)
      && (exists j :: 0 <= j < |ring| && c.lon <= ring[j].lon)
      && (exists i :: 0 <= i < |ring| && ring[i].lat <= c.lat)
      && (exists j :: 0 <= j < |ring| && c.lat <= ring[j].lat)
  {
    MeanBetween(Lons(ring));
    MeanBetween(Lats(ring));
  }

  /** The loop of `getCenterMean` with its accumulators started at zero. */
  method GetCenterMean(latlngs: Ring) returns (c: Result<Coord>)
    ensures c == CenterMean(latlngs)
  {
    var lat := 0.0;
    var lon := 0.0;
    var count := |latlngs|;
    for i := 0 to count
      invariant lat == Sum(Lats(latlngs)[..i])
      invariant lon == Sum(Lons(latlngs)[..i])
    {
      assert Lats(latlngs)[..i + 1][..i] == Lats(latlngs)[..i];
      assert Lons(latlngs)[..i + 1][..i] == Lons(latlngs)[..i];
      lat := lat + latlngs[i].lat;
      lon := lon + latlngs[i].lon;
    }
    assert Lats(latlngs)[..count] == Lats(latlngs);
    assert Lons(latlngs)[..count] == Lons(latlngs);
    if count == 0 {
      return Err(EmptyRing);
    }
    return Ok(Coord(lon / count as real, lat / count as real));
  }

  /** `getCenterMean` as written: `lat` and `lon` start out `undefined`,
      the first `+=` makes them `NaN`, and so both coordinates of every
      centre, of every ring, are `NaN`. */
  method CenterMeanAsWritten(latlngs: Ring) returns (c: (JsNumbers.JsNumber, JsNumbers.JsNumber))
    ensures c == (JsNumbers.NaN, JsNumbers.NaN)
  {
    var lat := JsNumbers.Undefined;
    var lon := JsNumbers.Undefined;
    var count := |latlngs|;
    for i := 0 to count
      invariant !lat.Finite? && !lon.Finite?
    {
      lat := JsNumbers.Add(lat, JsNumbers.Finite(latlngs[i].lat));
      lon := JsNumbers.Add(lon, JsNumbers.Finite(latlngs[i].lon));
    }
    var latc := JsNumbers.Div(lat, JsNumbers.Finite(count as real));
    var lonc := JsNumbers.Div(lon, JsNumbers.Finite(count as real));
    c := (lonc, latc);
  }

  /** The mean centre of a single point is that point. */
  lemma MeanOfOnePoint(p: Coord)
    ensures CenterMean([p]) == Ok(p)
  {
    assert Lons([p])[..0] == [] && Lats([p])[..0] == [];
    assert Sum(Lons([p])) == p.lon;
    assert Sum(Lats([p])) == p.lat;
  }

  /** The mean centre does not depend on where the ring starts. */
  lemma {:induction false} MeanRotationInvariant(ring: Ring, k: nat)
    requires k <= |ring|
    ensures CenterMean(Rotate(ring, k)) == CenterMean(ring)
  {
    var rot := Rotate(ring, k);
    assert Lons(rot) == Lons(ring)[k..] + Lons(ring)[..k];
    assert Lats(rot) == Lats(ring)[k..] + Lats(ring)[..k];
    SumRotate(Lons(ring), k);
    SumRotate(Lats(ring), k);
  }

  /** The mean centre does not depend on the direction of traversal. */
  lemma {:induction false} MeanReversalInvariant(ring: Ring)
    ensures CenterMean(Reverse(ring)) == CenterMean(ring)
  {
    SumReversed(Lons(ring), Lons(Reverse(ring)));
    SumReversed(Lats(ring), Lats(Reverse(ring)));
  }
}
