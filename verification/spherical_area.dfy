/** The ring area of `getArea`: a cyclic accumulation of signed per-edge
    spherical excesses, returned as `|sum| * r * r`.

    The trigonometry that yields one edge's excess (haversine, `asin`,
    `tan`, `atan`) is not modelled: it is the parameter `mag`, an
    arbitrary real function of the edge's two endpoints that is
    non-negative (the outer `Math.abs`) and symmetric in its endpoints
    (`haversine` is even, `cosB1 * cosB2` commutes, and the two colatitudes
    enter `s` and `t` symmetrically). The counting, sign and cyclic
    structure around it is modelled exactly. */
module SphericalArea {
  import opened GeoTypes
  import opened Sums

  /** Mean Earth radius in metres used by the source. */
  const EarthRadius: real := 6371302.0

  ghost predicate IsEdgeMagnitude(f: (Coord, Coord) -> real) {
    forall p, q :: 0.0 <= f(p, q) && f(p, q) == f(q, p)
  }

  /** The magnitude of the spherical excess an edge contributes. */
  type EdgeMagnitude = f: (Coord, Coord) -> real | IsEdgeMagnitude(f)
    witness (p: Coord, q: Coord) => 0.0

  /** The signed excess of the edge from `p` to `q`: nothing for an edge
      along a meridian, the magnitude for an eastward edge, and its
      negation for a westward one. */
  function EdgeTerm(mag: EdgeMagnitude, p: Coord, q: Coord): (e: real)
    ensures Abs(e) == (if p.lon == q.lon then 0.0 else mag(p, q))
    ensures e < 0.0 ==> q.lon < p.lon
    ensures q.lon < p.lon ==> e <= 0.0
  {
    if p.lon == q.lon then 0.0
    else if q.lon < p.lon then -mag(p, q)
    else mag(p, q)
  }

  /** Traversing an edge backwards negates its signed excess. */
  lemma EdgeTermAntisymmetric(mag: EdgeMagnitude, p: Coord, q: Coord)
    ensures EdgeTerm(mag, q, p) == -EdgeTerm(mag, p, q)
  {
  }

  /** The signed excess of every edge of the ring, edge `i` running from
      point `i` to point `(i + 1) % n`, so the closing edge from the last
      point back to the first is included. */
  function Terms(mag: EdgeMagnitude, ring: Ring): (t: seq<real>)
    ensures |t| == |ring|
  {
    seq(|ring|, i requires 0 <= i < |ring| => EdgeTerm(mag, ring[i], ring[Next(i, |ring|)]))
  }

  /** The accumulated `sum` of the source's loop. */
  function SignedSum(mag: EdgeMagnitude, ring: Ring): real {
    Sum(Terms(mag, ring))
  }

  /** The area of a ring: a one-point ring fails, because the first
      iteration reads the missing second point; any other ring yields
      the absolute signed sum scaled by the squared radius. */
  function Area(mag: EdgeMagnitude, ring: Ring): (r: Result<real>)
    ensures r.Err? <==> |ring| == 1
    ensures r.Err? ==> r.error == SinglePointRing
    ensures r.Ok? ==> 0.0 <= r.value
  {
    if |ring| == 1 then Err(SinglePointRing)
    else Ok(Abs(SignedSum(mag, ring)) * EarthRadius * EarthRadius)
  }

  /** The loop of the source, step by step: the first iteration reads
      points 0 and 1, every later iteration carries the previous end point
      over as its start point and reads point `(i + 1) % n`. It computes
      the cyclic reference `Area`. */
  method GetArea(mag: EdgeMagnitude, latlngs: Ring) returns (r: Result<real>)
    ensures r == Area(mag, latlngs)
  {
    var n := |latlngs|;
    var sum := 0.0;
    var start := Coord(0.0, 0.0);
    var end := Coord(0.0, 0.0);
    var i := 0;
    while i < n
      invariant 0 <= i <= n
      invariant n == 1 ==> i == 0
      invariant 0 < i ==> end == latlngs[Next(i - 1, n)]
      invariant sum == Sum(Terms(mag, latlngs)[..i])
    {
      if i == 0 {
        if n < 2 {
          return Err(SinglePointRing);
        }
        start := latlngs[i];
        end := latlngs[i + 1];
      } else {
        var j := (i + 1) % n;
        start := end;
        end := latlngs[j];
      }
      if start.lon != end.lon {
        var excess := mag(start, end);
        if end.lon < start.lon {
          excess := -excess;
        }
        sum := sum + excess;
      }
      assert Terms(mag, latlngs)[..i + 1] == Terms(mag, latlngs)[..i] + [Terms(mag, latlngs)[i]];
      i := i + 1;
    }
    assert Terms(mag, latlngs)[..n] == Terms(mag, latlngs);
    return Ok(Abs(sum) * EarthRadius * EarthRadius);
  }

  /** An empty ring has zero area (the loop body never runs) and a
      two-point ring, whose two edges cancel, has zero area too. */
  lemma DegenerateRings(mag: EdgeMagnitude, ring: Ring)
    requires |ring| == 0 || |ring| == 2
    ensures Area(mag, ring) == Ok(0.0)
  {
    if |ring| == 2 {
      var t := Terms(mag, ring);
      EdgeTermAntisymmetric(mag, ring[0], ring[1]);
      assert t[1] == -t[0];
      assert t[..1][..0] == [];
      assert Sum(t[..1]) == t[0];
      assert Sum(t) == Sum(t[..1]) + t[1];
    }
  }

  /** A ring all of whose points lie on one meridian has zero area: an
      edge between equal longitudes contributes nothing. */
  lemma MeridianRingHasNoArea(mag: EdgeMagnitude, ring: Ring)
    requires |ring| != 1
    requires forall i :: 0 <= i < |ring| ==> ring[i].lon == ring[0].lon
    ensures Area(mag, ring) == Ok(0.0)
  {
    SumZeros(Terms(mag, ring));
  }

  /** Rotating the ring's starting point rotates its edge terms. */
  lemma TermsRotate(mag: EdgeMagnitude, ring: Ring, k: nat)
    requires k < |ring|
    ensures Terms(mag, Rotate(ring, k)) == Terms(mag, ring)[k..] + Terms(mag, ring)[..k]
  {
  }

  /** Starting the ring at another of its points does not change its
      area. */
  lemma {:induction false} AreaRotationInvariant(mag: EdgeMagnitude, ring: Ring, k: nat)
    requires k <= |ring|
    ensures Area(mag, Rotate(ring, k)) == Area(mag, ring)
  {
    if k < |ring| {
      TermsRotate(mag, ring, k);
      SumRotate(Terms(mag, ring), k);
    } else {
      assert Rotate(ring, k) == ring;
    }
  }

  /** Traversing the ring in the opposite direction negates every edge
      term and reverses their order, except that the closing edge stays
      last. */
  lemma TermsReverse(mag: EdgeMagnitude, ring: Ring)
    requires |ring| > 0
    ensures var n := |ring|;
      Terms(mag, Reverse(ring)) == Negate(Reverse(Terms(mag, ring)[..n - 1])) + [-Terms(mag, ring)[n - 1]]
  {
  }

  /** Reversing the ring negates the signed sum. */
  lemma SignedSumReversed(mag: EdgeMagnitude, ring: Ring)
    ensures SignedSum(mag, Reverse(ring)) == -SignedSum(mag, ring)
  {
    var n := |ring|;
    if n > 0 {
      var t := Terms(mag, ring);
      var front := t[..n - 1];
      TermsReverse(mag, ring);
      SumAppend(Negate(Reverse(front)), [-t[n - 1]]);
      SumNegate(Reverse(front));
      SumReversed(front, Reverse(front));
      assert Sum([-t[n - 1]]) == -t[n - 1] by {
        assert [-t[n - 1]][..0] == [];
      }
      assert t[..n - 1] + [t[n - 1]] == t;
      SumAppend(front, [t[n - 1]]);
      assert Sum([t[n - 1]]) == t[n - 1] by {
        assert [t[n - 1]][..0] == [];
      }
    }
  }

  /** Traversing the ring in the opposite direction does not change its
      area. */
  lemma AreaReversalInvariant(mag: EdgeMagnitude, ring: Ring)
    ensures Area(mag, Reverse(ring)) == Area(mag, ring)
  {
    SignedSumReversed(mag, ring);
  }
}
