/** Value types shared by the geometry core: GeoJSON-shaped coordinates,
    rings, polygons, the failures the core can run into, and a small
    failure-compatible Result type. */
module GeoTypes {

  /** A GeoJSON position `[lon, lat]` in decimal degrees. */
  datatype Coord = Coord(lon: real, lat: real)

  /** A ring is an implicitly cyclic sequence of positions. */
  type Ring = seq<Coord>

  /** A GeoJSON polygon: the outer ring followed by zero or more holes. */
  type Polygon = seq<Ring>

  /** The ways the core can fail. In the JavaScript these are thrown
      TypeErrors (reading a property of `undefined`), a `NaN` result, or
      the `false` returned for an unsupported geometry. */
  datatype GeoError =
    | SinglePointRing        // `latlngs[i + 1]` is undefined for a one-point ring
    | MissingOuterRing       // `poly[0]` is undefined for a polygon without rings
    | EmptyMultiPolygon      // `areaMaps.pop()` is undefined
    | EmptyRing              // the mean of no points is 0 / 0
    | UnsupportedGeometryType

  datatype Result<+T> = Ok(value: T) | Err(error: GeoError) {

    predicate IsFailure() {
      Err?
    }

    function PropagateFailure<U>(): Result<U>
      requires Err?
    {
      Err(error)
    }

    function Extract(): T
      requires Ok?
    {
      value
    }
  }

  function Abs(x: real): (r: real)
    ensures 0.0 <= r
    ensures r == x || r == -x
  {
    if x < 0.0 then -x else x
  }

  /** The index that follows `i` on a cycle of length `n`. */
  function Next(i: nat, n: nat): (j: nat)
    requires i < n
    ensures j < n
    ensures j == (i + 1) % n
  {
    if i + 1 < n then i + 1 else 0
  }

  /** The ring started at its `k`-th point. */
  function Rotate<T>(s: seq<T>, k: nat): (r: seq<T>)
    requires k <= |s|
    ensures |r| == |s|
    ensures multiset(r) == multiset(s)
  {
    assert s == s[..k] + s[k..];
    s[k..] + s[..k]
  }

  /** The ring traversed in the opposite direction. */
  function Reverse<T>(s: seq<T>): (r: seq<T>)
    ensures |r| == |s|
    ensures forall i :: 0 <= i < |s| ==> r[i] == s[|s| - 1 - i]
  {
    seq(|s|, i requires 0 <= i < |s| => s[|s| - 1 - i])
  }
}
