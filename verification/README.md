# geoinfo — a Dafny model of the GeoInfo geometry core

`GeoInfo` looks a place up with a geocoding service. It takes the GeoJSON
polygon or multipolygon of the first result and computes a centre point
for it. The logic worth modelling lives in `public_html/js/GeoInfo.js`:

- `getArea` computes a ring's area on a sphere of radius 6371302 m. It is a
  cyclic sum of signed per-edge spherical excesses.
- `getMaxAreaPoly` picks the largest polygon of a multipolygon. It records
  `{key, val}` per polygon, sorts the records ascending by area, and pops
  the last one.
- `sendQuery` dispatches on the geometry type and on the `method` flag.
- `getCenterMean` is the arithmetic-mean centre.

The model is pure Dafny over `real`. Modules follow the source's structure:

- `GeoTypes` (`geo_types.dfy`): coordinates, rings, polygons, failures, and a `Result` type.
- `Sums` (`sums.dfy`): zero-started left-to-right sums and their algebra.
- `SphericalArea` (`spherical_area.dfy`): `getArea`.
- `RegionSelector` (`region_selector.dfy`): `getMaxAreaPoly`.
- `Centroid` (`centroid.dfy`): `getCenterMean`.
- `GeoInfo` (`geo_info.dfy`): the dispatch inside `sendQuery`.
- `JsNumbers` (`js_numbers.dfy`): the few JavaScript number rules (`undefined`, `NaN`) that the defects need.

The trigonometry that gives one edge its excess cannot be verified. It is
the parameter `mag: EdgeMagnitude`, an arbitrary real function of the
edge's two endpoints. Its type requires exactly two things:

- it is non-negative, because of the outer `Math.abs`;
- it is symmetric in the two endpoints, because `haversine` is even,
  `cosB1 * cosB2` commutes, and the two colatitudes enter `s` and `t`
  symmetrically.

Everything around it is modelled exactly: which edges count, their signs,
the cyclic closing edge, the absolute value, and the `r * r` scaling.

Note that the code does the following, and the model does the same:

- Ties between equal largest areas go to the LAST such polygon (stable
  ascending sort, then `pop`), not the first.
- Polygons are ranked by their raw net area (`a.val - b.val`), not by its
  absolute value.
- Only a one-point ring makes `getArea` fail. An empty ring has area 0,
  and so does a two-point ring, whose two edges cancel.
- `getMaxAreaPoly` is used for every `MultiPolygon`, even one with a
  single part.
- The centre method is an integer flag. Any value other than 0 or 1 leaves
  the centre unset.

## Model

| member | source | states |
|---|---|---|
| SphericalArea.EdgeTerm | public_html/js/GeoInfo.js:202-220 | an edge between equal longitudes contributes nothing; otherwise the contribution's magnitude is the edge's excess, and it is negative only for a westward edge (end longitude below start longitude) |
| SphericalArea.EdgeTermAntisymmetric | public_html/js/GeoInfo.js:204-217 | traversing an edge backwards negates its contribution, because the excess is symmetric and the sign follows the direction |
| SphericalArea.Area | public_html/js/GeoInfo.js:179-222 | the area fails exactly for a one-point ring (the first iteration reads the missing `latlngs[1]`); otherwise it is non-negative |
| SphericalArea.GetArea | public_html/js/GeoInfo.js:158-223 | the loop, with its special first iteration and the end point carried into the next iteration, computes the cyclic sum over edges `i -> (i + 1) % n`, closing edge included, as `|sum| * 6371302²` |
| SphericalArea.DegenerateRings | public_html/js/GeoInfo.js:179-222 | an empty ring has area 0 (the loop body never runs), and so does a two-point ring |
| SphericalArea.MeridianRingHasNoArea | public_html/js/GeoInfo.js:202-220 | a ring whose points all share one longitude has area 0 |
| SphericalArea.AreaRotationInvariant | public_html/js/GeoInfo.js:179-200 | starting the ring at any other of its points leaves the area unchanged |
| SphericalArea.SignedSumReversed | public_html/js/GeoInfo.js:204-219 | traversing the ring in the opposite direction negates the signed sum |
| SphericalArea.AreaReversalInvariant | public_html/js/GeoInfo.js:204-222 | traversing the ring in the opposite direction leaves the area unchanged |
| RegionSelector.HoleAreas | public_html/js/GeoInfo.js:244-250 | the hole areas summed from zero are non-negative, and the sum fails exactly when some hole has one point |
| RegionSelector.HoleAreasSum | public_html/js/GeoInfo.js:244-250 | when no hole has a single point, the zero-started accumulation is the sum of every hole's `getArea` |
| RegionSelector.NetArea | public_html/js/GeoInfo.js:235-253 | a polygon without rings fails (`poly[0]` is undefined); a hole-free polygon's area is its outer ring's area; holes can only lower the net area |
| RegionSelector.NetAreaSubtractsHoles | public_html/js/GeoInfo.js:240-253 | a measurable polygon's net area is its outer ring's area less the sum of its holes' areas |
| RegionSelector.OneHole | public_html/js/GeoInfo.js:240-253 | a polygon with one hole has the outer ring's area less the hole's area |
| RegionSelector.NetAreaFailsExactly | public_html/js/GeoInfo.js:235-253 | a polygon cannot be measured exactly when it has no ring or one of its rings has a single point |
| RegionSelector.Measure | public_html/js/GeoInfo.js:229-262 | measuring succeeds exactly when every polygon can be measured, and then every polygon gets exactly one area, in input order, at its own index |
| RegionSelector.MeasureFirstFailure | public_html/js/GeoInfo.js:229-262 | a failed measurement reports the error of the first polygon that cannot be measured |
| RegionSelector.Entries | public_html/js/GeoInfo.js:255-261 | one record is pushed per polygon, carrying that polygon's area under its own index, so the keys increase in input order |
| RegionSelector.SortByArea | public_html/js/GeoInfo.js:264-267 | sorting the records neither loses nor adds a record |
| RegionSelector.SortByAreaSorted | public_html/js/GeoInfo.js:264-267 | the sort orders records ascending by area, and equal areas by input position (the sort is stable) |
| RegionSelector.Pop | public_html/js/GeoInfo.js:267-268 | popping the sorted records returns one of the records pushed |
| RegionSelector.PopIsGreatest | public_html/js/GeoInfo.js:267-268 | the popped record comes after every other record in that order |
| RegionSelector.SelectIndex | public_html/js/GeoInfo.js:255-268 | the popped key is the position of the largest area, and among equal largest areas the last one |
| RegionSelector.MaxAreaPoly | public_html/js/GeoInfo.js:227-271 | selection succeeds exactly for a non-empty multipolygon whose polygons can all be measured; an empty one fails because `pop()` is undefined, otherwise the measuring error is reported; the result is the polygon at the last position of the largest net area |
| RegionSelector.MaxAreaPolyIsLargest | public_html/js/GeoInfo.js:227-271 | the selected polygon's net area is at least that of every polygon of the input |
| RegionSelector.LastMaximumSelected | public_html/js/GeoInfo.js:264-270 | the last position of the largest net area fixes the result: the polygon selected is exactly the one at that position |
| RegionSelector.SingleEntrySelected | public_html/js/GeoInfo.js:264-270 | a one-polygon multipolygon yields that polygon |
| RegionSelector.StrictMaximumSelected | public_html/js/GeoInfo.js:264-270 | a polygon strictly larger than all others is chosen wherever it stands in the input |
| RegionSelector.HoleFreeMeasure | public_html/js/GeoInfo.js:236-239 | for hole-free polygons every recorded area is the outer ring's `getArea` |
| RegionSelector.HoleLoopAsWritten | public_html/js/GeoInfo.js:244-250 | as written, the hole loop leaves the shared index at `poly.length`; started from `undefined` it never yields a number, and once it has added a hole `holes` is `NaN` |
| RegionSelector.StepAsWritten | public_html/js/GeoInfo.js:230-262 | as written, a hole-free polygon is recorded correctly; a polygon with holes is recorded as `NaN` under key `poly.length`, and the next iteration reads index `poly.length + 1` |
| RegionSelector.HoleBranchRevisitsPolygon | public_html/js/GeoInfo.js:241-262 | with four polygons, the last having one hole, the source records key 2 and `NaN` for polygon 3 and then reads polygon 3 again, forever; the intended record has key 3 and area 0 |
| Centroid.CenterMean | public_html/js/GeoInfo.js:141-157 | the mean centre exists exactly for a non-empty ring; an empty ring has none (0 / 0) |
| Centroid.MeanWithinRange | public_html/js/GeoInfo.js:146-153 | the mean centre lies within the longitude range and within the latitude range of the ring's points |
| Centroid.GetCenterMean | public_html/js/GeoInfo.js:141-157 | the loop with zero-started accumulators computes the mean centre `[lon, lat]` |
| Centroid.CenterMeanAsWritten | public_html/js/GeoInfo.js:141-157 | as written, with `lat` and `lon` never initialised, both coordinates of every centre are `NaN` |
| Centroid.MeanOfOnePoint | public_html/js/GeoInfo.js:144-155 | the mean centre of one point is that point |
| Centroid.MeanRotationInvariant | public_html/js/GeoInfo.js:146-153 | the mean centre does not depend on where the ring starts |
| Centroid.MeanReversalInvariant | public_html/js/GeoInfo.js:146-153 | the mean centre does not depend on the direction of traversal |
| GeoInfo.ChooseRing | public_html/js/GeoInfo.js:69-80 | `Polygon` yields `coords[0]`, and fails when there is no ring; `MultiPolygon` yields `getMaxAreaPoly(coords)[0]`, the outer ring of the polygon at the last position of the largest net area, and fails with `getMaxAreaPoly`'s error; any other type is not found |
| GeoInfo.ChooseRingIsLargest | public_html/js/GeoInfo.js:69-72 | a non-empty multipolygon whose parts can all be measured always yields a ring, and that ring is the outer ring of a part whose net area is at least that of every part |
| GeoInfo.ChooseCenter | public_html/js/GeoInfo.js:82-91 | method 0 selects the weighted centre of the ring, method 1 the arithmetic mean, and any other value leaves the centre unset |
| GeoInfo.Locate | public_html/js/GeoInfo.js:67-101 | the result pairs the chosen ring with the centre chosen for that ring; it succeeds exactly when a ring is chosen and its centre exists; when no ring can be chosen that failure is the result, otherwise the only failure is the mean centre of an empty ring |
| GeoInfo.MeanMethodOnPolygon | public_html/js/GeoInfo.js:73-91 | with method 1 a polygon's centre is the arithmetic mean of its outer ring, and an empty outer ring has no centre |
| GeoInfo.PolygonUsesOuterRing | public_html/js/GeoInfo.js:73-76 | a polygon's outer ring is used unchanged and its holes are ignored |
| GeoInfo.SinglePartMultiPolygon | public_html/js/GeoInfo.js:69-72 | a one-part multipolygon uses that part's outer ring |
| GeoInfo.LargerPartWins | public_html/js/GeoInfo.js:69-72 | of two hole-free parts with different areas, the larger part's ring is used, in either input order |

## Findings

| source | as written | input that shows it | evidently intended | confidence | as-written member | corrected member |
|---|---|---|---|---|---|---|
| public_html/js/GeoInfo.js:143-153 | `lat` and `lon` are declared without a value, so the first `+=` turns them into `NaN`, and every centre is `[NaN, NaN]` | the ring `[[10, 20]]` gives `[NaN, NaN]` instead of `[10, 20]` | accumulators start at 0, so the result is the mean of the points | high (not executed) | Centroid.CenterMeanAsWritten | Centroid.CenterMean |
| public_html/js/GeoInfo.js:244-258 | `holes` is never initialised, so a polygon with holes gets area `NaN`. The inner loop's `var i` is the outer loop's index, so the record gets key `poly.length`, and the outer loop resumes at `poly.length + 1`, which can be the same polygon again | four polygons whose last has one hole: polygon 3 is recorded as key 2 with `NaN`, and the loop comes back to index 3 forever | holes summed from 0 with their own index; each polygon recorded once, under its own index, with its net area | high (not executed) | RegionSelector.HoleBranchRevisitsPolygon | RegionSelector.NetArea |

The selection (`MaxAreaPoly`) uses the corrected `NetArea`. For hole-free
polygons, `NetArea` is exactly what the source records (`HoleFreeMeasure`,
`StepAsWritten`). The mean centre uses zero-started accumulators, which is
a deliberate deviation from the code as written.

## Left out

- `getInfo`'s session-storage cache and the `fromCache` flag (lines 28-50) are left out: they are browser storage I/O.
- The `XMLHttpRequest`, JSON parsing, and the "no search result" branch of `sendQuery` (lines 53-66, 104-107) are left out: they are network I/O. The model starts from the first result's geometry.
- `sendQuery`'s result object (lines 93-101) holds `name`, `type`, `displayName`, the whole `geoJson` geometry, `center` and `fromCache`; only the centre is modelled. The chosen ring `latlngs` is a local variable the source never returns. `Found` adds it next to the centre so that the selection can be seen.
- The trigonometric value of an edge's excess (haversine, `asin`, `tan`, `atan`; lines 204-212) is floating-point numerics. It is the abstract non-negative, symmetric parameter `mag`.
- `getCenterWeight` (lines 112-137) is floating-point trigonometry. The weighted centre stays symbolic, as `WeightCenterOf(ring)`.
- Numbers are exact reals. Radian conversion is exact and strictly increasing, so the longitude tests `lam1 !== lam2` and `lam2 < lam1` are made on degrees. Rounding, infinities and `-0` are not modelled.
- The sort that runs after a `NaN` record has been pushed is left out. Its comparator returns `NaN`, so the resulting order is implementation-defined. The as-written holes branch is modelled up to the record it pushes and the index it leaves behind.
- `console.log` and `alert` (lines 254, 269), the Backbone singleton shell (lines 7-19) and `main.js` are telemetry and UI wiring.
- GeoInfo.ChooseRing and GeoInfo.Locate: a `Polygon` with no rings fails here with `MissingOuterRing`. In the source, `latlngs` becomes `undefined`, and the failure only happens inside the centre routine. When `method` is neither 0 nor 1, the source does not fail at all and returns an object whose `center` is `undefined`, where `Locate` returns `Err(MissingOuterRing)`.
- Centroid.CenterMean: an empty ring fails with `EmptyRing`. Zero-started JavaScript accumulators would instead return `[NaN, NaN]`.
- The last-of-equal-maxima tie-break relies on `Array.prototype.sort` being stable, which the language guarantees from ECMAScript 2019 on. Older engines could sort longer arrays unstably, and then which of several equal largest polygons wins is unspecified. The model assumes a stable sort.
- RegionSelector.HoleLoopAsWritten and RegionSelector.StepAsWritten require that no ring of the polygon has a single point and that the polygon has at least one ring. The `TypeError` that `getArea` throws inside the as-written branch for such a polygon (a missing `latlngs[1]`, or `getArea(undefined)` at line 243) is not modelled there; the corrected `NetArea` does model it.
- JsNumbers.Div: a finite number divided by zero (an infinity) is excluded, because no modelled code path does that division.
