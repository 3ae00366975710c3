/** `getMaxAreaPoly`: measure every polygon of a multipolygon, record
    `{key: index, val: area}`, sort the records ascending by area with a
    stable sort, `pop` the last record and return the polygon it names.

    The net area of a polygon with holes is modelled as intended (outer
    area minus the zero-started sum of the hole areas, with the loop index
    kept apart); `StepAsWritten` models that branch as the source writes
    it, where it yields `NaN` and overwrites the loop index. */
module RegionSelector {
  import opened GeoTypes
  import opened SphericalArea
  import opened Sums
  import JsNumbers

  /** The area of every ring of `rings`, in order. */
  function RingAreas(mag: EdgeMagnitude, rings: seq<Ring>): (xs: seq<real>)
    requires forall j :: 0 <= j < |rings| ==> |rings[j]| != 1
    ensures |xs| == |rings|
    ensures forall j :: 0 <= j < |rings| ==> Area(mag, rings[j]) == Ok(xs[j])
  {
    seq(|rings|, j requires 0 <= j < |rings| => Area(mag, rings[j]).value)
  }

  /** The summed area of the holes, accumulated from zero; the first
      one-point hole fails. */
  function HoleAreas(mag: EdgeMagnitude, holes: seq<Ring>): (r: Result<real>)
    ensures r.Err? <==> exists j :: 0 <= j < |holes| && |holes[j]| == 1
    ensures r.Ok? ==> 0.0 <= r.value
    decreases |holes|
  {
    if |holes| == 0 then Ok(0.0)
    else
      var before :- HoleAreas(mag, holes[..|holes| - 1]);
      var last :- Area(mag, holes[|holes| - 1]);
      Ok(before + last)
  }

  /** The holes' areas summed from zero are the sum of every hole's
      area. */
  lemma {:induction false} HoleAreasSum(mag: EdgeMagnitude, holes: seq<Ring>)
    requires forall j :: 0 <= j < |holes| ==> |holes[j]| != 1
    ensures HoleAreas(mag, holes) == Ok(Sum(RingAreas(mag, holes)))
    decreases |holes|
  {
    if |holes| > 0 {
      var n := |holes|;
      HoleAreasSum(mag, holes[..n - 1]);
      assert RingAreas(mag, holes[..n - 1]) == RingAreas(mag, holes)[..n - 1];
    }
  }

  /** The net area of a polygon: its outer ring's area less the areas of
      its holes. A polygon without rings fails (`poly[0]` is undefined),
      as does one with a one-point ring. */
  function NetArea(mag: EdgeMagnitude, poly: Polygon): (r: Result<real>)
    ensures |poly| == 0 ==> r == Err(MissingOuterRing)
    ensures |poly| == 1 ==> r == Area(mag, poly[0])
    ensures r.Ok? ==> 0 < |poly| && Area(mag, poly[0]).Ok? && r.value <= Area(mag, poly[0]).value
  {
    if |poly| == 0 then Err(MissingOuterRing)
    else
      var outer :- Area(mag, poly[0]);
      var holes :- HoleAreas(mag, poly[1..]);
      assert forall j :: 0 < j < |poly| ==> poly[j] == poly[1..][j - 1];
      Ok(outer - holes)
  }

  /** A measurable polygon's net area is its outer ring's area less the
      sum of its holes' areas. */
  lemma NetAreaSubtractsHoles(mag: EdgeMagnitude, poly: Polygon)
    requires 0 < |poly|
    requires forall j :: 0 <= j < |poly| ==> |poly[j]| != 1
    ensures NetArea(mag, poly) == Ok(Area(mag, poly[0]).value - Sum(RingAreas(mag, poly[1..])))
  {
    assert forall j :: 0 <= j < |poly[1..]| ==> poly[1..][j] == poly[j + 1];
    HoleAreasSum(mag, poly[1..]);
  }

  /** A polygon with one hole: the outer area less the hole's area. */
  lemma OneHole(mag: EdgeMagnitude, outer: Ring, hole: Ring)
    requires |outer| != 1 && |hole| != 1
    ensures NetArea(mag, [outer, hole]) == Ok(Area(mag, outer).value - Area(mag, hole).value)
  {
    NetAreaSubtractsHoles(mag, [outer, hole]);
    var xs := RingAreas(mag, [outer, hole][1..]);
    assert xs == [Area(mag, hole).value];
    assert xs[..0] == [];
  }

  /** A polygon cannot be measured exactly when it has no ring or one of
      its rings has a single point. */
  lemma NetAreaFailsExactly(mag: EdgeMagnitude, poly: Polygon)
    ensures NetArea(mag, poly).Err? <==> |poly| == 0 || exists j :: 0 <= j < |poly| && |poly[j]| == 1
  {
  }

  /** The area of every polygon, in order; the first polygon that cannot
      be measured decides the failure. */
  function Measure(mag: EdgeMagnitude, polys: seq<Polygon>): (r: Result<seq<real>>)
    ensures r.Ok? <==> forall i :: 0 <= i < |polys| ==> NetArea(mag, polys[i]).Ok?
    ensures r.Ok? ==> |r.value| == |polys|
    ensures r.Ok? ==> forall i :: 0 <= i < |polys| ==> NetArea(mag, polys[i]) == Ok(r.value[i])
    decreases |polys|
  {
    if |polys| == 0 then Ok([])
    else
      var init := polys[..|polys| - 1];
      assert forall i :: 0 <= i < |init| ==> init[i] == polys[i];
      match Measure(mag, init)
      case Err(e) => Err(e)
      case Ok(before) =>
        match NetArea(mag, polys[|polys| - 1])
        case Err(e) => Err(e)
        case Ok(last) => Ok(before + [last])
  }

  /** A failed measurement reports the error of the first polygon that
      cannot be measured. */
  lemma {:induction false} MeasureFirstFailure(mag: EdgeMagnitude, polys: seq<Polygon>)
    requires Measure(mag, polys).Err?
    ensures exists i :: 0 <= i < |polys| && NetArea(mag, polys[i]) == Err(Measure(mag, polys).error)
                        && forall j :: 0 <= j < i ==> NetArea(mag, polys[j]).Ok?
    decreases |polys|
  {
    var n := |polys|;
    var init := polys[..n - 1];
    assert forall i :: 0 <= i < |init| ==> init[i] == polys[i];
    if Measure(mag, init).Err? {
      MeasureFirstFailure(mag, init);
    } else {
      assert NetArea(mag, polys[n - 1]) == Err(Measure(mag, polys).error);
    }
  }

  /** The record `{key: i, val: area}` pushed for polygon `i`. */
  datatype AreaEntry = AreaEntry(key: nat, val: real)

  /** The records `{key: i, val: vals[i]}` pushed in input order. */
  function Entries(vals: seq<real>): (es: seq<AreaEntry>)
    ensures |es| == |vals|
    ensures KeysIncreasing(es)
    ensures forall i :: 0 <= i < |vals| ==> es[i] == AreaEntry(i, vals[i])
  {
    seq(|vals|, i requires 0 <= i < |vals| => AreaEntry(i, vals[i]))
  }

  predicate KeysIncreasing(es: seq<AreaEntry>) {
    forall i, j :: 0 <= i < j < |es| ==> es[i].key < es[j].key
  }

  /** The order a stable ascending sort by `a.val - b.val` leaves records
      in: by area, and by input position among equal areas. */
  predicate Precedes(a: AreaEntry, b: AreaEntry) {
    a.val < b.val || (a.val == b.val && a.key < b.key)
  }

  predicate Sorted(es: seq<AreaEntry>) {
    forall i, j :: 0 <= i < j < |es| ==> Precedes(es[i], es[j])
  }

  /** Places `e` in front of the first record whose area is at least
      its own. */
  function Insert(e: AreaEntry, es: seq<AreaEntry>): (r: seq<AreaEntry>)
    ensures multiset(r) == multiset(es) + multiset{e}
  {
    if |es| == 0 || e.val <= es[0].val then [e] + es
    else
      assert es == [es[0]] + es[1..];
      [es[0]] + Insert(e, es[1..])
  }

  /** `areaMaps.sort(sortRule)`: a stable insertion sort ascending by area. */
  function SortByArea(es: seq<AreaEntry>): (r: seq<AreaEntry>)
    ensures multiset(r) == multiset(es)
  {
    if |es| == 0 then []
    else
      assert es == [es[0]] + es[1..];
      Insert(es[0], SortByArea(es[1..]))
  }

  lemma {:induction false} InsertSorted(e: AreaEntry, es: seq<AreaEntry>)
    requires Sorted(es)
    requires forall x :: x in es ==> e.key < x.key
    ensures Sorted(Insert(e, es))
    decreases |es|
  {
    if |es| == 0 || e.val <= es[0].val {
      var r := [e] + es;
      forall i, j | 0 <= i < j < |r|
        ensures Precedes(r[i], r[j])
      {
        if i == 0 {
          assert r[j] in es;
          if j > 1 {
            assert Precedes(es[0], es[j - 1]);
          }
        }
      }
    } else {
      var rest := Insert(e, es[1..]);
      InsertSorted(e, es[1..]);
      var r := [es[0]] + rest;
      forall j | 0 < j < |r|
        ensures Precedes(r[0], r[j])
      {
        assert r[j] in multiset(rest);
        if r[j] != e {
          assert r[j] in es[1..];
          var m :| 0 <= m < |es[1..]| && es[1..][m] == r[j];
          assert Precedes(es[0], es[m + 1]);
        }
      }
    }
  }

  /** The sort orders the records by area, and equal areas by input
      position: it is stable. */
  lemma {:induction false} SortByAreaSorted(es: seq<AreaEntry>)
    requires KeysIncreasing(es)
    ensures Sorted(SortByArea(es))
    decreases |es|
  {
    if |es| > 0 {
      SortByAreaSorted(es[1..]);
      forall x | x in SortByArea(es[1..])
        ensures es[0].key < x.key
      {
        assert x in multiset(es[1..]);
      }
      InsertSorted(es[0], SortByArea(es[1..]));
    }
  }

  /** `areaMaps.pop()` after the sort. */
  function Pop(es: seq<AreaEntry>): (top: AreaEntry)
    requires |es| > 0
    ensures top in es
  {
    var sorted := SortByArea(es);
    assert sorted[|sorted| - 1] in multiset(es);
    sorted[|sorted| - 1]
  }

  /** The popped record follows every other record in sort order. */
  lemma PopIsGreatest(es: seq<AreaEntry>)
    requires |es| > 0
    requires KeysIncreasing(es)
    ensures forall x :: x in es && x != Pop(es) ==> Precedes(x, Pop(es))
  {
    var sorted := SortByArea(es);
    SortByAreaSorted(es);
    forall x | x in es && x != Pop(es)
      ensures Precedes(x, Pop(es))
    {
      assert x in multiset(sorted);
      var m :| 0 <= m < |sorted| && sorted[m] == x;
    }
  }

  /** `k` holds the greatest area, and is the last position that does. */
  predicate IsLastMaximum(vals: seq<real>, k: int) {
    && 0 <= k < |vals|
    && (forall j :: 0 <= j < |vals| ==> vals[j] <= vals[k])
    && (forall j :: k < j < |vals| ==> vals[j] < vals[k])
  }

  /** Only one position is the last maximum. */
  lemma LastMaximumUnique(vals: seq<real>, k1: int, k2: int)
    requires IsLastMaximum(vals, k1) && IsLastMaximum(vals, k2)
    ensures k1 == k2
  {
    assert vals[k1] == vals[k2];
  }

  /** The record popped from the areas' records names the last position
      of the largest area. */
  lemma PopIsLastMaximum(vals: seq<real>)
    requires |vals| > 0
    ensures IsLastMaximum(vals, Pop(Entries(vals)).key)
  {
    var es := Entries(vals);
    var top := Pop(es);
    PopIsGreatest(es);
    var k :| 0 <= k < |es| && es[k] == top;
    forall j | 0 <= j < |vals| && j != k
      ensures Precedes(es[j], top)
    {
      assert es[j] in es;
    }
  }

  /** The key of the popped record: the position of the largest area,
      and the last of several equal largest areas. */
  function SelectIndex(vals: seq<real>): (k: nat)
    requires |vals| > 0
    ensures IsLastMaximum(vals, k)
  {
    PopIsLastMaximum(vals);
    Pop(Entries(vals)).key
  }

  /** `getMaxAreaPoly(polys)`: the polygon with the largest net area, the
      last one among equals. An empty multipolygon fails (`pop()` yields
      `undefined`), and so does one with a polygon that cannot be
      measured. */
  function MaxAreaPoly(mag: EdgeMagnitude, polys: seq<Polygon>): (r: Result<Polygon>)
    ensures r.Ok? <==> 0 < |polys| && Measure(mag, polys).Ok?
    ensures r.Err? ==> r.error == (if Measure(mag, polys).Err? then Measure(mag, polys).error else EmptyMultiPolygon)
    ensures r.Ok? ==> exists k :: IsLastMaximum(Measure(mag, polys).value, k) && r.value == polys[k]
  {
    var vals :- Measure(mag, polys);
    if |vals| == 0 then Err(EmptyMultiPolygon)
    else
      var k := SelectIndex(vals);
      Ok(polys[k])
  }

  /** The selected polygon's net area is at least that of every polygon
      of the input. */
  lemma MaxAreaPolyIsLargest(mag: EdgeMagnitude, polys: seq<Polygon>)
    requires 0 < |polys| && Measure(mag, polys).Ok?
    ensures MaxAreaPoly(mag, polys).Ok?
    ensures var chosen := MaxAreaPoly(mag, polys).value;
      forall i :: 0 <= i < |polys| ==> NetArea(mag, polys[i]).value <= NetArea(mag, chosen).value
  {
  }

  /** The last position of the largest net area determines the result:
      the polygon selected is exactly the one at that position. */
  lemma LastMaximumSelected(mag: EdgeMagnitude, polys: seq<Polygon>, k: nat)
    requires Measure(mag, polys).Ok?
    requires IsLastMaximum(Measure(mag, polys).value, k)
    ensures MaxAreaPoly(mag, polys) == Ok(polys[k])
  {
    var vals := Measure(mag, polys).value;
    var top :| IsLastMaximum(vals, top) && MaxAreaPoly(mag, polys).value == polys[top];
    LastMaximumUnique(vals, k, top);
  }

  /** A single polygon is selected unchanged. */
  lemma SingleEntrySelected(mag: EdgeMagnitude, p: Polygon)
    requires NetArea(mag, p).Ok?
    ensures MaxAreaPoly(mag, [p]) == Ok(p)
  {
  }

  /** A polygon strictly larger than all others is selected wherever it
      stands in the input. */
  lemma StrictMaximumSelected(mag: EdgeMagnitude, polys: seq<Polygon>, k: nat)
    requires k < |polys|
    requires Measure(mag, polys).Ok?
    requires forall j :: 0 <= j < |polys| && j != k ==>
               NetArea(mag, polys[j]).value < NetArea(mag, polys[k]).value
    ensures MaxAreaPoly(mag, polys) == Ok(polys[k])
  {
  }

  /** For hole-free polygons every net area is the area of the outer ring,
      which is what the source's simple-polygon branch records. */
  lemma HoleFreeMeasure(mag: EdgeMagnitude, polys: seq<Polygon>)
    requires forall i :: 0 <= i < |polys| ==> |polys[i]| == 1 && |polys[i][0]| != 1
    ensures Measure(mag, polys).Ok?
    ensures forall i :: 0 <= i < |polys| ==> Measure(mag, polys).value[i] == Area(mag, polys[i][0]).value
  {
  }

  // ---- The holes branch as written -----------------------------------

  /** A record as the source pushes it. */
  datatype RecordedEntry = RecordedEntry(key: int, val: JsNumbers.JsNumber)

  /** The inner `for (var i = 1; i < poly.length; i++) holes += ...` loop.
      `var i` is function-scoped in JavaScript, so this loop runs on the
      outer loop's index; the result pairs the index it leaves behind with
      the final `holes`. */
  function HoleLoopAsWritten(mag: EdgeMagnitude, poly: Polygon, i: nat, holes: JsNumbers.JsNumber)
    : (r: (nat, JsNumbers.JsNumber))
    requires 1 <= i <= |poly|
    requires forall j :: 0 <= j < |poly| ==> |poly[j]| != 1
    ensures r.0 == |poly|
    ensures !holes.Finite? ==> !r.1.Finite?
    ensures i < |poly| && !holes.Finite? ==> r.1 == JsNumbers.NaN
    decreases |poly| - i
  {
    if i < |poly| then
      HoleLoopAsWritten(mag, poly, i + 1, JsNumbers.Add(holes, JsNumbers.Finite(Area(mag, poly[i]).value)))
    else (i, holes)
  }

  /** One iteration of the outer loop as written: the record it pushes and
      the index the next iteration reads. A hole-free polygon is recorded
      correctly; a polygon with holes is recorded as `NaN` under the key
      `poly.length`, and the next iteration reads `poly.length + 1`.
      The hole loop starts from `undefined` here. `var holes` has no
      initialiser, so on a later polygon with holes it still holds the
      earlier `NaN`; `HoleLoopAsWritten` yields `NaN` from either start,
      so the record is the same. */
  function StepAsWritten(mag: EdgeMagnitude, polys: seq<Polygon>, i: nat)
    : (r: (RecordedEntry, nat))
    requires i < |polys| && 0 < |polys[i]|
    requires forall j :: 0 <= j < |polys[i]| ==> |polys[i][j]| != 1
    ensures |polys[i]| == 1 ==>
              r == (RecordedEntry(i, JsNumbers.Finite(NetArea(mag, polys[i]).value)), i + 1)
    ensures 1 < |polys[i]| ==>
              r == (RecordedEntry(|polys[i]|, JsNumbers.NaN), |polys[i]| + 1)
  {
    var poly := polys[i];
    var ring := JsNumbers.Finite(Area(mag, poly[0]).value);
    if |poly| == 1 then (RecordedEntry(i, ring), i + 1)
    else
      var (j, holes) := HoleLoopAsWritten(mag, poly, 1, JsNumbers.Undefined);
      (RecordedEntry(j, JsNumbers.Sub(ring, holes)), j + 1)
  }

  /** Four polygons, the last with one hole: the source records `NaN`
      under key 2 for polygon 3 and then reads polygon 3 again, forever;
      the intended record is key 3 with the polygon's net area, 0. */
  lemma HoleBranchRevisitsPolygon(mag: EdgeMagnitude)
    ensures var empty: Ring := [];
      var polys: seq<Polygon> := [[empty], [empty], [empty], [empty, empty]];
      && StepAsWritten(mag, polys, 3) == (RecordedEntry(2, JsNumbers.NaN), 3)
      && NetArea(mag, polys[3]) == Ok(0.0)
      && Measure(mag, polys).Ok?
      && Entries(Measure(mag, polys).value)[3] == AreaEntry(3, 0.0)
  {
  }
}
