/** Green coverage per district: the column is first set to 0.0 everywhere, then each row is
    overwritten with (sum of the clipped areas of the green features that intersect the
    district) / (district area). The geometry engine's answers are inputs: which features
    intersect a district, the area of each feature clipped to it, and the district's area.
    Overlapping features are added without a union, so coverage can exceed 1. */
module GreenCoverage {
  import opened Frames

  /** The geometry engine's answers for one district: its projected area, and per green feature
      whether it intersects the district and the area of its intersection with the district. */
  datatype Overlay = Overlay(boundaryArea: real, hits: seq<bool>, clipped: seq<real>)

  ghost predicate WellFormed(o: Overlay)
  {
    && |o.hits| == |o.clipped|
    && o.boundaryArea > 0.0
    && forall j :: 0 <= j < |o.clipped| ==> o.clipped[j] >= 0.0
  }

  /** `intersected["geometry"].area.sum()`: the clipped areas of the intersecting features,
      added one by one (an overlap is counted once per feature that covers it). */
  function ClippedTotal(hits: seq<bool>, clipped: seq<real>): (t: real)
    requires |hits| == |clipped|
    requires forall j :: 0 <= j < |clipped| ==> clipped[j] >= 0.0
    ensures t >= 0.0
    ensures true !in hits ==> t == 0.0
  {
    if hits == [] then 0.0
    else (if hits[0] then clipped[0] else 0.0) + ClippedTotal(hits[1..], clipped[1..])
  }

  /** The value row i ends with: exactly 0.0 when no feature intersects the district, and
      otherwise the fraction whose product with the district's area is the summed clipped area. */
  function Coverage(o: Overlay): (c: real)
    requires WellFormed(o)
    ensures c >= 0.0
    ensures true !in o.hits ==> c == 0.0
    ensures true in o.hits ==> c * o.boundaryArea == ClippedTotal(o.hits, o.clipped)
  {
    if true !in o.hits then 0.0 else ClippedTotal(o.hits, o.clipped) / o.boundaryArea
  }

  /** Coverage exceeds 1 exactly when the intersecting features' clipped areas add up to more
      than the district, which overlapping features can do. */
  lemma CoverageAboveOne(o: Overlay)
    requires WellFormed(o) && true in o.hits
    ensures Coverage(o) > 1.0 <==> ClippedTotal(o.hits, o.clipped) > o.boundaryArea
  {
    ScaledAboveOne(Coverage(o), o.boundaryArea, ClippedTotal(o.hits, o.clipped));
  }

  lemma ScaledAboveOne(c: real, a: real, t: real)
    requires a > 0.0 && c * a == t
    ensures c > 1.0 <==> t > a
  {
    if c > 1.0 {
      ProductPositive(c - 1.0, a);
      assert (c - 1.0) * a == c * a - a;
    } else {
      ProductNonNegative(1.0 - c, a);
      assert (1.0 - c) * a == a - c * a;
    }
  }

  lemma ProductNonNegative(x: real, y: real)
    requires x >= 0.0 && y >= 0.0
    ensures x * y >= 0.0
  {
  }

  lemma ProductPositive(x: real, y: real)
    requires x > 0.0 && y > 0.0
    ensures x * y > 0.0
  {
  }

  /** Two parks that each cover the whole of a 100 m² district: coverage 2.0, not 1.0. */
  lemma OverlapCountedTwice()
    ensures Coverage(Overlay(100.0, [true, true], [100.0, 100.0])) == 2.0
  {
    var o := Overlay(100.0, [true, true], [100.0, 100.0]);
    assert ClippedTotal(o.hits, o.clipped) == 200.0 by {
      assert o.hits[1..] == [true] && o.clipped[1..] == [100.0];
      assert o.hits[1..][1..] == [];
    }
  }

  /** The coverage loop over the district table, updating the `green_area` column in place. */
  method FillCoverage(column: array<real>, overlays: seq<Overlay>)
    requires column.Length == |overlays|
    requires forall i :: 0 <= i < |overlays| ==> WellFormed(overlays[i])
    modifies column
    ensures forall i :: 0 <= i < column.Length ==> column[i] == Coverage(overlays[i])
  {
    // every cell starts at 0.0
    for i := 0 to column.Length
      invariant forall k :: 0 <= k < i ==> column[k] == 0.0
    {
      column[i] := 0.0;
    }
    // each district's cell then receives its coverage
    for i := 0 to column.Length
      invariant forall k :: 0 <= k < i ==> column[k] == Coverage(overlays[k])
      invariant forall k :: i <= k < column.Length ==> column[k] == 0.0
    {
      var o := overlays[i];
      if true in o.hits {
        column[i] := ClippedTotal(o.hits, o.clipped) / o.boundaryArea;
      }
    }
  }

  // ---------------------------------------------------------------- display

  /** Python's `round(x, 2)` on an exact value: to the nearest hundredth, ties to the even one. */
  function Round2(x: real): (r: real)
    ensures -0.005 <= r - x <= 0.005
  {
    var y := x * 100.0;
    var f := y.Floor;
    var d := y - f as real;
    var n := if d < 0.5 then f else if d > 0.5 then f + 1 else if f % 2 == 0 then f else f + 1;
    n as real / 100.0
  }

  /** Rounding an already rounded value changes nothing. */
  lemma Round2Idempotent(x: real)
    ensures Round2(Round2(x)) == Round2(x)
  {
    var y := x * 100.0;
    var f := y.Floor;
    var d := y - f as real;
    var n := if d < 0.5 then f else if d > 0.5 then f + 1 else if f % 2 == 0 then f else f + 1;
    assert Round2(x) == n as real / 100.0;
    HundredthsFixed(n);
  }

  /** A whole number of hundredths is already rounded. */
  lemma HundredthsFixed(n: int)
    ensures Round2(n as real / 100.0) == n as real / 100.0
  {
    var y := (n as real / 100.0) * 100.0;
    assert y == n as real;
    assert y.Floor == n;
  }

  /** The percentage shown in the tooltip: `round(green_area * 100, 2)`. */
  function DisplayPercent(green: real): (p: real)
    ensures -0.005 <= p - green * 100.0 <= 0.005
    ensures (p * 100.0).Floor as real == p * 100.0
  {
    Round2(green * 100.0)
  }

  /** The value handed to the colour scale: the shown percentage divided back by 100. */
  function ColourValue(percent: real): (c: real)
    ensures c * 100.0 == percent
  {
    percent / 100.0
  }

  /** The colour value differs from the coverage only by the display rounding. */
  lemma ColourTracksCoverage(green: real)
    ensures -0.00005 <= ColourValue(DisplayPercent(green)) - green <= 0.00005
  {
  }

  /** One GeoJSON feature of the coverage map: geometry, `area` and the shown percentage. */
  datatype CoverageFeature = CoverageFeature(shape: nat, area: string, percent: real)

  /** The loop that builds the coverage map's features, one per district, in table order. */
  method CoverageFeatures(polys: seq<Polygon>, column: seq<real>) returns (features: seq<CoverageFeature>)
    requires |polys| == |column|
    ensures |features| == |polys|
    ensures forall i :: 0 <= i < |polys| ==>
              features[i] == CoverageFeature(polys[i].shape, polys[i].name, DisplayPercent(column[i]))
  {
    features := [];
    for i := 0 to |polys|
      invariant |features| == i
      invariant forall k :: 0 <= k < i ==>
                  features[k] == CoverageFeature(polys[k].shape, polys[k].name, DisplayPercent(column[k]))
    {
      features := features + [CoverageFeature(polys[i].shape, polys[i].name, DisplayPercent(column[i]))];
    }
  }
}
