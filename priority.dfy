/** Tree-planting priority. The baseline is the mean of the present temperatures (the script
    calls it the median). A district whose temperature is missing or not above the baseline
    gets the floor raw score 1.0; a hotter one gets (temperature − baseline)·(1 − coverage).
    Raw scores are then divided by their maximum, or all set to 0.0 when that maximum is not
    positive. The older variant in the test script multiplies temperature by (1 − coverage). */
module Priority {
  import opened Wrappers
  import opened Aggregates
  import opened Frames

  /** The raw score of a district that is not hotter than the baseline. */
  const FloorScore: real := 1.0

  /** `gdf_areas["mean_temp_c"].dropna().mean()`: missing only when no district has a temperature. */
  function Baseline(rows: seq<MergedRow>): (b: Option<real>)
    ensures b.None? <==> forall i :: 0 <= i < |rows| ==> rows[i].meanTemp.None?
  {
    NonNullMean(Temps(rows))
  }

  /** `calc_priority(row)`: the floor for a missing or not-hotter temperature, otherwise the
      excess over the baseline scaled by the uncovered fraction. */
  function RawScore(temp: Option<real>, green: real, baseline: Option<real>): (r: real)
    requires temp.Some? ==> baseline.Some?
    ensures temp.None? || temp.value <= baseline.value ==> r == FloorScore
    ensures green <= 1.0 ==> r >= 0.0
    ensures temp.Some? && temp.value > baseline.value && green < 1.0 ==> r > 0.0
  {
    match temp
    case None => FloorScore
    case Some(t) =>
      if t <= baseline.value then FloorScore
      else
        var excess, open := t - baseline.value, 1.0 - green;
        ProductSign(excess, open);
        assert open > 0.0 ==> excess * open > 0.0;
        excess * open
  }

  lemma ProductSign(x: real, y: real)
    requires x > 0.0
    ensures y >= 0.0 ==> x * y >= 0.0
    ensures y > 0.0 ==> x * y > 0.0
    ensures y < 0.0 ==> x * y < 0.0
  {
  }

  /** Above the baseline, a hotter district never scores lower than a cooler one with the same
      coverage (coverage at most 1), and a greener one never scores higher at the same temperature. */
  lemma RawScoreMonotone(t1: real, t2: real, g1: real, g2: real, b: real)
    requires b < t1 <= t2 && g2 <= g1 <= 1.0
    ensures RawScore(Some(t1), g1, Some(b)) <= RawScore(Some(t2), g2, Some(b))
  {
    assert RawScore(Some(t1), g1, Some(b)) == (t1 - b) * (1.0 - g1);
    assert RawScore(Some(t2), g2, Some(b)) == (t2 - b) * (1.0 - g2);
    ProductMonotone(t1 - b, t2 - b, 1.0 - g1, 1.0 - g2);
  }

  lemma ProductMonotone(x1: real, x2: real, y1: real, y2: real)
    requires 0.0 <= x1 <= x2 && 0.0 <= y1 <= y2
    ensures x1 * y1 <= x2 * y2
  {
    ScaleLe(x1, x2, y1);
    ScaleLeRight(x2, y1, y2);
  }

  lemma ScaleLeRight(x: real, y1: real, y2: real)
    requires y1 <= y2 && x >= 0.0
    ensures x * y1 <= x * y2
  {
    assert x * y2 - x * y1 == x * (y2 - y1);
    if x > 0.0 {
      ProductSign(x, y2 - y1);
    }
  }

  lemma ScaleLe(x1: real, x2: real, y: real)
    requires x1 <= x2 && y >= 0.0
    ensures x1 * y <= x2 * y
  {
    assert x2 * y - x1 * y == (x2 - x1) * y;
    if x2 - x1 > 0.0 {
      ProductSign(x2 - x1, y);
    }
  }

  /** `gdf_areas.apply(calc_priority, axis=1)`. */
  function RawScores(rows: seq<MergedRow>): (r: seq<real>)
    ensures |r| == |rows|
    ensures forall i :: 0 <= i < |rows| ==> r[i] == RawScore(rows[i].meanTemp, rows[i].green, Baseline(rows))
  {
    var b := Baseline(rows);
    seq(|rows|, i requires 0 <= i < |rows| => RawScore(rows[i].meanTemp, rows[i].green, b))
  }

  /** Each raw score divided by a positive maximum `m`. */
  function Scale(raw: seq<real>, m: real): (p: seq<real>)
    requires m > 0.0
    ensures |p| == |raw|
    ensures forall i :: 0 <= i < |raw| ==> p[i] == raw[i] / m
    ensures forall i :: 0 <= i < |raw| && raw[i] <= m ==> p[i] <= 1.0
    ensures forall i :: 0 <= i < |raw| && raw[i] == m ==> p[i] == 1.0
    ensures forall i :: 0 <= i < |raw| && raw[i] >= 0.0 ==> p[i] >= 0.0
    ensures forall i, j :: 0 <= i < |raw| && 0 <= j < |raw| && raw[i] <= raw[j] ==> p[i] <= p[j]
  {
    var p := seq(|raw|, i requires 0 <= i < |raw| => raw[i] / m);
    forall i | 0 <= i < |raw| && raw[i] <= m ensures p[i] <= 1.0 {
      DivideMonotone(raw[i], m, m);
    }
    forall i | 0 <= i < |raw| && raw[i] == m ensures p[i] == 1.0 {
      assert raw[i] / m == m / m;
    }
    forall i | 0 <= i < |raw| && raw[i] >= 0.0 ensures p[i] >= 0.0 {
      DivideMonotone(0.0, raw[i], m);
    }
    forall i, j | 0 <= i < |raw| && 0 <= j < |raw| && raw[i] <= raw[j] ensures p[i] <= p[j] {
      DivideMonotone(raw[i], raw[j], m);
    }
    p
  }

  /** Division by the maximum raw score, or 0.0 everywhere when that maximum is not positive
      (an empty column has no maximum and stays empty). */
  function Normalize(raw: seq<real>): (p: seq<real>)
    ensures |p| == |raw|
    ensures raw != [] && Max(raw) > 0.0 ==> forall i :: 0 <= i < |raw| ==> p[i] == raw[i] / Max(raw)
    ensures raw != [] && Max(raw) > 0.0 ==> forall i :: 0 <= i < |raw| ==> p[i] <= 1.0
    ensures raw != [] && Max(raw) > 0.0 ==>
              forall i :: 0 <= i < |raw| && raw[i] == Max(raw) ==> p[i] == 1.0
    ensures raw == [] || Max(raw) <= 0.0 ==> forall i :: 0 <= i < |raw| ==> p[i] == 0.0
    ensures forall i :: 0 <= i < |raw| && raw[i] >= 0.0 ==> p[i] >= 0.0
    ensures forall i, j :: 0 <= i < |raw| && 0 <= j < |raw| && raw[i] <= raw[j] ==> p[i] <= p[j]
  {
    if raw == [] then []
    else
      var m := Max(raw);
      if m > 0.0 then
        var p := Scale(raw, m);
        assert forall i :: 0 <= i < |raw| ==> p[i] <= 1.0;
        p
      else
        seq(|raw|, i => 0.0)
  }

  lemma DivideMonotone(x: real, y: real, m: real)
    requires m > 0.0 && x <= y
    ensures x / m <= y / m
  {
    assert (y / m - x / m) * m == y - x;
    if y / m - x / m < 0.0 {
      ProductSign(m, y / m - x / m);
    }
  }

  /** The `priority_score` column. */
  function PriorityScores(rows: seq<MergedRow>): (p: seq<real>)
    ensures |p| == |rows|
    ensures rows != [] ==> Max(RawScores(rows)) >= FloorScore
    ensures rows != [] ==> forall i :: 0 <= i < |rows| ==> p[i] == RawScores(rows)[i] / Max(RawScores(rows))
  {
    var raw := RawScores(rows);
    assert rows != [] ==> Max(raw) >= FloorScore by {
      if rows != [] {
        FloorAttained(rows);
        var i :| 0 <= i < |rows| && raw[i] == FloorScore;
        assert Max(raw) >= raw[i];
      }
    }
    Normalize(raw)
  }

  /** Some district always sits at the floor: one with a missing temperature, or else one whose
      temperature is at or below the mean (the coolest is). */
  lemma {:induction false} FloorAttained(rows: seq<MergedRow>)
    requires rows != []
    ensures exists i :: 0 <= i < |rows| && RawScores(rows)[i] == FloorScore
  {
    if exists i :: 0 <= i < |rows| && rows[i].meanTemp.None? {
      var i :| 0 <= i < |rows| && rows[i].meanTemp.None?;
      assert RawScores(rows)[i] == FloorScore;
    } else {
      var ts, b := Temps(rows), Baseline(rows);
      assert b == NonNullMean(ts) && ts[0].Some?;
      NonNullMeanBetween(ts);
      var i :| 0 <= i < |ts| && ts[i].Some? && ts[i].value <= b.value;
      assert RawScore(rows[i].meanTemp, rows[i].green, b) == FloorScore;
      assert RawScores(rows)[i] == FloorScore;
    }
  }

  /** On a non-empty table the maximum raw score is at least the floor, so the 0.0 fallback of
      the normalisation never fires and the top district scores exactly 1.0. */
  lemma {:induction false} ScoresReachOne(rows: seq<MergedRow>)
    requires rows != []
    ensures Max(RawScores(rows)) >= FloorScore
    ensures forall i :: 0 <= i < |rows| ==> PriorityScores(rows)[i] <= 1.0
    ensures exists i :: 0 <= i < |rows| && PriorityScores(rows)[i] == 1.0
  {
    var raw := RawScores(rows);
    FloorAttained(rows);
    var i :| 0 <= i < |rows| && raw[i] == FloorScore;
    var top :| 0 <= top < |raw| && raw[top] == Max(raw);
    assert PriorityScores(rows)[top] == 1.0;
  }

  /** With coverage at most 1 everywhere, every priority score lies in [0, 1]. */
  lemma ScoresWithinUnit(rows: seq<MergedRow>)
    requires forall i :: 0 <= i < |rows| ==> rows[i].green <= 1.0
    ensures forall i :: 0 <= i < |rows| ==> 0.0 <= PriorityScores(rows)[i] <= 1.0
  {
    if rows != [] {
      ScoresReachOne(rows);
    }
  }

  /** When no district matched a temperature, every district scores exactly 1.0. */
  lemma NoTemperatureAllOne(rows: seq<MergedRow>)
    requires forall i :: 0 <= i < |rows| ==> rows[i].meanTemp.None?
    ensures forall i :: 0 <= i < |rows| ==> PriorityScores(rows)[i] == 1.0
  {
    if rows != [] {
      var raw := RawScores(rows);
      var m := Max(raw);
      assert m == FloorScore;
    }
  }

  /** The baseline of two districts that both have a temperature is the average of the two. */
  lemma TwoDistrictBaseline(rows: seq<MergedRow>)
    requires |rows| == 2 && rows[0].meanTemp.Some? && rows[1].meanTemp.Some?
    ensures Baseline(rows) == Some((rows[0].meanTemp.value + rows[1].meanTemp.value) / 2.0)
  {
    NonNullMeanOfTwo(Temps(rows));
  }

  /** The priorities of two districts are their raw scores divided by the larger one. */
  lemma ScoresOfTwo(rows: seq<MergedRow>)
    requires |rows| == 2
    ensures var raw := RawScores(rows);
            Max(raw) >= FloorScore && PriorityScores(rows) == [raw[0] / Max(raw), raw[1] / Max(raw)]
  {
    var p := PriorityScores(rows);
    assert |p| == 2;
  }

  /** Two districts, 30 °C uncovered and 20 °C with coverage 0.8: the baseline is 25 °C, the raw
      scores are 5.0 and the floor 1.0, and the priorities 1.0 and 0.2. */
  lemma TwoDistrictExample()
    ensures var rows := [MergedRow("A", Some(30.0), 0.0), MergedRow("B", Some(20.0), 0.8)];
            Baseline(rows) == Some(25.0) && PriorityScores(rows) == [1.0, 0.2]
  {
    var rows := [MergedRow("A", Some(30.0), 0.0), MergedRow("B", Some(20.0), 0.8)];
    TwoDistrictBaseline(rows);
    var raw := RawScores(rows);
    assert raw == [5.0, 1.0];
    assert Max(raw) == 5.0 by { assert raw[1..] == [1.0]; }
    ScoresOfTwo(rows);
  }

  /** The floor lets a district below the baseline outrank a hotter one: at 25.5 °C and 24.5 °C,
      both uncovered, the hotter district scores 0.5 and the cooler one 1.0. */
  lemma CoolerDistrictCanOutrank()
    ensures var rows := [MergedRow("hot", Some(25.5), 0.0), MergedRow("cool", Some(24.5), 0.0)];
            PriorityScores(rows) == [0.5, 1.0]
  {
    var rows := [MergedRow("hot", Some(25.5), 0.0), MergedRow("cool", Some(24.5), 0.0)];
    var raw := RawScores(rows);
    assert raw == [0.5, 1.0] by { TwoDistrictBaseline(rows); }
    assert Max(raw) == 1.0 by { assert raw[1..] == [1.0]; }
    ScoresOfTwo(rows);
  }

  /** Coverage above 1 (overlapping parks) turns a hot district's score negative: 30 °C with
      coverage 2.0 next to 20 °C uncovered gives priorities −5.0 and 1.0. */
  lemma OverlapGivesNegativePriority()
    ensures var rows := [MergedRow("A", Some(30.0), 2.0), MergedRow("B", Some(20.0), 0.0)];
            PriorityScores(rows) == [-5.0, 1.0]
  {
    var rows := [MergedRow("A", Some(30.0), 2.0), MergedRow("B", Some(20.0), 0.0)];
    var raw := RawScores(rows);
    assert raw == [-5.0, 1.0] by { TwoDistrictBaseline(rows); }
    assert Max(raw) == 1.0 by { assert raw[1..] == [1.0]; }
    ScoresOfTwo(rows);
  }

  // ---------------------------------------------------------------- output table

  /** A row of the priority CSV: `area, mean_temp_c, green_area, priority_score`. */
  datatype ScoredRow = ScoredRow(area: string, meanTemp: Option<real>, green: real, priority: real)

  /** The districts left-merged with the temperatures, then scored: row k is the k-th merged
      row with its priority score. */
  function PriorityTable(areas: seq<AreaRow>, temps: seq<TempRow>): (t: seq<ScoredRow>)
    ensures |t| == |LeftMerge(areas, temps)| >= |areas|
    ensures forall k :: 0 <= k < |t| ==>
              var row := LeftMerge(areas, temps)[k];
              t[k].area == row.area && t[k].meanTemp == row.meanTemp && t[k].green == row.green
    ensures forall k :: 0 <= k < |t| ==> t[k].priority == PriorityScores(LeftMerge(areas, temps))[k]
  {
    var merged := LeftMerge(areas, temps);
    var scores := PriorityScores(merged);
    seq(|merged|, i requires 0 <= i < |merged| =>
      ScoredRow(merged[i].area, merged[i].meanTemp, merged[i].green, scores[i]))
  }

  /** Every district is in the priority table, no score exceeds 1.0, and a non-empty table has a
      district at exactly 1.0. */
  lemma PriorityTableTop(areas: seq<AreaRow>, temps: seq<TempRow>)
    ensures forall i :: 0 <= i < |areas| ==>
              exists k :: 0 <= k < |PriorityTable(areas, temps)| && PriorityTable(areas, temps)[k].area == areas[i].area
    ensures forall k :: 0 <= k < |PriorityTable(areas, temps)| ==> PriorityTable(areas, temps)[k].priority <= 1.0
    ensures areas != [] ==> exists k :: 0 <= k < |PriorityTable(areas, temps)| && PriorityTable(areas, temps)[k].priority == 1.0
  {
    var merged := LeftMerge(areas, temps);
    var table := PriorityTable(areas, temps);
    forall i | 0 <= i < |areas|
      ensures exists k :: 0 <= k < |table| && table[k].area == areas[i].area
    {
      LeftMergeKeepsArea(areas, temps, i);
      var k :| 0 <= k < |merged| && RowOfArea(merged[k], areas[i], temps);
      assert table[k].area == merged[k].area;
    }
    assert forall k :: 0 <= k < |table| ==> table[k].priority <= 1.0 by {
      if areas != [] {
        ScoresReachOne(merged);
      }
    }
    if areas != [] {
      assert exists k :: 0 <= k < |table| && table[k].priority == 1.0 by {
        ScoresReachOne(merged);
        var k :| 0 <= k < |merged| && PriorityScores(merged)[k] == 1.0;
        assert table[k].priority == 1.0;
      }
    }
  }

  /** Among the districts hotter than the baseline, the table ranks by the row's own data: a
      district at least as hot and at most as green (coverage at most 1) never gets a lower
      priority. */
  lemma PriorityTableRanks(areas: seq<AreaRow>, temps: seq<TempRow>, j: nat, k: nat)
    requires j < |PriorityTable(areas, temps)| && k < |PriorityTable(areas, temps)|
    requires var t, b := PriorityTable(areas, temps), Baseline(LeftMerge(areas, temps));
             && t[j].meanTemp.Some? && t[k].meanTemp.Some? && b.Some?
             && b.value < t[k].meanTemp.value <= t[j].meanTemp.value
             && t[j].green <= t[k].green <= 1.0
    ensures PriorityTable(areas, temps)[k].priority <= PriorityTable(areas, temps)[j].priority
  {
    var merged, t := LeftMerge(areas, temps), PriorityTable(areas, temps);
    var raw, b := RawScores(merged), Baseline(merged).value;
    RawScoreMonotone(t[k].meanTemp.value, t[j].meanTemp.value, t[k].green, t[j].green, b);
    assert raw[k] <= raw[j];
    assert Max(raw) >= FloorScore;
    DivideMonotone(raw[k], raw[j], Max(raw));
  }

  // ---------------------------------------------------------------- earlier variant

  /** `mean_temp_c * (1 - green_area)` from the test script: no baseline, no normalisation, and a
      missing temperature gives a missing score. */
  function LegacyScore(temp: Option<real>, green: real): (p: Option<real>)
    ensures p.None? <==> temp.None?
    ensures p.Some? && 0.0 <= green <= 1.0 && temp.value >= 0.0 ==> 0.0 <= p.value <= temp.value
  {
    match temp
    case None => None
    case Some(t) =>
      assert 0.0 <= green <= 1.0 && t >= 0.0 ==> 0.0 <= t * (1.0 - green) <= t by {
        if 0.0 <= green <= 1.0 && t >= 0.0 {
          assert t - t * (1.0 - green) == t * green;
          if t > 0.0 { ProductSign(t, green); ProductSign(t, 1.0 - green); }
        }
      }
      Some(t * (1.0 - green))
  }

  /** Above the baseline, the current raw score is the earlier formula applied to the excess
      temperature instead of the temperature itself. */
  lemma RawScoreIsShiftedLegacy(t: real, green: real, b: real)
    requires t > b
    ensures RawScore(Some(t), green, Some(b)) == LegacyScore(Some(t - b), green).value
  {
  }

  /** The test script's `priority_score` column. */
  function LegacyScores(rows: seq<MergedRow>): (p: seq<Option<real>>)
    ensures |p| == |rows|
    ensures forall i :: 0 <= i < |rows| ==> p[i] == LegacyScore(rows[i].meanTemp, rows[i].green)
  {
    seq(|rows|, i requires 0 <= i < |rows| => LegacyScore(rows[i].meanTemp, rows[i].green))
  }
}
