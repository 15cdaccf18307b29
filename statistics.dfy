/** The two analysis scripts: a schema check on both input tables, the inner merge on `area`,
    the split at the median coverage, and the interpretation of the t-test and Spearman
    p-values. The tests themselves are floating-point numerics; their results enter as
    parameters (a missing p-value is scipy's NaN, produced for instance by an empty group). */
module Statistics {
  import opened Wrappers
  import opened Sequences
  import opened Frames

  const TempColumns: set<string> := {"area", "mean_temp_c"}
  const GreenColumns: set<string> := {"area", "green_area"}

  /** A p-value strictly below this is reported as significant. */
  const SignificanceLevel: real := 0.05

  /** The two `ValueError`s of the schema check. */
  datatype SchemaError = MissingTemperatureColumns | MissingGreenColumns

  /** The temperature table is checked first, so it is the one reported when both fail. */
  function CheckSchema(tempCols: set<string>, greenCols: set<string>): (r: Option<SchemaError>)
    ensures r.None? <==> TempColumns <= tempCols && GreenColumns <= greenCols
    ensures r == Some(MissingTemperatureColumns) <==> !(TempColumns <= tempCols)
    ensures r == Some(MissingGreenColumns) <==> TempColumns <= tempCols && !(GreenColumns <= greenCols)
  {
    if !(TempColumns <= tempCols) then Some(MissingTemperatureColumns)
    else if !(GreenColumns <= greenCols) then Some(MissingGreenColumns)
    else None
  }

  /** A table carrying extra columns passes as long as the required ones are there. */
  lemma ExtraColumnsAccepted(tempCols: set<string>, greenCols: set<string>, extra: set<string>)
    requires CheckSchema(tempCols, greenCols).None?
    ensures CheckSchema(tempCols + extra, greenCols + extra).None?
  {
  }

  /** The merged table and its two coverage groups. */
  datatype Groups = Groups(merged: seq<MergedRow>, split: Split)

  /** Schema check, then merge, then split: nothing is merged unless both schemas pass. */
  function Prepare(tempCols: set<string>, temps: seq<TempRow>, greenCols: set<string>, greens: seq<GreenRow>)
    : (r: Result<Groups, SchemaError>)
    ensures r.Err? <==> CheckSchema(tempCols, greenCols).Some?
    ensures r.Err? ==> CheckSchema(tempCols, greenCols) == Some(r.error)
    ensures r.Ok? ==> r.value.merged == InnerMerge(temps, greens) && r.value.split == MedianSplit(r.value.merged)
  {
    match CheckSchema(tempCols, greenCols)
    case Some(e) => Err(e)
    case None =>
      var merged := InnerMerge(temps, greens);
      Ok(Groups(merged, MedianSplit(merged)))
  }

  /** Every row of either group pairs a temperature row and a green row of the same area. */
  lemma {:induction false} GroupRowsFromBothTables(temps: seq<TempRow>, greens: seq<GreenRow>, row: MergedRow)
    requires var s := MedianSplit(InnerMerge(temps, greens)); row in s.low || row in s.high
    ensures exists t, g :: t in temps && g in greens && t.area == g.area && row == MergedRow(t.area, t.meanTemp, g.green)
  {
    var merged := InnerMerge(temps, greens);
    var s := MedianSplit(merged);
    assert row in multiset(s.low) + multiset(s.high);
    assert row in multiset(merged);
    var k :| 0 <= k < |merged| && merged[k] == row;
    InnerMergeSound(temps, greens, k);
  }

  /** Every merged row lands in exactly one group: the low group when its coverage is below the
      median, the high group otherwise. */
  lemma GroupOfRow(rows: seq<MergedRow>, row: MergedRow)
    requires row in rows
    ensures var s := MedianSplit(rows);
            s.median.Some?
            && (row.green < s.median.value ==> row in s.low && row !in s.high)
            && (row.green >= s.median.value ==> row in s.high && row !in s.low)
  {
    var s := MedianSplit(rows);
    assert row in multiset(s.low) + multiset(s.high);
    if row in s.low {
      var k :| 0 <= k < |s.low| && s.low[k] == row;
    }
    if row in s.high {
      var k :| 0 <= k < |s.high| && s.high[k] == row;
    }
  }

  /** The interpretation printed for the slide. */
  datatype Trend = NoCorrelation | NegativeCorrelation | PositiveCorrelation
  datatype Report = Report(hotterSignificant: bool, trend: Trend)

  /** A significance test passes only for a present p-value strictly below 0.05. */
  predicate Significant(p: Option<real>)
  {
    p.Some? && p.value < SignificanceLevel
  }

  /** "negative" for a significant negative rho, "positive" for any other significant rho. */
  function Interpret(tP: Option<real>, rho: Option<real>, corrP: Option<real>): (r: Report)
    ensures r.hotterSignificant <==> Significant(tP)
    ensures r.trend == NoCorrelation <==> !Significant(corrP)
    ensures r.trend == NegativeCorrelation <==> Significant(corrP) && rho.Some? && rho.value < 0.0
    ensures r.trend == PositiveCorrelation <==> Significant(corrP) && !(rho.Some? && rho.value < 0.0)
  {
    Report(Significant(tP),
      if !Significant(corrP) then NoCorrelation
      else if rho.Some? && rho.value < 0.0 then NegativeCorrelation
      else PositiveCorrelation)
  }

  /** The edges of the interpretation: a p-value of exactly 0.05 is not significant, a NaN
      p-value never is, and a NaN rho with a significant p-value is reported as a positive
      correlation because `rho < 0` is false for NaN. */
  lemma InterpretEdges(tP: Option<real>, rho: Option<real>, corrP: Option<real>)
    ensures Interpret(Some(SignificanceLevel), rho, Some(SignificanceLevel)) == Report(false, NoCorrelation)
    ensures Interpret(None, rho, None) == Report(false, NoCorrelation)
    ensures Significant(corrP) ==> Interpret(tP, None, corrP).trend == PositiveCorrelation
  {
  }

  /** The script end to end: the Welch t-test on the two groups' temperatures and the Spearman
      correlation over the merged table are supplied as functions. */
  function Analyze(tempCols: set<string>, temps: seq<TempRow>, greenCols: set<string>, greens: seq<GreenRow>,
                   ttest: (seq<Option<real>>, seq<Option<real>>) -> Option<real>,
                   spearman: seq<MergedRow> -> (Option<real>, Option<real>))
    : (r: Result<Report, SchemaError>)
    ensures r.Err? <==> CheckSchema(tempCols, greenCols).Some?
    ensures r.Ok? ==>
              var s := MedianSplit(InnerMerge(temps, greens));
              (r.value.hotterSignificant <==> Significant(ttest(Temps(s.low), Temps(s.high))))
    ensures r.Ok? ==>
              var (rho, p) := spearman(InnerMerge(temps, greens));
              r.value.trend == Interpret(None, rho, p).trend
  {
    match Prepare(tempCols, temps, greenCols, greens)
    case Err(e) => Err(e)
    case Ok(groups) =>
      var (rho, corrP) := spearman(groups.merged);
      Ok(Interpret(ttest(Temps(groups.split.low), Temps(groups.split.high)), rho, corrP))
  }

  /** With uniform coverage the low group is empty; scipy then yields a NaN p-value rather
      than an error, and the difference is reported as not significant. */
  lemma UniformCoverageNotSignificant(rows: seq<MergedRow>, ttest: (seq<Option<real>>, seq<Option<real>>) -> Option<real>)
    requires forall i :: 0 <= i < |rows| ==> rows[i].green == rows[0].green
    requires forall high :: ttest([], high).None?
    ensures !Significant(ttest(Temps(MedianSplit(rows).low), Temps(MedianSplit(rows).high)))
  {
    var s := MedianSplit(rows);
    assert Temps(s.low) == [];
  }

  /** The chart script's groups: the same merge and split without the schema check. */
  function ChartGroups(temps: seq<TempRow>, greens: seq<GreenRow>): (s: Split)
    ensures multiset(s.low) + multiset(s.high) == multiset(InnerMerge(temps, greens))
  {
    MedianSplit(InnerMerge(temps, greens))
  }

  /** The box plot and histograms draw exactly the groups the statistics script tests. */
  lemma ChartsMatchStatistics(tempCols: set<string>, temps: seq<TempRow>, greenCols: set<string>, greens: seq<GreenRow>)
    requires CheckSchema(tempCols, greenCols).None?
    ensures Prepare(tempCols, temps, greenCols, greens) == Ok(Groups(InnerMerge(temps, greens), ChartGroups(temps, greens)))
  {
  }
}
