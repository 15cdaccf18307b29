/** The tables the analysis scripts pass around, and the pandas operations on them:
    the name filter on the city itself, inner and left merges on `area`, the median
    split of the coverage column, the year filter and the `dict(zip(area, mean_temp_c))`
    lookup. Every table is a sequence of rows in the order pandas keeps them. */
module Frames {
  import opened Wrappers
  import opened Sequences
  import opened Aggregates

  /** The name of the whole-city boundary, which every script removes from the districts. */
  const CityName: string := "Berlin"

  /** A district boundary as downloaded: its `name` and an opaque handle to its geometry. */
  datatype Polygon = Polygon(name: string, shape: nat)

  /** A row of a temperature table: `area, mean_temp_c` (the temperature may be missing). */
  datatype TempRow = TempRow(area: string, meanTemp: Option<real>)

  /** A row of the per-year temperature table: `area, year, mean_temp_c`. */
  datatype TempYearRow = TempYearRow(area: string, year: int, meanTemp: Option<real>)

  /** A row of the green-coverage table: `area, green_area`. */
  datatype GreenRow = GreenRow(area: string, green: real)

  /** A row of a merged table: `area, mean_temp_c, green_area`. */
  datatype MergedRow = MergedRow(area: string, meanTemp: Option<real>, green: real)

  /** The mask selecting the polygons not named after the city. */
  function NotCity(p: Polygon): bool
  {
    p.name != CityName
  }

  /** `gdf[gdf["name"] != "Berlin"]`: every polygon except those named after the city, in order:
      the k-th kept polygon is the one at the k-th position whose name is not the city's. */
  function DropCity(polys: seq<Polygon>): (r: seq<Polygon>)
    ensures |r| == |Positions(polys, NotCity)|
    ensures forall k :: 0 <= k < |r| ==> r[k] == polys[Positions(polys, NotCity)[k]]
    ensures forall i :: 0 <= i < |r| ==> r[i] in polys && r[i].name != CityName
    ensures forall i :: 0 <= i < |polys| && polys[i].name != CityName ==> polys[i] in r
    ensures IsSubseq(r, polys)
  {
    FilterPositions(polys, NotCity);
    FilterIsSubseq(polys, NotCity);
    FilterMembers(polys, NotCity);
    Filter(polys, NotCity)
  }

  // ---------------------------------------------------------------- inner merge

  /** The mask selecting the green rows of `area`. */
  function GreenNamed(area: string): GreenRow -> bool
  {
    (g: GreenRow) => g.area == area
  }

  /** The merged rows one temperature row contributes: one per green row with the same area,
      in the green table's order (the k-th belongs to the k-th green row of that area). */
  function InnerMatches(t: TempRow, greens: seq<GreenRow>): (r: seq<MergedRow>)
    ensures |r| <= |greens|
  {
    var matched := Filter(greens, GreenNamed(t.area));
    seq(|matched|, k requires 0 <= k < |matched| => MergedRow(t.area, t.meanTemp, matched[k].green))
  }

  /** The k-th match is built from the green row at the k-th position of the temperature row's
      area, and there is one match per such position. */
  lemma InnerMatchesPositions(t: TempRow, greens: seq<GreenRow>)
    ensures |InnerMatches(t, greens)| == |Positions(greens, GreenNamed(t.area))|
    ensures forall k :: 0 <= k < |InnerMatches(t, greens)| ==>
      && greens[Positions(greens, GreenNamed(t.area))[k]].area == t.area
      && InnerMatches(t, greens)[k] == MergedRow(t.area, t.meanTemp, greens[Positions(greens, GreenNamed(t.area))[k]].green)
  {
    FilterPositions(greens, GreenNamed(t.area));
  }

  /** Each match pairs the temperature row with a green row of its area, and every green row of
      its area is matched. */
  lemma InnerMatchesValues(t: TempRow, greens: seq<GreenRow>)
    ensures forall k :: 0 <= k < |InnerMatches(t, greens)| ==>
      var row := InnerMatches(t, greens)[k];
      row.area == t.area && row.meanTemp == t.meanTemp && GreenRow(t.area, row.green) in greens
    ensures forall g :: g in greens && g.area == t.area ==> MergedRow(t.area, t.meanTemp, g.green) in InnerMatches(t, greens)
  {
    var r, idx := InnerMatches(t, greens), Positions(greens, GreenNamed(t.area));
    InnerMatchesPositions(t, greens);
    forall k | 0 <= k < |r| ensures GreenRow(t.area, r[k].green) in greens {
      assert greens[idx[k]] == GreenRow(t.area, r[k].green);
    }
    PositionsComplete(greens, GreenNamed(t.area));
    forall g | g in greens && g.area == t.area ensures MergedRow(t.area, t.meanTemp, g.green) in r {
      var i :| 0 <= i < |greens| && greens[i] == g;
      assert GreenNamed(t.area)(greens[i]);
      var k :| 0 <= k < |idx| && idx[k] == i;
      assert r[k] == MergedRow(t.area, t.meanTemp, g.green);
    }
  }

  /** How many merged rows the first `i` temperature rows contribute. */
  function InnerOffset(temps: seq<TempRow>, greens: seq<GreenRow>, i: nat): nat
    requires i <= |temps|
  {
    if i == 0 then 0 else |InnerMatches(temps[0], greens)| + InnerOffset(temps[1..], greens, i - 1)
  }

  /** `pd.merge(temp, green, on="area", how="inner")`: the temperature rows in order, each
      followed by its matches in the green table (see InnerMergeLayout). */
  function InnerMerge(temps: seq<TempRow>, greens: seq<GreenRow>): (r: seq<MergedRow>)
    ensures |r| == InnerOffset(temps, greens, |temps|)
    ensures temps == [] || greens == [] ==> r == []
  {
    if temps == [] then []
    else
      var head, rest := InnerMatches(temps[0], greens), InnerMerge(temps[1..], greens);
      InnerOffsetStep(temps, greens);
      head + rest
  }

  lemma InnerOffsetStep(temps: seq<TempRow>, greens: seq<GreenRow>)
    requires temps != []
    ensures InnerOffset(temps, greens, |temps|) == |InnerMatches(temps[0], greens)| + InnerOffset(temps[1..], greens, |temps| - 1)
  {
  }

  /** Temperature row i's matches sit in the merge right after those of the rows before it: a
      temperature row whose area has m green rows appears m times, and the rows keep their order. */
  lemma {:induction false} InnerMergeLayout(temps: seq<TempRow>, greens: seq<GreenRow>, i: nat, k: nat)
    requires i < |temps| && k < |InnerMatches(temps[i], greens)|
    ensures InnerOffset(temps, greens, i) + k < |InnerMerge(temps, greens)|
    ensures InnerMerge(temps, greens)[InnerOffset(temps, greens, i) + k] == InnerMatches(temps[i], greens)[k]
  {
    var head, rest := InnerMatches(temps[0], greens), InnerMerge(temps[1..], greens);
    assert InnerMerge(temps, greens) == head + rest;
    if i > 0 {
      assert temps[1..][i - 1] == temps[i];
      InnerMergeLayout(temps[1..], greens, i - 1, k);
      assert InnerOffset(temps, greens, i) == |head| + InnerOffset(temps[1..], greens, i - 1);
      assert (head + rest)[InnerOffset(temps, greens, i) + k] == rest[InnerOffset(temps[1..], greens, i - 1) + k];
    } else {
      assert (head + rest)[k] == head[k];
    }
  }

  /** An area repeated in the green table is matched once per repetition: one temperature row
      against two green rows of its area gives two merged rows. */
  lemma RepeatedGreenAreaMatchedTwice()
    ensures var row := MergedRow("A", Some(1.0), 0.5);
            InnerMerge([TempRow("A", Some(1.0))], [GreenRow("A", 0.5), GreenRow("A", 0.5)]) == [row, row]
  {
    var t := TempRow("A", Some(1.0));
    var greens := [GreenRow("A", 0.5), GreenRow("A", 0.5)];
    var row := MergedRow("A", Some(1.0), 0.5);
    FilterKeepsAll(greens, GreenNamed("A"));
    var head := InnerMatches(t, greens);
    assert |head| == 2 && head[0] == row && head[1] == row;
    assert head == [row, row];
    assert [t][1..] == [];
    assert InnerMerge([t][1..], greens) == [];
    assert InnerMerge([t], greens) == head + [];
  }

  /** No row is invented: every merged row pairs a temperature row and a green row of the
      same area. */
  lemma {:induction false} InnerMergeSound(temps: seq<TempRow>, greens: seq<GreenRow>, k: nat)
    requires k < |InnerMerge(temps, greens)|
    ensures exists t, g ::
              t in temps && g in greens && t.area == g.area
              && InnerMerge(temps, greens)[k] == MergedRow(t.area, t.meanTemp, g.green)
  {
    var head, rest := InnerMatches(temps[0], greens), InnerMerge(temps[1..], greens);
    assert InnerMerge(temps, greens) == head + rest;
    if k < |head| {
      assert (head + rest)[k] == head[k];
      InnerMatchesValues(temps[0], greens);
      var g :| g in greens && g.area == temps[0].area && head[k] == MergedRow(temps[0].area, temps[0].meanTemp, g.green);
      assert temps[0] in temps;
    } else {
      InnerMergeSound(temps[1..], greens, k - |head|);
      assert (head + rest)[k] == rest[k - |head|];
      var t, g :| t in temps[1..] && g in greens && t.area == g.area
        && rest[k - |head|] == MergedRow(t.area, t.meanTemp, g.green);
      assert t in temps;
    }
  }

  /** No pair is lost: every temperature row and green row of the same area meet in a merged row. */
  lemma {:induction false} InnerMergeComplete(temps: seq<TempRow>, greens: seq<GreenRow>, t: TempRow, g: GreenRow)
    requires t in temps && g in greens && t.area == g.area
    ensures MergedRow(t.area, t.meanTemp, g.green) in InnerMerge(temps, greens)
  {
    var head, rest := InnerMatches(temps[0], greens), InnerMerge(temps[1..], greens);
    assert InnerMerge(temps, greens) == head + rest;
    InnerMatchesValues(temps[0], greens);
    if t != temps[0] {
      assert t in temps[1..];
      InnerMergeComplete(temps[1..], greens, t, g);
    }
  }

  ghost predicate UniqueGreenAreas(greens: seq<GreenRow>)
  {
    forall i, j :: 0 <= i < j < |greens| ==> greens[i].area != greens[j].area
  }

  ghost predicate HasGreen(greens: seq<GreenRow>, area: string)
  {
    exists g :: g in greens && g.area == area
  }

  lemma InnerMatchesUnique(t: TempRow, greens: seq<GreenRow>)
    requires UniqueGreenAreas(greens)
    ensures |InnerMatches(t, greens)| == if HasGreen(greens, t.area) then 1 else 0
  {
    var r := InnerMatches(t, greens);
    InnerMatchesValues(t, greens);
    assert r != [] ==> GreenRow(t.area, r[0].green) in greens;
    if HasGreen(greens, t.area) {
      var g :| g in greens && g.area == t.area;
      assert MergedRow(t.area, t.meanTemp, g.green) in InnerMatches(t, greens);
      InnerMatchesPositions(t, greens);
      AtMostOneGreen(greens, t.area);
    }
  }

  /** With unique areas, at most one green row carries a given area. */
  lemma AtMostOneGreen(greens: seq<GreenRow>, area: string)
    requires UniqueGreenAreas(greens)
    ensures |Positions(greens, GreenNamed(area))| <= 1
  {
    FirstTwoPositions(greens, GreenNamed(area));
  }

  /** How many temperature rows have a partner in the green table. */
  ghost function MatchedRows(temps: seq<TempRow>, greens: seq<GreenRow>): nat
  {
    if temps == [] then 0
    else (if HasGreen(greens, temps[0].area) then 1 else 0) + MatchedRows(temps[1..], greens)
  }

  /** With unique areas in the green table, the inner merge yields exactly one row per
      temperature row whose area the green table has. */
  lemma {:induction false} InnerMergeOnUniqueKeys(temps: seq<TempRow>, greens: seq<GreenRow>)
    requires UniqueGreenAreas(greens)
    ensures |InnerMerge(temps, greens)| == MatchedRows(temps, greens)
  {
    if temps != [] {
      InnerMatchesUnique(temps[0], greens);
      InnerMergeOnUniqueKeys(temps[1..], greens);
    }
  }

  // ---------------------------------------------------------------- left merge

  /** A district row once its coverage is known: `area, green_area`. */
  datatype AreaRow = AreaRow(area: string, green: real)

  /** The mask selecting the rows named `area`. */
  function Named(area: string): TempRow -> bool
  {
    (t: TempRow) => t.area == area
  }

  /** The temperatures of the rows of `temps` named `area`: one entry per such row, in table
      order (the k-th entry belongs to the k-th row carrying the name). */
  function TempsOf(temps: seq<TempRow>, area: string): (r: seq<Option<real>>)
    ensures |r| == |Positions(temps, Named(area))| <= |temps|
    ensures forall k :: 0 <= k < |r| ==> temps[Positions(temps, Named(area))[k]] == TempRow(area, r[k])
    ensures r == [] <==> forall t :: t in temps ==> t.area != area
  {
    var named := Filter(temps, Named(area));
    FilterPositions(temps, Named(area));
    var r := seq(|named|, k requires 0 <= k < |named| => named[k].meanTemp);
    assert forall k :: 0 <= k < |named| ==> named[k] == TempRow(area, r[k]) by {
      forall k | 0 <= k < |named| ensures named[k] == TempRow(area, r[k]) {
        assert Named(area)(temps[Positions(temps, Named(area))[k]]);
      }
    }
    TempsOfValues(temps, area, r);
    r
  }

  /** Temperatures read off the positions of a name's rows, one per position, are exactly the
      temperatures of that name's rows. */
  lemma TempsOfValues(temps: seq<TempRow>, area: string, r: seq<Option<real>>)
    requires |r| == |Positions(temps, Named(area))|
    requires forall k :: 0 <= k < |r| ==> temps[Positions(temps, Named(area))[k]] == TempRow(area, r[k])
    ensures r == [] <==> forall t :: t in temps ==> t.area != area
    ensures forall k :: 0 <= k < |r| ==> TempRow(area, r[k]) in temps
    ensures forall t :: t in temps && t.area == area ==> t.meanTemp in r
  {
    var idx := Positions(temps, Named(area));
    PositionsComplete(temps, Named(area));
    forall t | t in temps && t.area == area ensures t.meanTemp in r {
      var i :| 0 <= i < |temps| && temps[i] == t;
      assert Named(area)(temps[i]);
      var k :| 0 <= k < |idx| && idx[k] == i;
      assert temps[i] == TempRow(area, r[k]);
    }
    if r != [] {
      assert temps[idx[0]] == TempRow(area, r[0]);
    }
  }

  /** The rows one district contributes to a left merge: one per temperature row of its name,
      in table order, or a single row with a missing temperature when nothing matches. */
  function LeftBlock(a: AreaRow, temps: seq<TempRow>): (r: seq<MergedRow>)
    ensures |r| == if TempsOf(temps, a.area) == [] then 1 else |TempsOf(temps, a.area)|
    ensures forall k :: 0 <= k < |r| ==> r[k].area == a.area && r[k].green == a.green
    ensures TempsOf(temps, a.area) == [] ==> r[0].meanTemp.None?
    ensures TempsOf(temps, a.area) != [] ==>
      forall k :: 0 <= k < |r| ==> r[k].meanTemp == TempsOf(temps, a.area)[k]
  {
    var ts := TempsOf(temps, a.area);
    if ts == [] then [MergedRow(a.area, None, a.green)]
    else seq(|ts|, k requires 0 <= k < |ts| => MergedRow(a.area, ts[k], a.green))
  }

  /** How many merged rows the first `i` districts contribute. */
  function Offset(areas: seq<AreaRow>, temps: seq<TempRow>, i: nat): nat
    requires i <= |areas|
  {
    if i == 0 then 0 else |LeftBlock(areas[0], temps)| + Offset(areas[1..], temps, i - 1)
  }

  /** `areas.merge(temps, on="area", how="left")`: the districts' blocks back to back, in
      district order (see LeftMergeLayout). */
  function LeftMerge(areas: seq<AreaRow>, temps: seq<TempRow>): (r: seq<MergedRow>)
    ensures |r| == Offset(areas, temps, |areas|) >= |areas|
  {
    if areas == [] then []
    else
      var block, rest := LeftBlock(areas[0], temps), LeftMerge(areas[1..], temps);
      OffsetStep(areas, temps);
      block + rest
  }

  /** The first district's block comes first in the offsets, and it is never empty. */
  lemma OffsetStep(areas: seq<AreaRow>, temps: seq<TempRow>)
    requires areas != []
    ensures Offset(areas, temps, |areas|) == |LeftBlock(areas[0], temps)| + Offset(areas[1..], temps, |areas| - 1)
    ensures |LeftBlock(areas[0], temps)| >= 1
  {
  }

  /** District i's block sits in the merge right after the blocks of the districts before it:
      a district matched by k temperature rows appears k times, an unmatched one once, and the
      districts keep their order. */
  lemma {:induction false} LeftMergeLayout(areas: seq<AreaRow>, temps: seq<TempRow>, i: nat, k: nat)
    requires i < |areas| && k < |LeftBlock(areas[i], temps)|
    ensures Offset(areas, temps, i) + k < |LeftMerge(areas, temps)|
    ensures LeftMerge(areas, temps)[Offset(areas, temps, i) + k] == LeftBlock(areas[i], temps)[k]
  {
    var block, rest := LeftBlock(areas[0], temps), LeftMerge(areas[1..], temps);
    assert LeftMerge(areas, temps) == block + rest;
    if i > 0 {
      assert areas[1..][i - 1] == areas[i];
      LeftMergeLayout(areas[1..], temps, i - 1, k);
      assert Offset(areas, temps, i) == |block| + Offset(areas[1..], temps, i - 1);
      assert (block + rest)[Offset(areas, temps, i) + k] == rest[Offset(areas[1..], temps, i - 1) + k];
    } else {
      assert (block + rest)[k] == block[k];
    }
  }

  /** `row` is district `a` with its own coverage and either the temperature of a row of its
      name or, when no row has its name, a missing temperature. */
  ghost predicate RowOfArea(row: MergedRow, a: AreaRow, temps: seq<TempRow>)
  {
    && row.area == a.area
    && row.green == a.green
    && (if TempsOf(temps, a.area) == [] then row.meanTemp.None? else row.meanTemp in TempsOf(temps, a.area))
  }

  /** No district is lost: each one appears with its own coverage, and with a missing
      temperature when no temperature row carries its name. */
  lemma {:induction false} LeftMergeKeepsArea(areas: seq<AreaRow>, temps: seq<TempRow>, i: nat)
    requires i < |areas|
    ensures exists k :: 0 <= k < |LeftMerge(areas, temps)| && RowOfArea(LeftMerge(areas, temps)[k], areas[i], temps)
  {
    var block, rest := LeftBlock(areas[0], temps), LeftMerge(areas[1..], temps);
    assert LeftMerge(areas, temps) == block + rest;
    if i == 0 {
      assert (block + rest)[0] == block[0];
    } else {
      LeftMergeKeepsArea(areas[1..], temps, i - 1);
      assert areas[1..][i - 1] == areas[i];
      var k :| 0 <= k < |rest| && RowOfArea(rest[k], areas[i], temps);
      assert (block + rest)[|block| + k] == rest[k];
    }
  }

  lemma BlockRowOfArea(a: AreaRow, temps: seq<TempRow>, k: nat)
    requires k < |LeftBlock(a, temps)|
    ensures RowOfArea(LeftBlock(a, temps)[k], a, temps)
  {
    if TempsOf(temps, a.area) != [] {
      assert LeftBlock(a, temps)[k].meanTemp == TempsOf(temps, a.area)[k];
    }
  }

  /** No row is invented: every merged row is one of the districts (see RowOfArea). */
  lemma {:induction false} LeftMergeRowOrigin(areas: seq<AreaRow>, temps: seq<TempRow>, k: nat)
    requires k < |LeftMerge(areas, temps)|
    ensures exists i :: 0 <= i < |areas| && RowOfArea(LeftMerge(areas, temps)[k], areas[i], temps)
  {
    var block, rest := LeftBlock(areas[0], temps), LeftMerge(areas[1..], temps);
    assert LeftMerge(areas, temps) == block + rest;
    if k < |block| {
      assert (block + rest)[k] == block[k];
      BlockRowOfArea(areas[0], temps, k);
    } else {
      var j := k - |block|;
      assert (block + rest)[k] == rest[j];
      LeftMergeRowOrigin(areas[1..], temps, j);
      var i :| 0 <= i < |areas[1..]| && RowOfArea(rest[j], areas[1..][i], temps);
      assert areas[1..][i] == areas[i + 1];
    }
  }

  ghost predicate UniqueTempAreas(temps: seq<TempRow>)
  {
    forall i, j :: 0 <= i < j < |temps| ==> temps[i].area != temps[j].area
  }

  /** With one temperature row per name, the left merge is row-for-row the district table,
      each row carrying the temperature of its name or a missing one. */
  lemma {:induction false} LeftMergeOnUniqueKeys(areas: seq<AreaRow>, temps: seq<TempRow>)
    requires UniqueTempAreas(temps)
    ensures |LeftMerge(areas, temps)| == |areas|
    ensures forall i :: 0 <= i < |areas| ==>
      LeftMerge(areas, temps)[i] == MergedRow(areas[i].area, Lookup(temps, areas[i].area), areas[i].green)
  {
    if areas != [] {
      LeftMergeOnUniqueKeys(areas[1..], temps);
      TempsOfUnique(temps, areas[0].area);
      var block, rest := LeftBlock(areas[0], temps), LeftMerge(areas[1..], temps);
      assert LeftMerge(areas, temps) == block + rest;
      assert block == [MergedRow(areas[0].area, Lookup(temps, areas[0].area), areas[0].green)];
      forall i | 1 <= i < |areas|
        ensures (block + rest)[i] == MergedRow(areas[i].area, Lookup(temps, areas[i].area), areas[i].green)
      {
        assert (block + rest)[i] == rest[i - 1];
        assert areas[1..][i - 1] == areas[i];
      }
    }
  }

  /** The temperature a district receives when names are unique: that of the row carrying
      its name, or a missing one. */
  function Lookup(temps: seq<TempRow>, area: string): Option<real>
  {
    var ts := TempsOf(temps, area);
    if ts == [] then None else ts[0]
  }

  /** With unique names, a name has at most one temperature row. */
  lemma TempsOfUnique(temps: seq<TempRow>, area: string)
    requires UniqueTempAreas(temps)
    ensures |TempsOf(temps, area)| <= 1
  {
    FirstTwoPositions(temps, Named(area));
  }

  // ---------------------------------------------------------------- median split

  /** The `green_area` column. */
  function Greens(rows: seq<MergedRow>): (g: seq<real>)
    ensures |g| == |rows|
    ensures forall i :: 0 <= i < |rows| ==> g[i] == rows[i].green
  {
    seq(|rows|, i requires 0 <= i < |rows| => rows[i].green)
  }

  /** The `mean_temp_c` column. */
  function Temps(rows: seq<MergedRow>): (t: seq<Option<real>>)
    ensures |t| == |rows|
    ensures forall i :: 0 <= i < |rows| ==> t[i] == rows[i].meanTemp
  {
    seq(|rows|, i requires 0 <= i < |rows| => rows[i].meanTemp)
  }

  /** The two groups compared by the t-test, and the median that separates them (missing for
      an empty table, where pandas' median is NaN and both masks select nothing). */
  datatype Split = Split(median: Option<real>, low: seq<MergedRow>, high: seq<MergedRow>)

  function LowMask(m: real): MergedRow -> bool
  {
    (r: MergedRow) => r.green < m
  }

  function HighMask(m: real): MergedRow -> bool
  {
    (r: MergedRow) => r.green >= m
  }

  /** `low = df[df["green_area"] < median]`, `high = df[df["green_area"] >= median]`. */
  function MedianSplit(rows: seq<MergedRow>): (s: Split)
    ensures s.median.None? <==> rows == []
    ensures s.median.Some? ==> forall k :: 0 <= k < |s.low| ==> s.low[k].green < s.median.value
    ensures s.median.Some? ==> forall k :: 0 <= k < |s.high| ==> s.high[k].green >= s.median.value
    ensures multiset(s.low) + multiset(s.high) == multiset(rows)
    ensures IsSubseq(s.low, rows) && IsSubseq(s.high, rows)
    ensures rows != [] ==> s.high != []
    ensures rows != [] ==> 2 * |s.low| <= |rows| <= 2 * |s.high|
    ensures (forall i :: 0 <= i < |rows| ==> rows[i].green == rows[0].green) ==> s.low == []
  {
    if rows == [] then Split(None, [], [])
    else
      var m := Median(Greens(rows));
      SplitFacts(rows);
      Split(Some(m), Filter(rows, LowMask(m)), Filter(rows, HighMask(m)))
  }

  /** What the two masks around the median coverage select from a non-empty table. */
  lemma SplitFacts(rows: seq<MergedRow>)
    requires rows != []
    ensures var m := Median(Greens(rows));
            var low, high := Filter(rows, LowMask(m)), Filter(rows, HighMask(m));
            && (forall k :: 0 <= k < |low| ==> low[k].green < m)
            && (forall k :: 0 <= k < |high| ==> high[k].green >= m)
            && multiset(low) + multiset(high) == multiset(rows)
            && IsSubseq(low, rows) && IsSubseq(high, rows)
            && high != []
            && 2 * |low| <= |rows| <= 2 * |high|
            && ((forall i :: 0 <= i < |rows| ==> rows[i].green == rows[0].green) ==> low == [])
  {
    var m := Median(Greens(rows));
    MasksSplit(rows, m);
    SplitSizes(rows);
    FilterIsSubseq(rows, LowMask(m));
    FilterIsSubseq(rows, HighMask(m));
    HighGroupHoldsMaximum(rows, m);
    LowGroupEmptyWhenUniform(rows, m);
  }

  /** The two masks select rows below and at-or-above `m`, and together every row once. */
  lemma MasksSplit(rows: seq<MergedRow>, m: real)
    ensures forall k :: 0 <= k < |Filter(rows, LowMask(m))| ==> Filter(rows, LowMask(m))[k].green < m
    ensures forall k :: 0 <= k < |Filter(rows, HighMask(m))| ==> Filter(rows, HighMask(m))[k].green >= m
    ensures multiset(Filter(rows, LowMask(m))) + multiset(Filter(rows, HighMask(m))) == multiset(rows)
    ensures |Filter(rows, LowMask(m))| + |Filter(rows, HighMask(m))| == |rows|
  {
    var lowMask, highMask := LowMask(m), HighMask(m);
    var low, high := Filter(rows, lowMask), Filter(rows, highMask);
    FilterMembers(rows, lowMask);
    FilterMembers(rows, highMask);
    forall k | 0 <= k < |low| ensures low[k].green < m {
      assert lowMask(low[k]);
    }
    forall k | 0 <= k < |high| ensures high[k].green >= m {
      assert highMask(high[k]);
    }
    assert forall x :: highMask(x) == !lowMask(x);
    FilterPartition(rows, lowMask, highMask);
  }

  /** At most half of the rows fall below the median coverage, and at least half are at or
      above it. */
  lemma SplitSizes(rows: seq<MergedRow>)
    requires rows != []
    ensures var m := Median(Greens(rows));
            2 * |Filter(rows, LowMask(m))| <= |rows| <= 2 * |Filter(rows, HighMask(m))|
  {
    var m := Median(Greens(rows));
    MasksSplit(rows, m);
    MedianHalves(Greens(rows));
    LowCount(rows, m);
  }

  /** The low mask keeps as many rows as there are coverage values below `m`. */
  lemma {:induction false} LowCount(rows: seq<MergedRow>, m: real)
    ensures |Filter(rows, LowMask(m))| == |Filter(Greens(rows), Below(m))|
  {
    if rows != [] {
      var n := |rows| - 1;
      LowCount(rows[..n], m);
      assert Greens(rows)[..n] == Greens(rows[..n]);
      FilterSnoc(rows, LowMask(m));
      FilterSnoc(Greens(rows), Below(m));
      assert LowMask(m)(rows[n]) == Below(m)(Greens(rows)[n]);
    }
  }

  /** The row of largest coverage is never below the median, so the high group is never empty. */
  lemma HighGroupHoldsMaximum(rows: seq<MergedRow>, m: real)
    requires rows != [] && m <= Max(Greens(rows))
    ensures Filter(rows, HighMask(m)) != []
  {
    var g := Greens(rows);
    var top :| 0 <= top < |rows| && g[top] == Max(g);
    assert HighMask(m)(rows[top]);
    FilterMembers(rows, HighMask(m));
    assert rows[top] in Filter(rows, HighMask(m));
  }

  /** When every row has the same coverage, that coverage is the median and nothing is below it. */
  lemma LowGroupEmptyWhenUniform(rows: seq<MergedRow>, m: real)
    requires rows != [] && m <= Max(Greens(rows))
    ensures (forall i :: 0 <= i < |rows| ==> rows[i].green == rows[0].green) ==> Filter(rows, LowMask(m)) == []
  {
    var g := Greens(rows);
    var top :| 0 <= top < |rows| && g[top] == Max(g);
    if forall i :: 0 <= i < |rows| ==> rows[i].green == rows[0].green {
      forall i | 0 <= i < |rows| ensures !LowMask(m)(rows[i]) {
        assert rows[i].green == rows[top].green == g[top];
      }
      FilterKeepsNone(rows, LowMask(m));
    }
  }

  // ---------------------------------------------------------------- lookup by name

  /** `dict(zip(df["area"], df["mean_temp_c"]))`: inserted row by row, so a later row with the
      same name overwrites an earlier one. */
  function ZipLookup(rows: seq<TempRow>): (m: map<string, Option<real>>)
    ensures forall k :: 0 <= k < |rows| ==> rows[k].area in m
    ensures forall a :: a in m ==> exists k :: 0 <= k < |rows| && rows[k].area == a
  {
    if rows == [] then map[]
    else
      var init := rows[..|rows| - 1];
      assert forall k :: 0 <= k < |init| ==> init[k] == rows[k];
      ZipLookup(init)[rows[|rows| - 1].area := rows[|rows| - 1].meanTemp]
  }

  /** The value stored for a name is that of the last row carrying it. */
  lemma {:induction false} LastRowWins(rows: seq<TempRow>, k: nat)
    requires k < |rows|
    requires forall j :: k < j < |rows| ==> rows[j].area != rows[k].area
    ensures ZipLookup(rows)[rows[k].area] == rows[k].meanTemp
  {
    if k < |rows| - 1 {
      var init := rows[..|rows| - 1];
      LastRowWins(init, k);
    }
  }

  // ---------------------------------------------------------------- year filter

  /** The mask selecting the rows of one year. */
  function InYear(year: int): TempYearRow -> bool
  {
    (row: TempYearRow) => row.year == year
  }

  /** `df[df["year"] == year]`: the rows of one year, in their original order: the k-th kept row
      is the row at the k-th position of that year. */
  function RowsOfYear(rows: seq<TempYearRow>, year: int): (r: seq<TempYearRow>)
    ensures |r| == |Positions(rows, InYear(year))|
    ensures forall k :: 0 <= k < |r| ==> r[k] == rows[Positions(rows, InYear(year))[k]]
    ensures forall i :: 0 <= i < |r| ==> r[i] in rows && r[i].year == year
    ensures forall i :: 0 <= i < |rows| && rows[i].year == year ==> rows[i] in r
    ensures IsSubseq(r, rows)
  {
    FilterPositions(rows, InYear(year));
    FilterIsSubseq(rows, InYear(year));
    FilterMembers(rows, InYear(year));
    Filter(rows, InYear(year))
  }

  /** The `area` and `mean_temp_c` columns of a per-year table. */
  function AreaTemps(rows: seq<TempYearRow>): (r: seq<TempRow>)
    ensures |r| == |rows|
    ensures forall i :: 0 <= i < |rows| ==> r[i] == TempRow(rows[i].area, rows[i].meanTemp)
  {
    seq(|rows|, i requires 0 <= i < |rows| => TempRow(rows[i].area, rows[i].meanTemp))
  }
}
