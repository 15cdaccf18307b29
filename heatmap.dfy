/** The data-collection script: for every summer of 2020..2024 and every district, the mean
    land-surface temperature over the district is converted from MODIS units to °C and stored as
    one record; the records are then averaged per district. The satellite reduction itself enters
    as a parameter `lst(year, district)`, missing when the service returns no value. */
module Heatmap {
  import opened Wrappers
  import opened Aggregates
  import opened Frames

  // ---------------------------------------------------------------- years and date strings

  const FirstYear: int := 2020
  const LastYearExclusive: int := 2025

  /** `list(range(start, stop))`. */
  function Range(start: int, stop: int): (r: seq<int>)
    ensures |r| == if start < stop then stop - start else 0
    ensures forall i :: 0 <= i < |r| ==> r[i] == start + i
    decreases stop - start
  {
    if start >= stop then [] else [start] + Range(start + 1, stop)
  }

  /** `years = list(range(2020, 2025))`: the five summers 2020..2024 in order. */
  function Years(): (r: seq<int>)
    ensures r == [2020, 2021, 2022, 2023, 2024]
  {
    var r := Range(FirstYear, LastYearExclusive);
    assert |r| == 5;
    r
  }

  function DigitChar(d: nat): (c: char)
    requires d < 10
    ensures '0' <= c <= '9' && (c as int) - ('0' as int) == d
  {
    (('0' as int) + d) as char
  }

  /** The decimal digits of a natural number, most significant first, without leading zeros. */
  function Digits(n: nat): (s: string)
    ensures |s| > 0
    ensures forall i :: 0 <= i < |s| ==> '0' <= s[i] <= '9'
  {
    if n < 10 then [DigitChar(n)] else Digits(n / 10) + [DigitChar(n % 10)]
  }

  /** The value of a string of decimal digits. */
  function ParseDigits(s: string): nat
    requires forall i :: 0 <= i < |s| ==> '0' <= s[i] <= '9'
  {
    if s == [] then 0
    else ParseDigits(s[..|s| - 1]) * 10 + ((s[|s| - 1] as int) - ('0' as int))
  }

  lemma {:induction false} DigitsRoundTrip(n: nat)
    ensures ParseDigits(Digits(n)) == n
  {
    if n >= 10 {
      var s := Digits(n);
      assert s[..|s| - 1] == Digits(n / 10);
      DigitsRoundTrip(n / 10);
    }
  }

  /** Python's `str` of an integer, as used by the f-strings. */
  function Decimal(n: int): (s: string)
    ensures |s| > 0
    ensures s[0] == '-' <==> n < 0
  {
    if n < 0 then "-" + Digits(-n) else Digits(n)
  }

  /** Different integers have different renderings. */
  lemma DecimalInjective(a: int, b: int)
    requires Decimal(a) == Decimal(b)
    ensures a == b
  {
    if a < 0 {
      assert b < 0;
      var s := Decimal(a);
      assert Digits(-a) == s[1..] by { assert s == "-" + Digits(-a); }
      assert Digits(-b) == s[1..] by { assert s == "-" + Digits(-b); }
      DigitsInjective(-a, -b);
    } else {
      assert b >= 0;
      DigitsInjective(a, b);
    }
  }

  lemma DigitsInjective(a: nat, b: nat)
    requires Digits(a) == Digits(b)
    ensures a == b
  {
    DigitsRoundTrip(a);
    DigitsRoundTrip(b);
  }

  /** The month and day of the first and last day of the summer window. */
  const SummerStartDay: string := "-06-01"
  const SummerEndDay: string := "-08-31"

  /** `f"{year}-06-01"` and `f"{year}-08-31"`, the bounds passed to `filterDate`: the year's
      decimal rendering followed by the month and day. */
  function SummerDate(year: int, monthDay: string): (s: string)
    ensures |s| == |Decimal(year)| + |monthDay|
    ensures s[..|Decimal(year)|] == Decimal(year) && s[|Decimal(year)|..] == monthDay
  {
    Decimal(year) + monthDay
  }

  /** Each summer window names its own year: two years never share a start or an end date. */
  lemma SummerWindowNamesYear(a: int, b: int, monthDay: string)
    ensures SummerDate(a, monthDay) == SummerDate(b, monthDay) ==> a == b
  {
    if SummerDate(a, monthDay) == SummerDate(b, monthDay) {
      var n := |SummerDate(a, monthDay)| - |monthDay|;
      assert Decimal(a) == SummerDate(a, monthDay)[..n];
      assert Decimal(b) == SummerDate(b, monthDay)[..n];
      DecimalInjective(a, b);
    }
  }

  lemma FirstSummerWindow()
    ensures SummerDate(2020, SummerStartDay) == "2020-06-01" && SummerDate(2020, SummerEndDay) == "2020-08-31"
  {
    assert DigitChar(0) == '0' && DigitChar(2) == '2';
    assert Digits(2) == "2";
    assert Digits(20) == "20";
    assert Digits(202) == "202";
    assert Digits(2020) == "2020";
    assert Decimal(2020) == "2020";
  }

  // ---------------------------------------------------------------- unit conversion

  const KelvinOffset: real := 273.15
  const LstScale: real := 0.02

  /** MODIS `LST_Day_1km` is Kelvin scaled by 50: `v * 0.02 - 273.15`, or None for no data. */
  function ToCelsius(raw: Option<real>): (c: Option<real>)
    ensures c.None? <==> raw.None?
  {
    match raw
    case None => None
    case Some(v) => Some(v * LstScale - KelvinOffset)
  }

  /** The stored MODIS value for a temperature in °C. */
  function ToRaw(celsius: real): real
  {
    (celsius + KelvinOffset) * 50.0
  }

  /** The conversion loses nothing: it is undone by `ToRaw` in both directions. */
  lemma ConversionRoundTrip(v: real, c: real)
    ensures ToCelsius(Some(ToRaw(c))) == Some(c)
    ensures ToRaw(ToCelsius(Some(v)).value) == v
  {
  }

  /** A hotter surface gives a higher temperature, and 0 °C sits at the raw value 13657.5. */
  lemma ConversionMonotone(v: real, w: real)
    ensures v < w ==> ToCelsius(Some(v)).value < ToCelsius(Some(w)).value
    ensures ToCelsius(Some(13657.5)) == Some(0.0)
  {
  }

  // ---------------------------------------------------------------- records

  /** The records of one year: one per district, in district order. */
  function YearBlock(year: int, polys: seq<Polygon>, lst: (int, Polygon) -> Option<real>): (r: seq<TempYearRow>)
    ensures |r| == |polys|
  {
    seq(|polys|, j requires 0 <= j < |polys| => TempYearRow(polys[j].name, year, ToCelsius(lst(year, polys[j]))))
  }

  /** All records, year-major: one per year and district (see RecordAt for their order). */
  function Records(years: seq<int>, polys: seq<Polygon>, lst: (int, Polygon) -> Option<real>): (r: seq<TempYearRow>)
    ensures |r| == |years| * |polys|
  {
    if years == [] then []
    else
      var n := |years| - 1;
      assert n * |polys| + |polys| == |years| * |polys|;
      Records(years[..n], polys, lst) + YearBlock(years[n], polys, lst)
  }

  /** The nested `for year in years: for idx, row in gdf.iterrows(): results.append(...)`. */
  method GenerateRecords(years: seq<int>, polys: seq<Polygon>, lst: (int, Polygon) -> Option<real>)
    returns (results: seq<TempYearRow>)
    ensures results == Records(years, polys, lst)
  {
    results := [];
    for i := 0 to |years|
      invariant results == Records(years[..i], polys, lst)
    {
      var block := YearBlock(years[i], polys, lst);
      for j := 0 to |polys|
        invariant results == Records(years[..i], polys, lst) + block[..j]
      {
        results := results + [TempYearRow(polys[j].name, years[i], ToCelsius(lst(years[i], polys[j])))];
        assert block[..j + 1] == block[..j] + [block[j]];
      }
      assert years[..i + 1][..i] == years[..i];
    }
    assert years[..|years|] == years;
  }

  lemma MulStep(y: nat, n: nat, a: nat, m: nat)
    requires y < m && a < n
    ensures y * n + a < m * n
  {
    assert (m - y) * n >= n by {
      assert m - y >= 1;
    }
  }

  /** There are |years|·|districts| records, and the one at position y·|districts| + a holds
      district a's name, year y and its converted temperature. */
  lemma {:induction false} RecordAt(years: seq<int>, polys: seq<Polygon>, lst: (int, Polygon) -> Option<real>, y: nat, a: nat)
    ensures |Records(years, polys, lst)| == |years| * |polys|
    ensures y < |years| && a < |polys| ==>
              y * |polys| + a < |Records(years, polys, lst)|
              && Records(years, polys, lst)[y * |polys| + a]
                 == TempYearRow(polys[a].name, years[y], ToCelsius(lst(years[y], polys[a])))
  {
    if years != [] {
      var init := years[..|years| - 1];
      var n := |polys|;
      var prefix, block := Records(init, polys, lst), YearBlock(years[|years| - 1], polys, lst);
      RecordAt(init, polys, lst, y, a);
      assert |Records(years, polys, lst)| == |years| * n by {
        assert (|years| - 1) * n + n == |years| * n;
      }
      if y < |years| && a < n {
        if y < |years| - 1 {
          MulStep(y, n, a, |years| - 1);
          assert (prefix + block)[y * n + a] == prefix[y * n + a];
        } else {
          assert (prefix + block)[y * n + a] == block[a];
        }
      }
    }
  }

  /** Every record's year is one of the loop's years and its area one of the districts'. */
  lemma {:induction false} RecordOrigin(years: seq<int>, polys: seq<Polygon>, lst: (int, Polygon) -> Option<real>, k: nat)
    requires k < |Records(years, polys, lst)|
    ensures exists y, a :: 0 <= y < |years| && 0 <= a < |polys|
              && Records(years, polys, lst)[k] == TempYearRow(polys[a].name, years[y], ToCelsius(lst(years[y], polys[a])))
  {
    var init := years[..|years| - 1];
    var prefix, block := Records(init, polys, lst), YearBlock(years[|years| - 1], polys, lst);
    if k < |prefix| {
      RecordOrigin(init, polys, lst, k);
      assert (prefix + block)[k] == prefix[k];
      var y, a :| 0 <= y < |init| && 0 <= a < |polys|
        && prefix[k] == TempYearRow(polys[a].name, init[y], ToCelsius(lst(init[y], polys[a])));
      assert init[y] == years[y];
    } else {
      assert (prefix + block)[k] == block[k - |prefix|];
    }
  }

  // ---------------------------------------------------------------- per-area mean

  /** Python's string order: code point by code point, a proper prefix first. */
  predicate LexLess(a: string, b: string)
  {
    if a == [] then b != []
    else b != [] && (a[0] < b[0] || (a[0] == b[0] && LexLess(a[1..], b[1..])))
  }

  lemma {:induction false} LexIrreflexive(a: string)
    ensures !LexLess(a, a)
  {
    if a != [] {
      LexIrreflexive(a[1..]);
    }
  }

  lemma {:induction false} LexTransitive(a: string, b: string, c: string)
    requires LexLess(a, b) && LexLess(b, c)
    ensures LexLess(a, c)
  {
    if a != [] && a[0] == b[0] && b[0] == c[0] {
      LexTransitive(a[1..], b[1..], c[1..]);
    }
  }

  lemma {:induction false} LexTotal(a: string, b: string)
    requires a != b
    ensures LexLess(a, b) || LexLess(b, a)
  {
    if a != [] && b != [] && a[0] == b[0] {
      assert a == [a[0]] + a[1..] && b == [b[0]] + b[1..];
      LexTotal(a[1..], b[1..]);
    }
  }

  ghost predicate StrictlySorted(keys: seq<string>)
  {
    forall i, j :: 0 <= i < j < |keys| ==> LexLess(keys[i], keys[j])
  }

  /** A sorted key list with one more key, kept once. */
  function InsertKey(k: string, keys: seq<string>): (r: seq<string>)
    requires StrictlySorted(keys)
    ensures StrictlySorted(r)
    ensures k in r && forall i :: 0 <= i < |keys| ==> keys[i] in r
    ensures forall i :: 0 <= i < |r| ==> r[i] == k || r[i] in keys
  {
    if keys == [] then [k]
    else if k == keys[0] then keys
    else if LexLess(k, keys[0]) then
      assert forall j :: 0 <= j < |keys| ==> LexLess(k, keys[j]) by {
        forall j | 0 < j < |keys| ensures LexLess(k, keys[j]) {
          LexTransitive(k, keys[0], keys[j]);
        }
      }
      [k] + keys
    else
      LexTotal(k, keys[0]);
      var rest := InsertKey(k, keys[1..]);
      assert forall j :: 0 <= j < |rest| ==> LexLess(keys[0], rest[j]);
      [keys[0]] + rest
  }

  /** The distinct area names of the records, in ascending string order. */
  function AreaKeys(records: seq<TempYearRow>): (keys: seq<string>)
    ensures StrictlySorted(keys)
    ensures forall k :: 0 <= k < |records| ==> records[k].area in keys
    ensures forall i :: 0 <= i < |keys| ==> exists k :: 0 <= k < |records| && records[k].area == keys[i]
  {
    if records == [] then []
    else
      var rest := AreaKeys(records[1..]);
      var keys := InsertKey(records[0].area, rest);
      assert forall i :: 0 <= i < |keys| ==> exists k :: 0 <= k < |records| && records[k].area == keys[i] by {
        forall i | 0 <= i < |keys|
          ensures exists k :: 0 <= k < |records| && records[k].area == keys[i]
        {
          if keys[i] != records[0].area {
            var m :| 0 <= m < |rest| && rest[m] == keys[i];
            var k :| 0 <= k < |records[1..]| && records[1..][k].area == rest[m];
            assert records[k + 1].area == keys[i];
          }
        }
      }
      keys
  }

  /** Some record of `area` carries the value `v`. */
  ghost predicate Recorded(records: seq<TempYearRow>, area: string, v: Option<real>)
  {
    exists k :: 0 <= k < |records| && records[k].area == area && records[k].meanTemp == v
  }

  /** Some record is of `area`. */
  ghost predicate HasArea(records: seq<TempYearRow>, area: string)
  {
    exists k :: 0 <= k < |records| && records[k].area == area
  }

  /** The `mean_temp_c` values grouped under `area`: one per record of that area, in record
      order (the grouping of `TempsOf` on the records without their year). */
  function AreaSeries(records: seq<TempYearRow>, area: string): seq<Option<real>>
  {
    TempsOf(AreaTemps(records), area)
  }

  /** Each grouped value is the temperature of a record of the area, and every record of the
      area contributes its temperature. */
  lemma AreaSeriesValues(records: seq<TempYearRow>, area: string)
    ensures forall i :: 0 <= i < |AreaSeries(records, area)| ==> Recorded(records, area, AreaSeries(records, area)[i])
    ensures forall k :: 0 <= k < |records| && records[k].area == area ==> records[k].meanTemp in AreaSeries(records, area)
  {
    var rows, t := AreaTemps(records), AreaSeries(records, area);
    TempsOfValues(rows, area, t);
    forall i | 0 <= i < |t| ensures Recorded(records, area, t[i]) {
      assert TempRow(area, t[i]) in rows;
      var k :| 0 <= k < |rows| && rows[k] == TempRow(area, t[i]);
      assert records[k].area == area && records[k].meanTemp == t[i];
    }
    forall k | 0 <= k < |records| && records[k].area == area ensures records[k].meanTemp in t {
      assert rows[k] in rows;
    }
  }

  lemma AreaSeriesRecorded(records: seq<TempYearRow>, area: string, i: nat)
    requires i < |AreaSeries(records, area)|
    ensures Recorded(records, area, AreaSeries(records, area)[i])
  {
    AreaSeriesValues(records, area);
  }

  /** Some row of the averaged table is for `area`. */
  ghost predicate Listed(rows: seq<TempRow>, area: string)
  {
    exists i :: 0 <= i < |rows| && rows[i].area == area
  }

  /** One averaged row per key, in key order. */
  function MeanRows(records: seq<TempYearRow>, keys: seq<string>): (rows: seq<TempRow>)
    ensures |rows| == |keys|
    ensures forall i :: 0 <= i < |keys| ==> rows[i].area == keys[i]
    ensures forall i :: 0 <= i < |keys| ==> rows[i].meanTemp == NonNullMean(AreaSeries(records, keys[i]))
  {
    if keys == [] then []
    else [TempRow(keys[0], NonNullMean(AreaSeries(records, keys[0])))] + MeanRows(records, keys[1..])
  }

  /** Rows named after the sorted keys of the records list every area once, in order. */
  lemma KeyedRows(records: seq<TempYearRow>, keys: seq<string>, rows: seq<TempRow>)
    requires StrictlySorted(keys)
    requires forall k :: 0 <= k < |records| ==> records[k].area in keys
    requires forall i :: 0 <= i < |keys| ==> exists k :: 0 <= k < |records| && records[k].area == keys[i]
    requires |rows| == |keys| && forall i :: 0 <= i < |keys| ==> rows[i].area == keys[i]
    ensures forall i, j :: 0 <= i < j < |rows| ==> LexLess(rows[i].area, rows[j].area)
    ensures forall k :: 0 <= k < |records| ==> Listed(rows, records[k].area)
    ensures forall i :: 0 <= i < |rows| ==> HasArea(records, rows[i].area)
  {
    forall k | 0 <= k < |records| ensures Listed(rows, records[k].area) {
      var i :| 0 <= i < |keys| && keys[i] == records[k].area;
      assert rows[i].area == records[k].area;
    }
    forall i | 0 <= i < |rows| ensures HasArea(records, rows[i].area) {
      var k :| 0 <= k < |records| && records[k].area == keys[i];
    }
  }

  /** `df.groupby("area")["mean_temp_c"].mean().reset_index()`: one row per distinct area, in
      ascending name order, holding the mean of that area's present temperatures. */
  function AreaMeans(records: seq<TempYearRow>): (rows: seq<TempRow>)
    ensures forall i, j :: 0 <= i < j < |rows| ==> LexLess(rows[i].area, rows[j].area)
    ensures forall k :: 0 <= k < |records| ==> Listed(rows, records[k].area)
    ensures forall i :: 0 <= i < |rows| ==> HasArea(records, rows[i].area)
    ensures forall i :: 0 <= i < |rows| ==> rows[i].meanTemp == NonNullMean(AreaSeries(records, rows[i].area))
  {
    var keys := AreaKeys(records);
    var rows := MeanRows(records, keys);
    KeyedRows(records, keys, rows);
    rows
  }

  /** No area appears twice in the averaged table. */
  lemma AreaMeansDistinct(records: seq<TempYearRow>, i: nat, j: nat)
    requires i < j < |AreaMeans(records)|
    ensures AreaMeans(records)[i].area != AreaMeans(records)[j].area
  {
    var rows := AreaMeans(records);
    if rows[i].area == rows[j].area {
      LexIrreflexive(rows[i].area);
    }
  }

  /** An area's average (the value `AreaMeans` stores in its row) is missing exactly when none
      of its records has a temperature. */
  lemma AreaMeanMissing(records: seq<TempYearRow>, area: string)
    ensures NonNullMean(AreaSeries(records, area)).None? <==>
              forall k :: 0 <= k < |records| && records[k].area == area ==> records[k].meanTemp.None?
  {
    var t := AreaSeries(records, area);
    AreaSeriesValues(records, area);
    if NonNullMean(t).None? {
      forall k | 0 <= k < |records| && records[k].area == area
        ensures records[k].meanTemp.None?
      {
        var m :| 0 <= m < |t| && t[m] == records[k].meanTemp;
      }
    } else {
      var m :| 0 <= m < |t| && t[m].Some?;
      assert Recorded(records, area, t[m]);
    }
  }

  /** A present average lies between the area's coolest and hottest recorded summer. */
  lemma AreaMeanBetween(records: seq<TempYearRow>, area: string)
    requires NonNullMean(AreaSeries(records, area)).Some?
    ensures var p := Present(AreaSeries(records, area));
            && p != []
            && Recorded(records, area, Some(Min(p))) && Recorded(records, area, Some(Max(p)))
            && Min(p) <= NonNullMean(AreaSeries(records, area)).value <= Max(p)
  {
    var t := AreaSeries(records, area);
    var p := Present(t);
    MeanBetween(p);
    assert Some(Min(p)) in t && Some(Max(p)) in t;
    var a :| 0 <= a < |t| && t[a] == Some(Min(p));
    var b :| 0 <= b < |t| && t[b] == Some(Max(p));
    AreaSeriesRecorded(records, area, a);
    AreaSeriesRecorded(records, area, b);
  }

  /** The whole script: the records for 2020..2024 and their per-area averages. */
  method CollectTemperatures(polys: seq<Polygon>, lst: (int, Polygon) -> Option<real>)
    returns (records: seq<TempYearRow>, means: seq<TempRow>)
    ensures records == Records(Years(), polys, lst)
    ensures |records| == 5 * |polys|
    ensures means == AreaMeans(records)
  {
    records := GenerateRecords(Years(), polys, lst);
    RecordAt(Years(), polys, lst, 0, 0);
    means := AreaMeans(records);
  }
}
