/** The two choropleth scripts: the city boundary dropped from the districts, an exact-name
    `dict(zip(area, mean_temp_c))` lookup (restricted to 2020 in the yearly variant), and a
    GeoJSON feature appended per remaining district. */
module TemperatureMaps {
  import opened Wrappers
  import opened Sequences
  import opened Frames

  /** The year the yearly map shows. */
  const RequiredYear: int := 2020

  /** A GeoJSON feature's geometry, `area` and `mean_temp_c` properties. The temperature is
      `temp_area.get(name, None)`: None for a name absent from the table, Some(None) for a name
      present with a missing temperature. */
  datatype TempFeature = TempFeature(shape: nat, area: string, meanTemp: Option<Option<real>>)

  /** `dict.get(name, None)`. */
  function Get(m: map<string, Option<real>>, name: string): (r: Option<Option<real>>)
    ensures r.None? <==> name !in m
    ensures r.Some? ==> name in m && r.value == m[name]
  {
    if name in m then Some(m[name]) else None
  }

  /** The feature of one district. */
  function FeatureOf(p: Polygon, lookup: map<string, Option<real>>): (f: TempFeature)
    ensures f.shape == p.shape && f.area == p.name
    ensures f.meanTemp.None? <==> p.name !in lookup
    ensures p.name in lookup ==> f.meanTemp == Some(lookup[p.name])
  {
    TempFeature(p.shape, p.name, Get(lookup, p.name))
  }

  /** The `for _, row in gdf.iterrows(): features.append(...)` loop: one feature per district,
      in district order. */
  method BuildFeatures(polys: seq<Polygon>, lookup: map<string, Option<real>>) returns (features: seq<TempFeature>)
    ensures |features| == |polys|
    ensures forall i :: 0 <= i < |polys| ==> features[i] == FeatureOf(polys[i], lookup)
  {
    features := [];
    for i := 0 to |polys|
      invariant |features| == i
      invariant forall j :: 0 <= j < i ==> features[j] == FeatureOf(polys[j], lookup)
    {
      features := features + [FeatureOf(polys[i], lookup)];
    }
  }

  /** A name is in the lookup exactly when some row carries it: the match is by exact equality. */
  lemma LookupExact(rows: seq<TempRow>, name: string)
    ensures Get(ZipLookup(rows), name).None? <==> forall k :: 0 <= k < |rows| ==> rows[k].area != name
  {
  }

  /** The temperature stored for a name is that of the name's last row. */
  lemma {:induction false} LookupFromLastRow(rows: seq<TempRow>, name: string)
    requires name in ZipLookup(rows)
    ensures exists k :: 0 <= k < |rows| && rows[k].area == name
              && (forall j :: k < j < |rows| ==> rows[j].area != name)
              && ZipLookup(rows)[name] == rows[k].meanTemp
  {
    var k :| 0 <= k < |rows| && rows[k].area == name;
    while exists j :: k < j < |rows| && rows[j].area == name
      invariant 0 <= k < |rows| && rows[k].area == name
      decreases |rows| - k
    {
      var j :| k < j < |rows| && rows[j].area == name;
      k := j;
    }
    LastRowWins(rows, k);
  }

  /** The district features of `berlin_temperature_map.py`: the city dropped, then every
      district looked up by name in the all-years table. */
  method CityMapFeatures(polys: seq<Polygon>, rows: seq<TempRow>) returns (features: seq<TempFeature>)
    ensures |features| == |DropCity(polys)|
    ensures forall i :: 0 <= i < |features| ==> features[i].area != CityName
    ensures forall i :: 0 <= i < |features| ==> features[i] == FeatureOf(DropCity(polys)[i], ZipLookup(rows))
  {
    var districts := DropCity(polys);
    var lookup := ZipLookup(rows);
    features := BuildFeatures(districts, lookup);
  }

  /** The lookup of `yearly_map_generator.py`: only the 2020 rows enter it. */
  function YearLookup(rows: seq<TempYearRow>): (m: map<string, Option<real>>)
    ensures forall i :: 0 <= i < |rows| && rows[i].year == RequiredYear ==> rows[i].area in m
  {
    var r := RowsOfYear(rows, RequiredYear);
    forall i | 0 <= i < |rows| && rows[i].year == RequiredYear
      ensures rows[i].area in ZipLookup(AreaTemps(r))
    {
      var k :| 0 <= k < |r| && r[k] == rows[i];
      assert AreaTemps(r)[k].area == rows[i].area;
    }
    ZipLookup(AreaTemps(r))
  }

  /** No other year leaks into the yearly map, and a repeated name keeps its last 2020 row: a
      temperature found for a name is that of the last 2020 row carrying the name. */
  lemma YearLookupFrom2020(rows: seq<TempYearRow>, name: string)
    requires name in YearLookup(rows)
    ensures exists k :: 0 <= k < |rows| && rows[k].year == RequiredYear && rows[k].area == name
              && (forall j :: k < j < |rows| && rows[j].year == RequiredYear ==> rows[j].area != name)
              && YearLookup(rows)[name] == rows[k].meanTemp
  {
    var t := AreaTemps(RowsOfYear(rows, RequiredYear));
    assert YearLookup(rows) == ZipLookup(t);
    LookupFromLastRow(t, name);
    var l :| 0 <= l < |t| && t[l].area == name
             && (forall j :: l < j < |t| ==> t[j].area != name)
             && ZipLookup(t)[name] == t[l].meanTemp;
    LastYearRow(rows, RequiredYear, name, l);
    var k := Positions(rows, InYear(RequiredYear))[l];
    assert rows[k].meanTemp == t[l].meanTemp;
  }

  /** The `l`-th row of a year, when no later row of that year has its name, is the last row of
      the year with that name in the whole table. */
  lemma LastYearRow(rows: seq<TempYearRow>, year: int, name: string, l: nat)
    requires var t := AreaTemps(RowsOfYear(rows, year));
             && l < |t| && t[l].area == name
             && forall m :: l < m < |t| ==> t[m].area != name
    ensures var k := Positions(rows, InYear(year))[l];
            && k < |rows| && rows[k].year == year && rows[k].area == name
            && rows[k].meanTemp == AreaTemps(RowsOfYear(rows, year))[l].meanTemp
            && forall j :: k < j < |rows| && rows[j].year == year ==> rows[j].area != name
  {
    var r, idx := RowsOfYear(rows, year), Positions(rows, InYear(year));
    var t := AreaTemps(r);
    forall j | idx[l] < j < |rows| && rows[j].year == year ensures rows[j].area != name {
      LaterYearRow(rows, year, l, j);
      var m :| l < m < |idx| && idx[m] == j;
      assert t[m].area == r[m].area == rows[j].area;
    }
  }

  /** A row of the year that comes after the `l`-th kept row is itself kept, further on. */
  lemma LaterYearRow(rows: seq<TempYearRow>, year: int, l: nat, j: nat)
    requires l < |Positions(rows, InYear(year))|
    requires Positions(rows, InYear(year))[l] < j < |rows| && rows[j].year == year
    ensures exists m :: l < m < |Positions(rows, InYear(year))| && Positions(rows, InYear(year))[m] == j
  {
    var idx := Positions(rows, InYear(year));
    PositionsComplete(rows, InYear(year));
    assert InYear(year)(rows[j]);
    var m :| 0 <= m < |idx| && idx[m] == j;
  }

  /** The district features of `yearly_map_generator.py`. */
  method YearlyMapFeatures(polys: seq<Polygon>, rows: seq<TempYearRow>) returns (features: seq<TempFeature>)
    ensures |features| == |DropCity(polys)|
    ensures forall i :: 0 <= i < |features| ==> features[i].area != CityName
    ensures forall i :: 0 <= i < |features| ==> features[i] == FeatureOf(DropCity(polys)[i], YearLookup(rows))
  {
    var districts := DropCity(polys);
    var lookup := YearLookup(rows);
    features := BuildFeatures(districts, lookup);
  }
}
