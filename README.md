# Berlin heat analysis — a verified model of its table and scoring pipelines

The Berlin heat analysis scripts rank the city's administrative districts for tree planting. Around
downloads from OpenStreetMap and Earth Engine and the map rendering, they run a handful of
deterministic table and arithmetic pipelines. This project models those pipelines in Dafny, over
`real` and `Option<real>`, and proves what they guarantee:

- **Reconciler** (`reconciler.dfy`): the name-mapping loop. Each temperature-CSV district name is
  replaced by its best-scoring OpenStreetMap name, and rows whose best score is not strictly above
  80 are dropped. rapidfuzz's scorer is a parameter `sim`. `extractOne` is its first arg-max.
- **GreenCoverage** (`green_coverage.dfy`): the coverage loop over an `array<real>` column.
  Every cell is first set to 0.0, then row i is overwritten with the summed clipped park area
  divided by the district area. It also models the percentage shown on the coverage map and the
  loop that builds that map's features.
- **Priority** (`priority.dfy`): `calc_priority` and the normalisation by the maximum. Also the
  older `mean_temp_c·(1 − green_area)` formula of the test script.
- **Frames** (`frames.dfy`), **Sequences**, **Aggregates**: the pandas operations the scripts
  share. These are the `!= "Berlin"` filter, inner and left merges on `area`, the `<` / `>=` median
  split, the year filter, the `dict(zip(area, mean_temp_c))` lookup, and mean, median and
  null-skipping mean.
- **Statistics** (`statistics.dfy`): the schema check, merge, split and significance
  interpretation of the statistics script, and the groups the chart script draws. The t-test and
  Spearman results are parameters.
- **TemperatureMaps** (`temperature_maps.dfy`): the feature-building loops of the two
  choropleth scripts, one of them restricted to 2020.
- **Heatmap** (`heatmap.dfy`): the year × district record loop with the MODIS Kelvin→Celsius
  conversion, the summer date strings, and the per-district `groupby("area").mean()`.

A few behaviours of the scripts run against what their comments and names suggest; the model
states them as the code does them:

- Coverage is not capped at 1. The coverage loops add up the clipped park areas without a union
  (berlin_tree_priority_map.py:67-71, green_coverage.py:49-53), so overlapping parks count twice
  (`CoverageAboveOne`, `OverlapCountedTwice`).
- A priority is therefore not confined to [0, 1]: coverage above 1 makes it negative
  (`OverlapGivesNegativePriority`).
- The merges keep every match (berlin_tree_priority_map.py:75, statistics.py:28, charts.py:20). A
  district matched by k temperature rows appears k times, in table order (`LeftMergeLayout`).
- An empty t-test group is not fatal. scipy returns NaN and the script reports no significance
  (`UniformCoverageNotSignificant`).
- The script labels the baseline a median (berlin_tree_priority_map.py:4, 78-80), but it is an
  arithmetic mean (`Baseline`).
- In exact arithmetic, the all-zero fallback of the normalisation (berlin_tree_priority_map.py:102-103)
  never fires on a non-empty table, because some district always sits at the 1.0 floor
  (`ScoresReachOne`). In floating point this can fail when all temperatures are equal; see "Left out".

## Model

| member | source | states |
|---|---|---|
| Frames.DropCity | berlin_heat_analysis/berlin_tree_priority_map.py:28 | One polygon per position whose name is not "Berlin", in order: the k-th kept polygon is the one at the k-th such position, so a repeated polygon is kept as often as it occurs (the same filter is at test.py:31, green_coverage.py:28, yearly_map_generator.py:23 and berlin_temperature_map.py:25). |
| Reconciler.BestChoice | berlin_heat_analysis/berlin_tree_priority_map.py:42 | `extractOne`'s choice: no candidate scores higher, and every earlier candidate scores strictly lower, so the first of tied candidates wins. |
| Reconciler.Reconcile | berlin_heat_analysis/berlin_tree_priority_map.py:42-43 | A CSV name receives a district name iff some district scores strictly above 80; the name it receives is the first best one, and its score is above 80. |
| Reconciler.MapNames | berlin_heat_analysis/berlin_tree_priority_map.py:40-43 | The append loop yields one entry per CSV name, in CSV order, each entry being that name's reconciliation. |
| Reconciler.MatchedPositions | berlin_heat_analysis/berlin_tree_priority_map.py:46 | The positions of the named rows: each names a matched row, every matched row is listed, and they are strictly increasing. |
| Reconciler.KeepMatched | berlin_heat_analysis/berlin_tree_priority_map.py:45-46 | `dropna(subset=["area"])`: one output row per matched position, in order, carrying the mapped name and the original temperature. |
| Reconciler.SurvivorIsBestMatch | berlin_heat_analysis/berlin_tree_priority_map.py:42-46 | Every surviving row carries the first of the tied best-scoring district names for its CSV name (`FirstBest`); that name scores above 80 and no district scores higher; the row keeps its own temperature. |
| Reconciler.DroppedIffNoMatch | berlin_heat_analysis/test.py:47-51 | A CSV row is dropped exactly when no district scores above 80 against its name, so a score of exactly 80 is rejected. |
| GreenCoverage.ClippedTotal | berlin_heat_analysis/green_coverage.py:51 | The summed clipped area is non-negative, and it is 0 when no feature intersects the district. |
| GreenCoverage.Coverage | berlin_heat_analysis/berlin_tree_priority_map.py:67-71 | The cell's value is exactly 0.0 with no intersecting feature; otherwise it times the district area equals the summed clipped area. It is never negative. |
| GreenCoverage.CoverageAboveOne | berlin_heat_analysis/green_coverage.py:51-53 | Coverage exceeds 1 iff the intersecting features' clipped areas add up to more than the district. |
| GreenCoverage.OverlapCountedTwice | berlin_heat_analysis/test.py:77-80 | Two features each covering the whole district give coverage 2.0: overlaps are not unioned. |
| GreenCoverage.FillCoverage | berlin_heat_analysis/berlin_tree_priority_map.py:63-71 | After the zeroing loop and the per-row loop, every cell holds its district's coverage; the invariants show that iteration i writes only row i (same loop at test.py:72-80 and green_coverage.py:45-53). |
| GreenCoverage.Round2 | berlin_heat_analysis/green_coverage.py:77 | `round(x, 2)` lands within half a hundredth of x. |
| GreenCoverage.Round2Idempotent | berlin_heat_analysis/green_coverage.py:77 | Rounding a rounded value changes nothing. |
| GreenCoverage.ColourTracksCoverage | berlin_heat_analysis/green_coverage.py:91 | The colour input (shown percent / 100) differs from the coverage by at most 0.00005. |
| GreenCoverage.DisplayPercent | berlin_heat_analysis/green_coverage.py:77 | The shown percentage is within 0.005 of coverage·100 and is a whole number of hundredths. |
| GreenCoverage.ColourValue | berlin_heat_analysis/green_coverage.py:91 | The colour input times 100 is exactly the shown percentage. |
| GreenCoverage.CoverageFeatures | berlin_heat_analysis/green_coverage.py:70-80 | One feature per district, in order, with its geometry, name and rounded percentage. |
| Frames.LeftBlock | berlin_heat_analysis/berlin_tree_priority_map.py:75 | A district matched by k temperature rows contributes exactly k rows, the j-th holding the temperature of the j-th matching row; an unmatched one contributes exactly one row with a missing temperature; every row keeps the district's name and coverage. |
| Frames.LeftMerge | berlin_heat_analysis/berlin_tree_priority_map.py:75 | The merge is the districts' blocks back to back: its length is the sum of the block lengths (`Offset`), so at least one row per district. |
| Frames.LeftMergeLayout | berlin_heat_analysis/berlin_tree_priority_map.py:75 | District i's block sits at positions Offset(i) onwards, after the blocks of all earlier districts: each district appears max(1, k) times for k matches, in district order. |
| Frames.LeftMergeKeepsArea | berlin_heat_analysis/berlin_tree_priority_map.py:75 | Every district appears with its own coverage, and with a missing temperature when unmatched. |
| Frames.LeftMergeRowOrigin | berlin_heat_analysis/test.py:86 | Every merged row is some district with its coverage and either a temperature of its name or a missing one. |
| Frames.LeftMergeOnUniqueKeys | berlin_heat_analysis/berlin_tree_priority_map.py:75 | With one temperature row per name, the merge is row-for-row the district table, each row holding its name's temperature or a missing one. |
| Frames.TempsOf | berlin_heat_analysis/berlin_tree_priority_map.py:75 | One entry per row carrying the name, in table order: the k-th entry is the temperature of the row at the k-th (strictly increasing) matching position; empty iff no row has the name. |
| Frames.TempsOfValues | berlin_heat_analysis/berlin_tree_priority_map.py:75 | Each entry is the temperature of a row of that name, and every such row's temperature is an entry. |
| Frames.TempsOfUnique | berlin_heat_analysis/berlin_tree_priority_map.py:75 | With unique names, a district has at most one matching temperature row. |
| Aggregates.Present | berlin_heat_analysis/berlin_tree_priority_map.py:79 | `dropna()`: one value per non-missing position, in order; empty iff every value is missing; each kept value is present in the column and every present value is kept. |
| Aggregates.PresentOfFull | berlin_heat_analysis/berlin_tree_priority_map.py:79 | With no missing value, `dropna()` returns the column's values unchanged. |
| Aggregates.NonNullMean | berlin_heat_analysis/berlin_tree_priority_map.py:79 | `dropna().mean()` is missing iff every value is missing. |
| Aggregates.NonNullMeanBetween | berlin_heat_analysis/berlin_tree_priority_map.py:79 | A present mean lies between some present value at or below it and some present value at or above it. |
| Priority.Baseline | berlin_heat_analysis/berlin_tree_priority_map.py:79 | The baseline is the mean of the present temperatures, missing iff no district has one. |
| Priority.RawScore | berlin_heat_analysis/berlin_tree_priority_map.py:82-93 | A missing or not-above-baseline temperature scores exactly 1.0; any score is non-negative when coverage ≤ 1, and strictly positive above the baseline when coverage < 1. |
| Priority.RawScoreMonotone | berlin_heat_analysis/berlin_tree_priority_map.py:91-93 | Above the baseline, hotter never scores lower and greener never scores higher (coverage ≤ 1). |
| Priority.RawScores | berlin_heat_analysis/berlin_tree_priority_map.py:96 | The raw column applies `calc_priority` to each row against the one shared baseline. |
| Priority.Scale | berlin_heat_analysis/berlin_tree_priority_map.py:101 | Dividing by a positive maximum gives values ≤ 1 for rows up to it, exactly 1.0 at it, non-negative for non-negative rows, and keeps the order. |
| Priority.PriorityScores | berlin_heat_analysis/berlin_tree_priority_map.py:96-103 | On a non-empty table the raw maximum is at least 1.0, and every priority is its raw score divided by that maximum. |
| Priority.Normalize | berlin_heat_analysis/berlin_tree_priority_map.py:99-103 | With a positive maximum every score is raw/max, ≤ 1, and 1.0 at the maximum; otherwise every score is 0.0; non-negative raw stays non-negative; order is preserved. |
| Priority.FloorAttained | berlin_heat_analysis/berlin_tree_priority_map.py:87-88 | A non-empty table always has a row at the 1.0 floor: a missing temperature, or one at or below the mean. |
| Priority.ScoresReachOne | berlin_heat_analysis/berlin_tree_priority_map.py:99-101 | On a non-empty table the raw maximum is ≥ 1, every priority is ≤ 1 and some district scores exactly 1.0. |
| Priority.ScoresWithinUnit | berlin_heat_analysis/berlin_tree_priority_map.py:99-103 | With coverage ≤ 1 everywhere, every priority lies in [0, 1]. |
| Priority.NoTemperatureAllOne | berlin_heat_analysis/berlin_tree_priority_map.py:87-88 | When no district has a temperature, every district scores exactly 1.0. |
| Priority.TwoDistrictExample | berlin_heat_analysis/berlin_tree_priority_map.py:79-103 | 30 °C uncovered and 20 °C at 0.8 coverage give baseline 25 °C and priorities 1.0 and 0.2. |
| Priority.CoolerDistrictCanOutrank | berlin_heat_analysis/berlin_tree_priority_map.py:87-88 | Because of the floor, a district below the baseline (24.5 °C, priority 1.0) outranks a hotter one (25.5 °C, priority 0.5). |
| Priority.OverlapGivesNegativePriority | berlin_heat_analysis/berlin_tree_priority_map.py:91-93 | Coverage 2.0 on the hottest district gives it priority −5.0. |
| Priority.PriorityTable | berlin_heat_analysis/berlin_tree_priority_map.py:75-103 | The scored table is the left merge row for row (as many rows, at least one per district): row k carries the k-th merged row's area, temperature and coverage and the k-th priority score. |
| Priority.PriorityTableRanks | berlin_heat_analysis/berlin_tree_priority_map.py:91-101 | Among districts hotter than the baseline, one at least as hot and at most as green (coverage ≤ 1) never gets a lower priority in the table. |
| Priority.PriorityTableTop | berlin_heat_analysis/berlin_tree_priority_map.py:75-103 | Every district is in the scored table, no priority exceeds 1.0, and a non-empty table has a district at exactly 1.0. |
| Priority.LegacyScore | berlin_heat_analysis/test.py:87 | `mean_temp_c·(1 − green_area)` is missing iff the temperature is, and lies in [0, temperature] for a non-negative temperature and coverage in [0, 1]. |
| Priority.RawScoreIsShiftedLegacy | berlin_heat_analysis/test.py:87 | Above the baseline, the current raw score is the older formula applied to the excess temperature. |
| Priority.LegacyScores | berlin_heat_analysis/test.py:86-87 | The test script's column applies the older formula row by row, with no baseline and no normalisation. |
| Statistics.CheckSchema | berlin_heat_analysis/statistics.py:16-23 | The check passes iff both required column sets are present; the temperature table's error is reported whenever its columns are missing, the green table's only when the temperature table passed. |
| Statistics.ExtraColumnsAccepted | berlin_heat_analysis/statistics.py:19-23 | The check is a subset test: extra columns never make it fail. |
| Statistics.Prepare | berlin_heat_analysis/statistics.py:19-40 | A schema error stops the run before any merge; otherwise the groups are the median split of the inner merge. |
| Frames.InnerMatchesPositions | berlin_heat_analysis/statistics.py:28 | A temperature row contributes one merged row per green row of its area, in green-table order: the k-th carries the temperature row's area and temperature and the coverage of the k-th such green row, so an area repeated m times in the green table yields m rows. |
| Frames.InnerMatchesValues | berlin_heat_analysis/statistics.py:28 | Each match pairs the temperature row with one of its area's green rows, and every green row of its area is matched. |
| Frames.InnerMerge | berlin_heat_analysis/statistics.py:28 | The merge is the temperature rows' match blocks back to back: its length is the sum of the block lengths (`InnerOffset`); an empty table on either side gives an empty merge. |
| Frames.InnerMergeLayout | berlin_heat_analysis/statistics.py:28 | Temperature row i's matches sit at positions InnerOffset(i) onwards, after those of all earlier rows, in temperature-table order (same merge at charts.py:20). |
| Frames.RepeatedGreenAreaMatchedTwice | berlin_heat_analysis/statistics.py:28 | One temperature row of area "A" against two green rows of "A" gives two merged rows. |
| Frames.InnerMergeSound | berlin_heat_analysis/statistics.py:28 | Every merged row pairs a temperature row and a green row of the same area. |
| Frames.InnerMergeComplete | berlin_heat_analysis/charts.py:20 | Every same-area pair of a temperature row and a green row appears in the merge. |
| Frames.InnerMatchesUnique | berlin_heat_analysis/statistics.py:28 | With unique green areas, a temperature row has one match if its area is there and none otherwise. |
| Frames.InnerMergeOnUniqueKeys | berlin_heat_analysis/statistics.py:28 | With unique green areas, the merge has exactly one row per temperature row whose area the green table has. |
| Aggregates.Median | berlin_heat_analysis/statistics.py:37 | The median of a non-empty column lies between its minimum and maximum (its halving property is MedianHalves). |
| Aggregates.MedianHalves | berlin_heat_analysis/statistics.py:37 | At most half of the values lie strictly below the median and at least half at or above it; likewise at most half strictly above and at least half at or below. |
| Frames.MedianSplit | berlin_heat_analysis/statistics.py:37-40 | Low rows are below the median and high rows at or above it; the groups partition the table as multisets, each keeps table order, the high group is non-empty for a non-empty table, at most half of the rows are low and at least half high, and uniform coverage leaves the low group empty. |
| Frames.HighGroupHoldsMaximum | berlin_heat_analysis/charts.py:28-31 | The row of largest coverage is never below the median, so the high group is non-empty. |
| Frames.LowGroupEmptyWhenUniform | berlin_heat_analysis/charts.py:30 | When every row has the same coverage, no row is below the median. |
| Statistics.GroupRowsFromBothTables | berlin_heat_analysis/statistics.py:28-40 | Every row of either group pairs a temperature row and a green row of the same area. |
| Statistics.GroupOfRow | berlin_heat_analysis/statistics.py:37-40 | Each merged row lands in exactly one group, the high one when its coverage ties the median. |
| Statistics.Interpret | berlin_heat_analysis/statistics.py:71-80 | "Significantly hotter" iff the t-test p-value is present and < 0.05; the trend is reported only for a correlation p-value < 0.05, negative iff rho < 0 and positive otherwise. |
| Statistics.InterpretEdges | berlin_heat_analysis/statistics.py:71-80 | A p-value of exactly 0.05 is not significant; a NaN p-value never is; a NaN rho with a significant p-value is reported as a positive trend, because `rho < 0` is false for NaN. |
| Statistics.Analyze | berlin_heat_analysis/statistics.py:19-47 | The run fails iff the schema check fails; otherwise the t-test verdict is that of the test on the two groups' temperatures and the trend that of the correlation over the merged table. |
| Statistics.UniformCoverageNotSignificant | berlin_heat_analysis/statistics.py:39-42 | With uniform coverage the low group is empty, the t-test yields NaN, and no significance is reported. |
| Statistics.ChartGroups | berlin_heat_analysis/charts.py:20-31 | The chart groups partition the inner merge as multisets. |
| Statistics.ChartsMatchStatistics | berlin_heat_analysis/charts.py:20-31 | On tables that pass the schema check, the charts draw exactly the groups the statistics script tests. |
| Frames.RowsOfYear | berlin_heat_analysis/yearly_map_generator.py:31-33 | One row per position of the year, in order: the k-th kept row is the row at the k-th position of that year, so repeated rows keep their multiplicity. |
| Frames.AreaTemps | berlin_heat_analysis/yearly_map_generator.py:36 | The `area` and `mean_temp_c` columns of the year's rows, row for row. |
| Frames.ZipLookup | berlin_heat_analysis/berlin_temperature_map.py:31 | The dictionary's keys are exactly the table's area names. |
| Frames.LastRowWins | berlin_heat_analysis/yearly_map_generator.py:36 | A duplicated name maps to the temperature of its last row. |
| TemperatureMaps.Get | berlin_heat_analysis/berlin_temperature_map.py:42 | `get(name, None)` is None iff the name is not a key, and otherwise the stored value. |
| TemperatureMaps.FeatureOf | berlin_heat_analysis/berlin_temperature_map.py:36-44 | A feature carries its district's geometry and name; its temperature is absent iff the name is not in the lookup, and otherwise it is the lookup's value for the name. |
| TemperatureMaps.BuildFeatures | berlin_heat_analysis/yearly_map_generator.py:39-50 | The append loop yields exactly one feature per district, in district order (same loop at berlin_temperature_map.py:34-45). |
| TemperatureMaps.LookupExact | berlin_heat_analysis/berlin_temperature_map.py:42 | A feature's temperature is absent iff no table row has exactly its name: there is no fuzzy matching. |
| TemperatureMaps.LookupFromLastRow | berlin_heat_analysis/berlin_temperature_map.py:31 | A found temperature is that of the last row carrying the name. |
| TemperatureMaps.CityMapFeatures | berlin_heat_analysis/berlin_temperature_map.py:25-45 | One feature per district other than "Berlin", in order, each looked up by exact name in the all-years table. |
| TemperatureMaps.YearLookup | berlin_heat_analysis/yearly_map_generator.py:31-36 | Every name with a 2020 row is in the yearly lookup. |
| TemperatureMaps.YearLookupFrom2020 | berlin_heat_analysis/yearly_map_generator.py:33-36 | A temperature found in the yearly lookup is that of the last 2020 row of that name: no other year leaks in, and a later 2020 row overwrites an earlier one. |
| TemperatureMaps.YearlyMapFeatures | berlin_heat_analysis/yearly_map_generator.py:23-50 | One feature per district other than "Berlin", in order, each looked up in the 2020 table. |
| Heatmap.Range | berlin_heat_analysis/berlin_heatmap.py:32 | `range(start, stop)` has stop − start elements (none when empty), the i-th being start + i. |
| Heatmap.Years | berlin_heat_analysis/berlin_heatmap.py:32 | The years are exactly 2020, 2021, 2022, 2023, 2024. |
| Heatmap.Digits | berlin_heat_analysis/berlin_heatmap.py:41-42 | A natural number renders as a non-empty string of decimal digits. |
| Heatmap.DigitsRoundTrip | berlin_heat_analysis/berlin_heatmap.py:41-42 | Reading the digits back gives the number. |
| Heatmap.Decimal | berlin_heat_analysis/berlin_heatmap.py:41-42 | An integer's rendering is non-empty and starts with "-" iff the integer is negative. |
| Heatmap.DecimalInjective | berlin_heat_analysis/berlin_heatmap.py:41-42 | Different integers render differently. |
| Heatmap.SummerDate | berlin_heat_analysis/berlin_heatmap.py:41-42 | A window bound is the year's decimal rendering followed by the month and day ("-06-01" for the start, "-08-31" for the end). |
| Heatmap.SummerWindowNamesYear | berlin_heat_analysis/berlin_heatmap.py:41-42 | Two years never share a window bound with the same month and day. |
| Heatmap.FirstSummerWindow | berlin_heat_analysis/berlin_heatmap.py:41-42 | The 2020 window is "2020-06-01" to "2020-08-31". |
| Heatmap.ToCelsius | berlin_heat_analysis/berlin_heatmap.py:58-62 | The converted value is missing iff the raw value is. |
| Heatmap.ConversionRoundTrip | berlin_heat_analysis/berlin_heatmap.py:60 | `v·0.02 − 273.15` is undone by `(c + 273.15)·50`, in both directions. |
| Heatmap.ConversionMonotone | berlin_heat_analysis/berlin_heatmap.py:60 | The conversion is strictly increasing and maps 13657.5 to 0 °C. |
| Heatmap.YearBlock | berlin_heat_analysis/berlin_heatmap.py:45-68 | One year's inner loop yields one record per district. |
| Heatmap.Records | berlin_heat_analysis/berlin_heatmap.py:36-68 | The record list has one record per year and district: (number of years)·(number of districts) records (their layout is RecordAt). |
| Heatmap.GenerateRecords | berlin_heat_analysis/berlin_heatmap.py:36-68 | The nested loops build exactly the year-major record list `Records`. |
| Heatmap.RecordAt | berlin_heat_analysis/berlin_heatmap.py:39-68 | There are (number of years)·(number of districts) records, and the one at y·(number of districts) + a holds district a's name, year y and its converted temperature. |
| Heatmap.RecordOrigin | berlin_heat_analysis/berlin_heatmap.py:64-68 | Every record holds a loop year, a district's name and that pair's converted temperature. |
| Heatmap.LexIrreflexive | berlin_heat_analysis/berlin_heatmap.py:79 | No name sorts before itself. |
| Heatmap.LexTransitive | berlin_heat_analysis/berlin_heatmap.py:79 | The name order is transitive. |
| Heatmap.LexTotal | berlin_heat_analysis/berlin_heatmap.py:79 | Of two different names, one sorts first. |
| Heatmap.InsertKey | berlin_heat_analysis/berlin_heatmap.py:79 | Adding a name to the sorted key list keeps it strictly sorted, with the name once and nothing lost or invented. |
| Heatmap.AreaKeys | berlin_heat_analysis/berlin_heatmap.py:79 | The group keys are strictly sorted and are exactly the records' area names. |
| Heatmap.AreaSeriesValues | berlin_heat_analysis/berlin_heatmap.py:79 | A group holds one value per record of the area, in record order (`TempsOf` on the records' area and temperature columns); each value is recorded for the area and every record of the area contributes its value. |
| Heatmap.AreaMeans | berlin_heat_analysis/berlin_heatmap.py:79 | One row per distinct area, in ascending name order, each holding the null-skipping mean of that area's values. |
| Heatmap.AreaMeansDistinct | berlin_heat_analysis/berlin_heatmap.py:79 | No area appears twice in the averaged table. |
| Heatmap.AreaMeanMissing | berlin_heat_analysis/berlin_heatmap.py:79 | An area's average is missing iff none of its records has a temperature. |
| Heatmap.AreaMeanBetween | berlin_heat_analysis/berlin_heatmap.py:79 | A present average lies between the smallest and the largest present value of the area's group, and both are temperatures recorded for that area. |
| Heatmap.CollectTemperatures | berlin_heat_analysis/berlin_heatmap.py:32-79 | The script yields the records of 2020..2024 — five per district — and their per-area averages. |

## Left out

- OpenStreetMap downloads and geocoding (`ox.features_from_place`, `ox.geocode_to_gdf`): network I/O. Their tables are inputs.
- Earth Engine (`ee.Initialize`, `filterDate`, `reduceRegion`, `getInfo`): remote computation. The reduced raw value is the parameter `lst(year, district)`. The date strings are built, but the filtering is not modelled.
- Shapely and GeoPandas geometry (`intersects`, `intersection`, `.area`, `to_crs`): supplied as per-district inputs (`Overlay`).
- The spatial "inside Berlin" filters (`intersects` / `within(buffer)`): left out with the geometry. Only the `!= "Berlin"` name filter is modelled. The data-collection script applies no name filter, and the model matches that.
- GreenCoverage.Coverage: requires a positive district area. A zero-area district would make the source divide by zero (infinity or NaN), which is not modelled.
- The rapidfuzz scoring algorithm: only `extractOne`'s result contract is kept, through `sim`.
- Reconciler.MapNames: requires a non-empty district list when there are CSV names. With no districts, `extractOne` returns None and the tuple unpacking raises.
- scipy's `ttest_ind` and `spearmanr`, and NumPy's `polyfit`: floating-point numerics. Their results are parameters.
- folium maps, branca colour scales, matplotlib plots, printing, and CSV reading and writing: output only. The `if temp_celsius` print test (which prints "No data" for exactly 0.0 °C) is output only.
- Floating-point arithmetic: values are exact reals. A missing value or NaN is `None`. The 0.02 scale factor and 273.15 offset are exact. `Round2` rounds half to even on the exact value, not on the binary double. In particular, the mean of equal temperatures is modelled as that temperature. In doubles it can round below all of them (0.7 + 0.7 + 0.7 = 2.0999999999999996, then / 3 = 0.6999999999999998). Every district is then above the baseline and scores (t − b)·(1 − g) instead of the 1.0 floor, so `FloorAttained` and `ScoresReachOne` hold only for exact values.
- Heatmap.AreaMeans, Frames.InnerMerge, Frames.LeftMerge, Frames.ZipLookup: area names are always strings here. pandas drops rows whose `groupby` key is NaN (berlin_heatmap.py:79), matches NaN keys to NaN keys in the merges (statistics.py:28, charts.py:20, berlin_tree_priority_map.py:75), and keeps a NaN key in the `dict(zip(...))` lookups (berlin_temperature_map.py:31, yearly_map_generator.py:36). A missing area name is not modelled.
- Frames.InnerMerge: the row order is that of pandas 2.2 and later (the temperature rows in order, each followed by its matches). Earlier pandas grouped the rows of an inner merge by key, so left keys [1, 2, 1] came out as 1, 1, 2. The statistics and charts use the merge only as a multiset, so the order does not change them.
- Reading `mean_temp_c` from a CSV (which turns `None` into NaN) is not modelled. Missing temperatures stay `None` throughout.
