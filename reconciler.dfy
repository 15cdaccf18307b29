/** Area-name reconciliation: each name of the temperature CSV is replaced by the district
    name that rapidfuzz scores best against it, provided that score is strictly above 80;
    rows left without a name are dropped. The scorer itself is a parameter `sim`. */
module Reconciler {
  import opened Wrappers
  import opened Frames

  /** A similarity as rapidfuzz reports it, from 0 to 100. */
  type Score = r: real | 0.0 <= r <= 100.0

  /** A best match is accepted only when its score is strictly above this value. */
  const MatchThreshold: real := 80.0

  /** `k` is the position `process.extractOne(query, choices)` reports: no choice scores higher,
      and every earlier choice scores strictly lower (the first of several ties wins). */
  ghost predicate FirstBest(query: string, choices: seq<string>, sim: (string, string) -> Score, k: nat)
  {
    && k < |choices|
    && (forall j :: 0 <= j < |choices| ==> sim(query, choices[j]) <= sim(query, choices[k]))
    && (forall j :: 0 <= j < k ==> sim(query, choices[j]) < sim(query, choices[k]))
  }

  /** `process.extractOne(query, choices)`, reduced to the position of its result: the scan
      keeps the current best and replaces it only on a strictly higher score. */
  function BestChoice(query: string, choices: seq<string>, sim: (string, string) -> Score): (k: nat)
    requires |choices| > 0
    ensures FirstBest(query, choices, sim, k)
  {
    if |choices| == 1 then 0
    else
      var init := choices[..|choices| - 1];
      var k := BestChoice(query, init, sim);
      assert forall j :: 0 <= j < |init| ==> init[j] == choices[j];
      if sim(query, choices[|choices| - 1]) > sim(query, choices[k]) then |choices| - 1 else k
  }

  /** The name one CSV row receives (`best_match if score > 80 else None`): present exactly
      when some district name scores above the threshold, and then the first best one. */
  function Reconcile(name: string, osm: seq<string>, sim: (string, string) -> Score): (r: Option<string>)
    requires |osm| > 0
    ensures r.Some? <==> exists j :: 0 <= j < |osm| && sim(name, osm[j]) > MatchThreshold
    ensures r.Some? ==> exists k: nat :: FirstBest(name, osm, sim, k) && r.value == osm[k]
                                   && sim(name, osm[k]) > MatchThreshold
  {
    var k := BestChoice(name, osm, sim);
    if sim(name, osm[k]) > MatchThreshold then Some(osm[k]) else None
  }

  /** The loop that fills `mapped_names`, one entry per CSV name, in CSV order. */
  method MapNames(csvNames: seq<string>, osmNames: seq<string>, sim: (string, string) -> Score)
    returns (mapped: seq<Option<string>>)
    requires |csvNames| > 0 ==> |osmNames| > 0
    ensures |mapped| == |csvNames|
    ensures forall i :: 0 <= i < |csvNames| ==> mapped[i] == Reconcile(csvNames[i], osmNames, sim)
  {
    mapped := [];
    for i := 0 to |csvNames|
      invariant |mapped| == i
      invariant forall k :: 0 <= k < i ==> mapped[k] == Reconcile(csvNames[k], osmNames, sim)
    {
      var best := BestChoice(csvNames[i], osmNames, sim);
      var score := sim(csvNames[i], osmNames[best]);
      mapped := mapped + [if score > MatchThreshold then Some(osmNames[best]) else None];
    }
  }

  /** The positions of the rows that received a name, in increasing order. */
  function MatchedPositions(mapped: seq<Option<string>>): (idx: seq<nat>)
    ensures forall k :: 0 <= k < |idx| ==> idx[k] < |mapped| && mapped[idx[k]].Some?
    ensures forall i :: 0 <= i < |mapped| && mapped[i].Some? ==> i in idx
    ensures forall k, l :: 0 <= k < l < |idx| ==> idx[k] < idx[l]
  {
    if mapped == [] then []
    else
      var n := |mapped| - 1;
      var init := MatchedPositions(mapped[..n]);
      if mapped[n].Some? then init + [n] else init
  }

  /** `df_temp["area"] = mapped_names; df_temp.dropna(subset=["area"])`: the rows that received
      a name, in their original order, each renamed and keeping its temperature. */
  function KeepMatched(rows: seq<TempRow>, mapped: seq<Option<string>>): (r: seq<TempRow>)
    requires |rows| == |mapped|
    ensures |r| == |MatchedPositions(mapped)|
    ensures forall k :: 0 <= k < |r| ==>
              var i := MatchedPositions(mapped)[k];
              r[k] == TempRow(mapped[i].value, rows[i].meanTemp)
  {
    if rows == [] then []
    else
      var n := |rows| - 1;
      var init := KeepMatched(rows[..n], mapped[..n]);
      assert forall i :: 0 <= i < n ==> rows[..n][i] == rows[i] && mapped[..n][i] == mapped[i];
      match mapped[n]
      case Some(name) => init + [TempRow(name, rows[n].meanTemp)]
      case None => init
  }

  /** The loop's result, in the shape `MapNames` promises. */
  ghost predicate MappedBy(mapped: seq<Option<string>>, rows: seq<TempRow>, osm: seq<string>,
                           sim: (string, string) -> Score)
    requires |osm| > 0
  {
    && |mapped| == |rows|
    && forall i :: 0 <= i < |rows| ==> mapped[i] == Reconcile(rows[i].area, osm, sim)
  }

  /** Every row that survives reconciliation carries a district name whose score against its CSV
      name is above the threshold and no lower than any other district's, and keeps its
      temperature. */
  lemma SurvivorIsBestMatch(rows: seq<TempRow>, osm: seq<string>, sim: (string, string) -> Score,
                            mapped: seq<Option<string>>, k: nat)
    requires |osm| > 0 && MappedBy(mapped, rows, osm, sim)
    requires k < |KeepMatched(rows, mapped)|
    ensures var i, row := MatchedPositions(mapped)[k], KeepMatched(rows, mapped)[k];
            && row.area in osm
            && sim(rows[i].area, row.area) > MatchThreshold
            && (forall j :: 0 <= j < |osm| ==> sim(rows[i].area, osm[j]) <= sim(rows[i].area, row.area))
            && row.meanTemp == rows[i].meanTemp
            && exists b: nat :: FirstBest(rows[i].area, osm, sim, b) && row.area == osm[b]
  {
    var i := MatchedPositions(mapped)[k];
    var b: nat :| FirstBest(rows[i].area, osm, sim, b) && mapped[i].value == osm[b]
                  && sim(rows[i].area, osm[b]) > MatchThreshold;
  }

  /** A CSV row is dropped exactly when no district name scores above the threshold against it
      (a best score of exactly 80 is rejected). */
  lemma DroppedIffNoMatch(rows: seq<TempRow>, osm: seq<string>, sim: (string, string) -> Score,
                          mapped: seq<Option<string>>, i: nat)
    requires |osm| > 0 && MappedBy(mapped, rows, osm, sim)
    requires i < |rows|
    ensures i !in MatchedPositions(mapped) <==> forall j :: 0 <= j < |osm| ==> sim(rows[i].area, osm[j]) <= MatchThreshold
  {
    var idx := MatchedPositions(mapped);
    if i in idx {
      var k :| 0 <= k < |idx| && idx[k] == i;
    }
  }
}
