/** `radarChartData` of the player profile (pages/PlayerProfile.tsx): one axis
    per active metric shown in the radar, in registry order. The value of an
    axis is the latest manual measurement, or the formula of a calculated
    metric evaluated on the record of latest manual values; the axis maximum
    is the largest value in the chart history and the latest value, or the
    latest value plus 20% when there is no history. */
module Radar {
  import opened Seqs
  import opened Types
  import Latest
  import Formula
  import Numbers

  type Record = map<string, Value>

  datatype RadarEntry = RadarEntry(subject: string, value: real, rawValue: real, fullMark: real)

  /** The base record: for every manual metric (active or not) in registry
      order, its latest value under its name. */
  function LatestRecord(ms: seq<Measurement>, metrics: seq<Metric>): Record
    decreases |metrics|
  {
    if metrics == [] then map[]
    else
      var rec := LatestRecord(ms, metrics[..|metrics| - 1]);
      var met := metrics[|metrics| - 1];
      if Measured(ms, met) then rec[met.name := Num(Latest.LatestValue(ms, met.id).value)] else rec
  }

  /** A manual metric that has a measurement. */
  predicate Measured(ms: seq<Measurement>, met: Metric)
  {
    met.inputType == Manual && Latest.LatestValue(ms, met.id).Some?
  }

  /** Some measured manual metric of `metrics` is named `n`. */
  predicate HasMeasuredNamed(ms: seq<Measurement>, metrics: seq<Metric>, n: string)
  {
    exists k :: 0 <= k < |metrics| && metrics[k].name == n && Measured(ms, metrics[k])
  }

  /** The base record has a field exactly for the names of measured manual metrics. */
  lemma {:induction false} LatestRecordHas(ms: seq<Measurement>, metrics: seq<Metric>, n: string)
    ensures n in LatestRecord(ms, metrics) <==> HasMeasuredNamed(ms, metrics, n)
    decreases |metrics|
  {
    if metrics != [] {
      var init, met := metrics[..|metrics| - 1], metrics[|metrics| - 1];
      LatestRecordHas(ms, init, n);
      assert metrics == init + [met];
      RecordStep(ms, init, met, n);
      NamedStep(ms, init, met, n);
    }
  }

  lemma RecordStep(ms: seq<Measurement>, init: seq<Metric>, met: Metric, n: string)
    ensures n in LatestRecord(ms, init + [met]) <==> n in LatestRecord(ms, init) || (met.name == n && Measured(ms, met))
  {
    var metrics := init + [met];
    assert metrics[..|metrics| - 1] == init && metrics[|metrics| - 1] == met;
  }

  lemma NamedStep(ms: seq<Measurement>, init: seq<Metric>, met: Metric, n: string)
    ensures HasMeasuredNamed(ms, init + [met], n) <==> HasMeasuredNamed(ms, init, n) || (met.name == n && Measured(ms, met))
  {
    var metrics := init + [met];
    if HasMeasuredNamed(ms, metrics, n) && !(met.name == n && Measured(ms, met)) {
      var k :| 0 <= k < |metrics| && metrics[k].name == n && Measured(ms, metrics[k]);
      assert k < |init| && init[k] == metrics[k];
    }
    if HasMeasuredNamed(ms, init, n) {
      var k :| 0 <= k < |init| && init[k].name == n && Measured(ms, init[k]);
      assert metrics[k] == init[k];
    }
    if met.name == n && Measured(ms, met) {
      assert metrics[|init|] == met;
    }
  }

  /** The field holds the latest value of the last measured manual metric of that name. */
  lemma {:induction false} LatestRecordValue(ms: seq<Measurement>, metrics: seq<Metric>, k: int)
    requires 0 <= k < |metrics| && Measured(ms, metrics[k])
    requires forall j :: k < j < |metrics| && metrics[j].name == metrics[k].name ==> !Measured(ms, metrics[j])
    ensures metrics[k].name in LatestRecord(ms, metrics)
    ensures LatestRecord(ms, metrics)[metrics[k].name] == Num(Latest.LatestValue(ms, metrics[k].id).value)
    decreases |metrics|
  {
    var init := metrics[..|metrics| - 1];
    if k < |metrics| - 1 {
      assert forall j :: 0 <= j < |init| ==> metrics[j] == init[j];
      LatestRecordValue(ms, init, k);
    }
  }

  /** The value of an axis; survey-linked metrics have none. */
  function AxisValue(met: Metric, rec: Record): (v: Option<real>)
    ensures met.inputType == Survey ==> v.None?
    ensures met.inputType == Manual ==> (v.Some? <==> met.name in rec && rec[met.name].Num?)
    ensures met.inputType == Manual && v.Some? ==> rec[met.name] == Num(v.value)
    ensures met.inputType == Calculated ==> (v.Some? ==> Truthy(met.formula) && Numbers.Round2(v.value) == v.value)
  {
    if met.inputType == Manual then
      if met.name in rec && rec[met.name].Num? then Some(rec[met.name].r) else None
    else if met.inputType == Calculated && Truthy(met.formula) then
      Formula.FormulaValue(met.formula.value, rec)
    else None
  }

  /** The numeric values of field `n` in the chart records, in chart order. */
  function History(chart: seq<CombinedDataPoint>, n: string): (h: seq<real>)
    ensures |h| <= |chart|
    ensures forall x :: x in h <==> exists i :: 0 <= i < |chart| && n in chart[i].values && chart[i].values[n] == Num(x)
  {
    if chart == [] then []
    else
      var rest := History(chart[1..], n);
      assert forall i :: 1 <= i < |chart| ==> chart[i] == chart[1..][i - 1];
      if n in chart[0].values && chart[0].values[n].Num? then [chart[0].values[n].r] + rest else rest
  }

  /** `Math.max(...s)` */
  function SeqMax(s: seq<real>): (m: real)
    requires s != []
    ensures m in s
    ensures forall i :: 0 <= i < |s| ==> s[i] <= m
  {
    if |s| == 1 then s[0]
    else
      var m := SeqMax(s[1..]);
      assert forall i :: 1 <= i < |s| ==> s[i] == s[1..][i - 1];
      if s[0] >= m then s[0] else m
  }

  function FullMark(history: seq<real>, latest: real): real
  {
    if history != [] then SeqMax(history + [latest])
    else if latest > 0.0 then latest * 1.2
    else 1.0
  }

  /** The axis maximum is at least the latest value and every historical
      value; with a history it is one of those values. */
  lemma FullMarkBounds(history: seq<real>, latest: real)
    ensures latest <= FullMark(history, latest)
    ensures forall i :: 0 <= i < |history| ==> history[i] <= FullMark(history, latest)
    ensures history != [] ==> FullMark(history, latest) in history + [latest]
    ensures history == [] ==> FullMark(history, latest) > 0.0
  {
    if history != [] {
      var s := history + [latest];
      assert s[|history|] == latest;
      assert forall i :: 0 <= i < |history| ==> s[i] == history[i];
    }
  }

  function Entry(met: Metric, rec: Record, chart: seq<CombinedDataPoint>): RadarEntry
  {
    match AxisValue(met, rec)
    case None => RadarEntry(met.name, 0.0, 0.0, 1.0)
    case Some(v) => RadarEntry(met.name, v, v, FullMark(History(chart, met.name), v))
  }

  function RadarMetrics(metrics: seq<Metric>): seq<Metric>
  {
    Filter(metrics, (m: Metric) => m.showInRadar == Some(true) && m.isActive)
  }

  /** `radarChartData`, given the chart records of the same player. */
  function RadarData(p: Player, metrics: seq<Metric>, chart: seq<CombinedDataPoint>): (r: seq<RadarEntry>)
    ensures metrics == [] ==> r == []
    ensures metrics != [] ==> |r| == |RadarMetrics(metrics)|
    ensures forall k :: 0 <= k < |r| ==> r[k].subject == RadarMetrics(metrics)[k].name
  {
    if metrics == [] then []
    else
      var radar := RadarMetrics(metrics);
      var rec := LatestRecord(p.measurements, metrics);
      seq(|radar|, k requires 0 <= k < |radar| => Entry(radar[k], rec, chart))
  }

  /** The base record built in place, as the source's loop over manual metrics does. */
  method BuildLatestRecord(ms: seq<Measurement>, metrics: seq<Metric>) returns (rec: Record)
    ensures rec == LatestRecord(ms, metrics)
  {
    rec := map[];
    var i := 0;
    while i < |metrics|
      invariant 0 <= i <= |metrics|
      invariant rec == LatestRecord(ms, metrics[..i])
    {
      var met := metrics[i];
      assert metrics[..i + 1][..i] == metrics[..i];
      if met.inputType == Manual {
        var last := Latest.LatestMeasurement(ms, met.id);
        if last.Some? {
          rec := rec[met.name := Num(last.value.value)];
        }
      }
      i := i + 1;
    }
    assert metrics[..i] == metrics;
  }

  method BuildRadarData(p: Player, metrics: seq<Metric>, chart: seq<CombinedDataPoint>)
    returns (r: seq<RadarEntry>)
    ensures r == RadarData(p, metrics, chart)
  {
    if metrics == [] {
      return [];
    }
    var radar := RadarMetrics(metrics);
    var rec := BuildLatestRecord(p.measurements, metrics);
    r := seq(|radar|, k requires 0 <= k < |radar| => Entry(radar[k], rec, chart));
  }

  /** One axis per active radar metric, in registry order, named after it;
      its value and raw value agree and never exceed its maximum; an axis
      without a value is drawn as 0 of 1. */
  lemma RadarAxes(p: Player, metrics: seq<Metric>, chart: seq<CombinedDataPoint>)
    requires metrics != []
    ensures var r := RadarData(p, metrics, chart);
            var radar := RadarMetrics(metrics);
            |r| == |radar| &&
            forall k :: 0 <= k < |r| ==>
              r[k].subject == radar[k].name && radar[k].isActive && radar[k].showInRadar == Some(true) &&
              r[k].value == r[k].rawValue && r[k].value <= r[k].fullMark &&
              (AxisValue(radar[k], LatestRecord(p.measurements, metrics)).None? ==>
                 r[k] == RadarEntry(radar[k].name, 0.0, 0.0, 1.0))
  {
    var r := RadarData(p, metrics, chart);
    var radar := RadarMetrics(metrics);
    var rec := LatestRecord(p.measurements, metrics);
    forall k | 0 <= k < |r|
      ensures r[k].value <= r[k].fullMark
    {
      var v := AxisValue(radar[k], rec);
      if v.Some? {
        FullMarkBounds(History(chart, radar[k].name), v.value);
      }
    }
  }

  /** Every active radar metric gets an axis. */
  lemma RadarMetricsComplete(metrics: seq<Metric>, k: int)
    requires 0 <= k < |metrics| && metrics[k].isActive && metrics[k].showInRadar == Some(true)
    ensures metrics[k] in RadarMetrics(metrics)
  {
    var p := (m: Metric) => m.showInRadar == Some(true) && m.isActive;
    assert p(metrics[k]);
  }

  /** A survey-linked metric, even when shown in the radar, is drawn as 0 of 1. */
  lemma SurveyAxisIsEmpty(met: Metric, rec: Record, chart: seq<CombinedDataPoint>)
    requires met.inputType == Survey
    ensures Entry(met, rec, chart) == RadarEntry(met.name, 0.0, 0.0, 1.0)
  {
  }

  /** A measured manual metric's axis shows its latest value, provided no later
      manual metric of the same name has measurements. */
  lemma ManualAxisIsLatest(ms: seq<Measurement>, metrics: seq<Metric>, k: int)
    requires 0 <= k < |metrics| && Measured(ms, metrics[k])
    requires forall j :: k < j < |metrics| && metrics[j].name == metrics[k].name ==> !Measured(ms, metrics[j])
    ensures AxisValue(metrics[k], LatestRecord(ms, metrics)) == Latest.LatestValue(ms, metrics[k].id)
  {
    LatestRecordValue(ms, metrics, k);
  }
}
