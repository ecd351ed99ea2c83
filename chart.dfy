/** `chartData` of the player profile (pages/PlayerProfile.tsx): one record per
    calendar day, holding the values of that day by metric name.

    The source fills a `Map` from day to record in three passes: measurements
    of active manual metrics, then every daily survey (each creating its day's
    record) with the answers of the active survey-linked metrics, then every
    active calculated metric evaluated on each record in turn. The records are
    returned sorted by day.

    The specification describes a record through the writes made to it: the
    manual writes of that day in array order, then the survey writes of that
    day; the last write to a field wins. The calculated metrics then run over
    the record in registry order. */
module Chart {
  import opened Seqs
  import opened Types
  import Formula
  import Sorting

  type Record = map<string, Value>

  /** A write of one field. */
  datatype Write = Write(field: string, value: Value)

  /** The record after the writes `ws`, applied in order. */
  function Apply(rec: Record, ws: seq<Write>): Record
    decreases |ws|
  {
    if ws == [] then rec
    else Apply(rec, ws[..|ws| - 1])[ws[|ws| - 1].field := ws[|ws| - 1].value]
  }

  /** The value of the last write to `n`, if any. */
  function LastWrite(ws: seq<Write>, n: string): Option<Value>
    decreases |ws|
  {
    if ws == [] then None
    else if ws[|ws| - 1].field == n then Some(ws[|ws| - 1].value)
    else LastWrite(ws[..|ws| - 1], n)
  }

  /** A field holds its last write, or its old value when nothing writes it. */
  lemma {:induction false} ApplyField(rec: Record, ws: seq<Write>, n: string)
    ensures LastWrite(ws, n).Some? ==> n in Apply(rec, ws) && Apply(rec, ws)[n] == LastWrite(ws, n).value
    ensures LastWrite(ws, n).None? ==> (n in Apply(rec, ws) <==> n in rec)
    ensures LastWrite(ws, n).None? && n in rec ==> Apply(rec, ws)[n] == rec[n]
    decreases |ws|
  {
    if ws != [] {
      ApplyField(rec, ws[..|ws| - 1], n);
    }
  }

  lemma {:induction false} ApplyAppend(rec: Record, a: seq<Write>, b: seq<Write>)
    ensures Apply(rec, a + b) == Apply(Apply(rec, a), b)
    decreases |b|
  {
    if b == [] {
      assert a + b == a;
    } else {
      var b' := b[..|b| - 1];
      assert (a + b)[..|a + b| - 1] == a + b';
      ApplyAppend(rec, a, b');
    }
  }

  /** Later writes take precedence over earlier ones. */
  lemma {:induction false} LastWriteAppend(a: seq<Write>, b: seq<Write>, n: string)
    ensures LastWrite(a + b, n) == if LastWrite(b, n).Some? then LastWrite(b, n) else LastWrite(a, n)
    decreases |b|
  {
    if b == [] {
      assert a + b == a;
    } else {
      var b' := b[..|b| - 1];
      assert (a + b)[..|a + b| - 1] == a + b';
      LastWriteAppend(a, b', n);
    }
  }

  /** The last write to `n` is a write at some index after which nothing writes `n`. */
  lemma {:induction false} LastWriteIndex(ws: seq<Write>, n: string) returns (k: nat)
    requires LastWrite(ws, n).Some?
    ensures k < |ws| && ws[k] == Write(n, LastWrite(ws, n).value)
    ensures forall j :: k < j < |ws| ==> ws[j].field != n
    decreases |ws|
  {
    if ws[|ws| - 1].field == n {
      k := |ws| - 1;
    } else {
      k := LastWriteIndex(ws[..|ws| - 1], n);
    }
  }

  // ---------------------------------------------------------------------------
  // The three kinds of metric.

  function ManualMetrics(metrics: seq<Metric>): seq<Metric>
  {
    Filter(metrics, (m: Metric) => m.isActive && m.inputType == Manual)
  }

  function SurveyLinkedMetrics(metrics: seq<Metric>): seq<Metric>
  {
    Filter(metrics, (m: Metric) => m.isActive && m.inputType == Survey)
  }

  function CalculatedMetrics(metrics: seq<Metric>): seq<Metric>
  {
    Filter(metrics, (m: Metric) => m.isActive && m.inputType == Calculated)
  }

  /** `manualMetrics.find(met => met.id === m.metricId)` */
  function MetricOf(manual: seq<Metric>, m: Measurement): Option<Metric>
  {
    Find(manual, (met: Metric) => met.id == m.metricId)
  }

  /** Only measurements of active manual metrics contribute. */
  lemma ManualContribution(metrics: seq<Metric>, m: Measurement)
    ensures MetricOf(ManualMetrics(metrics), m).Some? <==>
            exists k :: 0 <= k < |metrics| && metrics[k].isActive && metrics[k].inputType == Manual &&
                        metrics[k].id == m.metricId
    ensures MetricOf(ManualMetrics(metrics), m).Some? ==>
            var met := MetricOf(ManualMetrics(metrics), m).value;
            met in metrics && met.isActive && met.inputType == Manual && met.id == m.metricId
  {
    var manual := ManualMetrics(metrics);
    var p := (m: Metric) => m.isActive && m.inputType == Manual;
    if k :| 0 <= k < |metrics| && metrics[k].isActive && metrics[k].inputType == Manual && metrics[k].id == m.metricId {
      assert p(metrics[k]);
      var j :| 0 <= j < |manual| && manual[j] == metrics[k];
      assert manual[j].id == m.metricId;
    }
    if MetricOf(manual, m).Some? {
      var met := MetricOf(manual, m).value;
      var j :| 0 <= j < |manual| && manual[j] == met && met.id == m.metricId;
      assert met in metrics && p(met);
      var k :| 0 <= k < |metrics| && metrics[k] == met;
    }
  }

  // ---------------------------------------------------------------------------
  // Writes of each pass, prefix by prefix.

  function MeasurementWrite(m: Measurement, manual: seq<Metric>, d: int): seq<Write>
  {
    match MetricOf(manual, m)
    case Some(met) => if DayOf(m.date) == d then [Write(met.name, Num(m.value))] else []
    case None => []
  }

  /** The manual writes to day `d`, in array order. */
  function MeasurementWrites(ms: seq<Measurement>, manual: seq<Metric>, d: int): seq<Write>
    decreases |ms|
  {
    if ms == [] then []
    else MeasurementWrites(ms[..|ms| - 1], manual, d) + MeasurementWrite(ms[|ms| - 1], manual, d)
  }

  /** The days of the contributing measurements, in array order. */
  function MeasurementDays(ms: seq<Measurement>, manual: seq<Metric>): seq<int>
    decreases |ms|
  {
    if ms == [] then []
    else
      var m := ms[|ms| - 1];
      MeasurementDays(ms[..|ms| - 1], manual) + (if MetricOf(manual, m).Some? then [DayOf(m.date)] else [])
  }

  /** The answers copied from one survey: a linked metric with a key the
      survey answered (with any value, `null` included). */
  function AnswerWrites(s: DailySurvey, linked: seq<Metric>): seq<Write>
    decreases |linked|
  {
    if linked == [] then []
    else
      var met := linked[|linked| - 1];
      AnswerWrites(s, linked[..|linked| - 1]) +
      (if Truthy(met.surveyQuestionKey) && met.surveyQuestionKey.value in s.answers
       then [Write(met.name, s.answers[met.surveyQuestionKey.value])] else [])
  }

  /** The survey writes to day `d`, in array order. */
  function SurveyWrites(ss: seq<DailySurvey>, linked: seq<Metric>, d: int): seq<Write>
    decreases |ss|
  {
    if ss == [] then []
    else
      var s := ss[|ss| - 1];
      SurveyWrites(ss[..|ss| - 1], linked, d) + (if DayOf(s.date) == d then AnswerWrites(s, linked) else [])
  }

  function SurveyDays(ss: seq<DailySurvey>): seq<int>
    decreases |ss|
  {
    if ss == [] then [] else SurveyDays(ss[..|ss| - 1]) + [DayOf(ss[|ss| - 1].date)]
  }

  /** All writes to day `d`: survey writes come after manual writes. */
  function Writes(p: Player, metrics: seq<Metric>, d: int): seq<Write>
  {
    MeasurementWrites(p.measurements, ManualMetrics(metrics), d) +
    SurveyWrites(p.dailySurveys, SurveyLinkedMetrics(metrics), d)
  }

  // ---------------------------------------------------------------------------
  // Calculated metrics.

  /** One calculated metric on a record: the field is set only when the
      formula is present and its value is not null. */
  function CalcStep(rec: Record, c: Metric): Record
  {
    if Truthy(c.formula) then
      match Formula.FormulaValue(c.formula.value, rec)
      case Some(v) => rec[c.name := Num(v)]
      case None => rec
    else rec
  }

  /** The calculated metrics in registry order, each seeing the results of the earlier ones. */
  function CalcAll(rec: Record, calcs: seq<Metric>): Record
    decreases |calcs|
  {
    if calcs == [] then rec else CalcAll(CalcStep(rec, calcs[0]), calcs[1..])
  }

  /** The record of day `d`. */
  function DayRecord(p: Player, metrics: seq<Metric>, d: int): Record
  {
    CalcAll(Apply(map[], Writes(p, metrics, d)), CalculatedMetrics(metrics))
  }

  // ---------------------------------------------------------------------------
  // Days and the result.

  /** The distinct elements of `s` in order of first occurrence (insertion
      order of a `Map`). */
  function Dedup(s: seq<int>): (r: seq<int>)
    ensures forall x :: x in r <==> x in s
    ensures forall i, j :: 0 <= i < j < |r| ==> r[i] != r[j]
    decreases |s|
  {
    if s == [] then []
    else
      var p := Dedup(s[..|s| - 1]);
      assert forall x :: x in s <==> x in s[..|s| - 1] || x == s[|s| - 1];
      if s[|s| - 1] in p then p else p + [s[|s| - 1]]
  }

  /** The days that get a record, in insertion order. */
  function ChartDays(p: Player, metrics: seq<Metric>): seq<int>
  {
    Dedup(MeasurementDays(p.measurements, ManualMetrics(metrics)) + SurveyDays(p.dailySurveys))
  }

  predicate ByDay(a: CombinedDataPoint, b: CombinedDataPoint)
  {
    a.day <= b.day
  }

  function Points(p: Player, metrics: seq<Metric>, days: seq<int>): seq<CombinedDataPoint>
  {
    seq(|days|, k requires 0 <= k < |days| => Point(days[k], DayRecord(p, metrics, days[k])))
  }

  /** The value of `chartData`: one record per collected day, each holding
      the values of its own day. */
  function ChartData(p: Player, metrics: seq<Metric>): (r: seq<CombinedDataPoint>)
    ensures metrics == [] ==> r == []
    ensures metrics != [] ==> |r| == |ChartDays(p, metrics)|
    ensures forall i :: 0 <= i < |r| ==> r[i].day in ChartDays(p, metrics) &&
                                         r[i].values == DayRecord(p, metrics, r[i].day)
  {
    if metrics == [] then []
    else
      var days := ChartDays(p, metrics);
      var r := Sorting.Sort(Points(p, metrics, days), ByDay);
      SortedPoints(p, metrics, days, r);
      r
  }

  lemma SortedPoints(p: Player, metrics: seq<Metric>, days: seq<int>, r: seq<CombinedDataPoint>)
    requires r == Sorting.Sort(Points(p, metrics, days), ByDay)
    ensures |r| == |days|
    ensures forall i :: 0 <= i < |r| ==> r[i].day in days && r[i].values == DayRecord(p, metrics, r[i].day)
  {
    var pts := Points(p, metrics, days);
    forall i | 0 <= i < |r|
      ensures r[i].day in days && r[i].values == DayRecord(p, metrics, r[i].day)
    {
      assert r[i] in multiset(pts);
      var k :| 0 <= k < |pts| && pts[k] == r[i];
      assert pts[k] == Point(days[k], DayRecord(p, metrics, days[k]));
    }
  }

  lemma DedupSnoc(s: seq<int>, x: int)
    ensures Dedup(s + [x]) == if x in Dedup(s) then Dedup(s) else Dedup(s) + [x]
  {
    assert (s + [x])[..|s|] == s;
  }

  lemma MeasurementStep(ms: seq<Measurement>, manual: seq<Metric>, i: int, d: int)
    requires 0 <= i < |ms|
    ensures MeasurementWrites(ms[..i + 1], manual, d) == MeasurementWrites(ms[..i], manual, d) + MeasurementWrite(ms[i], manual, d)
  {
    assert ms[..i + 1][..i] == ms[..i];
  }

  lemma MeasurementDaysStep(ms: seq<Measurement>, manual: seq<Metric>, i: int)
    requires 0 <= i < |ms|
    ensures MeasurementDays(ms[..i + 1], manual) ==
            MeasurementDays(ms[..i], manual) + (if MetricOf(manual, ms[i]).Some? then [DayOf(ms[i].date)] else [])
  {
    assert ms[..i + 1][..i] == ms[..i];
  }

  lemma SurveyStep(ss: seq<DailySurvey>, linked: seq<Metric>, j: int, d: int)
    requires 0 <= j < |ss|
    ensures SurveyWrites(ss[..j + 1], linked, d) ==
            SurveyWrites(ss[..j], linked, d) + (if DayOf(ss[j].date) == d then AnswerWrites(ss[j], linked) else [])
    ensures SurveyDays(ss[..j + 1]) == SurveyDays(ss[..j]) + [DayOf(ss[j].date)]
  {
    assert ss[..j + 1][..j] == ss[..j];
  }

  function Get(records: map<int, Record>, d: int): Record
  {
    if d in records then records[d] else map[]
  }

  /** Every day's record holds exactly the manual writes of `ms` to that day. */
  ghost predicate ManualRecords(records: map<int, Record>, ms: seq<Measurement>, manual: seq<Metric>)
  {
    forall d {:trigger Get(records, d)} :: Get(records, d) == Apply(map[], MeasurementWrites(ms, manual, d))
  }

  /** The state after the first pass over `ms`. */
  ghost predicate Pass1(records: map<int, Record>, order: seq<int>, ms: seq<Measurement>, manual: seq<Metric>)
  {
    order == Dedup(MeasurementDays(ms, manual)) &&
    (forall d :: d in records <==> d in order) &&
    ManualRecords(records, ms, manual)
  }

  /** The first pass: every measurement of an active manual metric writes its
      value under the metric's name into its day's record, creating it. */
  method CollectMeasurements(ms: seq<Measurement>, manual: seq<Metric>)
    returns (records: map<int, Record>, order: seq<int>)
    ensures order == Dedup(MeasurementDays(ms, manual))
    ensures forall d :: d in records <==> d in order
    ensures ManualRecords(records, ms, manual)
  {
    records, order := map[], [];
    var i := 0;
    assert ms[..0] == [];
    while i < |ms|
      invariant 0 <= i <= |ms|
      invariant Pass1(records, order, ms[..i], manual)
    {
      var m := ms[i];
      var metric := MetricOf(manual, m);
      Pass1Step(records, order, ms, manual, i);
      if metric.Some? {
        var d := DayOf(m.date);
        if d !in records {
          order := order + [d];
        }
        records := records[d := Get(records, d)[metric.value.name := Num(m.value)]];
      }
      i := i + 1;
    }
    assert ms[..i] == ms;
  }

  lemma Pass1Step(records: map<int, Record>, order: seq<int>, ms: seq<Measurement>, manual: seq<Metric>, i: int)
    requires 0 <= i < |ms| && Pass1(records, order, ms[..i], manual)
    ensures MetricOf(manual, ms[i]).None? ==> Pass1(records, order, ms[..i + 1], manual)
    ensures MetricOf(manual, ms[i]).Some? ==>
            var d := DayOf(ms[i].date);
            Pass1(records[d := Get(records, d)[MetricOf(manual, ms[i]).value.name := Num(ms[i].value)]],
                  if d in records then order else order + [d], ms[..i + 1], manual)
  {
    if MetricOf(manual, ms[i]).Some? {
      Pass1Write(records, order, ms, manual, i);
    } else {
      Pass1Skip(records, order, ms, manual, i);
    }
  }

  /** A measurement of an active manual metric writes into its day's record. */
  lemma Pass1Write(records: map<int, Record>, order: seq<int>, ms: seq<Measurement>, manual: seq<Metric>, i: int)
    requires 0 <= i < |ms| && Pass1(records, order, ms[..i], manual) && MetricOf(manual, ms[i]).Some?
    ensures var d := DayOf(ms[i].date);
            Pass1(records[d := Get(records, d)[MetricOf(manual, ms[i]).value.name := Num(ms[i].value)]],
                  if d in records then order else order + [d], ms[..i + 1], manual)
  {
    var d := DayOf(ms[i].date);
    var rec2 := records[d := Get(records, d)[MetricOf(manual, ms[i]).value.name := Num(ms[i].value)]];
    var ord2 := if d in records then order else order + [d];
    Pass1WriteOrder(records, order, ms, manual, i);
    MeasurementRecordStep(records, ms, manual, i);
    assert forall e :: e in rec2 <==> e in records || e == d;
    assert ord2 == Dedup(MeasurementDays(ms[..i + 1], manual));
    assert forall e :: e in rec2 <==> e in ord2;
    assert ManualRecords(rec2, ms[..i + 1], manual);
    assert Pass1(rec2, ord2, ms[..i + 1], manual);
  }

  lemma Pass1WriteOrder(records: map<int, Record>, order: seq<int>, ms: seq<Measurement>, manual: seq<Metric>, i: int)
    requires 0 <= i < |ms| && MetricOf(manual, ms[i]).Some?
    requires order == Dedup(MeasurementDays(ms[..i], manual))
    requires forall e :: e in records <==> e in order
    ensures var d := DayOf(ms[i].date);
            var ord2 := if d in records then order else order + [d];
            ord2 == Dedup(MeasurementDays(ms[..i + 1], manual)) &&
            forall e :: e in records || e == d <==> e in ord2
  {
    MeasurementDaysStep(ms, manual, i);
    OrderStep(records, order, MeasurementDays(ms[..i], manual), DayOf(ms[i].date));
  }

  /** Any other measurement leaves the records and the order as they are. */
  lemma Pass1Skip(records: map<int, Record>, order: seq<int>, ms: seq<Measurement>, manual: seq<Metric>, i: int)
    requires 0 <= i < |ms| && Pass1(records, order, ms[..i], manual) && MetricOf(manual, ms[i]).None?
    ensures Pass1(records, order, ms[..i + 1], manual)
  {
    var days := MeasurementDays(ms[..i], manual);
    MeasurementDaysStep(ms, manual, i);
    MeasurementRecordStep(records, ms, manual, i);
    assert MeasurementDays(ms[..i + 1], manual) == days + [] == days;
  }

  /** A day joins the insertion order when its record is created. */
  lemma OrderStep(records: map<int, Record>, order: seq<int>, days: seq<int>, d: int)
    requires order == Dedup(days)
    requires forall e :: e in records <==> e in order
    ensures (if d in records then order else order + [d]) == Dedup(days + [d])
    ensures forall e :: e in records || e == d <==> e in (if d in records then order else order + [d])
  {
    DedupSnoc(days, d);
  }

  lemma MeasurementRecordStep(before: map<int, Record>, ms: seq<Measurement>, manual: seq<Metric>, i: int)
    requires 0 <= i < |ms|
    requires ManualRecords(before, ms[..i], manual)
    ensures MetricOf(manual, ms[i]).None? ==> ManualRecords(before, ms[..i + 1], manual)
    ensures MetricOf(manual, ms[i]).Some? ==>
            var d := DayOf(ms[i].date);
            ManualRecords(before[d := Get(before, d)[MetricOf(manual, ms[i]).value.name := Num(ms[i].value)]],
                          ms[..i + 1], manual)
  {
    var d := DayOf(ms[i].date);
    forall e
      ensures Apply(map[], MeasurementWrites(ms[..i + 1], manual, e)) ==
              Apply(Get(before, e), MeasurementWrite(ms[i], manual, e))
    {
      MeasurementStep(ms, manual, i, e);
      ApplyAppend(map[], MeasurementWrites(ms[..i], manual, e), MeasurementWrite(ms[i], manual, e));
    }
    if MetricOf(manual, ms[i]).Some? {
      var met := MetricOf(manual, ms[i]).value;
      var after := before[d := Get(before, d)[met.name := Num(ms[i].value)]];
      forall e
        ensures Get(after, e) == Apply(Get(before, e), MeasurementWrite(ms[i], manual, e))
      {
        if e == d {
          var w := [Write(met.name, Num(ms[i].value))];
          assert MeasurementWrite(ms[i], manual, e) == w;
          assert w[..0] == [];
          assert Apply(Get(before, e), w) == Get(before, e)[met.name := Num(ms[i].value)];
        } else {
          assert MeasurementWrite(ms[i], manual, e) == [];
        }
      }
    } else {
      forall e
        ensures MeasurementWrite(ms[i], manual, e) == []
      {
      }
    }
  }

  /** The answers of one survey copied into a record. */
  method CopyAnswers(point: Record, s: DailySurvey, linked: seq<Metric>) returns (r: Record)
    ensures r == Apply(point, AnswerWrites(s, linked))
  {
    r := point;
    var k := 0;
    while k < |linked|
      invariant 0 <= k <= |linked|
      invariant r == Apply(point, AnswerWrites(s, linked[..k]))
    {
      var met := linked[k];
      assert linked[..k + 1][..k] == linked[..k];
      assert linked[..k + 1][k] == met;
      ghost var tail := if Truthy(met.surveyQuestionKey) && met.surveyQuestionKey.value in s.answers
                        then [Write(met.name, s.answers[met.surveyQuestionKey.value])] else [];
      ApplyAppend(point, AnswerWrites(s, linked[..k]), tail);
      if Truthy(met.surveyQuestionKey) && met.surveyQuestionKey.value in s.answers {
        assert tail[..0] == [];
        r := r[met.name := s.answers[met.surveyQuestionKey.value]];
      }
      k := k + 1;
    }
    assert linked[..k] == linked;
  }

  lemma SurveyRecordStep(records0: map<int, Record>, before: map<int, Record>, ss: seq<DailySurvey>,
                         linked: seq<Metric>, j: int, point: Record)
    requires 0 <= j < |ss|
    requires forall e :: Get(before, e) == Apply(Get(records0, e), SurveyWrites(ss[..j], linked, e))
    requires point == Apply(Get(before, DayOf(ss[j].date)), AnswerWrites(ss[j], linked))
    ensures forall e :: Get(before[DayOf(ss[j].date) := point], e) ==
                        Apply(Get(records0, e), SurveyWrites(ss[..j + 1], linked, e))
  {
    var d := DayOf(ss[j].date);
    forall e
      ensures Get(before[d := point], e) == Apply(Get(records0, e), SurveyWrites(ss[..j + 1], linked, e))
    {
      SurveyStep(ss, linked, j, e);
      if e == d {
        ApplyAppend(Get(records0, e), SurveyWrites(ss[..j], linked, e), AnswerWrites(ss[j], linked));
      } else {
        assert SurveyWrites(ss[..j], linked, e) + [] == SurveyWrites(ss[..j], linked, e);
      }
    }
  }

  /** The second pass: every survey creates its day's record if needed and
      copies the answers of the linked metrics into it. */
  method CollectSurveys(records0: map<int, Record>, order0: seq<int>, ghost days0: seq<int>,
                        ss: seq<DailySurvey>, linked: seq<Metric>)
    returns (records: map<int, Record>, order: seq<int>)
    requires order0 == Dedup(days0)
    requires forall d :: d in records0 <==> d in order0
    ensures order == Dedup(days0 + SurveyDays(ss))
    ensures forall d :: d in records <==> d in order
    ensures forall d :: Get(records, d) == Apply(Get(records0, d), SurveyWrites(ss, linked, d))
  {
    records, order := records0, order0;
    var j := 0;
    assert days0 + SurveyDays(ss[..0]) == days0;
    while j < |ss|
      invariant 0 <= j <= |ss|
      invariant order == Dedup(days0 + SurveyDays(ss[..j]))
      invariant forall d :: d in records <==> d in order
      invariant forall d :: Get(records, d) == Apply(Get(records0, d), SurveyWrites(ss[..j], linked, d))
    {
      var s := ss[j];
      var d := DayOf(s.date);
      SurveyStep(ss, linked, j, d);
      assert days0 + SurveyDays(ss[..j + 1]) == (days0 + SurveyDays(ss[..j])) + [d];
      DedupSnoc(days0 + SurveyDays(ss[..j]), d);
      if d !in records {
        order := order + [d];
      }
      var point := CopyAnswers(Get(records, d), s, linked);
      SurveyRecordStep(records0, records, ss, linked, j, point);
      records := records[d := point];
      j := j + 1;
    }
    assert ss[..j] == ss;
  }

  /** The calculated metrics run over one record in registry order. */
  method ApplyCalculated(point: Record, calcs: seq<Metric>) returns (r: Record)
    ensures r == CalcAll(point, calcs)
  {
    r := point;
    var c := 0;
    while c < |calcs|
      invariant 0 <= c <= |calcs|
      invariant CalcAll(r, calcs[c..]) == CalcAll(point, calcs)
    {
      var cm := calcs[c];
      assert calcs[c..][1..] == calcs[c + 1..];
      if Truthy(cm.formula) {
        var result := Formula.EvaluateFormula(cm.formula.value, r);
        if result.Some? {
          r := r[cm.name := Num(result.value)];
        }
      }
      c := c + 1;
    }
  }

  /** The third pass, over every record. */
  method CalculateAll(records0: map<int, Record>, order: seq<int>, calcs: seq<Metric>)
    returns (records: map<int, Record>)
    requires forall d :: d in records0 <==> d in order
    requires forall i, j :: 0 <= i < j < |order| ==> order[i] != order[j]
    ensures forall d :: d in records <==> d in order
    ensures forall d :: d in order ==> records[d] == CalcAll(records0[d], calcs)
  {
    records := records0;
    var t := 0;
    while t < |order|
      invariant 0 <= t <= |order|
      invariant forall d :: d in records <==> d in order
      invariant forall k :: 0 <= k < |order| ==> order[k] in records0 && order[k] in records
      invariant forall k :: 0 <= k < t ==> records[order[k]] == CalcAll(records0[order[k]], calcs)
      invariant forall k :: t <= k < |order| ==> records[order[k]] == records0[order[k]]
    {
      var d := order[t];
      var point := ApplyCalculated(records[d], calcs);
      records := records[d := point];
      t := t + 1;
    }
    forall d | d in order
      ensures records[d] == CalcAll(records0[d], calcs)
    {
      var k :| 0 <= k < |order| && order[k] == d;
    }
  }

  /** `chartData`: the three passes over a `Map` from day to record, then the sort. */
  method BuildChartData(p: Player, metrics: seq<Metric>) returns (r: seq<CombinedDataPoint>)
    ensures r == ChartData(p, metrics)
  {
    if metrics == [] {
      return [];
    }
    var manual := ManualMetrics(metrics);
    var linked := SurveyLinkedMetrics(metrics);
    var records1, order1 := CollectMeasurements(p.measurements, manual);
    var records2, order := CollectSurveys(records1, order1, MeasurementDays(p.measurements, manual),
                                          p.dailySurveys, linked);
    AllWrites(p, metrics, records1, records2);
    var records := CalculateAll(records2, order, CalculatedMetrics(metrics));
    InOrder(records, order);
    var points := seq(|order|, k requires 0 <= k < |order| => Point(order[k], records[order[k]]));
    CollectedPoints(p, metrics, records2, records, order, points);
    r := Sorting.Sort(points, ByDay);
  }

  /** After the first two passes, each day's record holds all the writes of that day. */
  lemma AllWrites(p: Player, metrics: seq<Metric>, records1: map<int, Record>, records2: map<int, Record>)
    requires ManualRecords(records1, p.measurements, ManualMetrics(metrics))
    requires forall d :: Get(records2, d) ==
                         Apply(Get(records1, d), SurveyWrites(p.dailySurveys, SurveyLinkedMetrics(metrics), d))
    ensures forall d :: Get(records2, d) == Apply(map[], Writes(p, metrics, d))
  {
    forall d
      ensures Get(records2, d) == Apply(map[], Writes(p, metrics, d))
    {
      assert Get(records1, d) == Apply(map[], MeasurementWrites(p.measurements, ManualMetrics(metrics), d));
      ApplyAppend(map[], MeasurementWrites(p.measurements, ManualMetrics(metrics), d),
                  SurveyWrites(p.dailySurveys, SurveyLinkedMetrics(metrics), d));
    }
  }

  lemma InOrder(records: map<int, Record>, order: seq<int>)
    requires forall d :: d in records <==> d in order
    ensures forall k :: 0 <= k < |order| ==> order[k] in records
  {
    forall k | 0 <= k < |order|
      ensures order[k] in records
    {
      var d := order[k];
      assert d in order;
      assert d in records;
    }
  }

  /** The records of the third pass, listed in insertion order, are the chart's points. */
  lemma CollectedPoints(p: Player, metrics: seq<Metric>, records2: map<int, Record>, records: map<int, Record>,
                        order: seq<int>, points: seq<CombinedDataPoint>)
    requires order == ChartDays(p, metrics)
    requires forall d :: Get(records2, d) == Apply(map[], Writes(p, metrics, d))
    requires forall d :: d in records2 <==> d in order
    requires forall d :: d in records <==> d in order
    requires forall d :: d in order ==> records[d] == CalcAll(records2[d], CalculatedMetrics(metrics))
    requires |points| == |order|
    requires forall k :: 0 <= k < |order| ==> order[k] in records && points[k] == Point(order[k], records[order[k]])
    ensures points == Points(p, metrics, order)
  {
    forall k | 0 <= k < |order|
      ensures points[k] == Points(p, metrics, order)[k]
    {
      var d := order[k];
      assert d in order && d in records2;
      assert Get(records2, d) == records2[d];
    }
  }

  // ---------------------------------------------------------------------------
  // Properties.

  lemma ByDayPreorder()
    ensures Sorting.TotalPreorder(ByDay)
  {
  }

  lemma {:induction false} MultisetCount<T>(s: seq<T>, i: int, j: int)
    requires 0 <= i < j < |s| && s[i] == s[j]
    ensures multiset(s)[s[i]] >= 2
  {
    assert s == s[..j] + [s[j]] + s[j + 1..];
    assert s[i] in s[..j];
  }

  lemma {:induction false} MultisetUnique<T>(s: seq<T>, i: int, j: int)
    requires 0 <= i < |s| && 0 <= j < |s| && i != j && s[i] == s[j]
    ensures multiset(s)[s[i]] >= 2
  {
    if i < j { MultisetCount(s, i, j); } else { MultisetCount(s, j, i); }
  }

  /** The output is strictly ascending by day: sorted, and one record per day. */
  lemma ChartAscending(p: Player, metrics: seq<Metric>)
    ensures forall i, j :: 0 <= i < j < |ChartData(p, metrics)| ==>
              ChartData(p, metrics)[i].day < ChartData(p, metrics)[j].day
  {
    if metrics != [] {
      var days := ChartDays(p, metrics);
      var pts := Points(p, metrics, days);
      assert forall k :: 0 <= k < |pts| ==> pts[k].day == days[k];
      ByDayPreorder();
      Sorting.SortSorted(pts, ByDay);
      DistinctDaysAscending(pts, Sorting.Sort(pts, ByDay));
    }
  }

  /** A sorted permutation of points with distinct days is strictly ascending. */
  lemma DistinctDaysAscending(pts: seq<CombinedDataPoint>, r: seq<CombinedDataPoint>)
    requires multiset(r) == multiset(pts) && Sorting.Sorted(r, ByDay)
    requires forall i, j :: 0 <= i < j < |pts| ==> pts[i].day != pts[j].day
    ensures forall i, j :: 0 <= i < j < |r| ==> r[i].day < r[j].day
  {
    forall i, j | 0 <= i < j < |r|
      ensures r[i].day < r[j].day
    {
      assert ByDay(r[i], r[j]);
      if r[i].day == r[j].day {
        assert r[i] in multiset(pts) && r[j] in multiset(pts);
        var a :| 0 <= a < |pts| && pts[a] == r[i];
        var b :| 0 <= b < |pts| && pts[b] == r[j];
        assert a == b;
        MultisetCount(r, i, j);
        PointsUnique(pts, a);
      }
    }
  }

  /** A point of distinct days occurs once. */
  lemma PointsUnique(pts: seq<CombinedDataPoint>, a: int)
    requires 0 <= a < |pts|
    requires forall i, j :: 0 <= i < j < |pts| ==> pts[i].day != pts[j].day
    ensures multiset(pts)[pts[a]] <= 1
  {
    var rest := pts[..a] + pts[a + 1..];
    assert pts == pts[..a] + [pts[a]] + pts[a + 1..];
    forall k | 0 <= k < |rest|
      ensures rest[k] != pts[a]
    {
      if k < a {
        assert rest[k] == pts[k];
      } else {
        assert rest[k] == pts[k + 1];
      }
    }
    assert pts[a] !in multiset(rest);
    assert multiset(pts) == multiset(rest) + multiset{pts[a]};
  }

  /** A measurement that writes to day `d`. */
  predicate Contributes(manual: seq<Metric>, m: Measurement, d: int)
  {
    MetricOf(manual, m).Some? && DayOf(m.date) == d
  }

  lemma {:induction false} MeasurementDaysMembers(ms: seq<Measurement>, manual: seq<Metric>, d: int)
    ensures d in MeasurementDays(ms, manual) <==> exists i :: 0 <= i < |ms| && Contributes(manual, ms[i], d)
    decreases |ms|
  {
    if ms != [] {
      var init, m := ms[..|ms| - 1], ms[|ms| - 1];
      MeasurementDaysMembers(init, manual, d);
      assert forall i :: 0 <= i < |init| ==> init[i] == ms[i];
      assert d in MeasurementDays(ms, manual) <==> d in MeasurementDays(init, manual) || Contributes(manual, m, d);
    }
  }

  lemma {:induction false} SurveyDaysMembers(ss: seq<DailySurvey>, d: int)
    ensures d in SurveyDays(ss) <==> exists i :: 0 <= i < |ss| && DayOf(ss[i].date) == d
    decreases |ss|
  {
    if ss != [] {
      var init := ss[..|ss| - 1];
      SurveyDaysMembers(init, d);
      if exists i :: 0 <= i < |init| && DayOf(init[i].date) == d {
        var i :| 0 <= i < |init| && DayOf(init[i].date) == d;
        assert ss[i] == init[i];
      }
      if exists i :: 0 <= i < |ss| && DayOf(ss[i].date) == d {
        var i :| 0 <= i < |ss| && DayOf(ss[i].date) == d;
        if i < |init| {
          assert init[i] == ss[i];
        }
      }
    }
  }

  /** Exactly the days of contributing measurements and of all surveys get a
      record; a survey day gets one even when no linked metric matches. */
  lemma ChartDaysExact(p: Player, metrics: seq<Metric>, d: int)
    requires metrics != []
    ensures (exists i :: 0 <= i < |ChartData(p, metrics)| && ChartData(p, metrics)[i].day == d) <==>
            (exists i :: 0 <= i < |p.measurements| && Contributes(ManualMetrics(metrics), p.measurements[i], d)) ||
            (exists i :: 0 <= i < |p.dailySurveys| && DayOf(p.dailySurveys[i].date) == d)
  {
    var r := ChartData(p, metrics);
    MeasurementDaysMembers(p.measurements, ManualMetrics(metrics), d);
    SurveyDaysMembers(p.dailySurveys, d);
    if exists i :: 0 <= i < |r| && r[i].day == d {
      var i :| 0 <= i < |r| && r[i].day == d;
      RecordDayCollected(p, metrics, i);
    }
    if d in ChartDays(p, metrics) {
      CollectedDayRecorded(p, metrics, d);
    }
  }

  lemma RecordDayCollected(p: Player, metrics: seq<Metric>, i: int)
    requires metrics != [] && 0 <= i < |ChartData(p, metrics)|
    ensures ChartData(p, metrics)[i].day in ChartDays(p, metrics)
  {
    var days := ChartDays(p, metrics);
    var pts := Points(p, metrics, days);
    var r := ChartData(p, metrics);
    assert r[i] in multiset(pts);
    var a :| 0 <= a < |pts| && pts[a] == r[i];
    assert days[a] in days;
  }

  lemma CollectedDayRecorded(p: Player, metrics: seq<Metric>, d: int)
    requires metrics != [] && d in ChartDays(p, metrics)
    ensures exists i :: 0 <= i < |ChartData(p, metrics)| && ChartData(p, metrics)[i].day == d
  {
    var days := ChartDays(p, metrics);
    var pts := Points(p, metrics, days);
    var r := ChartData(p, metrics);
    var a :| 0 <= a < |days| && days[a] == d;
    assert pts[a] in multiset(r);
    var i :| 0 <= i < |r| && r[i] == pts[a];
  }

  /** Each output record holds the specified fields of its day. */
  lemma ChartRecord(p: Player, metrics: seq<Metric>, i: int)
    requires 0 <= i < |ChartData(p, metrics)|
    ensures ChartData(p, metrics)[i].values == DayRecord(p, metrics, ChartData(p, metrics)[i].day)
  {
    var days := ChartDays(p, metrics);
    var pts := Points(p, metrics, days);
    var r := ChartData(p, metrics);
    assert r[i] in multiset(pts);
    var a :| 0 <= a < |pts| && pts[a] == r[i];
  }

  /** Before the calculated metrics run, a field holds the last survey answer
      written to it that day if there is one, else the last manual
      measurement written to it that day. */
  lemma SurveyOverridesManual(p: Player, metrics: seq<Metric>, d: int, n: string)
    ensures var mw := LastWrite(MeasurementWrites(p.measurements, ManualMetrics(metrics), d), n);
            var sw := LastWrite(SurveyWrites(p.dailySurveys, SurveyLinkedMetrics(metrics), d), n);
            var rec := Apply(map[], Writes(p, metrics, d));
            (sw.Some? ==> n in rec && rec[n] == sw.value) &&
            (sw.None? && mw.Some? ==> n in rec && rec[n] == mw.value) &&
            (sw.None? && mw.None? ==> n !in rec)
  {
    var a := MeasurementWrites(p.measurements, ManualMetrics(metrics), d);
    var b := SurveyWrites(p.dailySurveys, SurveyLinkedMetrics(metrics), d);
    LastWriteAppend(a, b, n);
    ApplyField(map[], a + b, n);
  }

  /** Among the measurements of day `d`, the one latest in array order wins. */
  lemma {:induction false} LastMeasurementWins(ms: seq<Measurement>, manual: seq<Metric>, d: int, k: int)
    requires 0 <= k < |ms| && MetricOf(manual, ms[k]).Some? && DayOf(ms[k].date) == d
    requires forall j :: k < j < |ms| && DayOf(ms[j].date) == d && MetricOf(manual, ms[j]).Some? ==>
               MetricOf(manual, ms[j]).value.name != MetricOf(manual, ms[k]).value.name
    ensures LastWrite(MeasurementWrites(ms, manual, d), MetricOf(manual, ms[k]).value.name) == Some(Num(ms[k].value))
    decreases |ms|
  {
    var n := MetricOf(manual, ms[k]).value.name;
    var init := ms[..|ms| - 1];
    LastWriteAppend(MeasurementWrites(init, manual, d), MeasurementWrite(ms[|ms| - 1], manual, d), n);
    if k < |ms| - 1 {
      LastMeasurementWins(init, manual, d, k);
    }
  }

  /** A survey write copies an answer that is present in that day's survey
      (an answer that is `undefined` is never copied). */
  lemma {:induction false} SurveyWriteSource(ss: seq<DailySurvey>, linked: seq<Metric>, d: int, n: string)
    requires LastWrite(SurveyWrites(ss, linked, d), n).Some?
    ensures exists j, k :: 0 <= j < |ss| && 0 <= k < |linked| && DayOf(ss[j].date) == d &&
              linked[k].name == n && Truthy(linked[k].surveyQuestionKey) &&
              linked[k].surveyQuestionKey.value in ss[j].answers &&
              ss[j].answers[linked[k].surveyQuestionKey.value] == LastWrite(SurveyWrites(ss, linked, d), n).value
    decreases |ss|
  {
    var init, s := ss[..|ss| - 1], ss[|ss| - 1];
    var tail := if DayOf(s.date) == d then AnswerWrites(s, linked) else [];
    LastWriteAppend(SurveyWrites(init, linked, d), tail, n);
    if LastWrite(tail, n).Some? {
      var k := AnswerWriteSource(s, linked, n);
      assert ss[|ss| - 1] == s;
    } else {
      SurveyWriteSource(init, linked, d, n);
      var j, k :| 0 <= j < |init| && 0 <= k < |linked| && DayOf(init[j].date) == d &&
                  linked[k].name == n && Truthy(linked[k].surveyQuestionKey) &&
                  linked[k].surveyQuestionKey.value in init[j].answers &&
                  init[j].answers[linked[k].surveyQuestionKey.value] == LastWrite(SurveyWrites(ss, linked, d), n).value;
      assert ss[j] == init[j];
    }
  }

  lemma {:induction false} AnswerWriteSource(s: DailySurvey, linked: seq<Metric>, n: string) returns (k: nat)
    requires LastWrite(AnswerWrites(s, linked), n).Some?
    ensures k < |linked| && linked[k].name == n && Truthy(linked[k].surveyQuestionKey) &&
            linked[k].surveyQuestionKey.value in s.answers &&
            s.answers[linked[k].surveyQuestionKey.value] == LastWrite(AnswerWrites(s, linked), n).value
    decreases |linked|
  {
    var init, met := linked[..|linked| - 1], linked[|linked| - 1];
    var tail := if Truthy(met.surveyQuestionKey) && met.surveyQuestionKey.value in s.answers
                then [Write(met.name, s.answers[met.surveyQuestionKey.value])] else [];
    LastWriteAppend(AnswerWrites(s, init), tail, n);
    if LastWrite(tail, n).Some? {
      k := |linked| - 1;
    } else {
      k := AnswerWriteSource(s, init, n);
    }
  }

  /** Calculated metrics touch only their own fields and never remove one. */
  lemma {:induction false} CalcAllFrame(rec: Record, calcs: seq<Metric>, n: string)
    requires forall k :: 0 <= k < |calcs| ==> calcs[k].name != n
    ensures n in CalcAll(rec, calcs) <==> n in rec
    ensures n in rec ==> CalcAll(rec, calcs)[n] == rec[n]
    decreases |calcs|
  {
    if calcs != [] {
      CalcAllFrame(CalcStep(rec, calcs[0]), calcs[1..], n);
    }
  }

  lemma {:induction false} CalcAllKeeps(rec: Record, calcs: seq<Metric>)
    ensures rec.Keys <= CalcAll(rec, calcs).Keys
    decreases |calcs|
  {
    if calcs != [] {
      CalcAllKeeps(CalcStep(rec, calcs[0]), calcs[1..]);
    }
  }

  /** A later formula sees an earlier calculated result: when the first
      calculated metric yields `v`, the second is evaluated on the record that
      already holds `v` under the first one's name. */
  lemma LaterFormulaSeesEarlier(rec: Record, c1: Metric, c2: Metric, v: real)
    requires Truthy(c1.formula) && Formula.FormulaValue(c1.formula.value, rec) == Some(v)
    ensures CalcAll(rec, [c1, c2]) == CalcStep(rec[c1.name := Num(v)], c2)
  {
    var rec1 := rec[c1.name := Num(v)];
    assert CalcStep(rec, c1) == rec1;
    assert [c1, c2][1..] == [c2];
    assert CalcAll(rec, [c1, c2]) == CalcAll(rec1, [c2]);
    assert [c2][1..] == [];
    assert CalcAll(rec1, [c2]) == CalcAll(CalcStep(rec1, c2), []);
  }

  /** A formula whose value is null leaves its field as it was. */
  lemma NullFormulaLeavesField(rec: Record, c: Metric)
    requires Truthy(c.formula) && Formula.FormulaValue(c.formula.value, rec).None?
    ensures CalcStep(rec, c) == rec
  {
  }
}
