/** The smaller computations of the player profile (pages/PlayerProfile.tsx):
    the summary card (`latestStats`: height, weight, body fat and age), the
    add-measurement form (default texts, edits and the submitted list), and
    the metrics offered to the line chart. */
module Profile {
  import opened Seqs
  import opened Types
  import Text
  import Dates
  import Latest

  /** The metric's lower-cased name contains `t`. */
  predicate NameHas(m: Metric, t: string)
  {
    Text.Contains(Text.ToLower(m.name), t)
  }

  function HeightMetric(metrics: seq<Metric>): Option<Metric>
  {
    Find(metrics, (m: Metric) => NameHas(m, "boy") || NameHas(m, "height"))
  }

  function WeightMetric(metrics: seq<Metric>): Option<Metric>
  {
    Find(metrics, (m: Metric) => NameHas(m, "kilo") || NameHas(m, "weight"))
  }

  const ExactFatNames: seq<string> := ["yağ oranı", "fat percentage", "body fat percentage", "yağ", "fat"]

  const PartialFatNames: seq<string> :=
    ["yağ", "fat", "body fat", "bf", "oran", "bodyfat", "yağ oranı", "fat percentage", "body fat percentage"]

  predicate ExactFat(m: Metric)
  {
    Text.ToLower(m.name) in ExactFatNames
  }

  predicate PartialFat(m: Metric)
  {
    Any(PartialFatNames, (t: string) => NameHas(m, t))
  }

  /** An exact match first, else a partial one; either way a metric whose
      name holds one of the partial words, and none only when no name does. */
  function FatMetric(metrics: seq<Metric>): (r: Option<Metric>)
    ensures r.Some? ==> r.value in metrics && PartialFat(r.value)
    ensures r.None? <==> forall k :: 0 <= k < |metrics| ==> !PartialFat(metrics[k])
  {
    ExactArePartial();
    var exact := Find(metrics, ExactFat);
    if exact.Some? then exact else Find(metrics, PartialFat)
  }

  /** Every exact name contains "yağ" or "fat", so an exact match is also a partial one. */
  lemma ExactIsPartial(m: Metric)
    requires ExactFat(m)
    ensures PartialFat(m)
  {
    var n := Text.ToLower(m.name);
    if n == "yağ oranı" || n == "yağ" {
      assert n[0..3] == "yağ";
      PartialWordAt(m, 0, 0);
    } else if n == "fat" || n == "fat percentage" {
      assert n[0..3] == "fat";
      PartialWordAt(m, 1, 0);
    } else {
      assert n == "body fat percentage";
      assert n[5..8] == "fat";
      PartialWordAt(m, 1, 5);
    }
  }

  lemma ExactArePartial()
    ensures forall m :: ExactFat(m) ==> PartialFat(m)
  {
    forall m | ExactFat(m)
      ensures PartialFat(m)
    {
      ExactIsPartial(m);
    }
  }

  /** A name holding one of the partial words where it starts at `at` is a partial match. */
  lemma PartialWordAt(m: Metric, k: int, at: nat)
    requires 0 <= k < |PartialFatNames|
    requires at + |PartialFatNames[k]| <= |Text.ToLower(m.name)|
    requires Text.ToLower(m.name)[at..at + |PartialFatNames[k]|] == PartialFatNames[k]
    ensures PartialFat(m)
  {
    Text.ContainsAt(Text.ToLower(m.name), PartialFatNames[k], at);
    assert NameHas(m, PartialFatNames[k]);
  }

  /** The first exact match wins; without one, the first partial match; the
      exact pass changes only which metric is chosen, never whether one is. */
  lemma FatMetricChoice(metrics: seq<Metric>)
    ensures (exists k :: 0 <= k < |metrics| && ExactFat(metrics[k])) ==>
              FatMetric(metrics) == Find(metrics, ExactFat)
    ensures (forall k :: 0 <= k < |metrics| ==> !ExactFat(metrics[k])) ==>
              FatMetric(metrics) == Find(metrics, PartialFat)
    ensures FatMetric(metrics).None? <==> forall k :: 0 <= k < |metrics| ==> !PartialFat(metrics[k])
    ensures FatMetric(metrics).Some? ==> FatMetric(metrics).value in metrics && PartialFat(FatMetric(metrics).value)
  {
    forall m | ExactFat(m)
      ensures PartialFat(m)
    {
      ExactIsPartial(m);
    }
    FallbackChoice(metrics, ExactFat, PartialFat);
  }

  /** The first `first` match when there is one, else the first `second`
      match, where every `first` match is a `second` match. */
  lemma FallbackChoice(metrics: seq<Metric>, first: Metric -> bool, second: Metric -> bool)
    requires forall m :: first(m) ==> second(m)
    ensures var r := if Find(metrics, first).Some? then Find(metrics, first) else Find(metrics, second);
            (r.None? <==> forall k :: 0 <= k < |metrics| ==> !second(metrics[k])) &&
            (r.Some? ==> r.value in metrics && second(r.value))
  {
    var exact := Find(metrics, first);
    if exact.Some? {
      var i :| 0 <= i < |metrics| && metrics[i] == exact.value && first(metrics[i]);
    }
    var partial := Find(metrics, second);
    if partial.Some? {
      var i :| 0 <= i < |metrics| && metrics[i] == partial.value && second(metrics[i]);
    }
  }

  /** The summary card; `None` is `undefined`. */
  datatype SummaryStats = SummaryStats(height: Option<real>, weight: Option<real>, fat: Option<real>, age: Option<int>)

  function LatestOf(ms: seq<Measurement>, metric: Option<Metric>): Option<real>
  {
    match metric
    case Some(m) => Latest.LatestValue(ms, m.id)
    case None => None
  }

  /** `latestStats`, with today's date as a parameter. */
  function LatestStats(p: Player, metrics: seq<Metric>, today: Dates.CivilDate): (r: SummaryStats)
    ensures metrics == [] ==> r == SummaryStats(None, None, None, None)
    ensures r.age.Some? <==> metrics != [] && p.birthDate.Some?
    ensures r.height.Some? ==> exists i :: 0 <= i < |p.measurements| && p.measurements[i].value == r.height.value
    ensures r.weight.Some? ==> exists i :: 0 <= i < |p.measurements| && p.measurements[i].value == r.weight.value
    ensures r.fat.Some? ==> exists i :: 0 <= i < |p.measurements| && p.measurements[i].value == r.fat.value
  {
    LatestOfProperties(p.measurements, HeightMetric(metrics));
    LatestOfProperties(p.measurements, WeightMetric(metrics));
    LatestOfProperties(p.measurements, FatMetric(metrics));
    if metrics == [] then SummaryStats(None, None, None, None)
    else
      SummaryStats(
        LatestOf(p.measurements, HeightMetric(metrics)),
        LatestOf(p.measurements, WeightMetric(metrics)),
        LatestOf(p.measurements, FatMetric(metrics)),
        match p.birthDate
        case Some(b) => Some(Dates.Age(b, today))
        case None => None)
  }

  /** A shown value is the value of the newest measurement of the chosen
      metric; it is missing exactly when no metric was chosen or the chosen
      one has no measurement. */
  lemma LatestOfProperties(ms: seq<Measurement>, metric: Option<Metric>)
    ensures LatestOf(ms, metric).None? <==>
            metric.None? || forall j :: 0 <= j < |ms| ==> ms[j].metricId != metric.value.id
    ensures LatestOf(ms, metric).Some? ==>
            exists i :: 0 <= i < |ms| && ms[i].metricId == metric.value.id && ms[i].value == LatestOf(ms, metric).value &&
              forall j :: 0 <= j < |ms| && ms[j].metricId == metric.value.id ==> ms[j].date <= ms[i].date
  {
    if metric.Some? {
      Latest.LatestMeasurementProperties(ms, metric.value.id);
    }
  }

  /** The card's four values: each is the newest measurement of the metric its
      finder chose, and the age is the number of birthdays reached by today. */
  lemma LatestStatsProperties(p: Player, metrics: seq<Metric>, today: Dates.CivilDate)
    ensures metrics == [] ==> LatestStats(p, metrics, today) == SummaryStats(None, None, None, None)
    ensures metrics != [] ==>
              LatestStats(p, metrics, today).height == LatestOf(p.measurements, HeightMetric(metrics)) &&
              LatestStats(p, metrics, today).weight == LatestOf(p.measurements, WeightMetric(metrics)) &&
              LatestStats(p, metrics, today).fat == LatestOf(p.measurements, FatMetric(metrics))
    ensures metrics != [] ==> (LatestStats(p, metrics, today).age.Some? <==> p.birthDate.Some?)
    ensures metrics != [] && p.birthDate.Some? ==>
              var b, n := p.birthDate.value, LatestStats(p, metrics, today).age.value;
              !Dates.Before(today, Dates.Anniversary(b, n)) && Dates.Before(today, Dates.Anniversary(b, n + 1))
  {
    if metrics != [] && p.birthDate.Some? {
      Dates.AgeIsAnniversaryCount(p.birthDate.value, today);
    }
  }

  // ---------------------------------------------------------------------------
  // The add-measurement form.

  /** One text field of the form, keyed by metric id, in insertion order. */
  datatype Field = Field(metricId: string, text: string)

  predicate UniqueIds(form: seq<Field>)
  {
    forall i, j :: 0 <= i < j < |form| ==> form[i].metricId != form[j].metricId
  }

  /** `{ ...prev, [metricId]: text }`: a present key keeps its place, a new key goes last. */
  function SetField(form: seq<Field>, metricId: string, text: string): (r: seq<Field>)
    requires UniqueIds(form)
    ensures UniqueIds(r)
    ensures exists i :: 0 <= i < |r| && r[i] == Field(metricId, text)
    ensures forall i :: 0 <= i < |form| && form[i].metricId != metricId ==> form[i] in r
    ensures forall i :: 0 <= i < |r| && r[i].metricId != metricId ==> r[i] in form
    ensures |r| == if exists i :: 0 <= i < |form| && form[i].metricId == metricId then |form| else |form| + 1
  {
    if i :| 0 <= i < |form| && form[i].metricId == metricId then
      var r := form[i := Field(metricId, text)];
      assert r[i] == Field(metricId, text);
      assert forall j :: 0 <= j < |form| && j != i ==> r[j] == form[j];
      r
    else
      var r := form + [Field(metricId, text)];
      assert r[|form|] == Field(metricId, text);
      r
  }

  function ManualActiveMetrics(metrics: seq<Metric>): seq<Metric>
  {
    Filter(metrics, (m: Metric) => m.inputType == Manual && m.isActive)
  }

  /** `measurements[0]?.value?.toString() || ''`; `show` is `Number.prototype.toString`. */
  function DefaultText(ms: seq<Measurement>, metricId: string, show: real -> string): string
  {
    match Latest.LatestValue(ms, metricId)
    case Some(v) => show(v)
    case None => ""
  }

  /** The initial form: one field per active manual metric, holding its default text. */
  function InitialForm(ms: seq<Measurement>, manual: seq<Metric>, show: real -> string): (r: seq<Field>)
    ensures UniqueIds(r)
    decreases |manual|
  {
    if manual == [] then []
    else
      var met := manual[|manual| - 1];
      SetField(InitialForm(ms, manual[..|manual| - 1], show), met.id, DefaultText(ms, met.id, show))
  }

  /** The initialiser's loop over the active manual metrics. */
  method BuildInitialForm(ms: seq<Measurement>, metrics: seq<Metric>, show: real -> string) returns (form: seq<Field>)
    ensures form == InitialForm(ms, ManualActiveMetrics(metrics), show)
  {
    var manual := ManualActiveMetrics(metrics);
    form := [];
    var i := 0;
    while i < |manual|
      invariant 0 <= i <= |manual|
      invariant form == InitialForm(ms, manual[..i], show)
    {
      InitialFormStep(ms, manual, i, show);
      form := SetField(form, manual[i].id, DefaultText(ms, manual[i].id, show));
      i := i + 1;
    }
    assert manual[..i] == manual;
  }

  lemma InitialFormStep(ms: seq<Measurement>, manual: seq<Metric>, i: int, show: real -> string)
    requires 0 <= i < |manual|
    ensures InitialForm(ms, manual[..i + 1], show) ==
            SetField(InitialForm(ms, manual[..i], show), manual[i].id, DefaultText(ms, manual[i].id, show))
  {
    assert manual[..i + 1][..i] == manual[..i];
  }

  predicate HasField(form: seq<Field>, id: string)
  {
    exists i :: 0 <= i < |form| && form[i].metricId == id
  }

  /** Every field keyed `id` holds `text`. */
  predicate FieldHolds(form: seq<Field>, id: string, text: string)
  {
    forall i :: 0 <= i < |form| && form[i].metricId == id ==> form[i].text == text
  }

  /** Setting one key adds that key and leaves every other key's fields as they were. */
  lemma SetFieldStep(form: seq<Field>, metricId: string, text: string, id: string, old_text: string)
    requires UniqueIds(form)
    ensures HasField(SetField(form, metricId, text), id) <==> HasField(form, id) || metricId == id
    ensures metricId == id ==> FieldHolds(SetField(form, metricId, text), id, text)
    ensures metricId != id && FieldHolds(form, id, old_text) ==> FieldHolds(SetField(form, metricId, text), id, old_text)
  {
    var r := SetField(form, metricId, text);
    if metricId != id {
      if HasField(r, id) {
        var i :| 0 <= i < |r| && r[i].metricId == id;
        assert r[i] in form;
      }
      if HasField(form, id) {
        var i :| 0 <= i < |form| && form[i].metricId == id;
        assert form[i] in r;
      }
      if FieldHolds(form, id, old_text) {
        forall i | 0 <= i < |r| && r[i].metricId == id
          ensures r[i].text == old_text
        {
          assert r[i] in form;
        }
      }
    } else {
      var i :| 0 <= i < |r| && r[i] == Field(metricId, text);
    }
  }

  /** The initial form has a field for exactly the active manual metrics, each
      holding the default text of that metric. */
  lemma {:induction false} InitialFormFields(ms: seq<Measurement>, manual: seq<Metric>, show: real -> string, id: string)
    ensures HasField(InitialForm(ms, manual, show), id) <==> exists k :: 0 <= k < |manual| && manual[k].id == id
    ensures FieldHolds(InitialForm(ms, manual, show), id, DefaultText(ms, id, show))
    decreases |manual|
  {
    if manual != [] {
      var init, met := manual[..|manual| - 1], manual[|manual| - 1];
      InitialFormFields(ms, init, show, id);
      SetFieldStep(InitialForm(ms, init, show), met.id, DefaultText(ms, met.id, show), id, DefaultText(ms, id, show));
      assert forall k :: 0 <= k < |init| ==> manual[k] == init[k];
      assert manual[|manual| - 1].id == met.id;
    }
  }

  function FilledFields(form: seq<Field>): seq<Field>
  {
    Filter(form, (f: Field) => !Text.IsBlank(f.text))
  }

  lemma FilledHasAll(form: seq<Field>)
    ensures forall i :: 0 <= i < |form| && !Text.IsBlank(form[i].text) ==>
              exists k :: 0 <= k < |FilledFields(form)| && FilledFields(form)[k] == form[i]
  {
    forall i | 0 <= i < |form| && !Text.IsBlank(form[i].text)
      ensures exists k :: 0 <= k < |FilledFields(form)| && FilledFields(form)[k] == form[i]
    {
      var p := (f: Field) => !Text.IsBlank(f.text);
      assert p(form[i]);
      assert form[i] in FilledFields(form);
    }
  }

  /** The submitted list: one new measurement per field whose text is not
      blank, parsed by `parse` (`parseFloat`), all on the chosen date; `None`
      when every field is blank (the form closes without saving). */
  function Submission(form: seq<Field>, parse: string -> real, date: Instant): (r: Option<seq<NewMeasurement>>)
    ensures r.None? <==> forall i :: 0 <= i < |form| ==> Text.IsBlank(form[i].text)
    ensures r.Some? ==> (|r.value| == |FilledFields(form)| &&
              forall k :: 0 <= k < |r.value| ==>
                r.value[k] == NewMeasurement(FilledFields(form)[k].metricId, parse(FilledFields(form)[k].text), date))
    ensures forall i :: 0 <= i < |form| && !Text.IsBlank(form[i].text) ==>
              r.Some? && exists k :: 0 <= k < |r.value| && r.value[k].metricId == form[i].metricId &&
                                     r.value[k].value == parse(form[i].text)
  {
    var filled := FilledFields(form);
    var list := seq(|filled|, k requires 0 <= k < |filled| => NewMeasurement(filled[k].metricId, parse(filled[k].text), date));
    FilledHasAll(form);
    assert filled != [] ==> !Text.IsBlank(filled[0].text) && filled[0] in form;
    if list == [] then None else Some(list)
  }

  /** The metrics offered to the line chart: active ones other than the
      built-in `metric-1`. */
  function ChartableMetrics(metrics: seq<Metric>): (r: seq<Metric>)
    ensures forall i :: 0 <= i < |r| ==> r[i] in metrics && r[i].isActive && r[i].id != "metric-1"
    ensures forall i :: 0 <= i < |metrics| && metrics[i].isActive && metrics[i].id != "metric-1" ==> metrics[i] in r
  {
    Filter(metrics, (m: Metric) => m.isActive && m.id != "metric-1")
  }
}
