/** The latest measurement of a metric, as the player profile finds it in two
    places (`findLast` of the summary card and the base record of the radar
    chart): keep the measurements of the metric, sort them newest first with a
    stable sort, and take the first. */
module Latest {
  import opened Seqs
  import opened Types
  import Sorting

  /** The comparator `(a, b) => b.date - a.date`: newest first. */
  predicate NewerFirst(a: Measurement, b: Measurement)
  {
    a.date >= b.date
  }

  /** The comparator `(a, b) => new Date(a.date) - new Date(b.date)`: oldest first. */
  predicate OlderFirst(a: Measurement, b: Measurement)
  {
    a.date <= b.date
  }

  lemma OlderFirstPreorder()
    ensures Sorting.TotalPreorder(OlderFirst)
  {
  }

  function IsOf(metricId: string): Measurement -> bool
  {
    (m: Measurement) => m.metricId == metricId
  }

  function OfMetric(ms: seq<Measurement>, metricId: string): seq<Measurement>
  {
    Filter(ms, IsOf(metricId))
  }

  /** `measurements.filter(...).sort(newest first)[0]` */
  function LatestMeasurement(ms: seq<Measurement>, metricId: string): (r: Option<Measurement>)
    ensures r.Some? ==> r.value in ms && r.value.metricId == metricId
  {
    var of := OfMetric(ms, metricId);
    var sorted := Sorting.Sort(of, NewerFirst);
    if sorted == [] then None
    else
      assert sorted[0] in multiset(of);
      Some(sorted[0])
  }

  /** A reference scan in array order: a measurement of the metric replaces
      the current pick only when it is strictly newer. */
  function Newest(ms: seq<Measurement>, metricId: string): Option<Measurement>
    decreases |ms|
  {
    if ms == [] then None
    else
      var r := Newest(ms[..|ms| - 1], metricId);
      var m := ms[|ms| - 1];
      if m.metricId != metricId then r
      else if r.None? || m.date > r.value.date then Some(m)
      else r
  }

  lemma FilterSnoc<T>(s: seq<T>, x: T, p: T -> bool)
    ensures Filter(s + [x], p) == Filter(s, p) + (if p(x) then [x] else [])
  {
    FilterAppend(s, [x], p);
    assert [x][1..] == [];
  }

  lemma InsertHead(t: seq<Measurement>, x: Measurement)
    ensures Sorting.Insert(t, x, NewerFirst)[0] == if t == [] || !NewerFirst(t[0], x) then x else t[0]
  {
  }

  /** Sorting newest first and taking the head is the reference scan. */
  lemma {:induction false} LatestIsNewest(ms: seq<Measurement>, metricId: string)
    ensures LatestMeasurement(ms, metricId) == Newest(ms, metricId)
    decreases |ms|
  {
    if ms != [] {
      var init, m := ms[..|ms| - 1], ms[|ms| - 1];
      LatestIsNewest(init, metricId);
      assert ms == init + [m];
      LatestStep(init, m, metricId);
    }
  }

  lemma LatestStep(init: seq<Measurement>, m: Measurement, metricId: string)
    requires LatestMeasurement(init, metricId) == Newest(init, metricId)
    ensures LatestMeasurement(init + [m], metricId) == Newest(init + [m], metricId)
  {
    var ms := init + [m];
    assert ms[..|ms| - 1] == init && ms[|ms| - 1] == m;
    var r := Newest(init, metricId);
    assert Newest(ms, metricId) == if m.metricId != metricId then r
                                   else if r.None? || m.date > r.value.date then Some(m) else r;
    var c := OfMetric(init, metricId);
    var t := Sorting.Sort(c, NewerFirst);
    assert r == if t == [] then None else Some(t[0]);
    FilterSnoc(init, m, IsOf(metricId));
    if m.metricId == metricId {
      assert OfMetric(ms, metricId) == c + [m];
      SortSnoc(c, m);
      var u := Sorting.Insert(t, m, NewerFirst);
      assert LatestMeasurement(ms, metricId) == Some(u[0]);
      InsertHead(t, m);
    } else {
      assert OfMetric(ms, metricId) == c;
    }
  }

  lemma SortSnoc(c: seq<Measurement>, m: Measurement)
    ensures Sorting.Sort(c + [m], NewerFirst) == Sorting.Insert(Sorting.Sort(c, NewerFirst), m, NewerFirst)
  {
    var c2 := c + [m];
    assert c2[..|c2| - 1] == c && c2[|c2| - 1] == m;
  }

  lemma {:induction false} NewestNone(ms: seq<Measurement>, metricId: string)
    ensures Newest(ms, metricId).None? <==> forall j :: 0 <= j < |ms| ==> ms[j].metricId != metricId
    decreases |ms|
  {
    if ms != [] {
      var init := ms[..|ms| - 1];
      NewestNone(init, metricId);
      assert forall j :: 0 <= j < |init| ==> ms[j] == init[j];
    }
  }

  /** Where the reference scan's pick sits: a measurement of the metric that
      no other one is newer than, and among the newest the first in array order. */
  lemma {:induction false} NewestIndex(ms: seq<Measurement>, metricId: string) returns (i: nat)
    requires Newest(ms, metricId).Some?
    ensures i < |ms| && ms[i] == Newest(ms, metricId).value && ms[i].metricId == metricId
    ensures forall j :: 0 <= j < |ms| && ms[j].metricId == metricId ==> ms[j].date <= ms[i].date
    ensures forall j :: 0 <= j < i && ms[j].metricId == metricId ==> ms[j].date < ms[i].date
    decreases |ms|
  {
    var init, m := ms[..|ms| - 1], ms[|ms| - 1];
    var n := |ms| - 1;
    assert forall j :: 0 <= j < n ==> ms[j] == init[j];
    var r := Newest(init, metricId);
    if m.metricId == metricId && (r.None? || m.date > r.value.date) {
      if r.Some? {
        var k := NewestIndex(init, metricId);
      } else {
        NewestNone(init, metricId);
      }
      i := n;
    } else {
      i := NewestIndex(init, metricId);
    }
  }

  /** The promise of `findLast`: the newest measurement of the metric, the
      first in array order among equally new ones, or nothing when there is none. */
  lemma LatestMeasurementProperties(ms: seq<Measurement>, metricId: string)
    ensures LatestMeasurement(ms, metricId).None? <==> forall j :: 0 <= j < |ms| ==> ms[j].metricId != metricId
    ensures LatestMeasurement(ms, metricId).Some? ==>
              exists i :: 0 <= i < |ms| && ms[i] == LatestMeasurement(ms, metricId).value &&
                ms[i].metricId == metricId &&
                (forall j :: 0 <= j < |ms| && ms[j].metricId == metricId ==> ms[j].date <= ms[i].date) &&
                (forall j :: 0 <= j < i && ms[j].metricId == metricId ==> ms[j].date < ms[i].date)
  {
    LatestIsNewest(ms, metricId);
    NewestNone(ms, metricId);
    if Newest(ms, metricId).Some? {
      var i := NewestIndex(ms, metricId);
    }
  }

  /** `latest?.value` */
  function LatestValue(ms: seq<Measurement>, metricId: string): (r: Option<real>)
    ensures r.Some? <==> exists j :: 0 <= j < |ms| && ms[j].metricId == metricId
  {
    LatestMeasurementProperties(ms, metricId);
    match LatestMeasurement(ms, metricId)
    case Some(m) => Some(m.value)
    case None => None
  }
}
