/** The coach's dashboard (pages/ConditionerDashboard.tsx): the injured
    players, today's programme, and the top-5 leaderboard of one metric by
    percent improvement, unit improvement or latest value. */
module CoachBoard {
  import opened Seqs
  import opened Types
  import opened Numbers
  import Sorting
  import Dates
  import Latest

  datatype ChangeType = PercentChange | UnitChange | LatestValue
  datatype SortOrder = Desc | Asc

  /** A player with the leaderboard figures attached (`{...player, ...}`);
      `latestValue` is `None` for `undefined`. */
  datatype Row = Row(player: Player, latestValue: Option<real>,
                     improvementPercent: ExtReal, improvementUnit: real)

  /** The dashboard keeps the active metrics only. */
  function ActiveMetrics(metrics: seq<Metric>): seq<Metric>
  {
    Filter(metrics, (m: Metric) => m.isActive)
  }

  /** The metrics offered in the leaderboard's metric menu. */
  predicate Selectable(m: Metric)
  {
    m.inputType == Manual && m.id != "metric-1"
  }

  function LeaderboardChoices(active: seq<Metric>): seq<Metric>
  {
    Filter(active, Selectable)
  }

  /** After loading, the first selectable metric becomes the selection when
      nothing is selected yet and there are active metrics. */
  function InitialSelection(active: seq<Metric>, current: string): (id: string)
    ensures current != "" || active == [] ==> id == current
    ensures id != current ==>
              exists k :: 0 <= k < |active| && active[k].id == id && Selectable(active[k])
  {
    if |active| > 0 && current == "" then
      match Find(active, Selectable)
      case Some(m) => m.id
      case None => current
    else current
  }

  /** `players.some(p => p.measurements.some(m => m.metricId === id))` */
  predicate Measured(players: seq<Player>, id: string)
  {
    exists i, j :: 0 <= i < |players| && 0 <= j < |players[i].measurements| &&
      players[i].measurements[j].metricId == id
  }

  /** The metric id actually ranked: the selected one when some player has a
      measurement under it; otherwise the id of the first metric that bears
      the selected metric's name and occurs in measurements, if there is one. */
  function ActualMetricId(players: seq<Player>, metrics: seq<Metric>, selectedId: string): (id: string)
    ensures Measured(players, selectedId) ==> id == selectedId
    ensures id != selectedId ==> Measured(players, id)
  {
    if Measured(players, selectedId) then selectedId
    else
      match Find(metrics, (m: Metric) => m.id == selectedId)
      case None => selectedId
      case Some(sel) =>
        match Find(metrics, (m: Metric) => m.name == sel.name && Measured(players, m.id))
        case None => selectedId
        case Some(c) => c.id
  }

  /** When the selected id has no measurements, the first metric carrying the
      name of the selected metric and having measurements is ranked instead. */
  lemma MetricIdFallback(players: seq<Player>, metrics: seq<Metric>, selectedId: string, k: int, j: int)
    requires !Measured(players, selectedId)
    requires 0 <= k < |metrics| && metrics[k].id == selectedId
    requires forall i :: 0 <= i < k ==> metrics[i].id != selectedId
    requires 0 <= j < |metrics| && metrics[j].name == metrics[k].name && Measured(players, metrics[j].id)
    requires forall i :: 0 <= i < j ==> !(metrics[i].name == metrics[k].name && Measured(players, metrics[i].id))
    ensures ActualMetricId(players, metrics, selectedId) == metrics[j].id
  {
    var sel := Find(metrics, (m: Metric) => m.id == selectedId);
    var i0 :| 0 <= i0 < |metrics| && metrics[i0] == sel.value && metrics[i0].id == selectedId &&
              forall i :: 0 <= i < i0 ==> metrics[i].id != selectedId;
    assert i0 == k;
    var c := Find(metrics, (m: Metric) => m.name == metrics[k].name && Measured(players, m.id));
    var j0 :| 0 <= j0 < |metrics| && metrics[j0] == c.value &&
              metrics[j0].name == metrics[k].name && Measured(players, metrics[j0].id) &&
              forall i :: 0 <= i < j0 ==> !(metrics[i].name == metrics[k].name && Measured(players, metrics[i].id));
    assert j0 == j;
  }

  /** The player's measurements of the metric, oldest first. */
  function Relevant(p: Player, metricId: string): seq<Measurement>
  {
    Sorting.Sort(Latest.OfMetric(p.measurements, metricId), Latest.OlderFirst)
  }

  /** The percent improvement before rounding; no division when the first value is 0. */
  function PercentRaw(first: real, last: real): ExtReal
  {
    if first == 0.0 then (if last > 0.0 then PosInf else Fin(0.0))
    else Fin((last - first) / first * 100.0)
  }

  function PlayerRow(p: Player, metricId: string): (row: Row)
    ensures row.player == p
    ensures row.latestValue.Some? <==> exists k :: 0 <= k < |p.measurements| && p.measurements[k].metricId == metricId
    ensures row.latestValue.None? ==> row.improvementPercent == Fin(0.0) && row.improvementUnit == 0.0
    ensures row.improvementPercent.Fin? || row.improvementPercent.PosInf?
  {
    RelevantEmpty(p, metricId);
    var rel := Relevant(p, metricId);
    if |rel| == 0 then Row(p, None, Fin(0.0), 0.0)
    else
      var last := rel[|rel| - 1].value;
      if |rel| < 2 then Row(p, Some(last), Fin(0.0), 0.0)
      else
        var first := rel[0].value;
        Row(p, Some(last), Round2Ext(PercentRaw(first, last)), Round2(last - first))
  }

  /** The improvement in percent: with a zero first value, +Infinity for a
      gain and 0 otherwise; else finite and within 0.005 of the exact ratio. */
  lemma PercentProperties(first: real, last: real)
    ensures var r := Round2Ext(PercentRaw(first, last));
            (r.Fin? || r.PosInf?) &&
            (first == 0.0 ==> (r == PosInf <==> last > 0.0) && (r.Fin? ==> r.r == 0.0)) &&
            (first != 0.0 ==> r.Fin? && Abs(r.r - (last - first) / first * 100.0) <= 0.005)
  {
    if first != 0.0 {
      Round2Properties((last - first) / first * 100.0, 0.0);
    }
  }

  /** `m` is a measurement of the metric that no other one predates. */
  predicate Oldest(ms: seq<Measurement>, metricId: string, i: int)
  {
    0 <= i < |ms| && ms[i].metricId == metricId &&
    forall k :: 0 <= k < |ms| && ms[k].metricId == metricId ==> ms[i].date <= ms[k].date
  }

  /** `m` is a measurement of the metric that no other one postdates. */
  predicate Newest(ms: seq<Measurement>, metricId: string, i: int)
  {
    0 <= i < |ms| && ms[i].metricId == metricId &&
    forall k :: 0 <= k < |ms| && ms[k].metricId == metricId ==> ms[k].date <= ms[i].date
  }

  /** An element of the sorted list is a measurement of the metric. */
  lemma RelevantMember(p: Player, metricId: string, x: Measurement) returns (i: int)
    requires x in Relevant(p, metricId)
    ensures 0 <= i < |p.measurements| && p.measurements[i] == x && x.metricId == metricId
  {
    var s := Latest.OfMetric(p.measurements, metricId);
    assert x in multiset(Relevant(p, metricId));
    assert x in s;
    i :| 0 <= i < |p.measurements| && p.measurements[i] == x;
  }

  /** The sorted list is empty exactly when the player has no measurement of the metric. */
  lemma RelevantEmpty(p: Player, metricId: string)
    ensures Relevant(p, metricId) == [] <==>
            forall k :: 0 <= k < |p.measurements| ==> p.measurements[k].metricId != metricId
  {
    var s := Latest.OfMetric(p.measurements, metricId);
    assert forall k :: 0 <= k < |p.measurements| && p.measurements[k].metricId == metricId ==>
                       p.measurements[k] in s;
    if s != [] {
      assert s[0] in p.measurements;
    }
  }

  /** A player without measurements of the metric has no latest value and
      0/0 improvements; with exactly one, its value is the latest and both
      improvements are 0. */
  lemma PlayerRowFew(p: Player, metricId: string)
    ensures var r := PlayerRow(p, metricId);
            var rel := Latest.OfMetric(p.measurements, metricId);
            (|rel| == 0 ==> r == Row(p, None, Fin(0.0), 0.0)) &&
            (|rel| == 1 ==> r == Row(p, Some(rel[0].value), Fin(0.0), 0.0))
  {
    var s := Latest.OfMetric(p.measurements, metricId);
    if |s| == 1 {
      assert s[0] in multiset(Relevant(p, metricId));
    }
  }

  /** The ends of the oldest-first list: its head is an oldest and its last
      element a newest measurement of the metric. */
  lemma RelevantEnds(p: Player, metricId: string) returns (i: int, j: int)
    requires Latest.OfMetric(p.measurements, metricId) != []
    ensures var rel := Relevant(p, metricId);
            Oldest(p.measurements, metricId, i) && Newest(p.measurements, metricId, j) &&
            p.measurements[i] == rel[0] && p.measurements[j] == rel[|rel| - 1]
  {
    var s := Latest.OfMetric(p.measurements, metricId);
    var rel := Relevant(p, metricId);
    var ms := p.measurements;
    Latest.OlderFirstPreorder();
    Sorting.SortFirst(s, Latest.OlderFirst);
    Sorting.SortLast(s, Latest.OlderFirst);
    var n := |rel| - 1;
    i := RelevantMember(p, metricId, rel[0]);
    j := RelevantMember(p, metricId, rel[n]);
    forall k | 0 <= k < |ms| && ms[k].metricId == metricId
      ensures ms[i].date <= ms[k].date && ms[k].date <= ms[j].date
    {
      assert ms[k] in s;
      var t :| 0 <= t < |s| && s[t] == ms[k];
      assert Latest.OlderFirst(rel[0], s[t]) && Latest.OlderFirst(s[t], rel[n]);
    }
  }

  /** With two or more measurements of the metric, the latest value is that
      of a newest measurement, and the improvements compare it with an oldest
      one, rounded to two decimals. */
  lemma PlayerRowMany(p: Player, metricId: string) returns (i: int, j: int)
    requires |Latest.OfMetric(p.measurements, metricId)| >= 2
    ensures Oldest(p.measurements, metricId, i) && Newest(p.measurements, metricId, j)
    ensures var ms := p.measurements;
            PlayerRow(p, metricId) ==
              Row(p, Some(ms[j].value), Round2Ext(PercentRaw(ms[i].value, ms[j].value)),
                  Round2(ms[j].value - ms[i].value))
  {
    i, j := RelevantEnds(p, metricId);
  }

  /** A row has a latest value exactly when the player has a measurement of the metric. */
  lemma PlayerRowHasData(p: Player, metricId: string)
    ensures PlayerRow(p, metricId).latestValue.Some? <==>
            exists k :: 0 <= k < |p.measurements| && p.measurements[k].metricId == metricId
  {
    RelevantEmpty(p, metricId);
  }

  /** The figure a ranking compares. */
  function Key(mode: ChangeType, r: Row): ExtReal
  {
    match mode
    case PercentChange => r.improvementPercent
    case UnitChange => Fin(r.improvementUnit)
    case LatestValue => Fin(if r.latestValue.Some? then r.latestValue.value else 0.0)
  }

  /** The infinities bound the finite numbers; NaN, which no row carries,
      is placed with zero so that the order is total. */
  function Tier(x: ExtReal): int
  {
    match x
    case PosInf => 1
    case NegInf => -1
    case _ => 0
  }

  function FinitePart(x: ExtReal): real
  {
    if x.Fin? then x.r else 0.0
  }

  /** `x <= y` on the numbers the leaderboard compares. */
  predicate KeyLe(x: ExtReal, y: ExtReal)
  {
    Tier(x) < Tier(y) || (Tier(x) == Tier(y) && FinitePart(x) <= FinitePart(y))
  }

  /** On finite numbers and +Infinity this is the numeric order, with both
      infinities of a comparison tied, as the comparator's NaN result makes them. */
  lemma KeyLeMeaning(x: ExtReal, y: ExtReal)
    requires (x.Fin? || x.PosInf?) && (y.Fin? || y.PosInf?)
    ensures x.Fin? && y.Fin? ==> (KeyLe(x, y) <==> x.r <= y.r)
    ensures y.PosInf? ==> KeyLe(x, y)
    ensures x.PosInf? ==> (KeyLe(x, y) <==> y.PosInf?)
  {
  }

  /** The comparator `valB - valA` for 'desc' and `valA - valB` for 'asc'. */
  function Ranking(mode: ChangeType, order: SortOrder): (Row, Row) -> bool
  {
    (a: Row, b: Row) =>
      if order == Desc then KeyLe(Key(mode, b), Key(mode, a)) else KeyLe(Key(mode, a), Key(mode, b))
  }

  lemma RankingPreorder(mode: ChangeType, order: SortOrder)
    ensures Sorting.TotalPreorder(Ranking(mode, order))
  {
  }

  function Rows(players: seq<Player>, metricId: string): (rows: seq<Row>)
    ensures |rows| == |players|
    ensures forall i :: 0 <= i < |players| ==> rows[i] == PlayerRow(players[i], metricId)
  {
    seq(|players|, i requires 0 <= i < |players| => PlayerRow(players[i], metricId))
  }

  predicate HasData(r: Row)
  {
    r.latestValue.Some?
  }

  /** `leaderboardData` with the active metrics of the dashboard. */
  function Leaderboard(players: seq<Player>, metrics: seq<Metric>, selectedId: string,
                       mode: ChangeType, order: SortOrder): (r: seq<Row>)
    ensures |r| <= 5
    ensures forall i :: 0 <= i < |r| ==> r[i].player in players
  {
    var id := ActualMetricId(players, metrics, selectedId);
    var withData := Filter(Rows(players, id), HasData);
    if mode == LatestValue && withData == [] then
      var firsts := Take(players, 5);
      seq(|firsts|, i requires 0 <= i < |firsts| => Row(firsts[i], None, Fin(0.0), 0.0))
    else
      var r := Take(Sorting.Sort(withData, Ranking(mode, order)), 5);
      RowsOnBoard(players, id, Ranking(mode, order), r);
      r
  }

  lemma RowsOnBoard(players: seq<Player>, id: string, le: (Row, Row) -> bool, r: seq<Row>)
    requires r == Take(Sorting.Sort(Filter(Rows(players, id), HasData), le), 5)
    ensures forall i :: 0 <= i < |r| ==> r[i].player in players
  {
    var withData := Filter(Rows(players, id), HasData);
    Sorting.TakeOfSortMembers(withData, le, 5);
    forall i | 0 <= i < |r|
      ensures r[i].player in players
    {
      var j :| 0 <= j < |withData| && withData[j] == r[i];
      RowOfPlayer(players, id, r[i]);
    }
  }

  lemma RowOfPlayer(players: seq<Player>, id: string, row: Row)
    requires row in Rows(players, id)
    ensures row.player in players
  {
    var rows := Rows(players, id);
    var k :| 0 <= k < |rows| && rows[k] == row;
    assert rows[k].player == players[k];
  }

  /** Nobody has data exactly when no player has a measurement of the ranked metric. */
  lemma NoDataIff(players: seq<Player>, metricId: string)
    ensures Filter(Rows(players, metricId), HasData) == [] <==> !Measured(players, metricId)
  {
    var rows := Rows(players, metricId);
    var withData := Filter(rows, HasData);
    if withData != [] {
      var i :| 0 <= i < |rows| && rows[i] == withData[0];
      PlayerRowHasData(players[i], metricId);
      var k :| 0 <= k < |players[i].measurements| && players[i].measurements[k].metricId == metricId;
      assert Measured(players, metricId);
    }
    if Measured(players, metricId) {
      var i, k :| 0 <= i < |players| && 0 <= k < |players[i].measurements| &&
                  players[i].measurements[k].metricId == metricId;
      PlayerRowHasData(players[i], metricId);
      assert HasData(rows[i]);
      assert rows[i] in withData;
    }
  }

  /** No mode ever shows more than five players. */
  lemma LeaderboardAtMostFive(players: seq<Player>, metrics: seq<Metric>, selectedId: string,
                              mode: ChangeType, order: SortOrder)
    ensures |Leaderboard(players, metrics, selectedId, mode, order)| <= 5
  {
  }

  /** Latest mode with no data anywhere: the first five players in input
      order, without a latest value and with 0/0 improvements. */
  lemma LatestModeWithoutData(players: seq<Player>, metrics: seq<Metric>, selectedId: string, order: SortOrder)
    requires !Measured(players, ActualMetricId(players, metrics, selectedId))
    ensures var r := Leaderboard(players, metrics, selectedId, LatestValue, order);
            |r| == (if |players| < 5 then |players| else 5) &&
            forall i :: 0 <= i < |r| ==> r[i] == Row(players[i], None, Fin(0.0), 0.0)
  {
    NoDataIff(players, ActualMetricId(players, metrics, selectedId));
  }

  /** Outside latest mode without any data, the board is the top five of
      the rows with data under the ranking. */
  lemma RankedIsTop(players: seq<Player>, metrics: seq<Metric>, selectedId: string,
                    mode: ChangeType, order: SortOrder)
    requires mode != LatestValue || Measured(players, ActualMetricId(players, metrics, selectedId))
    ensures var withData := Filter(Rows(players, ActualMetricId(players, metrics, selectedId)), HasData);
            Leaderboard(players, metrics, selectedId, mode, order) ==
              Sorting.Sort(withData, Ranking(mode, order))[..if |withData| < 5 then |withData| else 5]
  {
    var withData := Filter(Rows(players, ActualMetricId(players, metrics, selectedId)), HasData);
    NoDataIff(players, ActualMetricId(players, metrics, selectedId));
    LeaderboardRanked(players, metrics, selectedId, mode, order);
    TakePrefix(Sorting.Sort(withData, Ranking(mode, order)), 5);
  }

  lemma LeaderboardRanked(players: seq<Player>, metrics: seq<Metric>, selectedId: string,
                          mode: ChangeType, order: SortOrder)
    requires mode != LatestValue || Filter(Rows(players, ActualMetricId(players, metrics, selectedId)), HasData) != []
    ensures var withData := Filter(Rows(players, ActualMetricId(players, metrics, selectedId)), HasData);
            Leaderboard(players, metrics, selectedId, mode, order) == Take(Sorting.Sort(withData, Ranking(mode, order)), 5)
  {
  }

  lemma RankingSorts(s: seq<Row>, mode: ChangeType, order: SortOrder)
    ensures Sorting.Sorted(Sorting.Sort(s, Ranking(mode, order)), Ranking(mode, order))
  {
    RankingPreorder(mode, order);
    Sorting.SortSorted(s, Ranking(mode, order));
  }

  lemma TakePrefix<T>(s: seq<T>, n: nat)
    ensures Take(s, n) == s[..if |s| < n then |s| else n]
  {
  }

  /** The ranked modes (every mode except latest mode without any data)
      show only players with a latest value, each a row of the ranked
      metric, as many as have data up to five. */
  lemma RankedEntries(players: seq<Player>, metrics: seq<Metric>, selectedId: string,
                      mode: ChangeType, order: SortOrder)
    requires mode != LatestValue || Measured(players, ActualMetricId(players, metrics, selectedId))
    ensures var id := ActualMetricId(players, metrics, selectedId);
            var withData := Filter(Rows(players, id), HasData);
            var r := Leaderboard(players, metrics, selectedId, mode, order);
            |r| == (if |withData| < 5 then |withData| else 5) &&
            forall i :: 0 <= i < |r| ==> HasData(r[i]) && r[i] in Rows(players, id)
  {
    var id := ActualMetricId(players, metrics, selectedId);
    var withData := Filter(Rows(players, id), HasData);
    RankedIsTop(players, metrics, selectedId, mode, order);
    RankingSorts(withData, mode, order);
    Sorting.TopOfSorted(withData, Ranking(mode, order), 5);
  }

  /** The ranked modes list 'desc' from the largest key down and 'asc' from
      the smallest up. */
  lemma RankedOrder(players: seq<Player>, metrics: seq<Metric>, selectedId: string,
                    mode: ChangeType, order: SortOrder)
    requires mode != LatestValue || Measured(players, ActualMetricId(players, metrics, selectedId))
    ensures var r := Leaderboard(players, metrics, selectedId, mode, order);
            forall i, j :: 0 <= i < j < |r| ==>
              if order == Desc then KeyLe(Key(mode, r[j]), Key(mode, r[i]))
              else KeyLe(Key(mode, r[i]), Key(mode, r[j]))
  {
    var withData := Filter(Rows(players, ActualMetricId(players, metrics, selectedId)), HasData);
    var le := Ranking(mode, order);
    var r := Leaderboard(players, metrics, selectedId, mode, order);
    RankedIsTop(players, metrics, selectedId, mode, order);
    RankingSorts(withData, mode, order);
    Sorting.TopOfSorted(withData, le, 5);
    forall i, j | 0 <= i < j < |r|
      ensures if order == Desc then KeyLe(Key(mode, r[j]), Key(mode, r[i]))
              else KeyLe(Key(mode, r[i]), Key(mode, r[j]))
    {
      assert le(r[i], r[j]);
    }
  }

  /** Every player with data who is left out of a ranked board ranks no
      earlier than the last one shown. */
  lemma RankedTop(players: seq<Player>, metrics: seq<Metric>, selectedId: string,
                  mode: ChangeType, order: SortOrder)
    requires mode != LatestValue || Measured(players, ActualMetricId(players, metrics, selectedId))
    ensures var withData := Filter(Rows(players, ActualMetricId(players, metrics, selectedId)), HasData);
            var r := Leaderboard(players, metrics, selectedId, mode, order);
            forall k :: 0 <= k < |withData| && withData[k] !in r ==>
              |r| > 0 && Ranking(mode, order)(r[|r| - 1], withData[k])
  {
    var withData := Filter(Rows(players, ActualMetricId(players, metrics, selectedId)), HasData);
    RankedIsTop(players, metrics, selectedId, mode, order);
    RankedRest(withData, Leaderboard(players, metrics, selectedId, mode, order), mode, order);
  }

  /** The rows with data left out of the first five of their ranking rank no earlier than the fifth. */

  lemma RankedRest(withData: seq<Row>, r: seq<Row>, mode: ChangeType, order: SortOrder)
    requires r == Sorting.Sort(withData, Ranking(mode, order))[..if |withData| < 5 then |withData| else 5]
    ensures forall k :: 0 <= k < |withData| && withData[k] !in r ==>
              |r| > 0 && Ranking(mode, order)(r[|r| - 1], withData[k])
  {
    RankingSorts(withData, mode, order);
    Sorting.TopRestAll(withData, Ranking(mode, order), 5);
  }

  /** `injuredPlayers`: the players with an injury, in list order. */
  function InjuredPlayers(players: seq<Player>): (r: seq<Player>)
    ensures forall q :: q in r <==> q in players && q.injury.Some?
  {
    Filter(players, (q: Player) => q.injury.Some?)
  }

  /** `todaysSchedule`: the events dated with today's `YYYY-MM-DD`. */
  function TodaysSchedule(schedule: seq<ScheduleEvent>, today: Dates.CivilDate): (r: seq<ScheduleEvent>)
    requires Dates.ValidDate(today) && 0 <= today.year <= 9999
    ensures forall e :: e in r <==> e in schedule && e.date == Dates.IsoDate(today)
  {
    Filter(schedule, (e: ScheduleEvent) => e.date == Dates.IsoDate(today))
  }

  /** An event is on today's programme exactly when its date reads as today. */
  lemma TodaysScheduleIsToday(schedule: seq<ScheduleEvent>, today: Dates.CivilDate)
    requires Dates.ValidDate(today) && 0 <= today.year <= 9999
    ensures forall e :: e in TodaysSchedule(schedule, today) <==>
                        e in schedule && Dates.ParseIsoDate(e.date) == Some(today)
  {
    Dates.ParseIsoDateOfIsoDate(today);
    forall e | e in schedule && Dates.ParseIsoDate(e.date) == Some(today)
      ensures e.date == Dates.IsoDate(today)
    {
      Dates.IsoDateOfParseIsoDate(e.date);
    }
  }
}
