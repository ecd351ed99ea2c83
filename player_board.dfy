/** The player's own dashboard (pages/PlayerDashboard.tsx): whether today's
    survey is done, the public notes, and the top-5 leaderboard of one
    metric by percent improvement rounded to one decimal. */
module PlayerBoard {
  import opened Seqs
  import opened Types
  import opened Numbers
  import Sorting
  import Latest
  import CoachBoard
  import Store

  /** The metric the leaderboard starts on. */
  const DefaultLeaderboardMetric: string := "metric-4"

  /** A player with the leaderboard figures attached; `latestValue` is
      `None` for `undefined`. */
  datatype Entry = Entry(player: Player, improvement: ExtReal, latestValue: Option<real>)

  function PlayerEntry(p: Player, metricId: string): (e: Entry)
    ensures e.player == p
    ensures e.latestValue.Some? <==> exists k :: 0 <= k < |p.measurements| && p.measurements[k].metricId == metricId
    ensures e.latestValue.None? ==> e.improvement == Fin(0.0)
    ensures e.improvement.Fin? || e.improvement.PosInf?
  {
    CoachBoard.RelevantEmpty(p, metricId);
    var rel := CoachBoard.Relevant(p, metricId);
    if |rel| < 2 then Entry(p, Fin(0.0), if rel == [] then None else Some(rel[0].value))
    else
      var first, last := rel[0].value, rel[|rel| - 1].value;
      if first == 0.0 then Entry(p, if last > 0.0 then PosInf else Fin(0.0), Some(last))
      else Entry(p, Fin(Round1((last - first) / first * 100.0)), Some(last))
  }

  /** Fewer than two measurements of the metric: no improvement, and the
      single value if there is one. */
  lemma PlayerEntryFew(p: Player, metricId: string)
    requires |Latest.OfMetric(p.measurements, metricId)| < 2
    ensures var e := PlayerEntry(p, metricId);
            var rel := Latest.OfMetric(p.measurements, metricId);
            e.player == p && e.improvement == Fin(0.0) &&
            e.latestValue == if rel == [] then None else Some(rel[0].value)
  {
    var s := Latest.OfMetric(p.measurements, metricId);
    if |s| == 1 {
      assert s[0] in multiset(CoachBoard.Relevant(p, metricId));
    }
  }

  /** Two or more: the latest value is that of a newest measurement; the
      improvement compares it with an oldest one, +Infinity or 0 when that
      is zero, and otherwise the percent change rounded to one decimal. */
  lemma PlayerEntryMany(p: Player, metricId: string) returns (i: int, j: int)
    requires |Latest.OfMetric(p.measurements, metricId)| >= 2
    ensures CoachBoard.Oldest(p.measurements, metricId, i) && CoachBoard.Newest(p.measurements, metricId, j)
    ensures var e := PlayerEntry(p, metricId);
            var first, last := p.measurements[i].value, p.measurements[j].value;
            e.player == p && e.latestValue == Some(last) &&
            (first == 0.0 ==> e.improvement == if last > 0.0 then PosInf else Fin(0.0)) &&
            (first != 0.0 ==> e.improvement.Fin? && Abs(e.improvement.r - (last - first) / first * 100.0) <= 0.05)
  {
    i, j := CoachBoard.RelevantEnds(p, metricId);
    var first, last := p.measurements[i].value, p.measurements[j].value;
    if first != 0.0 {
      Round1Properties((last - first) / first * 100.0, 0.0);
    }
  }

  /** An entry has a latest value exactly when the player has a measurement of the metric. */
  lemma PlayerEntryHasData(p: Player, metricId: string)
    ensures PlayerEntry(p, metricId).latestValue.Some? <==>
            exists k :: 0 <= k < |p.measurements| && p.measurements[k].metricId == metricId
  {
    CoachBoard.RelevantEmpty(p, metricId);
  }

  /** The comparator `b.improvement - a.improvement`: largest improvement first. */
  predicate ByImprovement(a: Entry, b: Entry)
  {
    CoachBoard.KeyLe(b.improvement, a.improvement)
  }

  lemma ByImprovementPreorder()
    ensures Sorting.TotalPreorder(ByImprovement)
  {
  }

  predicate HasData(e: Entry)
  {
    e.latestValue.Some?
  }

  function Entries(players: seq<Player>, metricId: string): (es: seq<Entry>)
    ensures |es| == |players|
    ensures forall i :: 0 <= i < |players| ==> es[i] == PlayerEntry(players[i], metricId)
  {
    seq(|players|, i requires 0 <= i < |players| => PlayerEntry(players[i], metricId))
  }

  lemma EntriesOnBoard(players: seq<Player>, metricId: string, r: seq<Entry>)
    requires r == Take(Sorting.Sort(Filter(Entries(players, metricId), HasData), ByImprovement), 5)
    ensures forall i :: 0 <= i < |r| ==> HasData(r[i]) && r[i].player in players
  {
    var withData := Filter(Entries(players, metricId), HasData);
    Sorting.TakeOfSortMembers(withData, ByImprovement, 5);
    forall i | 0 <= i < |r|
      ensures HasData(r[i]) && r[i].player in players
    {
      var j :| 0 <= j < |withData| && withData[j] == r[i];
      EntryOfPlayer(players, metricId, r[i]);
    }
  }

  lemma EntryOfPlayer(players: seq<Player>, metricId: string, e: Entry)
    requires e in Entries(players, metricId)
    ensures e.player in players
  {
    var es := Entries(players, metricId);
    var k :| 0 <= k < |es| && es[k] == e;
    assert es[k].player == players[k];
  }

  /** `leaderboardData` */
  function Leaderboard(players: seq<Player>, metricId: string): (r: seq<Entry>)
    ensures |r| <= 5
    ensures forall i :: 0 <= i < |r| ==> HasData(r[i]) && r[i].player in players
  {
    var r := Take(Sorting.Sort(Filter(Entries(players, metricId), HasData), ByImprovement), 5);
    EntriesOnBoard(players, metricId, r);
    r
  }

  lemma LeaderboardIsTop(players: seq<Player>, metricId: string)
    ensures var withData := Filter(Entries(players, metricId), HasData);
            Leaderboard(players, metricId) ==
              Sorting.Sort(withData, ByImprovement)[..if |withData| < 5 then |withData| else 5]
  {
  }

  /** Players without a measurement of the metric are dropped, and at most
      five of the others are listed. */
  lemma LeaderboardEntries(players: seq<Player>, metricId: string)
    ensures var withData := Filter(Entries(players, metricId), HasData);
            var r := Leaderboard(players, metricId);
            |r| == (if |withData| < 5 then |withData| else 5) &&
            forall i :: 0 <= i < |r| ==> HasData(r[i]) && r[i] in Entries(players, metricId)
  {
    var es := Entries(players, metricId);
    var withData := Filter(es, HasData);
    var r := Leaderboard(players, metricId);
    Sorting.TakeOfSortMembers(withData, ByImprovement, 5);
    forall i | 0 <= i < |r|
      ensures r[i] in es
    {
      var j :| 0 <= j < |withData| && withData[j] == r[i];
    }
  }

  /** The board lists the highest improvement first. */
  lemma LeaderboardOrder(players: seq<Player>, metricId: string)
    ensures var r := Leaderboard(players, metricId);
            forall i, j :: 0 <= i < j < |r| ==> CoachBoard.KeyLe(r[j].improvement, r[i].improvement)
  {
    var withData := Filter(Entries(players, metricId), HasData);
    var r := Leaderboard(players, metricId);
    LeaderboardIsTop(players, metricId);
    ByImprovementPreorder();
    Sorting.TopOfSort(withData, ByImprovement, 5);
    forall i, j | 0 <= i < j < |r|
      ensures CoachBoard.KeyLe(r[j].improvement, r[i].improvement)
    {
      assert ByImprovement(r[i], r[j]);
    }
  }

  /** Every player with data who is left out has no higher improvement than
      the last one shown. */
  lemma LeaderboardTop(players: seq<Player>, metricId: string)
    ensures var withData := Filter(Entries(players, metricId), HasData);
            var r := Leaderboard(players, metricId);
            forall k :: 0 <= k < |withData| && withData[k] !in r ==>
              |r| > 0 && CoachBoard.KeyLe(withData[k].improvement, r[|r| - 1].improvement)
  {
    var withData := Filter(Entries(players, metricId), HasData);
    var r := Leaderboard(players, metricId);
    LeaderboardIsTop(players, metricId);
    ByImprovementPreorder();
    Sorting.TopOfSort(withData, ByImprovement, 5);
    forall k | 0 <= k < |withData| && withData[k] !in r
      ensures |r| > 0 && CoachBoard.KeyLe(withData[k].improvement, r[|r| - 1].improvement)
    {
      assert ByImprovement(r[|r| - 1], withData[k]);
    }
  }

  /** A player is on the board only when they have a measurement of the metric. */
  lemma LeaderboardHasData(players: seq<Player>, metricId: string, k: int)
    requires 0 <= k < |players| && PlayerEntry(players[k], metricId) in Leaderboard(players, metricId)
    ensures exists j :: 0 <= j < |players[k].measurements| && players[k].measurements[j].metricId == metricId
  {
    LeaderboardEntries(players, metricId);
    PlayerEntryHasData(players[k], metricId);
  }

  /** `hasCompletedTodaysSurvey`: some survey of the player falls on today's
      calendar day; false while no player is loaded. */
  function HasCompletedTodaysSurvey(player: Option<Player>, now: Instant): (b: bool)
    ensures b <==> player.Some? &&
                   exists i :: 0 <= i < |player.value.dailySurveys| &&
                     DayOf(player.value.dailySurveys[i].date) == DayOf(now)
  {
    player.Some? && Any(player.value.dailySurveys, (s: DailySurvey) => DayOf(s.date) == DayOf(now))
  }

  /** After the store records a survey for the player, the dashboard sees
      today's survey as done, whenever it is checked on the same day. */
  lemma SubmittedSurveyCompletes(p: Player, answers: map<string, Value>, submitted: Instant, now: Instant)
    requires DayOf(submitted) == DayOf(now)
    ensures HasCompletedTodaysSurvey(Some(Store.WithSurvey(answers, submitted)(p)), now)
  {
    Store.SurveyReplacesToday(p, answers, submitted);
    var ss := Store.WithSurvey(answers, submitted)(p).dailySurveys;
    assert DayOf(ss[|ss| - 1].date) == DayOf(now);
  }

  predicate IsPublic(n: Note)
  {
    n.isPublic
  }

  /** `publicNotes`: the public notes, the most recently stored first. */
  function PublicNotes(player: Option<Player>): (r: seq<Note>)
    ensures player.None? ==> r == []
    ensures player.Some? ==> forall n :: n in r <==> n in player.value.notes && n.isPublic
  {
    if player.None? then []
    else
      var f := Filter(player.value.notes, IsPublic);
      ReverseMembers(f);
      Reverse(f)
  }

  /** The public notes are shown in the reverse of their stored order. */
  lemma PublicNotesReversed(p: Player)
    ensures var f := Filter(p.notes, IsPublic);
            var r := PublicNotes(Some(p));
            |r| == |f| && forall i :: 0 <= i < |r| ==> r[i] == f[|f| - 1 - i]
  {
    MirrorOfReverse(Filter(p.notes, IsPublic), PublicNotes(Some(p)));
  }

  lemma MirrorOfReverse(f: seq<Note>, r: seq<Note>)
    requires r == Reverse(f)
    ensures |r| == |f| && forall i :: 0 <= i < |r| ==> r[i] == f[|f| - 1 - i]
  {
  }

  /** The first public note shown is the last one stored. */
  lemma PublicNotesNewestFirst(p: Player, k: int)
    requires 0 <= k < |p.notes| && p.notes[k].isPublic
    requires forall j :: k < j < |p.notes| ==> !p.notes[j].isPublic
    ensures PublicNotes(Some(p)) != [] && PublicNotes(Some(p))[0] == p.notes[k]
  {
    var f := IsPublic;
    var ns := p.notes;
    assert ns == ns[..k] + [ns[k]] + ns[k + 1..];
    FilterAppend(ns[..k] + [ns[k]], ns[k + 1..], f);
    FilterAppend(ns[..k], [ns[k]], f);
    assert [ns[k]][1..] == [];
    FilterNone(ns[k + 1..], f);
  }
}
