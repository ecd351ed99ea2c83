/** The in-memory record store that answers API calls when no backend is
    configured (the mock branches of services/api.ts). Four module-level
    tables (players, metrics, survey questions, schedule events) are
    replaced by each operation; lookups and updates go by id. Values are
    immutable here, so the deep copy the store hands back to callers is
    implicit. Timestamps and `Date.now()` ids are parameters. */
module Store {
  import opened Seqs
  import opened Types
  import Sorting
  import Text
  import Dates
  import Latest

  /** `s.map(step(x)[0])`, where `step` also says what the callback recorded. */
  function Mapped<T, U>(s: seq<T>, step: T -> (T, Option<U>)): (r: seq<T>)
    ensures |r| == |s|
    ensures forall i :: 0 <= i < |s| ==> r[i] == step(s[i]).0
  {
    seq(|s|, i requires 0 <= i < |s| => step(s[i]).0)
  }

  /** What `let updated; s.map(...)` leaves in `updated`: the record of the
      last element whose callback recorded one. */
  function LastSome<T, U>(s: seq<T>, step: T -> (T, Option<U>)): Option<U>
    decreases |s|
  {
    if s == [] then None
    else if step(s[|s| - 1]).1.Some? then step(s[|s| - 1]).1
    else LastSome(s[..|s| - 1], step)
  }

  /** The callback `x => matches(x) ? (updated = f(x)) : x`. */
  function Matching<T>(matches: T -> bool, f: T -> T): T -> (T, Option<T>)
  {
    (x: T) => if matches(x) then (f(x), Some(f(x))) else (x, None)
  }

  /** `if (!updated) throw new Error(msg)` */
  function OrError<T>(o: Option<T>, msg: string): (r: Result<T>)
    ensures o.None? <==> r == Err(msg)
    ensures o.Some? ==> r == Ok(o.value)
  {
    match o
    case None => Err(msg)
    case Some(x) => Ok(x)
  }

  /** `??`, and the `...updates` spread for one field: the new value when present. */
  function Or<T>(o: Option<T>, d: T): T
  {
    if o.Some? then o.value else d
  }

  /** Mapping with a matching callback updates exactly the matching elements. */
  lemma MatchingMapped<T>(s: seq<T>, matches: T -> bool, f: T -> T)
    ensures var r := Mapped(s, Matching(matches, f));
            |r| == |s| && forall i :: 0 <= i < |s| ==> r[i] == if matches(s[i]) then f(s[i]) else s[i]
  {
  }

  /** The recorded update is `f` of the last matching element, and there is
      none exactly when nothing matches. */
  lemma {:induction false} MatchingLast<T>(s: seq<T>, matches: T -> bool, f: T -> T)
    ensures LastSome(s, Matching(matches, f)).None? <==> forall i :: 0 <= i < |s| ==> !matches(s[i])
    ensures LastSome(s, Matching(matches, f)).Some? ==>
              exists i :: 0 <= i < |s| && matches(s[i]) && LastSome(s, Matching(matches, f)).value == f(s[i]) &&
                          forall j :: i < j < |s| ==> !matches(s[j])
    decreases |s|
  {
    if s != [] {
      var init := s[..|s| - 1];
      var step := Matching(matches, f);
      MatchingLast(init, matches, f);
      assert forall i :: 0 <= i < |init| ==> s[i] == init[i];
      if matches(s[|s| - 1]) {
        var i := |s| - 1;
        assert LastSome(s, step) == Some(f(s[i]));
      } else {
        assert LastSome(s, step) == LastSome(init, step);
        if LastSome(init, step).Some? {
          var i :| 0 <= i < |init| && matches(init[i]) && LastSome(init, step).value == f(init[i]) &&
                   forall j :: i < j < |init| ==> !matches(init[j]);
          assert forall j :: i < j < |s| ==> !matches(s[j]);
        }
      }
    }
  }

  /** Which elements the callback recorded for: none exactly when `LastSome` is `None`. */
  lemma {:induction false} LastSomeNone<T, U>(s: seq<T>, step: T -> (T, Option<U>))
    ensures LastSome(s, step).None? <==> forall i :: 0 <= i < |s| ==> step(s[i]).1.None?
    decreases |s|
  {
    if s != [] {
      var init := s[..|s| - 1];
      LastSomeNone(init, step);
      assert forall i :: 0 <= i < |init| ==> s[i] == init[i];
    }
  }

  /** The `let updated; table = table.map(callback)` idiom: a pass over the
      table that rebuilds it and remembers the last update. */
  method MapTracking<T, U>(s: seq<T>, step: T -> (T, Option<U>)) returns (r: seq<T>, updated: Option<U>)
    ensures r == Mapped(s, step)
    ensures updated == LastSome(s, step)
  {
    r := [];
    updated := None;
    var i := 0;
    while i < |s|
      invariant 0 <= i <= |s|
      invariant |r| == i && forall k :: 0 <= k < i ==> r[k] == step(s[k]).0
      invariant updated == LastSome(s[..i], step)
    {
      assert s[..i + 1][..i] == s[..i];
      var (x, rec) := step(s[i]);
      if rec.Some? {
        updated := rec;
      }
      r := r + [x];
      i := i + 1;
    }
    assert s[..i] == s;
  }

  // ----- Players -----

  function PlayerIs(id: string): Player -> bool
  {
    (p: Player) => p.id == id
  }

  function PlayerIsNot(id: string): Player -> bool
  {
    (p: Player) => p.id != id
  }

  function AnyPlayer(): Player -> bool
  {
    (p: Player) => true
  }

  function MeasurementId(now: nat, i: nat): string
  {
    "m-" + Text.NatToString(now) + "-" + Text.NatToString(i)
  }

  /** The new measurements with their ids `m-<now>-<i>`. */
  function WithIds(news: seq<NewMeasurement>, now: nat): (r: seq<Measurement>)
    ensures |r| == |news|
    ensures forall i :: 0 <= i < |news| ==>
              r[i] == Measurement(MeasurementId(now, i), news[i].metricId, news[i].value, news[i].date)
  {
    seq(|news|, i requires 0 <= i < |news| =>
      Measurement(MeasurementId(now, i), news[i].metricId, news[i].value, news[i].date))
  }

  /** `addMultipleMeasurements` on one player: old then new, sorted by date. */
  function AddingMeasurements(news: seq<NewMeasurement>, now: nat): Player -> Player
  {
    (p: Player) => p.(measurements := Sorting.Sort(p.measurements + WithIds(news, now), Latest.OlderFirst))
  }

  datatype MeasurementPatch = MeasurementPatch(metricId: Option<string>, value: Option<real>, date: Option<Instant>)

  function Patching(patch: MeasurementPatch): Measurement -> Measurement
  {
    (m: Measurement) => Measurement(m.id, Or(patch.metricId, m.metricId), Or(patch.value, m.value), Or(patch.date, m.date))
  }

  function MeasurementIs(id: string): Measurement -> bool
  {
    (m: Measurement) => m.id == id
  }

  function MeasurementIsNot(id: string): Measurement -> bool
  {
    (m: Measurement) => m.id != id
  }

  /** The callback of `updateMeasurement`: the player's measurements with the
      matching one patched, re-sorted by date; it records the patched one. */
  function MeasurementUpdate(playerId: string, measurementId: string, patch: MeasurementPatch)
    : Player -> (Player, Option<Measurement>)
  {
    (p: Player) =>
      if p.id == playerId then
        var ms := Mapped(p.measurements, Matching(MeasurementIs(measurementId), Patching(patch)));
        (p.(measurements := Sorting.Sort(ms, Latest.OlderFirst)),
         LastSome(p.measurements, Matching(MeasurementIs(measurementId), Patching(patch))))
      else (p, None)
  }

  function RemovingMeasurement(measurementId: string): Player -> Player
  {
    (p: Player) => p.(measurements := Filter(p.measurements, MeasurementIsNot(measurementId)))
  }

  /** The player a survey of user `userId` goes to: the player bearing that
      user's name, else the id itself (`?.id || playerId`). */
  function SurveyTarget(users: seq<User>, players: seq<Player>, userId: string): string
  {
    match Find(users, (u: User) => u.id == userId)
    case None => userId
    case Some(u) =>
      match Find(players, (p: Player) => p.name == u.name)
      case Some(p) => if p.id != "" then p.id else userId
      case None => userId
  }

  function OtherDay(now: Instant): DailySurvey -> bool
  {
    (s: DailySurvey) => DayOf(s.date) != DayOf(now)
  }

  /** `{ ...surveyData, date: now }`: the timestamp overrides an answer named `date`. */
  function NewSurvey(answers: map<string, Value>, now: Instant): DailySurvey
  {
    DailySurvey(now, answers - {"date"})
  }

  /** `submitDailySurvey` on one player: the surveys of other days, then the new one. */
  function WithSurvey(answers: map<string, Value>, now: Instant): (f: Player -> Player)
    ensures forall p: Player :: var q := f(p);
              q == p.(dailySurveys := q.dailySurveys) && |q.dailySurveys| > 0 &&
              q.dailySurveys[|q.dailySurveys| - 1] == NewSurvey(answers, now)
  {
    (p: Player) => p.(dailySurveys := Filter(p.dailySurveys, OtherDay(now)) + [NewSurvey(answers, now)])
  }

  datatype InjuryInput = InjuryInput(description: string, estimatedRecovery: string, date: Instant)

  function InjuryId(now: nat): string
  {
    "injury-" + Text.NatToString(now)
  }

  /** `updateInjuryStatus` on one player: the active injury is closed in the
      history with today's recovery date; then a new injury, if given,
      becomes active and is appended to the history unless its id is there.
      Only the injury and the history change, the history grows by at most
      one entry, and an injury is active afterwards exactly when one is given. */
  function TransitionInjury(p: Player, data: Option<InjuryInput>, now: nat): (q: Player)
    ensures q == p.(injury := q.injury, injuryHistory := q.injuryHistory)
    ensures q.injury.Some? <==> data.Some?
    ensures q.injury.Some? ==> q.injury.value.recoveryDate.None?
    ensures |p.injuryHistory| <= |q.injuryHistory| <= |p.injuryHistory| + 1
  {
    var history :=
      if p.injury.Some? then
        var closed := p.injury.value.(recoveryDate := Some(now));
        Mapped(p.injuryHistory, Matching((h: Injury) => h.id == closed.id, (h: Injury) => closed))
      else p.injuryHistory;
    match data
    case None => p.(injury := None, injuryHistory := history)
    case Some(d) =>
      var started := Injury(InjuryId(now), d.description, d.estimatedRecovery, d.date, None);
      var kept := if Find(history, (h: Injury) => h.id == started.id).None? then history + [started] else history;
      p.(injury := Some(started), injuryHistory := kept)
  }

  function InjuryTransition(data: Option<InjuryInput>, now: nat): Player -> Player
  {
    (p: Player) => TransitionInjury(p, data, now)
  }

  datatype InjuryPatch = InjuryPatch(description: Option<string>, estimatedRecovery: Option<string>)

  function PatchingHistory(injuryId: string, patch: InjuryPatch): Player -> Player
  {
    (p: Player) => p.(injuryHistory := Mapped(p.injuryHistory, Matching(
      (h: Injury) => h.id == injuryId,
      (h: Injury) => h.(description := Or(patch.description, h.description),
                        estimatedRecovery := Or(patch.estimatedRecovery, h.estimatedRecovery)))))
  }

  function RemovingInjury(injuryId: string): Player -> Player
  {
    (p: Player) => p.(injuryHistory := Filter(p.injuryHistory, (h: Injury) => h.id != injuryId))
  }

  datatype NoteInput = NoteInput(text: string, date: Instant, isPublic: bool, authorId: string)

  function NewNote(playerId: string, input: NoteInput, now: nat): (n: Note)
    ensures n.playerId == playerId && n.text == input.text && n.date == input.date
    ensures n.isPublic == input.isPublic && n.authorId == input.authorId
  {
    Note("note-" + Text.NatToString(now), playerId, input.text, input.date, input.isPublic, input.authorId)
  }

  function AppendingNote(note: Note): Player -> Player
  {
    (p: Player) => p.(notes := p.notes + [note])
  }

  datatype NotePatch = NotePatch(text: Option<string>, isPublic: Option<bool>)

  /** `notes.findIndex(n => n.id === id)`, -1 when absent. */
  function NoteIndex(notes: seq<Note>, noteId: string): (k: int)
    ensures -1 <= k < |notes|
    ensures k == -1 <==> forall j :: 0 <= j < |notes| ==> notes[j].id != noteId
    ensures k >= 0 ==> notes[k].id == noteId && forall j :: 0 <= j < k ==> notes[j].id != noteId
  {
    if notes == [] then -1
    else if notes[0].id == noteId then 0
    else
      var k := NoteIndex(notes[1..], noteId);
      if k == -1 then -1 else k + 1
  }

  function PatchNote(n: Note, patch: NotePatch): Note
  {
    n.(text := Or(patch.text, n.text), isPublic := Or(patch.isPublic, n.isPublic))
  }

  /** The callback of `updatePlayerNote`: in every player, the first note with the id is patched. */
  function NoteUpdate(noteId: string, patch: NotePatch): (f: Player -> (Player, Option<Note>))
    ensures forall p :: var (q, rec) := f(p);
              q == p.(notes := q.notes) && |q.notes| == |p.notes| &&
              (rec.Some? <==> exists k :: 0 <= k < |p.notes| && p.notes[k].id == noteId)
  {
    (p: Player) =>
      var k := NoteIndex(p.notes, noteId);
      if k > -1 then
        var n := PatchNote(p.notes[k], patch);
        (p.(notes := p.notes[k := n]), Some(n))
      else (p, None)
  }

  function RemovingNote(noteId: string): Player -> Player
  {
    (p: Player) => p.(notes := Filter(p.notes, (n: Note) => n.id != noteId))
  }

  /** The fields the profile page edits; an absent value clears the field. */
  datatype PlayerInfo = PlayerInfo(name: string, position: string, phone: Option<string>,
                                   email: Option<string>, birthDate: Option<Dates.CivilDate>)

  function WithInfo(info: PlayerInfo): Player -> Player
  {
    (p: Player) => p.(name := info.name, position := info.position, phone := info.phone,
                      email := info.email, birthDate := info.birthDate)
  }

  /** `addPlayer`: a player with an id and an avatar derived from the
      timestamp, and empty records. */
  function NewPlayer(info: PlayerInfo, now: nat): (p: Player)
    ensures p.measurements == [] && p.notes == [] && p.dailySurveys == [] && p.injury.None? && p.injuryHistory == []
    ensures WithInfo(info)(p) == p
  {
    var ts := Text.NatToString(now);
    Player("player-" + ts, info.name, "https://picsum.photos/seed/new" + ts + "/200/200", info.position,
           info.phone, info.email, info.birthDate, [], [], [], None, [])
  }

  // ----- Metrics -----

  function MetricIs(id: string): Metric -> bool
  {
    (m: Metric) => m.id == id
  }

  function MetricIsNot(id: string): Metric -> bool
  {
    (m: Metric) => m.id != id
  }

  /** `addMetric`: the id `metric-<now>` and `showInRadar` defaulting to false. */
  function NewMetric(input: Metric, now: nat): (m: Metric)
    ensures m == input.(id := m.id, showInRadar := m.showInRadar)
    ensures input.showInRadar.Some? ==> m.showInRadar == input.showInRadar
    ensures input.showInRadar.None? ==> m.showInRadar == Some(false)
  {
    input.(id := "metric-" + Text.NatToString(now), showInRadar := Some(Or(input.showInRadar, false)))
  }

  /** The keys present in `updates`; an optional field may be set to absent. */
  datatype MetricPatch = MetricPatch(
    name: Option<string>,
    unit: Option<string>,
    inputType: Option<MetricInputType>,
    formula: Option<Option<string>>,
    surveyQuestionKey: Option<Option<string>>,
    isActive: Option<bool>,
    showInRadar: Option<Option<bool>>)

  function PatchingMetric(patch: MetricPatch): Metric -> Metric
  {
    (m: Metric) => Metric(m.id, Or(patch.name, m.name), Or(patch.unit, m.unit), Or(patch.inputType, m.inputType),
                          Or(patch.formula, m.formula), Or(patch.surveyQuestionKey, m.surveyQuestionKey),
                          Or(patch.isActive, m.isActive), Or(patch.showInRadar, m.showInRadar))
  }

  // ----- Survey questions -----

  function QuestionIs(id: string): SurveyQuestion -> bool
  {
    (q: SurveyQuestion) => q.id == id
  }

  function QuestionIsNot(id: string): SurveyQuestion -> bool
  {
    (q: SurveyQuestion) => q.id != id
  }

  /** `addSurveyQuestion`: the id `sq-<now>`; an empty key becomes `custom_<now>`. */
  function NewQuestion(input: SurveyQuestion, now: nat): (q: SurveyQuestion)
    ensures q == input.(id := q.id, key := q.key)
    ensures q.key != ""
    ensures input.key != "" ==> q.key == input.key
  {
    input.(id := "sq-" + Text.NatToString(now),
           key := if input.key != "" then input.key else "custom_" + Text.NatToString(now))
  }

  datatype QuestionPatch = QuestionPatch(labelText: Option<string>, key: Option<string>,
                                         isActive: Option<bool>, questionType: Option<QuestionType>)

  function PatchingQuestion(patch: QuestionPatch): SurveyQuestion -> SurveyQuestion
  {
    (q: SurveyQuestion) => SurveyQuestion(q.id, Or(patch.labelText, q.labelText), Or(patch.key, q.key),
                                          Or(patch.isActive, q.isActive), Or(patch.questionType, q.questionType))
  }

  // ----- Schedule events -----

  function EventIs(id: string): ScheduleEvent -> bool
  {
    (e: ScheduleEvent) => e.id == id
  }

  function EventIsNot(id: string): ScheduleEvent -> bool
  {
    (e: ScheduleEvent) => e.id != id
  }

  function NewEvent(input: ScheduleEvent, now: nat): ScheduleEvent
  {
    input.(id := "event-" + Text.NatToString(now))
  }

  datatype EventPatch = EventPatch(
    date: Option<string>,
    time: Option<Option<string>>,
    title: Option<string>,
    description: Option<Option<string>>,
    isTeamEvent: Option<bool>,
    playerIds: Option<seq<string>>)

  function PatchingEvent(patch: EventPatch): ScheduleEvent -> ScheduleEvent
  {
    (e: ScheduleEvent) => ScheduleEvent(e.id, Or(patch.date, e.date), Or(patch.time, e.time), Or(patch.title, e.title),
                                        Or(patch.description, e.description), Or(patch.isTeamEvent, e.isTeamEvent),
                                        Or(patch.playerIds, e.playerIds))
  }

  /** The four tables and the fixed user list. */
  class MockStore {
    const users: seq<User>
    var players: seq<Player>
    var metrics: seq<Metric>
    var surveyQuestions: seq<SurveyQuestion>
    var events: seq<ScheduleEvent>

    constructor (users: seq<User>, players: seq<Player>, metrics: seq<Metric>,
                 surveyQuestions: seq<SurveyQuestion>, events: seq<ScheduleEvent>)
      ensures this.users == users && this.players == players && this.metrics == metrics
      ensures this.surveyQuestions == surveyQuestions && this.events == events
    {
      this.users := users;
      this.players := players;
      this.metrics := metrics;
      this.surveyQuestions := surveyQuestions;
      this.events := events;
    }

    /** `getPlayerDetails`: the first player with the id. */
    function PlayerDetails(id: string): (r: Option<Player>)
      reads this
      ensures r.None? <==> forall i :: 0 <= i < |players| ==> players[i].id != id
      ensures r.Some? ==> r.value in players && r.value.id == id
    {
      Find(players, PlayerIs(id))
    }

    method AddMultipleMeasurements(playerId: string, news: seq<NewMeasurement>, now: nat) returns (r: Result<Player>)
      modifies this
      ensures players == Mapped(old(players), Matching(PlayerIs(playerId), AddingMeasurements(news, now)))
      ensures r == OrError(LastSome(old(players), Matching(PlayerIs(playerId), AddingMeasurements(news, now))),
                           "Player not found")
      ensures metrics == old(metrics) && surveyQuestions == old(surveyQuestions) && events == old(events)
    {
      var updated;
      players, updated := MapTracking(players, Matching(PlayerIs(playerId), AddingMeasurements(news, now)));
      r := OrError(updated, "Player not found");
    }

    /** The table is replaced even when no measurement matched (the player's
        list is re-sorted); the error is raised afterwards. */
    method UpdateMeasurement(playerId: string, measurementId: string, patch: MeasurementPatch)
      returns (r: Result<Measurement>)
      modifies this
      ensures players == Mapped(old(players), MeasurementUpdate(playerId, measurementId, patch))
      ensures r == OrError(LastSome(old(players), MeasurementUpdate(playerId, measurementId, patch)),
                           "Measurement not found")
      ensures metrics == old(metrics) && surveyQuestions == old(surveyQuestions) && events == old(events)
    {
      var updated;
      players, updated := MapTracking(players, MeasurementUpdate(playerId, measurementId, patch));
      r := OrError(updated, "Measurement not found");
    }

    method DeleteMeasurement(playerId: string, measurementId: string)
      modifies this
      ensures players == Mapped(old(players), Matching(PlayerIs(playerId), RemovingMeasurement(measurementId)))
      ensures metrics == old(metrics) && surveyQuestions == old(surveyQuestions) && events == old(events)
    {
      players := Mapped(players, Matching(PlayerIs(playerId), RemovingMeasurement(measurementId)));
    }

    method SubmitDailySurvey(userId: string, answers: map<string, Value>, now: Instant)
      modifies this
      ensures players == Mapped(old(players), Matching(PlayerIs(SurveyTarget(users, old(players), userId)),
                                                        WithSurvey(answers, now)))
      ensures metrics == old(metrics) && surveyQuestions == old(surveyQuestions) && events == old(events)
    {
      var target := SurveyTarget(users, players, userId);
      players := Mapped(players, Matching(PlayerIs(target), WithSurvey(answers, now)));
    }

    method UpdateInjuryStatus(playerId: string, data: Option<InjuryInput>, now: nat) returns (r: Result<Player>)
      modifies this
      ensures players == Mapped(old(players), Matching(PlayerIs(playerId), InjuryTransition(data, now)))
      ensures r == OrError(LastSome(old(players), Matching(PlayerIs(playerId), InjuryTransition(data, now))),
                           "Player not found")
      ensures metrics == old(metrics) && surveyQuestions == old(surveyQuestions) && events == old(events)
    {
      var updated;
      players, updated := MapTracking(players, Matching(PlayerIs(playerId), InjuryTransition(data, now)));
      r := OrError(updated, "Player not found");
    }

    method UpdateInjuryHistory(playerId: string, injuryId: string, patch: InjuryPatch) returns (r: Result<Player>)
      modifies this
      ensures players == Mapped(old(players), Matching(PlayerIs(playerId), PatchingHistory(injuryId, patch)))
      ensures r == OrError(LastSome(old(players), Matching(PlayerIs(playerId), PatchingHistory(injuryId, patch))),
                           "Player not found")
      ensures metrics == old(metrics) && surveyQuestions == old(surveyQuestions) && events == old(events)
    {
      var updated;
      players, updated := MapTracking(players, Matching(PlayerIs(playerId), PatchingHistory(injuryId, patch)));
      r := OrError(updated, "Player not found");
    }

    method DeleteInjuryHistory(playerId: string, injuryId: string) returns (r: Result<Player>)
      modifies this
      ensures players == Mapped(old(players), Matching(PlayerIs(playerId), RemovingInjury(injuryId)))
      ensures r == OrError(LastSome(old(players), Matching(PlayerIs(playerId), RemovingInjury(injuryId))),
                           "Player not found")
      ensures metrics == old(metrics) && surveyQuestions == old(surveyQuestions) && events == old(events)
    {
      var updated;
      players, updated := MapTracking(players, Matching(PlayerIs(playerId), RemovingInjury(injuryId)));
      r := OrError(updated, "Player not found");
    }

    /** The note is returned even when no player has the id. */
    method AddPlayerNote(playerId: string, input: NoteInput, now: nat) returns (note: Note)
      modifies this
      ensures note == NewNote(playerId, input, now)
      ensures players == Mapped(old(players), Matching(PlayerIs(playerId), AppendingNote(note)))
      ensures metrics == old(metrics) && surveyQuestions == old(surveyQuestions) && events == old(events)
    {
      note := NewNote(playerId, input, now);
      players := Mapped(players, Matching(PlayerIs(playerId), AppendingNote(note)));
    }

    method UpdatePlayerNote(noteId: string, patch: NotePatch) returns (r: Result<Note>)
      modifies this
      ensures players == Mapped(old(players), NoteUpdate(noteId, patch))
      ensures r == OrError(LastSome(old(players), NoteUpdate(noteId, patch)), "Note not found")
      ensures metrics == old(metrics) && surveyQuestions == old(surveyQuestions) && events == old(events)
    {
      var updated;
      players, updated := MapTracking(players, NoteUpdate(noteId, patch));
      r := OrError(updated, "Note not found");
    }

    method DeletePlayerNote(noteId: string)
      modifies this
      ensures players == Mapped(old(players), Matching(AnyPlayer(), RemovingNote(noteId)))
      ensures metrics == old(metrics) && surveyQuestions == old(surveyQuestions) && events == old(events)
    {
      players := Mapped(players, Matching(AnyPlayer(), RemovingNote(noteId)));
    }

    method UpdatePlayerInfo(playerId: string, info: PlayerInfo) returns (r: Result<Player>)
      modifies this
      ensures players == Mapped(old(players), Matching(PlayerIs(playerId), WithInfo(info)))
      ensures r == OrError(LastSome(old(players), Matching(PlayerIs(playerId), WithInfo(info))), "Player not found")
      ensures metrics == old(metrics) && surveyQuestions == old(surveyQuestions) && events == old(events)
    {
      var updated;
      players, updated := MapTracking(players, Matching(PlayerIs(playerId), WithInfo(info)));
      r := OrError(updated, "Player not found");
    }

    method AddPlayer(info: PlayerInfo, now: nat) returns (p: Player)
      modifies this
      ensures p == NewPlayer(info, now)
      ensures players == old(players) + [p]
      ensures metrics == old(metrics) && surveyQuestions == old(surveyQuestions) && events == old(events)
    {
      p := NewPlayer(info, now);
      players := players + [p];
    }

    method DeletePlayer(playerId: string)
      modifies this
      ensures players == Filter(old(players), PlayerIsNot(playerId))
      ensures metrics == old(metrics) && surveyQuestions == old(surveyQuestions) && events == old(events)
    {
      players := Filter(players, PlayerIsNot(playerId));
    }

    method AddMetric(input: Metric, now: nat) returns (m: Metric)
      modifies this
      ensures m == NewMetric(input, now)
      ensures metrics == old(metrics) + [m]
      ensures players == old(players) && surveyQuestions == old(surveyQuestions) && events == old(events)
    {
      m := NewMetric(input, now);
      metrics := metrics + [m];
    }

    method UpdateMetric(metricId: string, patch: MetricPatch) returns (r: Result<Metric>)
      modifies this
      ensures metrics == Mapped(old(metrics), Matching(MetricIs(metricId), PatchingMetric(patch)))
      ensures r == OrError(LastSome(old(metrics), Matching(MetricIs(metricId), PatchingMetric(patch))),
                           "Metric not found")
      ensures players == old(players) && surveyQuestions == old(surveyQuestions) && events == old(events)
    {
      var updated;
      metrics, updated := MapTracking(metrics, Matching(MetricIs(metricId), PatchingMetric(patch)));
      r := OrError(updated, "Metric not found");
    }

    method DeleteMetric(metricId: string)
      modifies this
      ensures metrics == Filter(old(metrics), MetricIsNot(metricId))
      ensures players == old(players) && surveyQuestions == old(surveyQuestions) && events == old(events)
    {
      metrics := Filter(metrics, MetricIsNot(metricId));
    }

    method AddSurveyQuestion(input: SurveyQuestion, now: nat) returns (q: SurveyQuestion)
      modifies this
      ensures q == NewQuestion(input, now)
      ensures surveyQuestions == old(surveyQuestions) + [q]
      ensures players == old(players) && metrics == old(metrics) && events == old(events)
    {
      q := NewQuestion(input, now);
      surveyQuestions := surveyQuestions + [q];
    }

    method UpdateSurveyQuestion(questionId: string, patch: QuestionPatch) returns (r: Result<SurveyQuestion>)
      modifies this
      ensures surveyQuestions == Mapped(old(surveyQuestions), Matching(QuestionIs(questionId), PatchingQuestion(patch)))
      ensures r == OrError(LastSome(old(surveyQuestions), Matching(QuestionIs(questionId), PatchingQuestion(patch))),
                           "Survey question not found")
      ensures players == old(players) && metrics == old(metrics) && events == old(events)
    {
      var updated;
      surveyQuestions, updated := MapTracking(surveyQuestions, Matching(QuestionIs(questionId), PatchingQuestion(patch)));
      r := OrError(updated, "Survey question not found");
    }

    method DeleteSurveyQuestion(questionId: string)
      modifies this
      ensures surveyQuestions == Filter(old(surveyQuestions), QuestionIsNot(questionId))
      ensures players == old(players) && metrics == old(metrics) && events == old(events)
    {
      surveyQuestions := Filter(surveyQuestions, QuestionIsNot(questionId));
    }

    method AddScheduleEvent(input: ScheduleEvent, now: nat) returns (e: ScheduleEvent)
      modifies this
      ensures e == NewEvent(input, now)
      ensures events == old(events) + [e]
      ensures players == old(players) && metrics == old(metrics) && surveyQuestions == old(surveyQuestions)
    {
      e := NewEvent(input, now);
      events := events + [e];
    }

    method UpdateScheduleEvent(eventId: string, patch: EventPatch) returns (r: Result<ScheduleEvent>)
      modifies this
      ensures events == Mapped(old(events), Matching(EventIs(eventId), PatchingEvent(patch)))
      ensures r == OrError(LastSome(old(events), Matching(EventIs(eventId), PatchingEvent(patch))), "Event not found")
      ensures players == old(players) && metrics == old(metrics) && surveyQuestions == old(surveyQuestions)
    {
      var updated;
      events, updated := MapTracking(events, Matching(EventIs(eventId), PatchingEvent(patch)));
      r := OrError(updated, "Event not found");
    }

    method DeleteScheduleEvent(eventId: string)
      modifies this
      ensures events == Filter(old(events), EventIsNot(eventId))
      ensures players == old(players) && metrics == old(metrics) && surveyQuestions == old(surveyQuestions)
    {
      events := Filter(events, EventIsNot(eventId));
    }
  }

  // ---------------------------------------------------------------------------
  // Properties of the table updates.

  /** `addMultipleMeasurements` on the target player: the list is old ++ new
      (as a multiset), sorted oldest first, and nothing else changes. */
  lemma AddedMeasurements(p: Player, news: seq<NewMeasurement>, now: nat)
    ensures var q := AddingMeasurements(news, now)(p);
            q == p.(measurements := q.measurements) &&
            Sorting.Sorted(q.measurements, Latest.OlderFirst) &&
            multiset(q.measurements) == multiset(p.measurements) + multiset(WithIds(news, now)) &&
            |q.measurements| == |p.measurements| + |news|
  {
    Latest.OlderFirstPreorder();
    Sorting.SortSorted(p.measurements + WithIds(news, now), Latest.OlderFirst);
  }

  /** The ids of one batch are pairwise distinct. */
  lemma MeasurementIdsDistinct(now: nat, i: nat, j: nat)
    requires i != j
    ensures MeasurementId(now, i) != MeasurementId(now, j)
  {
    var pre := "m-" + Text.NatToString(now) + "-";
    assert MeasurementId(now, i) == pre + Text.NatToString(i);
    assert MeasurementId(now, j) == pre + Text.NatToString(j);
    if MeasurementId(now, i) == MeasurementId(now, j) {
      assert (pre + Text.NatToString(i))[|pre|..] == Text.NatToString(i);
      assert (pre + Text.NatToString(j))[|pre|..] == Text.NatToString(j);
      Text.NatToStringValue(i);
      Text.NatToStringValue(j);
    }
  }

  /** An update by id touches exactly the matching elements; the recorded
      update, whose absence is the "not found" error, is that of the last match. */
  lemma UpdateById<T>(s: seq<T>, matches: T -> bool, f: T -> T, msg: string)
    ensures var r := Mapped(s, Matching(matches, f));
            |r| == |s| && forall i :: 0 <= i < |s| ==> r[i] == if matches(s[i]) then f(s[i]) else s[i]
    ensures OrError(LastSome(s, Matching(matches, f)), msg) == Err(msg) <==>
            forall i :: 0 <= i < |s| ==> !matches(s[i])
    ensures OrError(LastSome(s, Matching(matches, f)), msg).Ok? ==>
              exists i :: 0 <= i < |s| && matches(s[i]) && OrError(LastSome(s, Matching(matches, f)), msg).value == f(s[i])
  {
    MatchingLast(s, matches, f);
  }

  /** `updateMeasurement` on the target player: the matching measurements are
      patched in place (keeping their ids), the list is re-sorted by date
      whether or not one matched, and the update is recorded exactly when one matched. */
  lemma UpdatedMeasurements(p: Player, playerId: string, measurementId: string, patch: MeasurementPatch)
    requires p.id == playerId
    ensures var (q, rec) := MeasurementUpdate(playerId, measurementId, patch)(p);
            var patched := Mapped(p.measurements, Matching(MeasurementIs(measurementId), Patching(patch)));
            q == p.(measurements := q.measurements) &&
            Sorting.Sorted(q.measurements, Latest.OlderFirst) &&
            multiset(q.measurements) == multiset(patched) &&
            (forall i :: 0 <= i < |patched| ==>
               patched[i].id == p.measurements[i].id &&
               patched[i] == if p.measurements[i].id == measurementId then Patching(patch)(p.measurements[i])
                             else p.measurements[i]) &&
            (rec.None? <==> forall i :: 0 <= i < |p.measurements| ==> p.measurements[i].id != measurementId)
  {
    var patched := Mapped(p.measurements, Matching(MeasurementIs(measurementId), Patching(patch)));
    Latest.OlderFirstPreorder();
    Sorting.SortSorted(patched, Latest.OlderFirst);
    MatchingLast(p.measurements, MeasurementIs(measurementId), Patching(patch));
  }

  /** "Measurement not found" is raised exactly when no measurement of the
      target player has the id; other players never record an update. */
  lemma UpdateMeasurementFails(players: seq<Player>, playerId: string, measurementId: string, patch: MeasurementPatch)
    ensures LastSome(players, MeasurementUpdate(playerId, measurementId, patch)).None? <==>
            forall i, k :: 0 <= i < |players| && players[i].id == playerId && 0 <= k < |players[i].measurements| ==>
                             players[i].measurements[k].id != measurementId
    ensures forall i :: 0 <= i < |players| && players[i].id != playerId ==>
              Mapped(players, MeasurementUpdate(playerId, measurementId, patch))[i] == players[i]
  {
    var step := MeasurementUpdate(playerId, measurementId, patch);
    LastSomeNone(players, step);
    forall i | 0 <= i < |players| && players[i].id == playerId
      ensures step(players[i]).1.None? <==>
              forall k :: 0 <= k < |players[i].measurements| ==> players[i].measurements[k].id != measurementId
    {
      MatchingLast(players[i].measurements, MeasurementIs(measurementId), Patching(patch));
    }
  }

  /** `deleteMeasurement`: the target player keeps exactly the measurements
      with another id, in order; everything else is unchanged. */
  lemma DeletedMeasurement(players: seq<Player>, playerId: string, measurementId: string)
    ensures var r := Mapped(players, Matching(PlayerIs(playerId), RemovingMeasurement(measurementId)));
            |r| == |players| &&
            forall i :: 0 <= i < |players| ==>
              if players[i].id != playerId then r[i] == players[i]
              else r[i] == players[i].(measurements := Filter(players[i].measurements, MeasurementIsNot(measurementId))) &&
                   (forall m :: m in r[i].measurements <==> m in players[i].measurements && m.id != measurementId)
  {
    var r := Mapped(players, Matching(PlayerIs(playerId), RemovingMeasurement(measurementId)));
    forall i | 0 <= i < |players| && players[i].id == playerId
      ensures forall m :: m in r[i].measurements <==> m in players[i].measurements && m.id != measurementId
    {
      var ms := players[i].measurements;
      var f := Filter(ms, MeasurementIsNot(measurementId));
      assert forall k :: 0 <= k < |f| ==> f[k] in ms && MeasurementIsNot(measurementId)(f[k]);
      assert forall k :: 0 <= k < |ms| && MeasurementIsNot(measurementId)(ms[k]) ==> ms[k] in f;
    }
  }

  /** `submitDailySurvey` on the target player: the last survey is the new
      one, it is the only one on today's calendar day, and every survey of
      another day is kept; the answers' own `date` is overridden. */
  lemma SurveyReplacesToday(p: Player, answers: map<string, Value>, now: Instant)
    ensures var ss := WithSurvey(answers, now)(p).dailySurveys;
            WithSurvey(answers, now)(p) == p.(dailySurveys := ss) &&
            |ss| > 0 && ss[|ss| - 1] == NewSurvey(answers, now) && "date" !in ss[|ss| - 1].answers &&
            (forall i :: 0 <= i < |ss| && DayOf(ss[i].date) == DayOf(now) ==> i == |ss| - 1) &&
            (forall i :: 0 <= i < |ss| - 1 ==> ss[i] in p.dailySurveys) &&
            (forall s :: s in p.dailySurveys && DayOf(s.date) != DayOf(now) ==> s in ss)
  {
    var f := Filter(p.dailySurveys, OtherDay(now));
    var ss := f + [NewSurvey(answers, now)];
    assert forall i :: 0 <= i < |f| ==> ss[i] == f[i] && OtherDay(now)(f[i]);
    forall s | s in p.dailySurveys && DayOf(s.date) != DayOf(now)
      ensures s in ss
    {
      var k :| 0 <= k < |p.dailySurveys| && p.dailySurveys[k] == s;
      assert OtherDay(now)(p.dailySurveys[k]);
    }
  }

  /** The target of a survey is the given id or the id of an existing player. */
  lemma SurveyTargetExists(users: seq<User>, players: seq<Player>, userId: string)
    ensures SurveyTarget(users, players, userId) == userId ||
            exists i :: 0 <= i < |players| && players[i].id == SurveyTarget(users, players, userId)
  {
    var u := Find(users, (u: User) => u.id == userId);
    if u.Some? {
      var pl := Find(players, (p: Player) => p.name == u.value.name);
      if pl.Some? {
        var i :| 0 <= i < |players| && players[i] == pl.value;
      }
    }
  }

  /** `updateInjuryStatus` on the target player. The active injury, if any,
      becomes closed (recovered now) wherever its id occurs in the history;
      new data opens a fresh active injury, appended to the history exactly
      when no entry has its id yet; without data no injury is active. */
  lemma InjuryTransitionEffect(p: Player, data: Option<InjuryInput>, now: nat)
    ensures var q := InjuryTransition(data, now)(p);
            var n := |p.injuryHistory|;
            q == p.(injury := q.injury, injuryHistory := q.injuryHistory) &&
            n <= |q.injuryHistory| <= n + 1 &&
            (forall i :: 0 <= i < n ==>
               q.injuryHistory[i] == if p.injury.Some? && p.injuryHistory[i].id == p.injury.value.id
                                     then p.injury.value.(recoveryDate := Some(now)) else p.injuryHistory[i]) &&
            (data.None? ==> q.injury.None? && |q.injuryHistory| == n) &&
            (data.Some? ==>
               q.injury == Some(Injury(InjuryId(now), data.value.description, data.value.estimatedRecovery,
                                       data.value.date, None)) &&
               (|q.injuryHistory| == n + 1 <==> forall i :: 0 <= i < n ==> p.injuryHistory[i].id != InjuryId(now)) &&
               (|q.injuryHistory| == n + 1 ==> q.injuryHistory[n] == q.injury.value))
  {
    var history :=
      if p.injury.Some? then
        var closed := p.injury.value.(recoveryDate := Some(now));
        Mapped(p.injuryHistory, Matching((h: Injury) => h.id == closed.id, (h: Injury) => closed))
      else p.injuryHistory;
    assert |history| == |p.injuryHistory|;
    assert forall i :: 0 <= i < |history| ==> history[i].id == p.injuryHistory[i].id;
  }

  /** `findIndex`'s partner: the note found is the first with the id. */
  lemma {:induction false} NoteIndexFirst(notes: seq<Note>, noteId: string, k: int)
    requires 0 <= k < |notes| && notes[k].id == noteId
    ensures 0 <= NoteIndex(notes, noteId) <= k
  {
  }

  /** `updatePlayerNote` on one player: only the first note with the id is
      patched (the others, even with the same id, stay), and the update is
      recorded; without such a note the player is unchanged. */
  lemma NoteUpdateEffect(p: Player, noteId: string, patch: NotePatch)
    ensures var (q, rec) := NoteUpdate(noteId, patch)(p);
            var k := NoteIndex(p.notes, noteId);
            q == p.(notes := q.notes) && |q.notes| == |p.notes| &&
            (k == -1 ==> q == p && rec.None?) &&
            (k >= 0 ==> rec == Some(q.notes[k]) && q.notes[k].id == noteId &&
                        q.notes[k] == p.notes[k].(text := Or(patch.text, p.notes[k].text),
                                                  isPublic := Or(patch.isPublic, p.notes[k].isPublic)) &&
                        forall j :: 0 <= j < |p.notes| && j != k ==> q.notes[j] == p.notes[j])
  {
  }

  /** "Note not found" is raised exactly when no player has a note with the id. */
  lemma UpdateNoteFails(players: seq<Player>, noteId: string, patch: NotePatch)
    ensures LastSome(players, NoteUpdate(noteId, patch)).None? <==>
            forall i, k :: 0 <= i < |players| && 0 <= k < |players[i].notes| ==> players[i].notes[k].id != noteId
  {
    LastSomeNone(players, NoteUpdate(noteId, patch));
    forall i, k | 0 <= i < |players| && 0 <= k < |players[i].notes| && players[i].notes[k].id == noteId
      ensures NoteUpdate(noteId, patch)(players[i]).1.Some?
    {
      NoteIndexFirst(players[i].notes, noteId, k);
    }
  }

  /** `deletePlayerNote`: no player keeps a note with the id, and every other note stays. */
  lemma DeletedNote(players: seq<Player>, noteId: string)
    ensures var r := Mapped(players, Matching(AnyPlayer(), RemovingNote(noteId)));
            |r| == |players| &&
            forall i :: 0 <= i < |players| ==>
              r[i] == players[i].(notes := r[i].notes) &&
              forall n :: n in r[i].notes <==> n in players[i].notes && n.id != noteId
  {
    var r := Mapped(players, Matching(AnyPlayer(), RemovingNote(noteId)));
    var keep := (n: Note) => n.id != noteId;
    forall i | 0 <= i < |players|
      ensures forall n :: n in r[i].notes <==> n in players[i].notes && n.id != noteId
    {
      var ns := players[i].notes;
      assert r[i].notes == Filter(ns, keep);
      assert forall k :: 0 <= k < |Filter(ns, keep)| ==> Filter(ns, keep)[k] in ns && keep(Filter(ns, keep)[k]);
      assert forall k :: 0 <= k < |ns| && keep(ns[k]) ==> ns[k] in Filter(ns, keep);
    }
  }

  /** A patched metric keeps its id, so an update by id never moves another metric. */
  lemma UpdatedMetrics(metrics: seq<Metric>, metricId: string, patch: MetricPatch)
    ensures var r := Mapped(metrics, Matching(MetricIs(metricId), PatchingMetric(patch)));
            |r| == |metrics| &&
            (forall i :: 0 <= i < |r| ==> r[i].id == metrics[i].id) &&
            (forall i :: 0 <= i < |r| && metrics[i].id != metricId ==> r[i] == metrics[i]) &&
            (LastSome(metrics, Matching(MetricIs(metricId), PatchingMetric(patch))).None? <==>
               forall i :: 0 <= i < |metrics| ==> metrics[i].id != metricId)
  {
    MatchingLast(metrics, MetricIs(metricId), PatchingMetric(patch));
  }

  /** `deleteMetric` removes exactly the metrics with the id, keeping the others. */
  lemma DeletedMetric(metrics: seq<Metric>, metricId: string)
    ensures forall m :: m in Filter(metrics, MetricIsNot(metricId)) <==> m in metrics && m.id != metricId
  {
    var r := Filter(metrics, MetricIsNot(metricId));
    assert forall k :: 0 <= k < |r| ==> r[k] in metrics && MetricIsNot(metricId)(r[k]);
    assert forall k :: 0 <= k < |metrics| && MetricIsNot(metricId)(metrics[k]) ==> metrics[k] in r;
  }
}
