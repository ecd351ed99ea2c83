/** The database side of the service layer (services/supabaseApi.ts) that is
    not I/O: the row converters from snake_case columns to the application
    records, the active injury of a loaded player, the login derived for a
    new player, and the survey table that holds one row per player and day.
    The queries themselves are left out; their results are parameters. */
module Rows {
  import opened Seqs
  import opened Types
  import Dates
  import Text

  datatype PlayerRow = PlayerRow(id: string, name: string, avatarUrl: string, position: string,
                                 phone: Option<string>, email: Option<string>,
                                 birthDate: Option<Dates.CivilDate>)

  /** `convertPlayer`: the related records are loaded separately, so they start empty. */
  function ConvertPlayer(row: PlayerRow): (p: Player)
    ensures p.measurements == [] && p.notes == [] && p.dailySurveys == [] && p.injuryHistory == []
    ensures p.injury.None?
    ensures PlayerRowOf(p) == row
  {
    Player(row.id, row.name, row.avatarUrl, row.position, row.phone, row.email, row.birthDate,
           [], [], [], None, [])
  }

  /** The columns of a player's own row. */
  function PlayerRowOf(p: Player): PlayerRow
  {
    PlayerRow(p.id, p.name, p.avatarUrl, p.position, p.phone, p.email, p.birthDate)
  }

  /** A player without related records is exactly what its row converts to. */
  lemma ConvertPlayerOfRow(p: Player)
    requires p.measurements == [] && p.notes == [] && p.dailySurveys == [] && p.injuryHistory == []
    requires p.injury.None?
    ensures ConvertPlayer(PlayerRowOf(p)) == p
  {
  }

  /** The `metrics` columns; `input_type` is cast to the enum unchecked. */
  datatype MetricRow = MetricRow(id: string, name: string, unit: string, inputType: MetricInputType,
                                 formula: Option<string>, surveyQuestionKey: Option<string>,
                                 isActive: bool, showInRadar: Option<bool>)

  function ConvertMetric(row: MetricRow): (m: Metric)
    ensures MetricRowOf(m) == row
  {
    Metric(row.id, row.name, row.unit, row.inputType, row.formula, row.surveyQuestionKey, row.isActive, row.showInRadar)
  }

  function MetricRowOf(m: Metric): MetricRow
  {
    MetricRow(m.id, m.name, m.unit, m.inputType, m.formula, m.surveyQuestionKey, m.isActive, m.showInRadar)
  }

  /** Each column fills exactly one field: the converter is a bijection. */
  lemma ConvertMetricOfRow(m: Metric)
    ensures ConvertMetric(MetricRowOf(m)) == m
  {
  }

  datatype MeasurementRow = MeasurementRow(id: string, metricId: string, value: real, date: Instant)

  function ConvertMeasurement(row: MeasurementRow): (m: Measurement)
    ensures MeasurementRowOf(m) == row
  {
    Measurement(row.id, row.metricId, row.value, row.date)
  }

  function MeasurementRowOf(m: Measurement): MeasurementRow
  {
    MeasurementRow(m.id, m.metricId, m.value, m.date)
  }

  lemma ConvertMeasurementOfRow(m: Measurement)
    ensures ConvertMeasurement(MeasurementRowOf(m)) == m
  {
  }

  datatype NoteRow = NoteRow(id: string, playerId: string, text: string, date: Instant,
                             isPublic: bool, authorId: string)

  function ConvertNote(row: NoteRow): (n: Note)
    ensures n.id == row.id && n.playerId == row.playerId && n.text == row.text
    ensures n.date == row.date && n.isPublic == row.isPublic && n.authorId == row.authorId
  {
    Note(row.id, row.playerId, row.text, row.date, row.isPublic, row.authorId)
  }

  datatype InjuryRow = InjuryRow(id: string, description: string, estimatedRecovery: string,
                                 date: Instant, recoveryDate: Option<Instant>)

  function ConvertInjury(row: InjuryRow): (i: Injury)
    ensures i.id == row.id && i.description == row.description && i.estimatedRecovery == row.estimatedRecovery
    ensures i.date == row.date && i.recoveryDate == row.recoveryDate
  {
    Injury(row.id, row.description, row.estimatedRecovery, row.date, row.recoveryDate)
  }

  datatype QuestionRow = QuestionRow(id: string, labelText: string, key: string, isActive: bool,
                                     questionType: QuestionType)

  function ConvertSurveyQuestion(row: QuestionRow): (q: SurveyQuestion)
    ensures q.id == row.id && q.labelText == row.labelText && q.key == row.key
    ensures q.isActive == row.isActive && q.questionType == row.questionType
  {
    SurveyQuestion(row.id, row.labelText, row.key, row.isActive, row.questionType)
  }

  datatype EventRow = EventRow(id: string, date: string, time: Option<string>, title: string,
                               description: Option<string>, isTeamEvent: bool, playerIds: seq<string>)

  function ConvertScheduleEvent(row: EventRow): (e: ScheduleEvent)
    ensures e.id == row.id && e.date == row.date && e.time == row.time && e.title == row.title
    ensures e.description == row.description && e.isTeamEvent == row.isTeamEvent && e.playerIds == row.playerIds
  {
    ScheduleEvent(row.id, row.date, row.time, row.title, row.description, row.isTeamEvent, row.playerIds)
  }

  /** A `daily_surveys` row: the day as `YYYY-MM-DD`, four fixed answer
      columns (JSON `null` when absent) and the whole answer object. */
  datatype SurveyRow = SurveyRow(date: string, sleepHours: Value, sleepQuality: Value, soreness: Value,
                                 painDetails: Value, surveyData: map<string, Value>)

  const FixedKeys: set<string> := {"date", "sleepHours", "sleepQuality", "soreness", "painDetails"}

  /** `convertDailySurvey`, as the JavaScript object it builds: the fixed
      columns first, then the spread of `survey_data`, whose keys win. */
  function ConvertDailySurvey(row: SurveyRow): (r: map<string, Value>)
    ensures forall k :: k in r <==> k in FixedKeys || k in row.surveyData
    ensures forall k :: k in row.surveyData ==> r[k] == row.surveyData[k]
    ensures "date" !in row.surveyData ==> r["date"] == Text(row.date)
    ensures "sleepHours" !in row.surveyData ==> r["sleepHours"] == row.sleepHours
    ensures "sleepQuality" !in row.surveyData ==> r["sleepQuality"] == row.sleepQuality
    ensures "soreness" !in row.surveyData ==> r["soreness"] == row.soreness
    ensures "painDetails" !in row.surveyData ==> r["painDetails"] == row.painDetails
  {
    map["date" := Text(row.date), "sleepHours" := row.sleepHours, "sleepQuality" := row.sleepQuality,
        "soreness" := row.soreness, "painDetails" := row.painDetails] + row.surveyData
  }

  /** `surveyData.k` of an answer object: `undefined` is stored as `null`. */
  function Get(data: map<string, Value>, k: string): Value
  {
    if k in data then data[k] else Null
  }

  /** `new Date().toISOString().split('T')[0]`: today's date key. */
  function SurveyDateKey(today: Dates.CivilDate): (s: string)
    requires Dates.ValidDate(today) && 0 <= today.year <= 9999
    ensures |s| == 10
    ensures Dates.ParseIsoDate(s) == Some(today)
  {
    Dates.ParseIsoDateOfIsoDate(today);
    Dates.IsoDate(today)
  }

  /** The row `submitDailySurvey` upserts. */
  function SubmittedRow(today: Dates.CivilDate, data: map<string, Value>): SurveyRow
    requires Dates.ValidDate(today) && 0 <= today.year <= 9999
  {
    SurveyRow(SurveyDateKey(today), Get(data, "sleepHours"), Get(data, "sleepQuality"), Get(data, "soreness"),
              Get(data, "painDetails"), data)
  }

  /** The table under its unique constraint `(player_id, date)`. */
  type SurveyTable = map<(string, string), SurveyRow>

  /** `upsert(..., { onConflict: 'player_id,date' })`: inserts the row, or
      replaces the one the player already has for that day. */
  function Upsert(table: SurveyTable, playerId: string, today: Dates.CivilDate, data: map<string, Value>)
    : (t: SurveyTable)
    requires Dates.ValidDate(today) && 0 <= today.year <= 9999
    ensures (playerId, SurveyDateKey(today)) in t
    ensures forall k :: k in t <==> k in table || k == (playerId, SurveyDateKey(today))
    ensures forall k :: k in table && k != (playerId, SurveyDateKey(today)) ==> t[k] == table[k]
  {
    table[(playerId, SurveyDateKey(today)) := SubmittedRow(today, data)]
  }

  /** A second submission on the same day replaces the first: the table is as
      if only the second had been made. */
  lemma UpsertTwice(table: SurveyTable, playerId: string, today: Dates.CivilDate,
                    first: map<string, Value>, second: map<string, Value>)
    requires Dates.ValidDate(today) && 0 <= today.year <= 9999
    ensures Upsert(Upsert(table, playerId, today, first), playerId, today, second) ==
            Upsert(table, playerId, today, second)
  {
  }

  /** Reading back what was submitted: every answer comes back under its own
      key, and the row's day fills `date` unless an answer already has that key. */
  lemma SubmittedReadBack(table: SurveyTable, playerId: string, today: Dates.CivilDate, data: map<string, Value>)
    requires Dates.ValidDate(today) && 0 <= today.year <= 9999
    ensures var r := ConvertDailySurvey(Upsert(table, playerId, today, data)[(playerId, SurveyDateKey(today))]);
            (forall k :: k in data ==> k in r && r[k] == data[k]) &&
            ("date" !in data ==> r["date"] == Text(Dates.IsoDate(today))) &&
            (forall k :: k in r ==> k in data || k in FixedKeys)
  {
    var row := Upsert(table, playerId, today, data)[(playerId, SurveyDateKey(today))];
    assert row == SubmittedRow(today, data);
  }

  /** `injuries.find(i => !i.recoveryDate) || null`: the first entry of the
      history that has not recovered. */
  function ActiveInjury(history: seq<Injury>): (r: Option<Injury>)
    ensures r.None? <==> forall i :: 0 <= i < |history| ==> history[i].recoveryDate.Some?
    ensures r.Some? ==> exists i :: 0 <= i < |history| && history[i] == r.value && r.value.recoveryDate.None? &&
                                    forall j :: 0 <= j < i ==> history[j].recoveryDate.Some?
  {
    Find(history, (h: Injury) => h.recoveryDate.None?)
  }

  /** `getPlayerDetails`: nothing without the player's row; otherwise the
      converted row with its related records, the history being the injury
      rows (newest first, as queried) and the active injury chosen from it.
      The surveys are the already converted records. */
  function PlayerDetails(row: Option<PlayerRow>, measurements: seq<MeasurementRow>, notes: seq<NoteRow>,
                         surveys: seq<DailySurvey>, injuries: seq<InjuryRow>): (r: Option<Player>)
    ensures r.None? <==> row.None?
    ensures r.Some? ==>
              PlayerRowOf(r.value) == row.value &&
              |r.value.measurements| == |measurements| && |r.value.notes| == |notes| &&
              |r.value.injuryHistory| == |injuries| && r.value.dailySurveys == surveys &&
              (forall i :: 0 <= i < |measurements| ==> MeasurementRowOf(r.value.measurements[i]) == measurements[i]) &&
              (forall i :: 0 <= i < |notes| ==> r.value.notes[i] == ConvertNote(notes[i])) &&
              (forall i :: 0 <= i < |injuries| ==> r.value.injuryHistory[i] == ConvertInjury(injuries[i])) &&
              r.value.injury == ActiveInjury(r.value.injuryHistory)
  {
    match row
    case None => None
    case Some(pr) =>
      var history := seq(|injuries|, i requires 0 <= i < |injuries| => ConvertInjury(injuries[i]));
      Some(ConvertPlayer(pr).(
        measurements := seq(|measurements|, i requires 0 <= i < |measurements| => ConvertMeasurement(measurements[i])),
        notes := seq(|notes|, i requires 0 <= i < |notes| => ConvertNote(notes[i])),
        dailySurveys := surveys,
        injuryHistory := history,
        injury := ActiveInjury(history)))
  }

  /** A loaded player is injured exactly when some injury row has no recovery date. */
  lemma DetailsInjured(row: PlayerRow, measurements: seq<MeasurementRow>, notes: seq<NoteRow>,
                       surveys: seq<DailySurvey>, injuries: seq<InjuryRow>)
    ensures PlayerDetails(Some(row), measurements, notes, surveys, injuries).value.injury.Some? <==>
            exists i :: 0 <= i < |injuries| && injuries[i].recoveryDate.None?
  {
    var p := PlayerDetails(Some(row), measurements, notes, surveys, injuries).value;
    if exists i :: 0 <= i < |injuries| && injuries[i].recoveryDate.None? {
      var i :| 0 <= i < |injuries| && injuries[i].recoveryDate.None?;
      assert p.injuryHistory[i].recoveryDate.None?;
    }
  }

  const EmailDomain: string := "@kondisca.com"

  /** The login of a player created without an email: the lowercased name
      with each run of whitespace replaced by a dot. */
  function DefaultEmail(name: string): (e: string)
    ensures |e| >= |EmailDomain| && e[|e| - |EmailDomain|..] == EmailDomain
    ensures forall i :: 0 <= i < |e| - |EmailDomain| ==> !Text.IsSpace(e[i])
  {
    var local := Text.DotSpaceRuns(Text.ToLower(name));
    assert (local + EmailDomain)[|local|..] == EmailDomain;
    local + EmailDomain
  }

  /** `playerData.email || default`: a non-empty given email wins. */
  function PlayerEmail(email: Option<string>, name: string): (e: string)
    ensures Truthy(email) ==> e == email.value
    ensures !Truthy(email) ==> e == DefaultEmail(name)
  {
    if Truthy(email) then email.value else DefaultEmail(name)
  }

  /** A name that is already lower-case ASCII without spaces is the local part as it is. */
  lemma DefaultEmailOfPlainName(name: string)
    requires forall i :: 0 <= i < |name| ==> 'a' <= name[i] <= 'z'
    ensures DefaultEmail(name) == name + EmailDomain
  {
    Text.ToLowerOfLower(name);
    Text.DotSpaceRunsNoSpace(name);
  }

  /** `Player${Date.now().toString().slice(-6)}!` */
  function TempPassword(now: nat): (pw: string)
    ensures |pw| >= 8 && pw[..6] == "Player" && pw[|pw| - 1] == '!'
    ensures forall i :: 6 <= i < |pw| - 1 ==> Dates.IsDigit(pw[i])
  {
    var digits := Text.Last(Text.NatToString(now), 6);
    PasswordShape("Player", digits);
    "Player" + digits + "!"
  }

  lemma PasswordShape(prefix: string, digits: string)
    ensures var pw := prefix + digits + "!";
            pw[..|prefix|] == prefix && pw[|pw| - 1] == '!' && pw[|prefix|..|pw| - 1] == digits
  {
    var pw := prefix + digits + "!";
    assert pw == prefix + (digits + "!");
    assert (digits + "!")[..|digits|] == digits;
  }

  /** The digits of the password are the timestamp modulo one million, and
      there are six of them once the timestamp has six digits. */
  lemma TempPasswordDigits(now: nat)
    ensures Dates.DigitsValue(TempPassword(now)[6..|TempPassword(now)| - 1]) == now % 1000000
    ensures now >= 100000 ==> |TempPassword(now)| == 13
  {
    var digits := Text.Last(Text.NatToString(now), 6);
    PasswordShape("Player", digits);
    Text.LastDigitsValue(now, 6);
    assert Dates.Pow10(6) == 1000000;
    LongTimestamp(now);
  }

  /** A number of at least 100000 has at least six digits. */
  lemma LongTimestamp(now: nat)
    ensures now >= 100000 ==> |Text.NatToString(now)| >= 6
  {
    var s := Text.NatToString(now);
    Text.NatToStringValue(now);
    Dates.ValuePad(s);
    if |s| <= 5 {
      Text.Pow10Monotone(|s|, 5);
    }
    assert Dates.Pow10(5) == 100000;
  }
}
