/** The records of the dashboard: users, metrics, measurements, notes,
    injuries, players, daily surveys, survey questions, schedule events and
    the per-day chart records. Timestamps are milliseconds (`Instant`); the
    calendar day of a timestamp is taken in a single fixed time zone. */
module Types {
  import opened Seqs
  import Dates

  type Instant = int

  const MsPerDay: int := 86400000

  /** The calendar day a timestamp falls on (`toDateString` / `toLocaleDateString`). */
  function DayOf(t: Instant): int
  {
    t / MsPerDay
  }

  /** Two timestamps are on the same calendar day exactly when they lie in the
      same `MsPerDay`-long interval. */
  lemma DayOfSameDay(t: Instant, u: Instant)
    ensures DayOf(t) == DayOf(u) <==>
            DayOf(t) * MsPerDay <= u < DayOf(t) * MsPerDay + MsPerDay
  {
  }

  datatype Result<T> = Ok(value: T) | Err(msg: string)

  datatype UserRole = Conditioner | PlayerRole

  datatype User = User(id: string, name: string, email: string, role: UserRole,
                       avatarUrl: Option<string>)

  datatype MetricInputType = Manual | Calculated | Survey

  /** The enum's string values, as stored in the `input_type` column. */
  function InputTypeName(t: MetricInputType): string
  {
    match t
    case Manual => "manual"
    case Calculated => "calculated"
    case Survey => "survey"
  }

  function ParseInputType(s: string): (r: Option<MetricInputType>)
    ensures r.Some? ==> InputTypeName(r.value) == s
  {
    if s == "manual" then Some(Manual)
    else if s == "calculated" then Some(Calculated)
    else if s == "survey" then Some(Survey)
    else None
  }

  /** Exactly three input types, each with its own name. */
  lemma InputTypeNames(t: MetricInputType)
    ensures ParseInputType(InputTypeName(t)) == Some(t)
    ensures t == Manual || t == Calculated || t == Survey
  {
  }

  datatype Metric = Metric(
    id: string,
    name: string,
    unit: string,
    inputType: MetricInputType,
    formula: Option<string>,
    surveyQuestionKey: Option<string>,
    isActive: bool,
    showInRadar: Option<bool>)

  /** JavaScript truthiness of an optional string: present and not empty. */
  predicate Truthy(s: Option<string>)
  {
    s.Some? && s.value != ""
  }

  datatype Measurement = Measurement(id: string, metricId: string, value: real, date: Instant)

  /** A measurement before the store gives it an id (`Omit<Measurement, 'id'>`). */
  datatype NewMeasurement = NewMeasurement(metricId: string, value: real, date: Instant)

  datatype Note = Note(id: string, playerId: string, text: string, date: Instant,
                       isPublic: bool, authorId: string)

  datatype Injury = Injury(id: string, description: string, estimatedRecovery: string,
                           date: Instant, recoveryDate: Option<Instant>)

  /** A survey answer or a chart field: a number, a text, or JSON `null`. */
  datatype Value = Num(r: real) | Text(s: string) | Null

  /** A daily survey: its timestamp and its answers by question key
      (`sleepHours`, `sleepQuality`, `soreness`, `painDetails` and custom keys). */
  datatype DailySurvey = DailySurvey(date: Instant, answers: map<string, Value>)

  /** Sleep quality and soreness, when answered with a number, lie in 1..9. */
  predicate ValidSurveyScores(s: DailySurvey)
  {
    forall k :: k in ["sleepQuality", "soreness"] && k in s.answers && s.answers[k].Num? ==>
      1.0 <= s.answers[k].r <= 9.0
  }

  datatype Player = Player(
    id: string,
    name: string,
    avatarUrl: string,
    position: string,
    phone: Option<string>,
    email: Option<string>,
    birthDate: Option<Dates.CivilDate>,
    measurements: seq<Measurement>,
    notes: seq<Note>,
    dailySurveys: seq<DailySurvey>,
    injury: Option<Injury>,
    injuryHistory: seq<Injury>)

  datatype QuestionType = NumberQuestion | RangeQuestion | TextareaQuestion

  /** `label` is a reserved word in Dafny, so the label field is `labelText`. */
  datatype SurveyQuestion = SurveyQuestion(id: string, labelText: string, key: string,
                                           isActive: bool, questionType: QuestionType)

  /** A training event on a `YYYY-MM-DD` date; `playerIds` is empty for team events. */
  datatype ScheduleEvent = ScheduleEvent(
    id: string,
    date: string,
    time: Option<string>,
    title: string,
    description: Option<string>,
    isTeamEvent: bool,
    playerIds: seq<string>)

  predicate WellFormedEvent(e: ScheduleEvent)
  {
    Dates.ParseIsoDate(e.date).Some? && (e.isTeamEvent ==> e.playerIds == [])
  }

  /** One chart record: its calendar day and the values by metric name. */
  datatype CombinedDataPoint = Point(day: int, values: map<string, Value>)
}
