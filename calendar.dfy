/** The training calendar (pages/CalendarPage.tsx): the month grid that
    starts on Monday, the events of the selected day ordered by time, and
    the event editor's player selection, validation and new-event draft.
    A day is shown and stored as its `YYYY-MM-DD` text; the time zone that
    `toISOString` applies is left out (the texts are those of UTC). */
module Calendar {
  import opened Seqs
  import opened Types
  import Dates
  import Sorting

  /** A month as `(year, month)` with the month counted from 1 and a year `toISOString` writes with four digits. */
  predicate ValidMonth(year: int, month: int)
  {
    0 <= year <= 9999 && 1 <= month <= 12
  }

  /** The blank cells before the 1st: the 1st's weekday counted from Monday. */
  function StartDay(year: int, month: int): (n: int)
    requires ValidMonth(year, month)
    ensures 0 <= n <= 6
    ensures Dates.Weekday(Dates.CivilDate(year, month, 1)) == 0 ==> n == 6
    ensures Dates.Weekday(Dates.CivilDate(year, month, 1)) == 1 ==> n == 0
    ensures (n + 1) % 7 == Dates.Weekday(Dates.CivilDate(year, month, 1))
  {
    var w := Dates.Weekday(Dates.CivilDate(year, month, 1));
    if w == 0 then 6 else w - 1
  }

  /** `new Date(year, month + 1, 0).getDate()` */
  function MonthLength(year: int, month: int): (n: int)
    requires ValidMonth(year, month)
    ensures 28 <= n <= 31
  {
    Dates.DaysInMonth(year, month)
  }

  /** A day of the month, as its `YYYY-MM-DD` text. */
  function DayText(year: int, month: int, day: int): (s: string)
    requires ValidMonth(year, month) && 1 <= day <= Dates.DaysInMonth(year, month)
  {
    Dates.IsoDate(Dates.CivilDate(year, month, day))
  }

  /** `selectedDate?.toISOString().split('T')[0]`, absent without a selection. */
  function SelectedText(selected: Option<Dates.CivilDate>): (r: Option<string>)
    requires selected.Some? ==> Dates.ValidDate(selected.value) && 0 <= selected.value.year <= 9999
    ensures r.None? <==> selected.None?
  {
    match selected
    case None => None
    case Some(d) => Some(Dates.IsoDate(d))
  }

  datatype Cell = Blank(index: int) | DayCell(day: int, date: string, isSelected: bool, hasEvent: bool)

  function HasEventOn(events: seq<ScheduleEvent>, date: string): (b: bool)
    ensures b <==> exists i :: 0 <= i < |events| && events[i].date == date
  {
    Any(events, (e: ScheduleEvent) => e.date == date)
  }

  /** The cell of day `d`: its text, whether it is the selected day, whether some event falls on it. */
  function CellOf(year: int, month: int, selected: Option<Dates.CivilDate>, events: seq<ScheduleEvent>, d: int): Cell
    requires ValidMonth(year, month) && 1 <= d <= Dates.DaysInMonth(year, month)
  {
    DayCell(d, DayText(year, month, d), selected == Some(Dates.CivilDate(year, month, d)),
            HasEventOn(events, DayText(year, month, d)))
  }

  /** The grid `renderCalendar` lays out: the blank cells, then one cell per day of the month. */
  predicate IsGrid(year: int, month: int, selected: Option<Dates.CivilDate>, events: seq<ScheduleEvent>, cells: seq<Cell>)
    requires ValidMonth(year, month)
  {
    |cells| == StartDay(year, month) + MonthLength(year, month) &&
    (forall i :: 0 <= i < StartDay(year, month) ==> cells[i] == Blank(i)) &&
    (forall d :: 1 <= d <= MonthLength(year, month) ==>
       cells[StartDay(year, month) + d - 1] == CellOf(year, month, selected, events, d))
  }

  /** `renderCalendar`: the blank cells, then one cell per day of the month,
      marked when it is the selected day and when some event falls on it. */
  method RenderCalendar(year: int, month: int, selected: Option<Dates.CivilDate>, events: seq<ScheduleEvent>)
    returns (cells: seq<Cell>)
    requires ValidMonth(year, month)
    requires selected.Some? ==> Dates.ValidDate(selected.value) && 0 <= selected.value.year <= 9999
    ensures IsGrid(year, month, selected, events, cells)
  {
    var startDay := StartDay(year, month);
    var daysInMonth := MonthLength(year, month);
    var selectedText := SelectedText(selected);
    cells := [];
    for i := 0 to startDay
      invariant |cells| == i
      invariant forall k :: 0 <= k < i ==> cells[k] == Blank(k)
    {
      cells := cells + [Blank(i)];
    }
    var day := 1;
    while day <= daysInMonth
      invariant 1 <= day <= daysInMonth + 1
      invariant |cells| == startDay + day - 1
      invariant forall k :: 0 <= k < startDay ==> cells[k] == Blank(k)
      invariant forall d :: 1 <= d < day ==> cells[startDay + d - 1] == CellOf(year, month, selected, events, d)
    {
      var dateString := DayText(year, month, day);
      SameText(selected, year, month, day);
      var isSelected := selectedText == Some(dateString);
      cells := cells + [DayCell(day, dateString, isSelected, HasEventOn(events, dateString))];
      day := day + 1;
    }
  }

  /** Comparing the texts of two days is comparing the days. */
  lemma SameText(selected: Option<Dates.CivilDate>, year: int, month: int, day: int)
    requires ValidMonth(year, month) && 1 <= day <= Dates.DaysInMonth(year, month)
    requires selected.Some? ==> Dates.ValidDate(selected.value) && 0 <= selected.value.year <= 9999
    ensures SelectedText(selected) == Some(DayText(year, month, day)) <==>
            selected == Some(Dates.CivilDate(year, month, day))
  {
    Dates.ParseIsoDateOfIsoDate(Dates.CivilDate(year, month, day));
    if selected.Some? {
      Dates.ParseIsoDateOfIsoDate(selected.value);
    }
  }

  /** At most one cell of the grid is selected, and it is the selected day's. */
  lemma OneSelectedCell(year: int, month: int, selected: Option<Dates.CivilDate>, events: seq<ScheduleEvent>,
                        cells: seq<Cell>, i: int)
    requires ValidMonth(year, month)
    requires IsGrid(year, month, selected, events, cells)
    requires 0 <= i < |cells| && cells[i].DayCell? && cells[i].isSelected
    ensures selected == Some(Dates.CivilDate(year, month, cells[i].day))
    ensures i == StartDay(year, month) + cells[i].day - 1
  {
    var s := StartDay(year, month);
    if i >= s {
      assert cells[i] == CellOf(year, month, selected, events, i - s + 1);
    }
  }

  /** Code-point order of strings, which is what `localeCompare` gives on `HH:MM` texts. */
  predicate LexLe(a: string, b: string)
    decreases |a|
  {
    if a == [] then true
    else if b == [] then false
    else if a[0] != b[0] then a[0] < b[0]
    else LexLe(a[1..], b[1..])
  }

  lemma {:induction false} LexTotal(a: string, b: string)
    ensures LexLe(a, b) || LexLe(b, a)
    decreases |a|
  {
    if a != [] && b != [] && a[0] == b[0] {
      LexTotal(a[1..], b[1..]);
    }
  }

  lemma {:induction false} LexTransitive(a: string, b: string, c: string)
    requires LexLe(a, b) && LexLe(b, c)
    ensures LexLe(a, c)
    decreases |a|
  {
    if a != [] && a[0] == b[0] && b[0] == c[0] {
      LexTransitive(a[1..], b[1..], c[1..]);
    }
  }

  /** `a.time || ''` */
  function TimeText(e: ScheduleEvent): string
  {
    if Truthy(e.time) then e.time.value else ""
  }

  /** The comparator `(a, b) => (a.time || '').localeCompare(b.time || '')`. */
  predicate ByTime(a: ScheduleEvent, b: ScheduleEvent)
  {
    LexLe(TimeText(a), TimeText(b))
  }

  lemma ByTimePreorder()
    ensures Sorting.TotalPreorder(ByTime)
  {
    forall a: ScheduleEvent, b: ScheduleEvent
      ensures ByTime(a, b) || ByTime(b, a)
    {
      LexTotal(TimeText(a), TimeText(b));
    }
    forall a: ScheduleEvent, b: ScheduleEvent, c: ScheduleEvent | ByTime(a, b) && ByTime(b, c)
      ensures ByTime(a, c)
    {
      LexTransitive(TimeText(a), TimeText(b), TimeText(c));
    }
  }

  function OnDate(date: Option<string>): ScheduleEvent -> bool
  {
    (e: ScheduleEvent) => date == Some(e.date)
  }

  /** `selectedDateEvents`: the events of the selected day, earliest time first. */
  function SelectedDateEvents(events: seq<ScheduleEvent>, selected: Option<Dates.CivilDate>): seq<ScheduleEvent>
    requires selected.Some? ==> Dates.ValidDate(selected.value) && 0 <= selected.value.year <= 9999
  {
    Sorting.Sort(Filter(events, OnDate(SelectedText(selected))), ByTime)
  }

  /** The day's events are exactly the events on the selected day, each as
      often as in the list, ordered by time; with no day selected there are none. */
  lemma SelectedDateEventsProperties(events: seq<ScheduleEvent>, selected: Option<Dates.CivilDate>)
    requires selected.Some? ==> Dates.ValidDate(selected.value) && 0 <= selected.value.year <= 9999
    ensures var r := SelectedDateEvents(events, selected);
            Sorting.Sorted(r, ByTime) &&
            multiset(r) == multiset(Filter(events, OnDate(SelectedText(selected)))) &&
            (forall e :: e in r <==> e in events && selected.Some? && e.date == Dates.IsoDate(selected.value)) &&
            (selected.None? ==> r == [])
  {
    var f := Filter(events, OnDate(SelectedText(selected)));
    var r := SelectedDateEvents(events, selected);
    ByTimePreorder();
    Sorting.SortSorted(f, ByTime);
    assert forall e :: e in r <==> e in multiset(f);
    assert forall k :: 0 <= k < |f| ==> f[k] in events && OnDate(SelectedText(selected))(f[k]);
    assert forall k :: 0 <= k < |events| && OnDate(SelectedText(selected))(events[k]) ==> events[k] in f;
    if selected.None? {
      FilterNone(events, OnDate(None));
    }
  }

  /** The event editor's fields. */
  class EventEditor {
    const base: ScheduleEvent
    var title: string
    var description: string
    var time: string
    var isTeamEvent: bool
    var selectedPlayerIds: seq<string>

    /** The fields start from the edited event or the draft; emptiness reads as ''. */
    constructor (event: ScheduleEvent)
      ensures base == event
      ensures title == event.title && description == OrEmpty(event.description) && time == OrEmpty(event.time)
      ensures isTeamEvent == event.isTeamEvent && selectedPlayerIds == event.playerIds
    {
      base := event;
      title := event.title;
      description := OrEmpty(event.description);
      time := OrEmpty(event.time);
      isTeamEvent := event.isTeamEvent;
      selectedPlayerIds := event.playerIds;
    }

    /** `handlePlayerSelection`: selects an unselected player and deselects a selected one. */
    method TogglePlayer(playerId: string)
      modifies this
      ensures selectedPlayerIds == Toggle(old(selectedPlayerIds), playerId)
      ensures title == old(title) && description == old(description) && time == old(time)
      ensures isTeamEvent == old(isTeamEvent)
    {
      selectedPlayerIds := Toggle(selectedPlayerIds, playerId);
    }

    /** `handleSubmit`: rejects an untitled event and a player event with
        nobody selected; otherwise the event with the edited fields, whose
        players are dropped for a team event. */
    method Submit() returns (r: Result<ScheduleEvent>)
      ensures r == Submission(base, title, description, time, isTeamEvent, selectedPlayerIds)
    {
      if title == "" {
        return Err("Lütfen başlık girin.");
      }
      if !isTeamEvent && |selectedPlayerIds| == 0 {
        return Err("Lütfen en az bir oyuncu seçin.");
      }
      r := Ok(base.(title := title, description := Some(description), time := Some(time),
                    isTeamEvent := isTeamEvent, playerIds := if isTeamEvent then [] else selectedPlayerIds));
    }
  }

  function OrEmpty(s: Option<string>): string
  {
    if s.Some? then s.value else ""
  }

  /** The saved event of the editor's fields. */
  function Submission(base: ScheduleEvent, title: string, description: string, time: string,
                      isTeamEvent: bool, selected: seq<string>): (r: Result<ScheduleEvent>)
    ensures r.Err? <==> title == "" || (!isTeamEvent && selected == [])
    ensures r.Ok? ==> r.value.id == base.id && r.value.date == base.date && r.value.title == title &&
                      r.value.isTeamEvent == isTeamEvent &&
                      (isTeamEvent ==> r.value.playerIds == []) &&
                      (!isTeamEvent ==> r.value.playerIds == selected && selected != [])
  {
    if title == "" then Err("Lütfen başlık girin.")
    else if !isTeamEvent && |selected| == 0 then Err("Lütfen en az bir oyuncu seçin.")
    else Ok(base.(title := title, description := Some(description), time := Some(time),
                  isTeamEvent := isTeamEvent, playerIds := if isTeamEvent then [] else selected))
  }

  /** A saved event on a well-formed date is well formed: a team event has no players. */
  lemma SubmissionWellFormed(base: ScheduleEvent, title: string, description: string, time: string,
                             isTeamEvent: bool, selected: seq<string>)
    requires Dates.ParseIsoDate(base.date).Some?
    requires Submission(base, title, description, time, isTeamEvent, selected).Ok?
    ensures WellFormedEvent(Submission(base, title, description, time, isTeamEvent, selected).value)
  {
  }

  /** `handleAddEventClick`: nothing without a selected day; otherwise an
      untitled team event on that day with no players. */
  function NewEventDraft(selected: Option<Dates.CivilDate>): (r: Option<ScheduleEvent>)
    requires selected.Some? ==> Dates.ValidDate(selected.value) && 0 <= selected.value.year <= 9999
    ensures r.None? <==> selected.None?
    ensures r.Some? ==> WellFormedEvent(r.value) && r.value.isTeamEvent && r.value.playerIds == [] &&
                        r.value.title == "" && Dates.ParseIsoDate(r.value.date) == selected
  {
    match selected
    case None => None
    case Some(d) =>
      Dates.ParseIsoDateOfIsoDate(d);
      Some(ScheduleEvent("", Dates.IsoDate(d), None, "", None, true, []))
  }
}
