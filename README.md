# Kondisca dashboard core, modelled in Dafny

Kondisca is a strength-and-conditioning dashboard. A conditioner (coach) keeps a squad of
players, a registry of metrics (manual measurements, values read from the daily wellness
survey, and calculated metrics whose formula combines other metrics), a training calendar
and the survey questions. A player sees their own dashboard and answers the daily survey.

This project models the logic of the dashboard that is not rendering or I/O:

- **Formula** — `evaluateFormula`: `[Name]` placeholders are replaced by the day's values,
  then the text is evaluated as a JavaScript arithmetic expression (a lexer and a
  recursive-descent parser over JavaScript numbers), and the result is rounded to two decimals.
- **Chart** — the per-day chart records of the player profile, built in three passes
  (manual measurements, daily surveys, calculated metrics) and returned sorted by day.
- **Radar** — the radar axes of the profile and their maxima.
- **Latest**, **Profile** — the latest measurement of a metric, the summary card, the
  add-measurement form and the metrics offered to the line chart.
- **CoachBoard**, **PlayerBoard** — the two dashboards: injured players, today's programme,
  whether today's survey is done, and the top-5 leaderboards by percent improvement, unit
  improvement or latest value.
- **Calendar** — the month grid starting on Monday, the selected day's events ordered by
  time, and the event editor.
- **MetricForm**, **SurveyAdmin**, **PlayersPage**, **Layout** — the metric editor with its
  formula key pad (a class whose text the keys change), the survey-question editor and the
  keys it makes, the squad search and add-player form, and the sidebar and page titles.
- **Store** — the in-memory store that answers every API call when no backend is configured:
  a class whose four tables each operation replaces, with lookups and updates by id.
- **Rows** — the row converters of the database backend, the active injury of a loaded
  player, the login made for a new player, and the survey upsert keyed by player and day.
- Helpers: **Types** (the records), **Dates** (calendar dates, ISO day texts, ages),
  **Numbers** (JavaScript numbers as exact reals with Infinity and NaN, and the
  `toFixed`/`parseFloat` rounding), **Text**, **Seqs** (array methods) and **Sorting**
  (the stable `Array.prototype.sort` as a stable insertion sort over a total preorder).

The chart writes every calculated result into the same day record it evaluates the next
formula on, so a calculated metric later in the registry sees the results of earlier ones
(`Chart.LaterFormulaSeesEarlier`).

A number written after a `-` in a formula is substituted as text. A negative value there
gives `--`, which JavaScript reads as the decrement operator, so the whole formula is
rejected and the result is null. The model keeps this behaviour (`Formula.NegativeSubtrahend`).

## Model

| member | source | states |
|---|---|---|
| Layout.SidebarLinks | components/DashboardLayout.tsx:24-54 | no links without a user, five for a conditioner and two for a player; only the home link is `end`, and no two links lead to the same path |
| Layout.PageTitle | components/DashboardLayout.tsx:69-79 | the home title depends on the role, every `/player/…` path is titled 'Oyuncu Profili', and the application name is shown exactly on the paths the header does not know |
| Layout.LinksHaveTitles | components/DashboardLayout.tsx:24-79 | every sidebar link leads to a page the header titles, is highlighted on its own page, and the home link's caption is the home page's title |
| Layout.HomeLinkExact | components/DashboardLayout.tsx:26-28 | the `end` home link is highlighted on `/` and on no other path |
| PlayersPage.Search | pages/PlayersListPage.tsx:84-86 | a player is listed exactly when its lower-cased name contains the lower-cased search term |
| PlayersPage.EmptySearchListsAll | pages/PlayersListPage.tsx:84-86 | an empty search lists every player, in order |
| PlayersPage.SearchFindsPart | pages/PlayersListPage.tsx:84-86 | any piece of a player's name finds that player |
| PlayersPage.AddPlayerInput | pages/PlayersListPage.tsx:13-19 | the form is refused, with the page's message, exactly when the name or the position is empty; otherwise the fields are sent as typed and the birth date is absent exactly when it is empty or not a date |
| PlayersPage.PickedBirthDate | pages/PlayersListPage.tsx:19 | a birth date picked in the date input is stored as that day |
| PlayersPage.AddedPlayerFound | services/api.ts:713-724 | the player the store creates from the form carries the typed name and is found by a search for it |
| SurveyAdmin.InitialFields | pages/SurveyManagementPage.tsx:28-29 | a new question starts as an empty `range` question, an edited one with its own caption and type |
| SurveyAdmin.KeyChar | pages/SurveyManagementPage.tsx:40 | every output character is a key character, and `a-z`/`0-9` are kept |
| SurveyAdmin.Slug | pages/SurveyManagementPage.tsx:40 | the replacement keeps the length and maps each character on its own |
| SurveyAdmin.QuestionKey | pages/SurveyManagementPage.tsx:40 | a key is non-empty, made only of `a-z`, `0-9` and `_`, and is the slug of the lower-cased caption, `_` and the creation time |
| SurveyAdmin.TrailingDigitsOfKey | pages/SurveyManagementPage.tsx:40 | a key ends with exactly the digits of its creation time |
| SurveyAdmin.KeyDeterminesTime | pages/SurveyManagementPage.tsx:40 | equal keys were made at the same time, whatever the captions |
| SurveyAdmin.Submission | pages/SurveyManagementPage.tsx:32-42 | an edit updates the edited question's id; a new question is sent active, with the caption, the type and its key |
| SurveyAdmin.EditKeepsKey | pages/SurveyManagementPage.tsx:34-38 | saving an edit changes the caption and the type and keeps the id, key and active flag |
| SurveyAdmin.AddedQuestionKey | services/api.ts:765-770 | the store keeps the key the page made, and the new question is active with the typed caption and type |
| SurveyAdmin.ToggleFlipsActive | pages/SurveyManagementPage.tsx:103-105 | the toggle flips the active flag and nothing else; toggling twice restores the question |
| MetricForm.FormulaBuilder.constructor | pages/ManageMetrics.tsx:16 | the builder starts with the metric's formula when it has a non-empty one, else empty |
| MetricForm.FormulaBuilder.Press | pages/ManageMetrics.tsx:50 | a key appends its text to the formula |
| MetricForm.FormulaBuilder.Control | pages/ManageMetrics.tsx:51-55 | a control key leaves the formula `Controlled` says |
| MetricForm.Controlled | pages/ManageMetrics.tsx:51-55 | `C` empties the formula, `⌫` drops its last character (none of an empty formula), any other key appends itself |
| MetricForm.BackspaceUndoes | pages/ManageMetrics.tsx:50-53 | `⌫` undoes a one-character key, and leaves an empty formula empty |
| MetricForm.PadKeysAppendOneToken | pages/ManageMetrics.tsx:124-132 | each pad key and parenthesis appends exactly one character of the formula grammar |
| MetricForm.MetricButtons | pages/ManageMetrics.tsx:118 | a metric gets a button exactly when it is an active manual metric |
| MetricForm.ButtonText | pages/ManageMetrics.tsx:119 | a metric button appends the metric's name in brackets |
| MetricForm.QuestionChoices | pages/ManageMetrics.tsx:99 | a question is offered exactly when it is active and not free text |
| MetricForm.InitialForm | pages/ManageMetrics.tsx:13-18 | a new metric starts with the defaults (unit `kg`, manual, no radar); an edited one keeps its name and type, its unit or `kg` when the unit is empty, its formula and question key or the empty text when they are absent or empty, and shows in the radar only when its flag is true |
| MetricForm.CreatedMetric | pages/ManageMetrics.tsx:24-36 | a created metric is active, shows in the radar as chosen, and keeps a formula only when calculated and a question key only when a survey metric |
| MetricForm.EditedMetric | pages/ManageMetrics.tsx:24-34 | an edit keeps the id and the active flag and takes every other field from the form |
| MetricForm.ToggleFlipsOne | pages/ManageMetrics.tsx:189-190 | a toggle flips exactly its own field, an absent radar flag counting as off |
| Calendar.StartDay | pages/CalendarPage.tsx:165-167 | the number of blank cells is the 1st's weekday counted from Monday: 0 to 6, six for a Sunday |
| Calendar.MonthLength | pages/CalendarPage.tsx:166-168 | a month has 28 to 31 days |
| Calendar.SelectedText | pages/CalendarPage.tsx:229 | there is a selected day's text exactly when a day is selected |
| Calendar.HasEventOn | pages/CalendarPage.tsx:230 | a day is marked exactly when some event carries its text |
| Calendar.RenderCalendar | pages/CalendarPage.tsx:221-246 | the grid is the blank cells and then one cell per day of the month carrying its text, its selected mark and its event mark |
| Calendar.SameText | pages/CalendarPage.tsx:227-229 | comparing the day texts is comparing the days |
| Calendar.OneSelectedCell | pages/CalendarPage.tsx:226-243 | a selected cell of the grid is the selected day's cell, so at most one cell is selected |
| Calendar.ByTimePreorder | pages/CalendarPage.tsx:172 | the time comparator is total and transitive |
| Calendar.SelectedDateEventsProperties | pages/CalendarPage.tsx:170-172 | the listed events are the events on the selected day, each as often as in the list, ordered by time; none without a selection |
| Calendar.EventEditor.constructor | pages/CalendarPage.tsx:52-56 | the editor starts from the event's fields, an absent description or time reading as '' |
| Calendar.EventEditor.TogglePlayer | pages/CalendarPage.tsx:59-63 | a player is selected when unselected and deselected when selected; the other fields stay |
| Calendar.EventEditor.Submit | pages/CalendarPage.tsx:65-85 | the editor's submission is `Submission` of its fields |
| Calendar.Submission | pages/CalendarPage.tsx:65-85 | an untitled event, and a player event with nobody selected, are refused; otherwise the event keeps its id and date, takes the fields, and has no players exactly when it is a team event |
| Calendar.SubmissionWellFormed | pages/CalendarPage.tsx:76-83 | a saved event on a readable date is well formed: a team event carries no players |
| Calendar.NewEventDraft | pages/CalendarPage.tsx:211-219 | no draft without a selected day; otherwise an untitled team event without players on that day |
| PlayerBoard.PlayerEntry | pages/PlayerDashboard.tsx:49-63 | an entry keeps its player, has a latest value exactly when the player has a measurement of the metric, has improvement 0 without one, and its improvement is never NaN or -Infinity |
| PlayerBoard.PlayerEntryFew | pages/PlayerDashboard.tsx:49-54 | with fewer than two measurements of the metric the improvement is 0 and the latest value the only one, if any |
| PlayerBoard.PlayerEntryMany | pages/PlayerDashboard.tsx:56-62 | with two or more, the latest value is a newest measurement's, and the improvement compares it with an oldest one: +Infinity or 0 from zero, else the percent change to one decimal |
| PlayerBoard.PlayerEntryHasData | pages/PlayerDashboard.tsx:54-64 | an entry has a latest value exactly when the player has a measurement of the metric |
| PlayerBoard.ByImprovementPreorder | pages/PlayerDashboard.tsx:65 | the improvement comparator is total and transitive |
| PlayerBoard.Leaderboard | pages/PlayerDashboard.tsx:48-66 | at most five entries, each with data and for a player of the squad |
| PlayerBoard.LeaderboardEntries | pages/PlayerDashboard.tsx:64-66 | only entries with data are listed, as many as there are up to five |
| PlayerBoard.LeaderboardOrder | pages/PlayerDashboard.tsx:65 | the highest improvement comes first |
| PlayerBoard.LeaderboardTop | pages/PlayerDashboard.tsx:65-66 | no entry with data left out has a higher improvement than the last one shown |
| PlayerBoard.LeaderboardHasData | pages/PlayerDashboard.tsx:64 | a player is on the board only with a measurement of the metric |
| PlayerBoard.HasCompletedTodaysSurvey | pages/PlayerDashboard.tsx:37-41 | the survey counts as done exactly when a player is loaded and one of their surveys falls on today's day |
| PlayerBoard.SubmittedSurveyCompletes | pages/PlayerDashboard.tsx:37-41 | once the store records a survey, the dashboard sees today's survey done on the same day |
| PlayerBoard.PublicNotes | pages/PlayerDashboard.tsx:43-46 | the notes shown are exactly the public ones; none without a player (their order is stated by `PublicNotesReversed`) |
| PlayerBoard.PublicNotesReversed | pages/PlayerDashboard.tsx:45 | the public notes are shown in the reverse of their stored order, one for one |
| PlayerBoard.PublicNotesNewestFirst | pages/PlayerDashboard.tsx:45 | the first note shown is the last public note stored |
| CoachBoard.InitialSelection | pages/ConditionerDashboard.tsx:99-105 | an existing selection, or an empty metric list, keeps the selection; a new selection is the id of a selectable active metric |
| CoachBoard.ActualMetricId | pages/ConditionerDashboard.tsx:168-185 | a measured selection is ranked as it is, and any other id ranked instead is a measured one |
| CoachBoard.MetricIdFallback | pages/ConditionerDashboard.tsx:177-183 | an unmeasured selection is replaced by the first metric with the selected metric's name that has measurements |
| CoachBoard.PercentProperties | pages/ConditionerDashboard.tsx:235-242 | the percent improvement is +Infinity or finite: from a zero first value +Infinity for a gain and 0 otherwise, else within 0.005 of the exact ratio |
| CoachBoard.RelevantEnds | pages/ConditionerDashboard.tsx:188-190 | the first of the oldest-first list is an oldest measurement of the metric and the last a newest |
| CoachBoard.PlayerRow | pages/ConditionerDashboard.tsx:187-245 | a row keeps its player, has a latest value exactly when the player has a measurement of the metric, carries 0/0 improvements without one, and its percent is finite or +Infinity, never NaN |
| CoachBoard.PlayerRowFew | pages/ConditionerDashboard.tsx:214-230 | without a measurement of the metric a row has no latest value and 0/0 improvements; with one, its value and 0/0 |
| CoachBoard.PlayerRowMany | pages/ConditionerDashboard.tsx:232-245 | with two or more, the latest value is a newest measurement's and both improvements compare it with an oldest one, rounded to two decimals |
| CoachBoard.PlayerRowHasData | pages/ConditionerDashboard.tsx:214-219 | a row has a latest value exactly when the player has a measurement of the metric |
| CoachBoard.KeyLeMeaning | pages/ConditionerDashboard.tsx:311-315 | the compared order is the numeric one on finite values, with +Infinity above them and tied with itself as the comparator's NaN makes it |
| CoachBoard.RankingPreorder | pages/ConditionerDashboard.tsx:298-315 | every mode's comparator is total and transitive |
| CoachBoard.NoDataIff | pages/ConditionerDashboard.tsx:259-271 | no row has data exactly when no player has a measurement of the ranked metric |
| CoachBoard.Leaderboard | pages/ConditionerDashboard.tsx:124-317 | at most five rows in every mode, each for a player of the squad |
| CoachBoard.LeaderboardAtMostFive | pages/ConditionerDashboard.tsx:280-316 | no mode shows more than five players |
| CoachBoard.LatestModeWithoutData | pages/ConditionerDashboard.tsx:271-295 | latest mode without any data shows the first five players without a value and with 0/0 improvements |
| CoachBoard.RankedEntries | pages/ConditionerDashboard.tsx:309-316 | a ranked board lists only rows with data of the ranked metric, as many as there are up to five |
| CoachBoard.RankedOrder | pages/ConditionerDashboard.tsx:311-315 | 'desc' lists from the largest figure down and 'asc' from the smallest up |
| CoachBoard.RankedTop | pages/ConditionerDashboard.tsx:309-316 | every row with data left out ranks no earlier than the last one shown |
| CoachBoard.InjuredPlayers | pages/ConditionerDashboard.tsx:115 | the injured list holds exactly the players with an injury |
| CoachBoard.TodaysSchedule | pages/ConditionerDashboard.tsx:117-120 | today's programme holds exactly the events dated with today's text |
| CoachBoard.TodaysScheduleIsToday | pages/ConditionerDashboard.tsx:117-120 | an event is on today's programme exactly when its date reads as today |
| Latest.OlderFirstPreorder | services/api.ts:245 | the oldest-first comparator on dates is a total preorder, so the stable sort it drives is well defined |
| Latest.LatestMeasurement | pages/PlayerProfile.tsx:708-717 | a latest measurement found is one of the player's measurements, of the requested metric |
| Latest.LatestIsNewest | pages/PlayerProfile.tsx:708-717 | filtering by metric, sorting newest first and taking the head equals a reference scan that keeps the first strictly newest measurement |
| Latest.NewestIndex | pages/PlayerProfile.tsx:708-717 | the reference scan's pick is a measurement of the metric at an index no other measurement of it is newer than, and no earlier one is as new |
| Latest.LatestMeasurementProperties | pages/PlayerProfile.tsx:708-717 | the latest measurement is missing exactly when the metric has none; otherwise it is a newest measurement of the metric, the first in array order among ties |
| Latest.LatestValue | pages/PlayerProfile.tsx:717 | `latest?.value` is present exactly when some measurement of the metric exists |
| Profile.ExactIsPartial | pages/PlayerProfile.tsx:667-689 | every exact body-fat name also passes the partial test, since each contains "yağ" or "fat" |
| Profile.FatMetric | pages/PlayerProfile.tsx:667-690 | a fat metric found is one of the metrics and its lower-cased name holds a partial fat word; none is found only when no name does |
| Profile.FatMetricChoice | pages/PlayerProfile.tsx:667-690 | the first exact match wins when one exists, else the first partial match; a fat metric is found exactly when some metric passes the partial test, and it is one of the metrics |
| Profile.LatestOfProperties | pages/PlayerProfile.tsx:732-734 | a card value is missing exactly when no metric was found or it has no measurement; otherwise it is the value of a newest measurement of the found metric |
| Profile.LatestStats | pages/PlayerProfile.tsx:660-760 | no metrics give an empty card; the age is present exactly with metrics and a birth date; a height, weight or fat shown is the value of one of the player's measurements |
| Profile.LatestStatsProperties | pages/PlayerProfile.tsx:660-760 | no metrics give an empty card; otherwise height, weight and fat are the latest values of the metrics the finders chose, and the age is present exactly with a birth date and counts the birthdays reached by today |
| Profile.SetField | pages/PlayerProfile.tsx:231-233 | setting a field keeps keys unique, holds the new text under the key, keeps every other field, and grows the form only for a new key |
| Profile.SetFieldStep | pages/PlayerProfile.tsx:231-233 | after setting one key the form has that key plus the old keys, the set key holds the new text and every other key keeps its text |
| Profile.InitialForm | pages/PlayerProfile.tsx:223-229 | the initial form has unique keys |
| Profile.BuildInitialForm | pages/PlayerProfile.tsx:220-229 | the initialising loop over the active manual metrics builds the initial form |
| Profile.InitialFormFields | pages/PlayerProfile.tsx:213-229 | the initial form has a field exactly for each active manual metric, holding the latest value's text or "" |
| Profile.FilledHasAll | pages/PlayerProfile.tsx:239 | every field whose text is not blank survives the blank filter |
| Profile.Submission | pages/PlayerProfile.tsx:238-252 | nothing is saved exactly when every field is blank; otherwise one measurement per non-blank field, in order, with the parsed value and the chosen date |
| Profile.ChartableMetrics | pages/PlayerProfile.tsx:862-864 | the chart offers exactly the active metrics other than `metric-1` |
| Radar.LatestRecordHas | pages/PlayerProfile.tsx:823-830 | the base record has a field for a name exactly when some manual metric of that name has a measurement |
| Radar.LatestRecordValue | pages/PlayerProfile.tsx:823-830 | the field of a name holds the latest value of the last measured manual metric with that name |
| Radar.History | pages/PlayerProfile.tsx:845-847 | the history holds exactly the numeric values stored under the metric's name in the chart records, no more of them than records |
| Radar.SeqMax | pages/PlayerProfile.tsx:850 | the maximum is an element of the list and no element exceeds it |
| Radar.FullMarkBounds | pages/PlayerProfile.tsx:849-851 | the axis maximum is at least the latest value and every historical value, is one of them when there is a history, and is positive when there is none |
| Radar.BuildLatestRecord | pages/PlayerProfile.tsx:820-830 | the loop over manual metrics builds the base record |
| Radar.AxisValue | pages/PlayerProfile.tsx:833-839 | a Survey metric has no value; a Manual one has the number stored under its name, exactly when there is one; a Calculated one has a value only with a formula, and then one rounded to two decimals |
| Radar.RadarData | pages/PlayerProfile.tsx:816-860 | no metrics give no axes; otherwise one axis per active radar metric, in order, named after it |
| Radar.BuildRadarData | pages/PlayerProfile.tsx:816-860 | the method builds the radar data the reference function defines |
| Radar.RadarAxes | pages/PlayerProfile.tsx:819-859 | one axis per active radar metric, in order, named after it; value and raw value agree and never exceed the maximum; an axis without a value is 0 of 1 |
| Radar.RadarMetricsComplete | pages/PlayerProfile.tsx:819 | every active metric shown in the radar gets an axis |
| Radar.SurveyAxisIsEmpty | pages/PlayerProfile.tsx:833-843 | a survey-linked metric's axis is always 0 of 1 |
| Radar.ManualAxisIsLatest | pages/PlayerProfile.tsx:835-836 | a measured manual metric's axis shows its latest value when no later measured manual metric shares its name |
| Chart.ApplyField | pages/PlayerProfile.tsx:777 | after a series of field writes a field holds its last write, or keeps its old value (or absence) when nothing writes it |
| Chart.LastWriteAppend | pages/PlayerProfile.tsx:777-789 | a later write to a field takes precedence over every earlier one |
| Chart.ManualContribution | pages/PlayerProfile.tsx:767-774 | a measurement contributes exactly when an active manual metric has its metric id, and the metric found is that one |
| Chart.Dedup | pages/PlayerProfile.tsx:776 | the insertion order of the day map holds each collected day once and no other day |
| Chart.CollectMeasurements | pages/PlayerProfile.tsx:772-779 | the first pass creates a record exactly for the days of contributing measurements, in first-seen order, each holding that day's manual writes |
| Chart.CopyAnswers | pages/PlayerProfile.tsx:787-791 | copying one survey's answers applies the answer writes of the linked metrics in order |
| Chart.CollectSurveys | pages/PlayerProfile.tsx:782-792 | the second pass adds every survey's day to the order and its answers to that day's record, after the manual writes |
| Chart.ApplyCalculated | pages/PlayerProfile.tsx:796-803 | the calculated metrics run over one record in registry order, each seeing the earlier results |
| Chart.CalculateAll | pages/PlayerProfile.tsx:795-804 | the third pass keeps the set of days and gives each record its calculated fields |
| Chart.ChartData | pages/PlayerProfile.tsx:762-812 | no metrics give no records; otherwise one record per collected day, each for one of those days and holding exactly that day's values |
| Chart.BuildChartData | pages/PlayerProfile.tsx:762-812 | the three passes and the sort compute the chart data the reference definition describes |
| Chart.AllWrites | pages/PlayerProfile.tsx:771-792 | after the first two passes each day's record is exactly the manual writes of that day followed by the survey writes |
| Chart.CollectedPoints | pages/PlayerProfile.tsx:795-807 | the records listed in insertion order after the third pass are the reference points |
| Chart.ByDayPreorder | pages/PlayerProfile.tsx:807-811 | the by-day comparator is a total preorder |
| Chart.ChartAscending | pages/PlayerProfile.tsx:806-811 | the output is strictly ascending by day: sorted, and one record per day |
| Chart.ChartDaysExact | pages/PlayerProfile.tsx:771-792 | a day has a record exactly when a contributing measurement or any survey falls on it |
| Chart.ChartRecord | pages/PlayerProfile.tsx:762-812 | each output record holds the fields the writes and the calculated metrics give its day |
| Chart.SurveyOverridesManual | pages/PlayerProfile.tsx:777-789 | before the calculated metrics, a field holds the last survey answer of the day, else the last manual measurement, else nothing |
| Chart.LastMeasurementWins | pages/PlayerProfile.tsx:772-779 | among measurements of one day and one metric name, the last in array order is the one stored |
| Chart.SurveyWriteSource | pages/PlayerProfile.tsx:788-789 | a survey-written value is an answer present in a survey of that day under the key of a linked metric of that name |
| Chart.AnswerWriteSource | pages/PlayerProfile.tsx:787-790 | an answer written from one survey comes from a linked metric of that name whose key the survey answered |
| Chart.CalcAllFrame | pages/PlayerProfile.tsx:796-803 | a field no calculated metric is named after is neither added nor changed by the third pass |
| Chart.CalcAllKeeps | pages/PlayerProfile.tsx:796-803 | the third pass never removes a field |
| Chart.LaterFormulaSeesEarlier | pages/PlayerProfile.tsx:796-803 | a later calculated metric runs on the record that already holds an earlier one's result |
| Chart.NullFormulaLeavesField | pages/PlayerProfile.tsx:799-801 | a formula whose value is null leaves the record unchanged |
| Formula.Placeholders | pages/PlayerProfile.tsx:13 | every matched text is a `[`, a run of characters other than `]` and line terminators, and a `]` |
| Formula.Evaluate | pages/PlayerProfile.tsx:30-36 | an empty text has no value (`return` gives undefined), and a lone number evaluates to itself |
| Formula.FormulaValue | pages/PlayerProfile.tsx:11-37 | a formula has a value only when every placeholder has a value, and the value is unchanged by two-decimal rounding |
| Formula.HasMatchIffMatches | pages/PlayerProfile.tsx:13-26 | the regular expression's `test` succeeds exactly when `match` finds at least one placeholder |
| Formula.Lookup | pages/PlayerProfile.tsx:17-21 | a value is found exactly when the record holds the name with a non-null value, and it is that value |
| Formula.DigitRun | pages/PlayerProfile.tsx:32 | the scan stops at the first non-digit, and everything it passed is a digit |
| Formula.ScanNumber | pages/PlayerProfile.tsx:32 | a scanned numeric literal consumes at least one piece and stays in the text |
| Formula.ParseSum | pages/PlayerProfile.tsx:32 | parsing an additive expression consumes at least one token |
| Formula.EvaluateFormula | pages/PlayerProfile.tsx:11-37 | the source's loop (substitute each placeholder in turn, reject a leftover bracket, evaluate, round) computes the reference value `FormulaValue` of the formula, including its null cases (see "Left out" for the texts where that value is null and JavaScript's is not) |
| Formula.SubstituteSomeIff | pages/PlayerProfile.tsx:15-24 | substitution succeeds exactly when every placeholder has a value |
| Formula.MissingValueIsNull | pages/PlayerProfile.tsx:19-21 | a placeholder whose value is missing or null makes the result null |
| Formula.ResultIsRounded | pages/PlayerProfile.tsx:33 | a result is a number that two-decimal rounding leaves unchanged |
| Formula.LeftoverBracketIsNull | pages/PlayerProfile.tsx:26-28 | a bracket pair left after substitution makes the result null |
| Formula.ReplaceAllRemovesEvery | pages/PlayerProfile.tsx:23 | `split(...).join(...)` with a number's text leaves no occurrence of the placeholder |
| Formula.FirstReplacement | pages/PlayerProfile.tsx:23 | the text is unchanged when the pattern does not occur; otherwise it agrees up to the first occurrence, which now holds the replacement |
| Formula.ButtonPlaceholder | pages/PlayerProfile.tsx:13-16 | the text a metric button appends is matched as one placeholder whose name is the metric's name |
| Formula.DifferenceOfTwo | pages/PlayerProfile.tsx:11-37 | `[A]-[B]` with two values that are not negative evaluates to their difference rounded to two decimals |
| Formula.NegativeSubtrahend | pages/PlayerProfile.tsx:23-35 | `[A]-[B]` with a negative `B` becomes text with `--`, which JavaScript rejects, so the result is null |
| Store.Mapped | services/api.ts:211-217 | a table update by `map` keeps the length and applies the step to every element in place |
| Store.OrError | services/api.ts:218 | a missing update becomes the error with the operation's message, a present one is returned |
| Store.MatchingMapped | services/api.ts:211-217 | mapping with a matcher updates exactly the matching elements and keeps the others |
| Store.MatchingLast | services/api.ts:210-218 | the recorded update is missing exactly when nothing matches; otherwise it is the update of the last match |
| Store.MapTracking | services/api.ts:210-218 | the loop that maps the table and records each update yields the mapped table and the last recorded update |
| Store.WithIds | services/api.ts:256-263 | each new measurement gets the batch's id for its position and keeps its metric, value and date |
| Store.NewNote | services/api.ts:587 | a new note keeps the given text, date, visibility and author and belongs to the player |
| Store.NoteIndex | services/api.ts:619 | `findIndex` gives -1 exactly when no note has the id, else the first note with it |
| Store.NewPlayer | services/api.ts:712-722 | a new player starts with no measurements, notes, surveys, injury or history, and carries the given details |
| Store.NewMetric | services/api.ts:188 | a new metric is the input with a fresh id, its radar flag defaulting to false |
| Store.NewQuestion | services/api.ts:765-769 | a new question is the input with a fresh id, keeping a given key and making one otherwise |
| Store.MockStore.constructor | services/api.ts:10-121 | the store starts with the given users, players, metrics, questions and events |
| Store.MockStore.PlayerDetails | services/api.ts:163-164 | the player found is missing exactly when no player has the id, else a player with the id |
| Store.MockStore.AddMultipleMeasurements | services/api.ts:255-267 | the target player gets the batch merged and sorted oldest first; the result is the updated player or "Player not found"; other tables unchanged |
| Store.MockStore.UpdateMeasurement | services/api.ts:293-308 | the target player's matching measurements are patched and the list re-sorted; the result is the patched measurement or "Measurement not found" |
| Store.MockStore.DeleteMeasurement | services/api.ts:325-331 | the target player loses the measurements with the id; other tables unchanged |
| Store.MockStore.SubmitDailySurvey | services/api.ts:352-362 | the player matched through the user's name gets the new survey in place of today's; other tables unchanged |
| Store.MockStore.UpdateInjuryStatus | services/api.ts:474-507 | the target player's injury moves to the history or a new one starts; the result is the player or "Player not found" |
| Store.MockStore.UpdateInjuryHistory | services/api.ts:528-538 | the history entry with the id is patched; the result is the player or "Player not found" |
| Store.MockStore.DeleteInjuryHistory | services/api.ts:559-569 | the history entry with the id is removed; the result is the player or "Player not found" |
| Store.MockStore.AddPlayerNote | services/api.ts:587-594 | the new note is appended to the target player and returned, even when no player has the id |
| Store.MockStore.UpdatePlayerNote | services/api.ts:617-629 | the first note with the id in each player is patched; the result is the note or "Note not found" |
| Store.MockStore.DeletePlayerNote | services/api.ts:644-648 | every player loses the notes with the id |
| Store.MockStore.UpdatePlayerInfo | services/api.ts:668-677 | the target player's details are replaced; the result is the player or "Player not found" |
| Store.MockStore.AddPlayer | services/api.ts:712-724 | the new player is appended and returned; other tables unchanged |
| Store.MockStore.DeletePlayer | services/api.ts:736-737 | the players with the id are removed; other tables unchanged |
| Store.MockStore.AddMetric | services/api.ts:188-190 | the new metric is appended and returned; other tables unchanged |
| Store.MockStore.UpdateMetric | services/api.ts:210-219 | the metric with the id is patched; the result is the metric or "Metric not found" |
| Store.MockStore.DeleteMetric | services/api.ts:231-232 | the metrics with the id are removed; other tables unchanged |
| Store.MockStore.AddSurveyQuestion | services/api.ts:765-771 | the new question is appended and returned; other tables unchanged |
| Store.MockStore.UpdateSurveyQuestion | services/api.ts:791-800 | the question with the id is patched; the result is the question or "Survey question not found" |
| Store.MockStore.DeleteSurveyQuestion | services/api.ts:812-813 | the questions with the id are removed; other tables unchanged |
| Store.MockStore.AddScheduleEvent | services/api.ts:386-388 | the new event is appended and returned; other tables unchanged |
| Store.MockStore.UpdateScheduleEvent | services/api.ts:408-417 | the event with the id is patched; the result is the event or "Event not found" |
| Store.MockStore.DeleteScheduleEvent | services/api.ts:429-430 | the events with the id are removed; other tables unchanged |
| Store.AddedMeasurements | services/api.ts:256-263 | the target's list is old plus new as a multiset, sorted oldest first, one longer per new measurement, and nothing else of the player changes |
| Store.MeasurementIdsDistinct | services/api.ts:259 | the ids of one batch are pairwise distinct |
| Store.UpdateById | services/api.ts:210-219 | an update by id touches exactly the matching elements, and the "not found" error arises exactly when none matches |
| Store.UpdatedMeasurements | services/api.ts:294-305 | on the target player the matching measurements are patched, the list re-sorted, and the update recorded exactly when one matched |
| Store.UpdateMeasurementFails | services/api.ts:293-307 | "Measurement not found" arises exactly when no measurement of the target player has the id; other players record nothing |
| Store.DeletedMeasurement | services/api.ts:325-330 | the target player keeps exactly the measurements with another id, in order; everything else is unchanged |
| Store.WithSurvey | services/api.ts:353-361 | submitting changes only the player's surveys, which end with the new survey |
| Store.SurveyReplacesToday | services/api.ts:353-361 | the new survey is last and the only one on today's day, without its own `date` answer; the others come from the old list, and every survey of another day is kept |
| Store.SurveyTargetExists | services/api.ts:353 | the survey's target is the given id or the id of an existing player |
| Store.TransitionInjury | services/api.ts:476-505 | only the injury and the history change; an injury is active afterwards exactly when one is given, and it has no recovery date; the history grows by at most one entry |
| Store.InjuryTransitionEffect | services/api.ts:476-505 | the active injury is closed, recovered now, wherever its id occurs in the history; new data opens a fresh active injury, appended to the history exactly when no entry has its id; without data none is active |
| Store.NoteIndexFirst | services/api.ts:619 | the index found is at or before any note with the id |
| Store.NoteUpdate | services/api.ts:618-627 | only the player's notes change and their number stays; a note is recorded exactly when the player has one with the id |
| Store.NoteUpdateEffect | services/api.ts:618-627 | only the first note with the id is patched and recorded; without one the player is unchanged |
| Store.UpdateNoteFails | services/api.ts:617-628 | "Note not found" arises exactly when no player has a note with the id |
| Store.DeletedNote | services/api.ts:644-647 | no player keeps a note with the id, and every other note stays |
| Store.UpdatedMetrics | services/api.ts:211-217 | a patched metric keeps its id, so other metrics never move |
| Store.DeletedMetric | services/api.ts:231 | exactly the metrics with another id remain |
| Rows.ConvertPlayer | services/supabaseApi.ts:13-26 | a converted player has no measurements, notes, surveys, history or injury, and its own columns read back as the row |
| Rows.ConvertPlayerOfRow | services/supabaseApi.ts:13-26 | a player without related records is exactly what its row converts to |
| Rows.ConvertMetric | services/supabaseApi.ts:28-37 | every column of a metric row lands in one field: converting and reading back gives the row |
| Rows.ConvertMetricOfRow | services/supabaseApi.ts:28-37 | every metric is the conversion of its own row, so the converter is a bijection |
| Rows.ConvertMeasurement | services/supabaseApi.ts:39-44 | converting a measurement row and reading it back gives the row |
| Rows.ConvertMeasurementOfRow | services/supabaseApi.ts:39-44 | every measurement is the conversion of its own row |
| Rows.ConvertNote | services/supabaseApi.ts:46-53 | each note field is the matching column |
| Rows.ConvertInjury | services/supabaseApi.ts:55-61 | each injury field is the matching column |
| Rows.ConvertSurveyQuestion | services/supabaseApi.ts:72-78 | each question field is the matching column |
| Rows.ConvertScheduleEvent | services/supabaseApi.ts:80-88 | each event field is the matching column |
| Rows.ConvertDailySurvey | services/supabaseApi.ts:63-70 | the survey has the fixed keys and the keys of `survey_data`; a key of `survey_data` wins over a fixed column of the same name |
| Rows.SurveyDateKey | services/supabaseApi.ts:351 | today's key is ten characters that read back as today's date |
| Rows.Upsert | services/supabaseApi.ts:349-359 | the upsert stores the row under (player, today) and keeps every other row |
| Rows.UpsertTwice | services/supabaseApi.ts:349-359 | a second submission on the same day replaces the first, so each player has at most one row per day |
| Rows.SubmittedReadBack | services/supabaseApi.ts:63-70 | reading back a submission gives every answer under its own key, the date key when no answer named `date`, and only fixed or submitted keys |
| Rows.ActiveInjury | services/supabaseApi.ts:151 | no active injury exactly when every entry has a recovery date; otherwise the first entry without one |
| Rows.PlayerDetails | services/supabaseApi.ts:127-154 | nothing without the player's row; otherwise the row's fields, every related row converted in order, and the active injury of the history |
| Rows.DetailsInjured | services/supabaseApi.ts:149-151 | a loaded player is injured exactly when some injury row has no recovery date |
| Rows.DefaultEmail | services/supabaseApi.ts:163 | the default login ends with `@kondisca.com` and its local part has no white space |
| Rows.PlayerEmail | services/supabaseApi.ts:163 | a non-empty given email wins, otherwise the default login is used |
| Rows.DefaultEmailOfPlainName | services/supabaseApi.ts:163 | a lower-case name without spaces is the local part as it is |
| Rows.TempPassword | services/supabaseApi.ts:164 | the password is `Player`, then digits, then `!` |
| Rows.TempPasswordDigits | services/supabaseApi.ts:164 | the digits spell the timestamp modulo one million, and a timestamp of six digits or more gives a 13-character password |
| Dates.DaysInMonth | pages/CalendarPage.tsx:166 | a month has 28 to 31 days, and February has 29 exactly in a leap year |
| Dates.YearLength | pages/CalendarPage.tsx:165-166 | a year has 366 days exactly when it is a leap year, else 365 |
| Dates.YearStep | pages/CalendarPage.tsx:165-166 | consecutive years are one year length apart in the day count |
| Dates.NextDay | pages/CalendarPage.tsx:165-166 | the day after a valid date is a valid date |
| Dates.NextDayNumber | pages/CalendarPage.tsx:165-166 | the day count of the next day is one more |
| Dates.Weekday | pages/CalendarPage.tsx:165-167 | `getDay()` is between 0 and 6 |
| Dates.WeekdayStep | pages/CalendarPage.tsx:165 | the next day's weekday is the next weekday, Saturday wrapping to Sunday |
| Dates.WeekdayExamples | pages/CalendarPage.tsx:165 | 1970-01-01, 2024-02-29 and 2026-10-01 fall on a Thursday, and 2026-11-01 on a Sunday |
| Dates.AgeIsAnniversaryCount | pages/PlayerProfile.tsx:720-729 | the age is the number of birthdays reached: today is on or after the age-th one and before the next one |
| Dates.AgeNonNegative | pages/PlayerProfile.tsx:720-729 | someone born on or before today has a non-negative age |
| Dates.Pad | services/api.ts:114 | a padded number has exactly the width asked for, all digits |
| Dates.PadValue | services/api.ts:114 | a padded number reads back as itself when it fits the width |
| Dates.ValuePad | services/api.ts:114 | any digit string is the padding of its own value |
| Dates.IsoDate | services/api.ts:114 | the date key is ten characters with dashes at positions 4 and 7 |
| Dates.ParseIsoDate | pages/PlayersListPage.tsx:19 | a date read from text is a valid date of years 0 to 9999 |
| Dates.ParseIsoDateOfIsoDate | services/api.ts:114 | reading a formatted date gives the date back |
| Dates.IsoDateOfParseIsoDate | services/api.ts:114 | formatting a date read from text gives that text back, so the text form is unique |
| Text.LowerChar | pages/PlayersListPage.tsx:84-86 | lowering one character gives one or two characters |
| Text.ToLower | pages/PlayersListPage.tsx:84-86 | lowering a string gives at least as many and at most twice as many characters |
| Text.ToLowerAppend | pages/PlayersListPage.tsx:84-86 | lowering distributes over concatenation |
| Text.ToLowerOfLower | pages/SurveyManagementPage.tsx:40 | lower-case ASCII text is left alone |
| Text.ContainsAt | pages/PlayersListPage.tsx:84-86 | `includes` finds a text wherever it occurs |
| Text.ContainsWitness | pages/PlayersListPage.tsx:84-86 | `includes` succeeds only where the text occurs |
| Text.DropSpaces | pages/PlayerProfile.tsx:239 | dropping leading white space gives a suffix that starts with no white space |
| Text.DotSpaceRuns | services/supabaseApi.ts:163 | replacing white-space runs by dots leaves no white space and never lengthens the text |
| Text.DotSpaceRunsNoSpace | services/supabaseApi.ts:163 | text without white space is unchanged |
| Text.NatToString | pages/SurveyManagementPage.tsx:40 | `String(n)` is a non-empty run of digits without a leading zero |
| Text.NatToStringValue | pages/SurveyManagementPage.tsx:40 | the digits of `String(n)` read back as `n` |
| Text.Last | services/supabaseApi.ts:164 | `slice(-k)` is the last k characters, or all of a shorter text |
| Text.LastDigitsValue | services/supabaseApi.ts:164 | the last k digits of `String(n)` spell n modulo 10^k |
| Numbers.Abs | pages/PlayerProfile.tsx:33 | the absolute value is not negative and is the number or its negation |
| Numbers.Neg | pages/PlayerProfile.tsx:32 | negation keeps finiteness and negates a finite number |
| Numbers.Add | pages/PlayerProfile.tsx:32 | addition propagates NaN and adds finite numbers exactly |
| Numbers.Sub | pages/PlayerProfile.tsx:32 | subtraction of finite numbers is exact |
| Numbers.Mul | pages/PlayerProfile.tsx:32 | multiplication propagates NaN and multiplies finite numbers exactly |
| Numbers.Div | pages/PlayerProfile.tsx:32 | division propagates NaN, divides by a non-zero finite number exactly, and is never finite on division by zero |
| Numbers.Pow | pages/PlayerProfile.tsx:32 | any number to the power zero is one |
| Numbers.RoundAt | pages/PlayerProfile.tsx:33 | the rounded value times the scale is the nearest integer to the scaled value, ties away from zero |
| Numbers.Round2Ext | pages/PlayerProfile.tsx:33 | rounding keeps finiteness and passes infinities and NaN through |
| Numbers.RoundAtClose | pages/PlayerProfile.tsx:33 | rounding moves a number by at most half a unit of the last place kept |
| Numbers.RoundAtExact | pages/PlayerProfile.tsx:33 | a number already on the grid is left alone |
| Numbers.RoundAtIdempotent | pages/PlayerProfile.tsx:33 | rounding twice is rounding once |
| Numbers.RoundAtMonotone | pages/PlayerProfile.tsx:33 | rounding keeps order |
| Numbers.Round2Properties | pages/ConditionerDashboard.tsx:242-243 | two-decimal rounding moves a number by at most 0.005, is idempotent and keeps order |
| Numbers.Round1Properties | pages/PlayerDashboard.tsx:62 | one-decimal rounding moves a number by at most 0.05, is idempotent and keeps order |
| Numbers.Round2Examples | pages/PlayerProfile.tsx:33 | 160/7 rounds to 22.86, and 2.345 and -2.345 round away from zero |
| Seqs.Filter | pages/PlayersListPage.tsx:84-86 | `filter` keeps exactly the elements that pass, and never adds any |
| Seqs.FilterAppend | pages/PlayersListPage.tsx:84-86 | filtering distributes over concatenation, so order is kept |
| Seqs.FilterAll | pages/PlayersListPage.tsx:84-86 | when every element passes, the filter is the identity |
| Seqs.FilterNone | pages/PlayerDashboard.tsx:64 | when no element passes, the filter is empty |
| Seqs.Find | pages/ConditionerDashboard.tsx:177-183 | `find` is missing exactly when nothing passes, and otherwise is the first element that does |
| Seqs.Take | pages/ConditionerDashboard.tsx:280 | `slice(0, n)` has at most n elements, is the whole list when it is short, and is a prefix |
| Seqs.Reverse | pages/PlayerDashboard.tsx:45 | `reverse` keeps the length and mirrors the positions |
| Seqs.ReverseMembers | pages/PlayerDashboard.tsx:45 | reversing keeps the same elements |
| Seqs.RemoveAll | pages/CalendarPage.tsx:59-63 | removing an id drops every copy of it and keeps all the others |
| Seqs.RemoveAbsent | pages/CalendarPage.tsx:59-63 | removing an absent id changes nothing |
| Seqs.Toggle | pages/CalendarPage.tsx:59-63 | the toggle adds an absent id, removes a present one and keeps every other id |
| Seqs.ToggleTwice | pages/CalendarPage.tsx:59-63 | toggling an absent id twice restores the list |
| Sorting.Insert | services/api.ts:263 | inserting adds exactly one element to the multiset |
| Sorting.Sort | services/api.ts:263 | sorting keeps the length and is a permutation |
| Sorting.InsertSorted | services/api.ts:263 | inserting into a sorted list keeps it sorted |
| Sorting.SortSorted | services/api.ts:263 | the result is sorted under any total preorder |
| Sorting.SortStable | services/api.ts:263 | the sort is stable: elements that compare equal keep their relative order |
| Sorting.SortOfSorted | services/api.ts:263 | sorting an already sorted list changes nothing |
| Sorting.SortFirst | pages/ConditionerDashboard.tsx:188-190 | the first element is a least one, and the first of its ties in the input |
| Sorting.SortLast | pages/ConditionerDashboard.tsx:188-190 | the last element is a greatest one, and the last of its ties in the input |
| Sorting.TopOfSort | pages/ConditionerDashboard.tsx:311-316 | the first n of a sort are sorted, come from the input, and rank no later than any element left out |
| Types.DayOfSameDay | pages/PlayerDashboard.tsx:37-41 | two times share a calendar day exactly when they lie in the same day-long window |
| Types.ParseInputType | services/supabaseApi.ts:32 | a recognised `input_type` text names the type it is read as |
| Types.InputTypeNames | types.ts:14-18 | there are exactly three input types, and each reads back from its own name |

## Left out

- The database backend's queries (services/supabaseApi.ts) and the choice between it and the in-memory store by `isSupabaseConfigured`: they are network I/O. Their results enter the model as parameters, through the converters of `Rows`.
- `login` and the plain getters of both backends (`getPlayers`, `getMetrics`, `getSurveyQuestions`, `getScheduleEvents` and the like): they only read or fetch a table.
- The simulated delay, promises and timers of the in-memory store: asynchrony is not modelled. The deep copy the store hands back is implicit, because Dafny values are immutable and cannot be aliased.
- The mock-data generators of services/api.ts: they draw measurements and surveys with `Math.random`. The store's constructor takes the initial tables as given.
- `Date.now()` and `new Date()`: the current time and every id made from it are parameters.
- Time zones: every timestamp is read in one fixed zone. The UTC shift of `toISOString` is left out, so the day text of an instant is that of its calendar day.
- `toLocaleDateString('tr-TR')`: the chart groups its records by calendar day (`Instant / MsPerDay`), not by the Turkish date text, and the displayed date texts are not modelled.
- `localeCompare`: strings are compared by code point.
- Text.LowerChar: `toLowerCase` is modelled for the ASCII capitals, the Latin-1 capitals `À`-`Þ` (except `×`), and the Turkish `Ğ`, `Ş` and `İ`. Other capitals stay as they are, for example `Ā`, `Ω` and `Д`. The full Unicode case table is not modelled.
- Text.ToLower: inherits the gap of `Text.LowerChar`. For names with other capitals, the squad search (`PlayersPage.Search`), the default login e-mail (`Rows.DefaultEmail`) and the survey-question key (`SurveyAdmin.QuestionKey`) can differ from the source.
- SurveyAdmin.Slug: strings are sequences of Unicode characters, while `/[^a-z0-9]/g` works on UTF-16 code units. A character outside the Basic Multilingual Plane becomes two `_` in the source and one in the model.
- The `date` field of the chart records and of the radar's base record (pages/PlayerProfile.tsx:776, 784, 820) is not part of the modelled records. A formula placeholder `[date]`, or a metric named `date`, does not read it.
- Layout.IsActive: `NavLink` matches paths without regard to case. The model compares them exactly.
- Binary floating point: numbers are exact reals, extended with +Infinity, -Infinity and NaN. `toFixed` is rounding half away from zero on the exact value. Over a double, a few ties round down instead.
- Formula.Lex, Formula.FormulaValue: the value of a number substituted into a formula is kept as a number, not as the digits of `String(value)`. So when that number touches a digit, a `.` or another substituted number, the model gives null instead of reading the joined digits. Examples: `2[A]` with A = 3, which JavaScript evaluates to 23; `[A][B]` with 1 and 2, which gives 12; `[A].5` with 3, which gives 3.5. Such formulas can be typed on the key pad. Writing the digits out would need the shortest decimal text of a double, which exact reals do not have.
- Formula.Lex: a line terminator anywhere in the substituted text gives null. JavaScript mostly reads it as white space, except right after `return`.
- Formula.EvaluateFormula: it computes `FormulaValue`, so it inherits the two gaps above. In those cases its result is null where JavaScript's is a number.
- Numbers.Pow: only a zero exponent, and a finite base to a finite integer power, are evaluated; every other case of `**` gives NaN.
- CoachBoard.KeyLe: Infinity - Infinity is NaN in the comparator, and a NaN comparison reads as a tie; the model makes such a pair tie. No row carries NaN, so NaN itself is placed with zero.
- An invalid or unparsable date is `None` rather than an Invalid Date object.
- Optional text fields (`formula`, `surveyQuestionKey` and the like) are `Option<string>` and are read only through their truthiness (`Types.Truthy`), as the source's `||` reads them. `null` and `undefined` are not told apart.
- `addPlayer` of the database backend throws when the admin client is missing: that is configuration, not logic. Only the login it derives (e-mail and temporary password) is modelled. `getPlayerCredentials` and `resetPlayerPassword` are network calls; only the password format they share is modelled.
- The leaderboard mode state is typed `'percent' | 'unit'` but is set to `'latest'` from the selector. The model gives the mode all three values.
- Rendering, modals, alerts, console logging, routing and the login screen: they are UI, not logic. The sidebar and page titles are the only UI modelled.
