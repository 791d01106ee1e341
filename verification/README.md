# Event calendar: filter and form model

A Dafny model of the logic inside the `App` component of a small React event
calendar (`src/App.js`). The page loads event records from a REST endpoint,
lists those of the selected day and category, and has a form whose draft is
sent to the endpoint to create a new event. The model covers:

- **the filter** (`Events`): an event is listed when the text of its `date`
  before the first `T` equals that of the selected date and the selected
  category is "all" (`""`) or the event's own; order is kept;
- **the form draft** (`Drafts`): the change handler that writes one input, the
  effect that fills `dayOfWeek` from a fixed table 日..土 whenever the date
  changes, the payload whose `time` is `date + "T" + time` or `null`, and the
  opening/reset template;
- **the submit round trip** (`CalendarApp`): a pure transition from the
  state and the server's outcome (created record, non-OK status, or error) to
  the next state and the alert shown; plus runs of user actions;
- **dates** (`DateText`, `Gregorian`): the `split("T")[0]` truncation, the
  RFC 3339 shapes (section 5.6), `YYYY-MM-DD` parsing and formatting, and the
  weekday of a date as ECMA-262's WeekDay: (days since 1970-01-01 + 4) mod 7;
- **time zones** (`Timezones`): two day-shift defects listed under Findings,
  each modelled as written and corrected.

Everything is immutable datatypes and pure functions; one method,
`Events.VisibleEvents`, runs the filter as a loop. Network I/O, alerts and
the clock are replaced by parameters: the server's reply is an `Outcome`,
today's date is an argument of `CalendarApp.Init`.

Where the documented design of the application and its code differ, the model
follows the code, with one exception, time zones: the selected day and the
weekday name are computed without the local-time shifts the code has (see
"## Left out" and "## Findings"). Otherwise the categories are `仕事` and `プライベート` (not "work"/"private"); the weekday
names are the Japanese table; `dayOfWeek` keeps its old value when the date is
cleared (so the weekday invariant is stated only for a non-empty date); the
required-field check is the browser's `required` attribute, not a check in
the submit handler; and a date JavaScript cannot parse gives `dayOfWeek`
the value `undefined` (modelled as `None`).

## Model

| member | source | states |
|---|---|---|
| Events.Filter | src/App.js:92-99 | the listed events are at most as many as the loaded ones, and an event is listed iff it is loaded and has a date whose part before `T` equals the selection's and its category passes |
| Events.FilterPositions | src/App.js:92-99 | the list is an order-preserving subsequence of the store, and the positions kept are exactly those of matching events |
| Events.FilterCounts | src/App.js:92-99 | each matching record appears as often as in the store (duplicates kept), each other record not at all |
| Events.FilterAppend | src/App.js:92-99 | filtering a concatenation is the concatenation of the filtered parts |
| Events.FilterNoMatch | src/App.js:92-99 | when no event matches, the list is empty (the page then shows its "no events" line, lines 119-120) |
| Events.UndatedNeverListed | src/App.js:93-95 | an event without a `date` (`event.date?.split` is undefined) is never listed |
| Events.FilterIdempotent | src/App.js:92-99 | filtering the listed events again lists the same events |
| Events.CategoryNarrows | src/App.js:96-97 | choosing one category lists exactly the events of that category among those listed for "all" |
| Events.FilterSameSelection | src/App.js:93-95 | two selections with the same date part list the same events |
| Events.SelectionTruncated | src/App.js:94 | a selection given as a full timestamp lists what its plain date lists |
| Events.VisibleEvents | src/App.js:92-99 | the loop over the store returns exactly the filter's list |
| DateText.DatePart | src/App.js:93-94 | `split("T")[0]`: a prefix free of `T` that ends at the first `T` or at the end |
| DateText.DatePartUnique | src/App.js:93-94 | any prefix free of `T` ending at a `T` or at the end is the date part |
| DateText.DatePartIdempotent | src/App.js:94 | truncating a truncated date changes nothing |
| DateText.SplitJoin | src/App.js:57-60 | splitting `date + "T" + time` at its first `T` gives back date and time when the date has no `T` |
| DateText.JoinSplit | src/App.js:57-60 | a string with a `T` is the join of its date part and its time part |
| DateText.JoinShape | src/App.js:57-60 | a full date and an `HH:MM` time join into a minute-precision RFC 3339 local date-time, and only they do |
| DateText.LocalDateTimeSplits | src/App.js:57-60 | every such local date-time splits into a full date and an `HH:MM` time |
| Gregorian.ParseIsoDate | src/App.js:35 | a date that can be read has the `YYYY-MM-DD` shape and denotes a real calendar day |
| Gregorian.ParseFormat | src/App.js:35 | reading a formatted date gives the date back |
| Gregorian.FormatParse | src/App.js:35 | formatting a read date gives the original text back |
| Gregorian.Weekday | src/App.js:35 | the weekday number is in 0..6, so the seven-entry table is indexed in bounds |
| Gregorian.DayNumberNext | src/App.js:35 | the next calendar day has the next day number, across month and year ends and leap days |
| Gregorian.WeekdayNext | src/App.js:35 | the next calendar day is the next weekday, Saturday wrapping to Sunday |
| Gregorian.EpochIsThursday | src/App.js:35 | 1970-01-01 is day 0 and a Thursday |
| Gregorian.ExampleMonday | src/App.js:35 | 2024-06-10 reads as that date and is a Monday |
| Drafts.TemplateIsInitial | src/App.js:75-86 | the reset template equals the opening state (lines 10-21): text inputs empty, category 仕事, priority 1 |
| Drafts.SetText | src/App.js:41-44 | the changed input holds the new value and every other field is unchanged |
| Drafts.SetPriority | src/App.js:41-44 | the priority holds the chosen level and every other field is unchanged |
| Drafts.SetTextOnlyTouches | src/App.js:41-44 | writing an input back to its old value restores the draft; rewriting it with its new value is no change |
| Drafts.WeekdayName | src/App.js:34-35 | the name is defined iff the date can be read, and then is one of the seven table entries |
| Drafts.DeriveWeekday | src/App.js:32-38 | with a date, `dayOfWeek` becomes its weekday name; without one the draft is unchanged; no other field changes |
| Drafts.DeriveWeekdayIdempotent | src/App.js:32-38 | running the weekday effect twice is running it once |
| Drafts.Change | src/App.js:32-44 | a change writes one input and leaves the others; `dayOfWeek` becomes the new date's weekday name when a new non-empty date is entered and is otherwise left as it was (also when the date is cleared); consistency with a non-empty date is kept |
| Drafts.ChangeTwice | src/App.js:32-44 | entering the same value twice leaves the form as entering it once |
| Drafts.ChangeDateNamesWeekday | src/App.js:32-38 | after entering a non-empty date, `dayOfWeek` is that date's weekday name |
| Drafts.ExampleWeekdayName | src/App.js:34-35 | 2024-06-10 is named 月 |
| Drafts.PayloadTime | src/App.js:57-60 | `time` is sent iff both date and time are entered, and then, when the date contains no `T` (as a date input's value never does), splits back into them |
| Drafts.BuildPayload | src/App.js:55-61 | the payload copies every draft field and replaces `time` by the joined date-time or `null` |
| Drafts.PayloadTimeShape | src/App.js:55-61 | a date input value and a time input value give a minute-precision RFC 3339 local date-time whose halves are what was entered |
| Drafts.ExamplePayloadTime | src/App.js:55-61 | 2024-06-10 at 09:30 is sent as 2024-06-10T09:30; no time is sent as `null` |
| CalendarApp.Init | src/App.js:6-21 | the page opens with no events, the opening draft, every category, and today selected |
| CalendarApp.Submit | src/App.js:68-88 | a created record is appended and the form reset with a success alert; a non-OK status or an error leaves the state as it was and shows the reason |
| CalendarApp.CreatedAppendsOnce | src/App.js:73 | a created record is appended at the end and the store grows by exactly one, even for a record already present |
| CalendarApp.NoDeduplication | src/App.js:73 | two created records with the same `id` are both kept, in order |
| CalendarApp.RetrySendsSamePayload | src/App.js:55-88 | after a failure a retry sends the same request body |
| CalendarApp.VisibleAfterSubmit | src/App.js:73-99 | after a creation the list gains the record at its end iff it matches the selection; after a failure the list is unchanged |
| CalendarApp.Step | src/App.js:41-89 | every action keeps the weekday invariant and only appends to the store |
| CalendarApp.RunKeepsInvariant | src/App.js:32-89 | every run of actions keeps the invariant, and the store before is a prefix of the store after |
| CalendarApp.RunWithoutCreationKeepsEvents | src/App.js:68-88 | a run with no created record leaves the store unchanged |
| CalendarApp.ExampleScenario | src/App.js:92-99 | of a work and a private event on 2024-06-10, selecting that day and 仕事 lists the work event only |
| Timezones.UtcDateOfLocalMidnight | src/App.js:94 | the UTC calendar day of local midnight on the clicked day, by day number |
| Timezones.SelectedDateAsWritten | src/App.js:94 | the selection as written is a `YYYY-MM-DD` string (of the UTC day) |
| Timezones.SelectionShift | src/App.js:94 | as written, the selection is the clicked day at or west of UTC and the previous day east of UTC |
| Timezones.SelectionOffByOneInJapan | src/App.js:94 | at UTC+9 a click on 2024-06-10 selects 2024-06-09 and hides an event of the 10th, which the corrected selection lists |
| Timezones.SelectedDate | src/App.js:94 | the corrected selection is a plain `YYYY-MM-DD` that reads back as the clicked day |
| Timezones.SelectedDateLists | src/App.js:92-99 | with the corrected selection, an event is listed iff its date part is the clicked day and its category passes |
| Timezones.LocalWeekdayAsWritten | src/App.js:35 | the weekday as written is in 0..6 |
| Timezones.LocalWeekdayShift | src/App.js:35 | as written, the weekday is right at or east of UTC and one day behind west of UTC |
| Timezones.WeekdayOffByOneInNewYork | src/App.js:35 | at UTC-4, 2024-06-10 (a Monday) is named as a Sunday |

## Left out

- Loading the events (`fetch` GET at startup, `.catch(console.error)`, lines 24-29): network I/O; the model starts from an empty store and takes records as given.
- The POST request itself, its headers and JSON encoding/decoding (lines 63-71): network I/O; the reply is the abstract `Outcome`.
- `alert` (lines 74, 88): the alert text is returned, nothing else of the dialog is modelled.
- Rendering, the `<select>` options and the display of `event.time.substring(11, 16)` (lines 101-223): presentation only.
- The string value `e.target.value` of the priority select (lines 208-216): the model takes the chosen level as a number.
- Two submissions in flight at once: concurrency; `Submit` runs one request to completion.
- The one render between a date change and the weekday effect, during which `dayOfWeek` is stale: `Drafts.Change` applies the effect at once.
- Gregorian.ParseIsoDate: reads only `YYYY-MM-DD` with a real month and day (what a date input produces); JavaScript engines also accept other, engine-specific formats and some overflowing days.
- CalendarApp.Init: selects the local day `today` as a plain `YYYY-MM-DD`; the page's opening selection is `new Date()`, the current instant, whose UTC date (line 94) is the next day west of UTC late in the evening and the previous day east of UTC early in the morning; that shift is not modelled.
- CalendarApp.Step: a picked day becomes the selection as the local `YYYY-MM-DD` (the corrected selection), not the UTC date part of `toISOString` (line 94); the as-written selection is `Timezones.SelectedDateAsWritten`. Picked days are limited to years 0001-9999 (`Timezones.Selectable`); other days leave the selection unchanged, and no claim is made about what the calendar widget offers.
- Drafts.WeekdayName: gives the weekday of the date itself (as `getUTCDay` would); the code's `getDay` reads the UTC-parsed date in local time (line 35), which is one day behind west of UTC; that as-written behaviour is `Timezones.LocalWeekdayAsWritten`.
- Timezones.SelectedDateAsWritten: models only the date part of `toISOString`, which is all the filter reads, and assumes a time-zone offset under one day.
- `src/Components/CalendarComponent.jsx`: a wrapper around the external calendar widget with no logic of its own.

## Findings

| source | as written | input that shows it | evidently intended | confidence | as-written member | corrected member |
|---|---|---|---|---|---|---|
| src/App.js:94 | the selected day is taken as the date part of `selectedDate.toISOString()`, i.e. of the UTC timestamp of local midnight for a clicked day (at page opening `selectedDate` is the current instant, line 7, whose UTC date is likewise shifted: not modelled) | time zone UTC+9, clicked day 2024-06-10: selection "2024-06-09", an event dated 2024-06-10 is not listed | compare with the clicked local day, "2024-06-10" | high; not executed | Timezones.SelectionOffByOneInJapan | Timezones.SelectedDateLists |
| src/App.js:35 | `new Date(formData.date)` reads the date as UTC midnight and `getDay()` takes the weekday in local time | time zone UTC-4, date 2024-06-10 (Monday): `dayOfWeek` becomes 日 (Sunday) | the weekday of the entered date, 月 | high; not executed | Timezones.WeekdayOffByOneInNewYork | Drafts.ChangeDateNamesWeekday |
