/** How the page turns dates into strings across time zones. The calendar
    widget reports the clicked day as local midnight, and a date input's value
    is read by JavaScript as UTC midnight; converting between the two shifts
    the calendar day by one whenever the local offset has the wrong sign.
    `offset` is the local time zone's offset from UTC in minutes, east
    positive (UTC+9 is 540), within one day either way. */
module Timezones {
  import opened Options
  import opened DateText
  import opened Gregorian
  import Events

  const MinutesPerDay: int := 1440

  /** An offset of less than a day either way (real zones lie in -720 .. 840). */
  predicate ZoneOffset(offset: int) {
    -MinutesPerDay < offset < MinutesPerDay
  }

  /** A valid date with four digits of year and a predecessor of that kind. */
  predicate Selectable(d: Date) {
    Valid(d) && 1 <= d.year <= 9999
  }

  /** The calendar day before `d`. */
  function PrevDay(d: Date): (p: Date)
    requires Valid(d) && d.year >= 1
    ensures Valid(p) && p.year >= 0 && p.year <= d.year
    ensures NextDay(p) == d
  {
    if d.day > 1 then Date(d.year, d.month, d.day - 1)
    else if d.month > 1 then Date(d.year, d.month - 1, DaysInMonth(d.year, d.month - 1))
    else Date(d.year - 1, 12, 31)
  }

  // ---------------------------------------------------------------------
  // Selected date: `selectedDate.toISOString().split("T")[0]`

  /** The UTC calendar day on which local midnight of `clicked` falls. */
  function UtcDateOfLocalMidnight(clicked: Date, offset: int): (r: Date)
    requires Selectable(clicked) && ZoneOffset(offset)
    ensures Valid(r) && r.year <= 9999
    ensures DayNumber(r) == (DayNumber(clicked) * MinutesPerDay - offset) / MinutesPerDay
  {
    if offset > 0 then
      DayNumberNext(PrevDay(clicked));
      PrevDay(clicked)
    else clicked
  }

  /** The selection string as the page computes it: the date part of the
      UTC timestamp of local midnight on the clicked day. */
  function SelectedDateAsWritten(clicked: Date, offset: int): (s: string)
    requires Selectable(clicked) && ZoneOffset(offset)
    ensures IsDateShape(s)
  {
    FormatIsoDate(UtcDateOfLocalMidnight(clicked, offset))
  }

  /** East of UTC the page never lists an event dated the clicked day. */
  lemma EastOfUtcHidesClickedDay(events: seq<Events.Event>, clicked: Date, offset: int, category: string)
    requires Selectable(clicked) && ZoneOffset(offset) && offset > 0
    ensures forall e: Events.Event :: (e.date == Some(SelectedDate(clicked))
      ==> e !in Events.Filter(events, SelectedDateAsWritten(clicked, offset), category))
  {
    SelectionShift(clicked, offset);
    SelectedDatePart(PrevDay(clicked));
  }

  /** In Japan (UTC+9) a click on 2024-06-10 selects 2024-06-09, so no event
      dated 2024-06-10 is listed; the corrected selection is 2024-06-10. */
  lemma SelectionOffByOneInJapan(events: seq<Events.Event>, category: string)
    ensures SelectedDateAsWritten(Date(2024, 6, 10), 540) == "2024-06-09"
    ensures SelectedDate(Date(2024, 6, 10)) == "2024-06-10"
    ensures forall e: Events.Event :: (e.date == Some("2024-06-10")
      ==> e !in Events.Filter(events, SelectedDateAsWritten(Date(2024, 6, 10), 540), category))
  {
    JapanSelectsNinth();
    TenthText();
    EastOfUtcHidesClickedDay(events, Date(2024, 6, 10), 540, category);
  }

  lemma TenthText()
    ensures FormatIsoDate(Date(2024, 6, 10)) == "2024-06-10"
  {
    assert PadDigits(2024, 4) == "2024";
    assert PadDigits(6, 2) == "06";
    assert PadDigits(10, 2) == "10";
  }

  lemma JapanSelectsNinth()
    ensures SelectedDateAsWritten(Date(2024, 6, 10), 540) == "2024-06-09"
  {
    assert UtcDateOfLocalMidnight(Date(2024, 6, 10), 540) == Date(2024, 6, 9);
    assert PadDigits(2024, 4) == "2024";
    assert PadDigits(6, 2) == "06";
    assert PadDigits(9, 2) == "09";
  }

  /** The clicked day, as the selection should read: `YYYY-MM-DD` of the
      local calendar day. */
  function SelectedDate(clicked: Date): (s: string)
    requires Selectable(clicked)
    ensures IsDateShape(s) && DatePart(s) == s
    ensures ParseIsoDate(s) == Some(clicked)
  {
    SelectedDatePart(clicked);
    ParseFormat(clicked);
    FormatIsoDate(clicked)
  }

  /** A formatted date is its own date part. */
  lemma SelectedDatePart(d: Date)
    requires Valid(d) && d.year <= 9999
    ensures DatePart(FormatIsoDate(d)) == FormatIsoDate(d)
  {
    DateShapeHasNoT(FormatIsoDate(d));
    DatePartUnique(FormatIsoDate(d), FormatIsoDate(d));
  }

  /** West of UTC, and at UTC itself, the page's selection is the clicked
      day; east of UTC it is the day before. */
  lemma SelectionShift(clicked: Date, offset: int)
    requires Selectable(clicked) && ZoneOffset(offset)
    ensures offset <= 0 ==> SelectedDateAsWritten(clicked, offset) == SelectedDate(clicked)
    ensures offset > 0 ==> SelectedDateAsWritten(clicked, offset) == FormatIsoDate(PrevDay(clicked))
    ensures offset > 0 ==> SelectedDateAsWritten(clicked, offset) != SelectedDate(clicked)
  {
    if offset > 0 {
      var p := PrevDay(clicked);
      ParseFormat(p);
      ParseFormat(clicked);
      assert p != clicked by {
        DayNumberNext(p);
      }
    }
  }

  /** With the clicked day as the selection, the page lists exactly the events
      whose date part is that day, in the chosen category. */
  lemma SelectedDateLists(events: seq<Events.Event>, clicked: Date, category: string)
    requires Selectable(clicked)
    ensures forall e :: (e in Events.Filter(events, SelectedDate(clicked), category)
      <==> e in events && e.date.Some? && DatePart(e.date.value) == SelectedDate(clicked)
           && Events.SameCategory(e, category))
  {
  }

  // ---------------------------------------------------------------------
  // Weekday: `new Date(formData.date).getDay()`

  /** The weekday as the page computes it: the date input is read as UTC
      midnight and its weekday taken in local time. */
  function LocalWeekdayAsWritten(d: Date, offset: int): (w: int)
    requires Valid(d) && ZoneOffset(offset)
    ensures 0 <= w < 7
  {
    ((DayNumber(d) * MinutesPerDay + offset) / MinutesPerDay + 4) % 7
  }

  /** West of UTC the page's weekday is one day behind the date's weekday;
      at UTC and east of it the two agree. */
  lemma LocalWeekdayShift(d: Date, offset: int)
    requires Valid(d) && ZoneOffset(offset)
    ensures offset >= 0 ==> LocalWeekdayAsWritten(d, offset) == Weekday(d)
    ensures offset < 0 ==> LocalWeekdayAsWritten(d, offset) == (Weekday(d) + 6) % 7
    ensures offset < 0 ==> LocalWeekdayAsWritten(d, offset) != Weekday(d)
  {
    LocalDayShift(DayNumber(d), offset);
  }

  /** The local day of UTC midnight of day `n`, and its place in the week. */
  lemma LocalDayShift(n: int, offset: int)
    requires ZoneOffset(offset)
    ensures offset >= 0 ==> (n * MinutesPerDay + offset) / MinutesPerDay == n
    ensures offset < 0 ==> (n * MinutesPerDay + offset) / MinutesPerDay == n - 1
    ensures ((n - 1) + 4) % 7 == ((n + 4) % 7 + 6) % 7
    ensures ((n + 4) % 7 + 6) % 7 != (n + 4) % 7
  {
    if offset < 0 {
      DivOf(n * MinutesPerDay + offset, MinutesPerDay, n - 1, MinutesPerDay + offset);
    } else {
      DivOf(n * MinutesPerDay + offset, MinutesPerDay, n, offset);
    }
    WeekCycle(n + 3);
  }

  /** In New York in June (UTC-4) the page names 2024-06-10, a Monday, as a
      Sunday. */
  lemma WeekdayOffByOneInNewYork()
    ensures LocalWeekdayAsWritten(Date(2024, 6, 10), -240) == 0
    ensures Weekday(Date(2024, 6, 10)) == 1
  {
    ExampleMonday();
    LocalWeekdayShift(Date(2024, 6, 10), -240);
  }
}
