/** The new-event form: its draft record, the change handler that writes one
    input into it, the effect that fills in the weekday name whenever the date
    changes, and the payload the form sends. */
module Drafts {
  import opened Options
  import opened DateText
  import Gregorian

  /** The form's state. `dayOfWeek` is `None` when it holds JavaScript's
      `undefined` (the weekday of a date JavaScript cannot read). */
  datatype Draft = Draft(
    userId: string,
    title: string,
    category: string,
    date: string,
    dayOfWeek: Option<string>,
    time: string,
    location: string,
    person: string,
    memo: string,
    priority: int)

  /** The text inputs of the form, by their `name` attribute. */
  datatype TextField = UserId | Title | Category | Date | Time | Location | Person | Memo

  /** The work category, the form's default. */
  const WorkCategory: string := "仕事"

  /** The form's state when the page opens. */
  const InitialDraft: Draft := Draft(
    userId := "", title := "", category := WorkCategory, date := "",
    dayOfWeek := Some(""), time := "", location := "", person := "", memo := "",
    priority := 1)

  /** The state the form is set back to after a successful submission. */
  const ResetDraft: Draft := Draft(
    userId := "", title := "", category := WorkCategory, date := "",
    dayOfWeek := Some(""), time := "", location := "", person := "", memo := "",
    priority := 1)

  /** The value of a text input. */
  function Text(d: Draft, f: TextField): string {
    match f
    case UserId => d.userId
    case Title => d.title
    case Category => d.category
    case Date => d.date
    case Time => d.time
    case Location => d.location
    case Person => d.person
    case Memo => d.memo
  }

  /** The reset template is the opening state: every text input empty except
      the category, which is work, no time, and priority low. */
  lemma TemplateIsInitial()
    ensures ResetDraft == InitialDraft
    ensures forall f :: f != Category ==> Text(ResetDraft, f) == ""
    ensures Text(ResetDraft, Category) == WorkCategory
    ensures ResetDraft.priority == 1
  {
  }

  /** The change handler on a text input: writes `value` into input `f`. */
  function SetText(d: Draft, f: TextField, value: string): (r: Draft)
    ensures Text(r, f) == value
    ensures forall g :: g != f ==> Text(r, g) == Text(d, g)
    ensures r.dayOfWeek == d.dayOfWeek && r.priority == d.priority
  {
    match f
    case UserId => d.(userId := value)
    case Title => d.(title := value)
    case Category => d.(category := value)
    case Date => d.(date := value)
    case Time => d.(time := value)
    case Location => d.(location := value)
    case Person => d.(person := value)
    case Memo => d.(memo := value)
  }

  /** The change handler on the priority select, with the selected level. */
  function SetPriority(d: Draft, level: int): (r: Draft)
    ensures r.priority == level
    ensures forall g :: Text(r, g) == Text(d, g)
    ensures r.dayOfWeek == d.dayOfWeek
  {
    d.(priority := level)
  }

  /** Two drafts agree on every field but the one text input `f`. */
  lemma SetTextOnlyTouches(d: Draft, f: TextField, value: string)
    ensures SetText(d, f, value) == SetText(d, f, Text(SetText(d, f, value), f))
    ensures SetText(SetText(d, f, value), f, Text(d, f)) == d
  {
  }

  // ---------------------------------------------------------------------
  // Weekday name

  /** Weekday names, Sunday first. */
  const DayNames: seq<string> := ["日", "月", "火", "水", "木", "金", "土"]

  /** The name `dayNames[new Date(date).getDay()]` gives: the table entry
      for the weekday, or `undefined` (`None`) when the date cannot be read. */
  function WeekdayName(date: string): (r: Option<string>)
    ensures r.Some? <==> Gregorian.ParseIsoDate(date).Some?
    ensures r.Some? ==> r.value in DayNames
  {
    match Gregorian.ParseIsoDate(date)
    case Some(g) => Some(DayNames[Gregorian.Weekday(g)])
    case None => None
  }

  /** The weekday effect: with a non-empty date, `dayOfWeek` becomes that
      date's weekday name; with an empty date the draft is left alone. */
  function DeriveWeekday(d: Draft): (r: Draft)
    ensures d.date == "" ==> r == d
    ensures d.date != "" ==> r.dayOfWeek == WeekdayName(d.date)
    ensures r.(dayOfWeek := d.dayOfWeek) == d
  {
    if d.date != "" then d.(dayOfWeek := WeekdayName(d.date)) else d
  }

  /** Running the weekday effect again changes nothing. */
  lemma DeriveWeekdayIdempotent(d: Draft)
    ensures DeriveWeekday(DeriveWeekday(d)) == DeriveWeekday(d)
  {
  }

  /** `dayOfWeek` names the weekday of a non-empty `date`. */
  predicate WeekdayConsistent(d: Draft) {
    d.date != "" ==> d.dayOfWeek == WeekdayName(d.date)
  }

  /** A change to one input, followed by the weekday effect when (and only
      when) that change gave `date` a new value. */
  function Change(d: Draft, f: TextField, value: string): (r: Draft)
    ensures Text(r, f) == value
    ensures forall g :: g != f ==> Text(r, g) == Text(d, g)
    ensures r.priority == d.priority
    ensures WeekdayConsistent(d) ==> WeekdayConsistent(r)
    ensures f != Date || value == "" || value == d.date ==> r.dayOfWeek == d.dayOfWeek
    ensures f == Date && value != "" && value != d.date ==> r.dayOfWeek == WeekdayName(value)
  {
    var next := SetText(d, f, value);
    if next.date != d.date then DeriveWeekday(next) else next
  }

  /** Entering the same value twice leaves the form as entering it once. */
  lemma ChangeTwice(d: Draft, f: TextField, value: string)
    ensures Change(Change(d, f, value), f, value) == Change(d, f, value)
  {
  }

  /** Once a date is entered and nothing else happens, `dayOfWeek` names its
      weekday, whatever it held before. */
  lemma ChangeDateNamesWeekday(d: Draft, value: string)
    requires value != ""
    requires WeekdayConsistent(d)
    ensures Change(d, Date, value).dayOfWeek == WeekdayName(value)
  {
  }

  /** 2024-06-10 is a Monday: the form shows 月. */
  lemma ExampleWeekdayName()
    ensures WeekdayName("2024-06-10") == Some("月")
  {
    Gregorian.ExampleMonday();
  }

  // ---------------------------------------------------------------------
  // Payload

  /** The body of the create request: the draft's fields, with `time` replaced
      by the joined date-time or by `null` (`None`). */
  datatype Payload = Payload(
    userId: string,
    title: string,
    category: string,
    date: string,
    dayOfWeek: Option<string>,
    time: Option<string>,
    location: string,
    person: string,
    memo: string,
    priority: int)

  /** `date + "T" + time` when both are entered, `null` otherwise. */
  function PayloadTime(date: string, time: string): (r: Option<string>)
    ensures r.Some? <==> date != "" && time != ""
    ensures r.Some? && 'T' !in date ==> DatePart(r.value) == date && TimePart(r.value) == time
  {
    if date != "" && time != "" then
      var s := JoinDateTime(date, time);
      assert 'T' !in date ==> DatePart(s) == date && TimePart(s) == time by {
        if 'T' !in date {
          SplitJoin(date, time);
        }
      }
      Some(s)
    else None
  }

  /** The object spread in the submit handler. */
  function BuildPayload(d: Draft): (p: Payload)
    ensures p.time == PayloadTime(d.date, d.time)
    ensures p.userId == d.userId && p.title == d.title && p.category == d.category
    ensures p.date == d.date && p.dayOfWeek == d.dayOfWeek
    ensures p.location == d.location && p.person == d.person && p.memo == d.memo
    ensures p.priority == d.priority
  {
    Payload(d.userId, d.title, d.category, d.date, d.dayOfWeek,
            PayloadTime(d.date, d.time), d.location, d.person, d.memo, d.priority)
  }

  /** A date from a date input and a time from a time input make a payload
      time of RFC 3339 date-time shape (to the minute, no offset) whose date
      part is the entered date and whose time part is the entered time. */
  lemma PayloadTimeShape(d: Draft)
    requires IsDateShape(d.date) && IsHourMinute(d.time)
    ensures BuildPayload(d).time.Some?
    ensures IsLocalDateTimeMinutes(BuildPayload(d).time.value)
    ensures DatePart(BuildPayload(d).time.value) == d.date
    ensures TimePart(BuildPayload(d).time.value) == d.time
  {
    DateShapeHasNoT(d.date);
    JoinShape(d.date, d.time);
  }

  /** The example draft 2024-06-10 at 09:30 is sent with time
      2024-06-10T09:30; a draft without a time is sent with `null`. */
  lemma ExamplePayloadTime(d: Draft)
    ensures d.date == "2024-06-10" && d.time == "09:30"
        ==> BuildPayload(d).time == Some("2024-06-10T09:30")
    ensures d.time == "" ==> BuildPayload(d).time == None
  {
    assert JoinDateTime("2024-06-10", "09:30") == "2024-06-10T09:30";
  }

  /** Required inputs (`userId`, `title`, `date`) are filled in; the browser
      refuses to submit the form otherwise. */
  predicate ReadyToSubmit(d: Draft) {
    d.userId != "" && d.title != "" && d.date != ""
  }
}
