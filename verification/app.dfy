/** The application state as a whole (the loaded events, the form draft and
    the two selections) and the transitions the user interface drives: edits,
    selections, and the submit round trip with its three outcomes. */
module CalendarApp {
  import opened Options
  import opened Events
  import opened Drafts
  import Gregorian
  import Timezones

  datatype App = App(
    events: seq<Event>,
    draft: Draft,
    selectedDate: string,
    selectedCategory: string)

  /** The page as it opens on the local day `today`, before the events arrive
      from the server: today selected, every category, the opening form. */
  function Init(today: Gregorian.Date): (app: App)
    requires Timezones.Selectable(today)
    ensures app.events == [] && app.draft == InitialDraft
    ensures app.selectedCategory == AllCategories
    ensures Gregorian.ParseIsoDate(app.selectedDate) == Some(today)
    ensures Invariant(app)
  {
    App([], InitialDraft, Timezones.SelectedDate(today), AllCategories)
  }

  /** The events the page lists. */
  function Visible(app: App): seq<Event> {
    Filter(app.events, app.selectedDate, app.selectedCategory)
  }

  /** What holds of every state the page reaches: the weekday shown with a
      non-empty date is that date's weekday. */
  predicate Invariant(app: App) {
    WeekdayConsistent(app.draft)
  }

  // ---------------------------------------------------------------------
  // Submitting

  /** What the create request came back with: a created record, a non-OK
      status, or an error (network failure, unreadable body) with its message. */
  datatype Outcome = Created(record: Event) | Rejected | Failed(message: string)

  const SuccessAlert: string := "登録成功！"
  const RejectedAlert: string := "登録失敗"

  /** The request body that was sent, the state afterwards, and the alert shown. */
  datatype Submission = Submission(sent: Payload, next: App, alert: string)

  /** The submit handler, run to completion with the server's `outcome`. A
      created record is appended and the form reset; on a failure the state
      is left as it was and the reason is shown. */
  function Submit(app: App, outcome: Outcome): (r: Submission)
    ensures r.sent == BuildPayload(app.draft)
    ensures r.next.selectedDate == app.selectedDate
    ensures r.next.selectedCategory == app.selectedCategory
    ensures outcome.Created? ==> r.next.events == app.events + [outcome.record]
    ensures outcome.Created? ==> r.next.draft == ResetDraft && r.alert == SuccessAlert
    ensures outcome.Rejected? ==> r.next == app && r.alert == RejectedAlert
    ensures outcome.Failed? ==> r.next == app && r.alert == outcome.message
  {
    var sent := BuildPayload(app.draft);
    match outcome
    case Created(record) =>
      Submission(sent, app.(events := app.events + [record], draft := ResetDraft), SuccessAlert)
    case Rejected =>
      Submission(sent, app, RejectedAlert)
    case Failed(message) =>
      Submission(sent, app, message)
  }

  /** A created record is appended at the end, once, even when a record with
      the same `id` is already loaded: the store grows by exactly one. */
  lemma CreatedAppendsOnce(app: App, record: Event)
    ensures var next := Submit(app, Created(record)).next;
      && |next.events| == |app.events| + 1
      && next.events[|app.events|] == record
      && next.events[..|app.events|] == app.events
      && multiset(next.events)[record] == multiset(app.events)[record] + 1
  {
    var next := Submit(app, Created(record)).next;
    assert next.events[..|app.events|] == app.events;
  }

  /** Two records created with the same `id` are both kept. */
  lemma NoDeduplication(app: App, a: Event, b: Event)
    requires a.id == b.id
    ensures var s := Submit(Submit(app, Created(a)).next, Created(b)).next;
      s.events == app.events + [a, b]
  {
    assert app.events + [a] + [b] == app.events + [a, b];
  }

  /** After a failure the form still holds the draft, so a retry sends the
      same body. */
  lemma RetrySendsSamePayload(app: App, failure: Outcome, retry: Outcome)
    requires !failure.Created?
    ensures Submit(Submit(app, failure).next, retry).sent == Submit(app, failure).sent
  {
  }

  /** A created record shows up at the end of the list exactly when it
      matches the current selection; a failure leaves the list as it was. */
  lemma VisibleAfterSubmit(app: App, outcome: Outcome)
    ensures outcome.Created? ==>
      Visible(Submit(app, outcome).next)
        == Visible(app)
           + (if Matches(outcome.record, app.selectedDate, app.selectedCategory)
              then [outcome.record] else [])
    ensures !outcome.Created? ==> Visible(Submit(app, outcome).next) == Visible(app)
  {
    if outcome.Created? {
      FilterAppend(app.events, [outcome.record], app.selectedDate, app.selectedCategory);
    }
  }

  // ---------------------------------------------------------------------
  // Driving the page

  /** One thing the user does. */
  datatype Action =
    | Edit(field: TextField, value: string)
    | ChoosePriority(level: int)
    | PickDate(day: Gregorian.Date)
    | PickCategory(category: string)
    | SubmitForm(outcome: Outcome)

  /** The state after one action. Submitting a form whose required inputs
      are empty is stopped by the browser: no request, no change. A picked
      day outside years 0001-9999 is ignored. */
  function Step(app: App, a: Action): (r: App)
    ensures Invariant(app) ==> Invariant(r)
    ensures app.events <= r.events
  {
    match a
    case Edit(f, v) => app.(draft := Change(app.draft, f, v))
    case ChoosePriority(level) => app.(draft := SetPriority(app.draft, level))
    case PickDate(day) =>
      if Timezones.Selectable(day) then app.(selectedDate := Timezones.SelectedDate(day)) else app
    case PickCategory(c) => app.(selectedCategory := c)
    case SubmitForm(outcome) =>
      if ReadyToSubmit(app.draft) then Submit(app, outcome).next else app
  }

  /** The state after a run of actions, in order. */
  function Run(app: App, actions: seq<Action>): App
    decreases |actions|
  {
    if |actions| == 0 then app else Run(Step(app, actions[0]), actions[1..])
  }

  /** Every state a run reaches keeps the invariant, and the store only ever
      grows at its end: earlier events are never edited, dropped or reordered. */
  lemma {:induction false} RunKeepsInvariant(app: App, actions: seq<Action>)
    requires Invariant(app)
    ensures Invariant(Run(app, actions))
    ensures app.events <= Run(app, actions).events
    decreases |actions|
  {
    if |actions| > 0 {
      RunKeepsInvariant(Step(app, actions[0]), actions[1..]);
    }
  }

  /** The store only grows by successful submissions: a run that gets no
      created record leaves it as it was. */
  lemma {:induction false} RunWithoutCreationKeepsEvents(app: App, actions: seq<Action>)
    requires forall i :: 0 <= i < |actions| ==> !(actions[i].SubmitForm? && actions[i].outcome.Created?)
    ensures Run(app, actions).events == app.events
    decreases |actions|
  {
    if |actions| > 0 {
      RunWithoutCreationKeepsEvents(Step(app, actions[0]), actions[1..]);
    }
  }

  /** The scenario: two events on 2024-06-10, one work and one private;
      selecting that day and the work category lists the work event only. */
  lemma ExampleScenario(work: Event, personal: Event)
    requires work.date == Some("2024-06-10") && work.category == Some(WorkCategory)
    requires personal.date == Some("2024-06-10") && personal.category == Some("プライベート")
    ensures Filter([work, personal], "2024-06-10T03:00:00.000Z", WorkCategory) == [work]
  {
    DateText.ExampleDatePart();
    DateText.ExampleDateHasNoT();
    DateText.PlainDatePart("2024-06-10");
    assert "プライベート" != WorkCategory by {
      assert "プライベート"[0] != WorkCategory[0];
    }
    SameDayOtherCategory(work, personal, "2024-06-10T03:00:00.000Z");
  }

  /** Of two events on the selected day, selecting the category of the first
      lists the first only. */
  lemma SameDayOtherCategory(first: Event, second: Event, selectedDate: string)
    requires SameDate(first, selectedDate) && SameDate(second, selectedDate)
    requires first.category.Some? && first.category != second.category
    requires first.category.value != AllCategories
    ensures Filter([first, second], selectedDate, first.category.value) == [first]
  {
    FilterPair(first, second, selectedDate, first.category.value);
  }
}
