/** Event records as the server returns them, and the date-and-category filter
    that decides which of them the calendar lists for the selected day. */
module Events {
  import opened Options
  import opened DateText

  /** One event record. The filter reads `date` and `category`; both may be
      absent from a record the server sends, so both are optional. `time` is
      `None` when the record was created without a time (JSON `null`). */
  datatype Event = Event(
    id: int,
    userId: string,
    title: string,
    category: Option<string>,
    date: Option<string>,
    dayOfWeek: Option<string>,
    time: Option<string>,
    location: string,
    person: string,
    memo: string,
    priority: int)

  /** The category selection that lists every category ("すべて", all). */
  const AllCategories: string := ""

  /** The date test of the filter: the event's date truncated at its first `T`
      equals the selected date truncated the same way. An event without a date
      yields `undefined`, which equals no string. */
  predicate SameDate(e: Event, selectedDate: string) {
    match e.date
    case None => false
    case Some(d) => DatePart(d) == DatePart(selectedDate)
  }

  /** The category test of the filter: "all" is selected, or the event's
      category is exactly the selected one. */
  predicate SameCategory(e: Event, selectedCategory: string) {
    selectedCategory == AllCategories || e.category == Some(selectedCategory)
  }

  /** The predicate `events.filter` applies. */
  predicate Matches(e: Event, selectedDate: string, selectedCategory: string) {
    SameDate(e, selectedDate) && SameCategory(e, selectedCategory)
  }

  /** The events listed for a selection, in the order of `events`. */
  function Filter(events: seq<Event>, selectedDate: string, selectedCategory: string): (r: seq<Event>)
    ensures |r| <= |events|
    ensures forall e :: e in r <==> e in events && Matches(e, selectedDate, selectedCategory)
  {
    if |events| == 0 then []
    else
      var rest := Filter(events[1..], selectedDate, selectedCategory);
      if Matches(events[0], selectedDate, selectedCategory) then [events[0]] + rest else rest
  }

  /** Listing a concatenation lists each part in turn. */
  lemma {:induction false} FilterAppend(a: seq<Event>, b: seq<Event>, selectedDate: string, selectedCategory: string)
    ensures Filter(a + b, selectedDate, selectedCategory)
         == Filter(a, selectedDate, selectedCategory) + Filter(b, selectedDate, selectedCategory)
  {
    if |a| > 0 {
      assert (a + b)[1..] == a[1..] + b;
      FilterAppend(a[1..], b, selectedDate, selectedCategory);
    } else {
      assert a + b == b;
    }
  }

  /** Adding one event at the end adds it at the end of the list iff it matches. */
  lemma FilterSnoc(events: seq<Event>, e: Event, selectedDate: string, selectedCategory: string)
    ensures Filter(events + [e], selectedDate, selectedCategory)
         == Filter(events, selectedDate, selectedCategory)
            + (if Matches(e, selectedDate, selectedCategory) then [e] else [])
  {
    FilterAppend(events, [e], selectedDate, selectedCategory);
    assert [e][1..] == [];
  }

  /** Of a matching and a non-matching event, only the first is listed. */
  lemma FilterPair(a: Event, b: Event, selectedDate: string, selectedCategory: string)
    requires Matches(a, selectedDate, selectedCategory)
    requires !Matches(b, selectedDate, selectedCategory)
    ensures Filter([a, b], selectedDate, selectedCategory) == [a]
  {
    assert [a, b][1..] == [b];
    assert [b][1..] == [];
  }

  /** The filter keeps every matching record as often as it occurs, and no
      other record: duplicates survive and nothing is invented. */
  lemma {:induction false} FilterCounts(events: seq<Event>, selectedDate: string, selectedCategory: string, e: Event)
    ensures multiset(Filter(events, selectedDate, selectedCategory))[e]
         == if Matches(e, selectedDate, selectedCategory) then multiset(events)[e] else 0
  {
    if |events| > 0 {
      var head, tail := events[0], events[1..];
      var rest := Filter(tail, selectedDate, selectedCategory);
      FilterCounts(tail, selectedDate, selectedCategory, e);
      assert events == [head] + tail;
      assert multiset(events) == multiset([head]) + multiset(tail);
      if Matches(head, selectedDate, selectedCategory) {
        assert Filter(events, selectedDate, selectedCategory) == [head] + rest;
        assert multiset([head] + rest) == multiset([head]) + multiset(rest);
      } else {
        assert Filter(events, selectedDate, selectedCategory) == rest;
      }
    }
  }

  /** `sub` is `s` with some elements left out and the rest kept in order:
      `idx` lists, strictly increasing, the position in `s` of each element of `sub`. */
  ghost predicate Embeds(sub: seq<Event>, s: seq<Event>, idx: seq<int>) {
    && |idx| == |sub|
    && (forall k :: 0 <= k < |idx| ==> 0 <= idx[k] < |s| && sub[k] == s[idx[k]])
    && (forall k, l :: 0 <= k < l < |idx| ==> idx[k] < idx[l])
  }

  /** Every position moved one place on. */
  function Shift(idx: seq<int>): (r: seq<int>)
    ensures |r| == |idx|
    ensures forall k :: 0 <= k < |idx| ==> r[k] == idx[k] + 1
  {
    seq(|idx|, k requires 0 <= k < |idx| => idx[k] + 1)
  }

  /** An embedding into the tail of `s` is an embedding into `s` one place
      on, and stays one when the head of `s` is put in front. */
  lemma EmbedsShift(sub: seq<Event>, s: seq<Event>, idx: seq<int>)
    requires |s| > 0
    requires Embeds(sub, s[1..], idx)
    ensures Embeds(sub, s, Shift(idx))
    ensures Embeds([s[0]] + sub, s, [0] + Shift(idx))
    ensures forall i :: 1 <= i < |s| ==> (i in Shift(idx) <==> i - 1 in idx)
    ensures 0 !in Shift(idx)
  {
    var sh := Shift(idx);
    forall i | 1 <= i < |s|
      ensures i in sh <==> i - 1 in idx
    {
      if i - 1 in idx {
        var k :| 0 <= k < |idx| && idx[k] == i - 1;
        assert sh[k] == i;
      }
    }
    var full := [s[0]] + sub;
    var fidx := [0] + sh;
    forall k | 0 <= k < |fidx|
      ensures 0 <= fidx[k] < |s| && full[k] == s[fidx[k]]
    {
      if k > 0 {
        assert fidx[k] == idx[k - 1] + 1;
        assert full[k] == sub[k - 1];
      }
    }
  }

  /** The filtered list is an order-preserving subsequence of `events` whose
      positions are exactly the positions of the matching events. */
  lemma {:induction false} FilterPositions(events: seq<Event>, selectedDate: string, selectedCategory: string)
    returns (idx: seq<int>)
    ensures Embeds(Filter(events, selectedDate, selectedCategory), events, idx)
    ensures forall i :: 0 <= i < |events| ==>
              (i in idx <==> Matches(events[i], selectedDate, selectedCategory))
  {
    if |events| == 0 {
      idx := [];
    } else {
      var rest := Filter(events[1..], selectedDate, selectedCategory);
      var tail := FilterPositions(events[1..], selectedDate, selectedCategory);
      EmbedsShift(rest, events, tail);
      if Matches(events[0], selectedDate, selectedCategory) {
        idx := [0] + Shift(tail);
      } else {
        idx := Shift(tail);
      }
      forall i | 0 <= i < |events|
        ensures i in idx <==> Matches(events[i], selectedDate, selectedCategory)
      {
        if i > 0 {
          assert events[i] == events[1..][i - 1];
        }
      }
    }
  }

  /** Nothing is listed from an empty store. */
  lemma FilterEmpty(selectedDate: string, selectedCategory: string)
    ensures Filter([], selectedDate, selectedCategory) == []
  {
  }

  /** When no event matches, the list is empty rather than an error. */
  lemma FilterNoMatch(events: seq<Event>, selectedDate: string, selectedCategory: string)
    requires forall i :: 0 <= i < |events| ==> !Matches(events[i], selectedDate, selectedCategory)
    ensures Filter(events, selectedDate, selectedCategory) == []
  {
    var r := Filter(events, selectedDate, selectedCategory);
    assert forall e :: e in events ==> !Matches(e, selectedDate, selectedCategory);
    assert forall e :: e !in r;
  }

  /** An event without a date is never listed, whatever the selection. */
  lemma UndatedNeverListed(events: seq<Event>, e: Event, selectedDate: string, selectedCategory: string)
    requires e.date.None?
    ensures e !in Filter(events, selectedDate, selectedCategory)
  {
  }

  /** Filtering a filtered list changes nothing. */
  lemma {:induction false} FilterIdempotent(events: seq<Event>, selectedDate: string, selectedCategory: string)
    ensures Filter(Filter(events, selectedDate, selectedCategory), selectedDate, selectedCategory)
         == Filter(events, selectedDate, selectedCategory)
  {
    if |events| > 0 {
      FilterIdempotent(events[1..], selectedDate, selectedCategory);
      var rest := Filter(events[1..], selectedDate, selectedCategory);
      if Matches(events[0], selectedDate, selectedCategory) {
        FilterAppend([events[0]], rest, selectedDate, selectedCategory);
      }
    }
  }

  /** Narrowing "all" to one category lists exactly the events of that
      category out of the all-category list. */
  lemma {:induction false} CategoryNarrows(events: seq<Event>, selectedDate: string, category: string)
    ensures Filter(events, selectedDate, category)
         == Filter(Filter(events, selectedDate, AllCategories), selectedDate, category)
  {
    if |events| > 0 {
      CategoryNarrows(events[1..], selectedDate, category);
      var rest := Filter(events[1..], selectedDate, AllCategories);
      if Matches(events[0], selectedDate, AllCategories) {
        FilterAppend([events[0]], rest, selectedDate, category);
      }
    }
  }

  /** A selection given as a full ISO timestamp lists the same events as the
      plain date it starts with. */
  lemma SelectionTruncated(events: seq<Event>, selectedDate: string, selectedCategory: string)
    ensures Filter(events, DatePart(selectedDate), selectedCategory)
         == Filter(events, selectedDate, selectedCategory)
  {
    DatePartIdempotent(selectedDate);
    FilterSameSelection(events, DatePart(selectedDate), selectedDate, selectedCategory);
  }

  /** Two selections with the same date part list the same events. */
  lemma {:induction false} FilterSameSelection(events: seq<Event>, d1: string, d2: string, selectedCategory: string)
    requires DatePart(d1) == DatePart(d2)
    ensures Filter(events, d1, selectedCategory) == Filter(events, d2, selectedCategory)
  {
    if |events| > 0 {
      FilterSameSelection(events[1..], d1, d2, selectedCategory);
    }
  }

  /** The filter as the render loop runs it, one record at a time. */
  method VisibleEvents(events: seq<Event>, selectedDate: string, selectedCategory: string)
    returns (r: seq<Event>)
    ensures r == Filter(events, selectedDate, selectedCategory)
  {
    r := [];
    var i := 0;
    while i < |events|
      invariant 0 <= i <= |events|
      invariant r == Filter(events[..i], selectedDate, selectedCategory)
    {
      var e := events[i];
      assert events[..i + 1] == events[..i] + [e];
      FilterSnoc(events[..i], e, selectedDate, selectedCategory);
      if Matches(e, selectedDate, selectedCategory) {
        r := r + [e];
      }
      i := i + 1;
    }
    assert events[..i] == events;
  }
}
