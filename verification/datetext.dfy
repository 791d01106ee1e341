/** Text-level handling of ISO 8601 / RFC 3339 date and date-time strings, as
    the calendar application manipulates them: the date part before the first
    `T`, the joined local date-time it sends to the server, and the shapes of
    the strings the browser's date and time inputs produce. */
module DateText {

  /** The text before the first `T` of `s`, which is what
      `s.split("T")[0]` yields in JavaScript; all of `s` when it holds no `T`.
      The three ensures pin the result down uniquely (see DatePartUnique). */
  function DatePart(s: string): (r: string)
    ensures r <= s
    ensures 'T' !in r
    ensures |r| < |s| ==> s[|r|] == 'T'
  {
    if |s| == 0 || s[0] == 'T' then "" else [s[0]] + DatePart(s[1..])
  }

  /** Any prefix free of `T` that stops at a `T` (or at the end) is the date part. */
  lemma {:induction false} DatePartUnique(s: string, p: string)
    requires p <= s
    requires 'T' !in p
    requires |p| < |s| ==> s[|p|] == 'T'
    ensures DatePart(s) == p
  {
    if |s| > 0 && s[0] != 'T' {
      DatePartUnique(s[1..], p[1..]);
    }
  }

  /** Truncating twice is truncating once: a selection that is already a plain
      date is left as it is. */
  lemma DatePartIdempotent(s: string)
    ensures DatePart(DatePart(s)) == DatePart(s)
  {
    DatePartUnique(DatePart(s), DatePart(s));
  }

  /** The local date-time string `date + "T" + time` sent to the server. */
  function JoinDateTime(date: string, time: string): string {
    date + "T" + time
  }

  /** The text after the first `T`; empty when there is no `T`. */
  function TimePart(s: string): (r: string)
    ensures |DatePart(s)| < |s| ==> s == DatePart(s) + "T" + r
  {
    var n := |DatePart(s)|;
    if n < |s| then s[n + 1..] else ""
  }

  /** Splitting a joined date-time at its first `T` gives back the date and the
      time, provided the date holds no `T` itself. */
  lemma SplitJoin(date: string, time: string)
    requires 'T' !in date
    ensures DatePart(JoinDateTime(date, time)) == date
    ensures TimePart(JoinDateTime(date, time)) == time
  {
    var s := JoinDateTime(date, time);
    DatePartUnique(s, date);
    assert s[|date| + 1..] == time;
  }

  /** Joining the two halves of a string that holds a `T` rebuilds it. */
  lemma JoinSplit(s: string)
    requires 'T' in s
    ensures JoinDateTime(DatePart(s), TimePart(s)) == s
  {
    assert DatePart(s) != s;
  }

  // ---------------------------------------------------------------------
  // Decimal digit strings

  predicate IsDigit(c: char) {
    '0' <= c <= '9'
  }

  predicate AllDigits(s: string) {
    forall i :: 0 <= i < |s| ==> IsDigit(s[i])
  }

  function DigitValue(c: char): nat
    requires IsDigit(c)
  {
    (c as int) - ('0' as int)
  }

  function DigitChar(n: nat): (c: char)
    requires n < 10
    ensures IsDigit(c) && DigitValue(c) == n
  {
    (('0' as int) + n) as char
  }

  function Pow10(n: nat): (r: nat)
    ensures r >= 1
  {
    if n == 0 then 1 else 10 * Pow10(n - 1)
  }

  /** The number a string of decimal digits denotes, most significant first. */
  function DigitsValue(s: string): (r: nat)
    requires AllDigits(s)
    ensures r < Pow10(|s|)
  {
    if |s| == 0 then 0
    else 10 * DigitsValue(s[..|s| - 1]) + DigitValue(s[|s| - 1])
  }

  /** `n` written with exactly `width` decimal digits, zero-padded on the left
      (the most significant digits are dropped when `n` does not fit). */
  function PadDigits(n: nat, width: nat): (r: string)
    ensures |r| == width
    ensures AllDigits(r)
  {
    if width == 0 then "" else PadDigits(n / 10, width - 1) + [DigitChar(n % 10)]
  }

  /** Reading back a padded number gives the number, when it fits. */
  lemma {:induction false} DigitsValuePad(n: nat, width: nat)
    requires n < Pow10(width)
    ensures DigitsValue(PadDigits(n, width)) == n
  {
    if width > 0 {
      var s := PadDigits(n, width);
      assert s[..width - 1] == PadDigits(n / 10, width - 1);
      DigitsValuePad(n / 10, width - 1);
    }
  }

  /** Writing back the value of a digit string gives the string. */
  lemma {:induction false} PadDigitsValue(s: string)
    requires AllDigits(s)
    ensures PadDigits(DigitsValue(s), |s|) == s
  {
    if |s| > 0 {
      var init := s[..|s| - 1];
      var v := DigitsValue(s);
      assert v / 10 == DigitsValue(init);
      assert v % 10 == DigitValue(s[|s| - 1]);
      PadDigitsValue(init);
      assert s == init + [s[|s| - 1]];
    }
  }

  // ---------------------------------------------------------------------
  // Shapes (section 5.6 of RFC 3339)

  /** `full-date` of RFC 3339 by its characters: `DDDD-DD-DD`. The month and
      day ranges are checked by the calendar parser. */
  predicate IsDateShape(s: string) {
    && |s| == 10
    && AllDigits(s[0..4]) && s[4] == '-'
    && AllDigits(s[5..7]) && s[7] == '-'
    && AllDigits(s[8..10])
  }

  /** `time-hour ":" time-minute` of RFC 3339: `HH:MM`, hour 00-23 and minute
      00-59, the value of a time input without seconds. */
  predicate IsHourMinute(s: string) {
    && |s| == 5
    && AllDigits(s[0..2]) && s[2] == ':' && AllDigits(s[3..5])
    && DigitsValue(s[0..2]) <= 23
    && DigitsValue(s[3..5]) <= 59
  }

  /** RFC 3339 `date-time` cut down to minutes and without `time-offset`:
      `DDDD-DD-DDTHH:MM`. */
  predicate IsLocalDateTimeMinutes(s: string) {
    && |s| == 16
    && IsDateShape(s[..10])
    && s[10] == 'T'
    && IsHourMinute(s[11..])
  }

  /** A date in `DDDD-DD-DD` shape contains no `T`. */
  lemma DateShapeHasNoT(s: string)
    requires IsDateShape(s)
    ensures 'T' !in s
  {
    forall i | 0 <= i < |s|
      ensures s[i] != 'T'
    {
      if i < 4 {
        assert s[i] == s[0..4][i];
      } else if 5 <= i < 7 {
        assert s[i] == s[5..7][i - 5];
      } else if 8 <= i {
        assert s[i] == s[8..10][i - 8];
      }
    }
  }

  /** Joining a full date and an hour-minute time yields a local date-time of
      the RFC 3339 shape, and every such string is such a join. */
  lemma JoinShape(date: string, time: string)
    ensures IsDateShape(date) && IsHourMinute(time)
        <==> IsLocalDateTimeMinutes(JoinDateTime(date, time)) && |date| == 10
  {
    var s := JoinDateTime(date, time);
    if |date| == 10 && |s| == 16 {
      assert s[..10] == date;
      assert s[11..] == time;
    }
  }

  /** A local date-time splits at its `T` into a full date and a time. */
  lemma LocalDateTimeSplits(s: string)
    requires IsLocalDateTimeMinutes(s)
    ensures IsDateShape(DatePart(s)) && IsHourMinute(TimePart(s))
    ensures JoinDateTime(DatePart(s), TimePart(s)) == s
  {
    DateShapeHasNoT(s[..10]);
    DatePartUnique(s, s[..10]);
    JoinSplit(s);
  }

  /** A plain date contains no `T`. */
  lemma ExampleDateHasNoT()
    ensures 'T' !in "2024-06-10"
  {
    DateShapeHasNoT("2024-06-10");
  }

  /** A string without `T` is its own date part. */
  lemma PlainDatePart(s: string)
    requires 'T' !in s
    ensures DatePart(s) == s
  {
    DatePartUnique(s, s);
  }

  /** A `toISOString` timestamp of 2024-06-10 truncates to that day. */
  lemma ExampleDatePart()
    ensures DatePart("2024-06-10T03:00:00.000Z") == "2024-06-10"
  {
    var selected := "2024-06-10T03:00:00.000Z";
    ExampleDateHasNoT();
    assert selected[..10] == "2024-06-10";
    assert selected[10] == 'T';
    DatePartUnique(selected, "2024-06-10");
  }
}
