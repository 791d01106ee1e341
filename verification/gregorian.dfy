/** The proleptic Gregorian calendar, far enough to turn the value of a date
    input (`YYYY-MM-DD`) into a weekday number 0 (Sunday) .. 6 (Saturday), the
    number `Date.prototype.getDay` reports. The weekday is computed as the
    WeekDay operation of ECMA-262 (section 21.4.1.6 of the 2023 edition):
    (days since 1970-01-01 + 4) modulo 7. */
module Gregorian {
  import opened Options
  import opened DateText

  datatype Date = Date(year: int, month: int, day: int)

  predicate IsLeapYear(y: int) {
    y % 4 == 0 && (y % 100 != 0 || y % 400 == 0)
  }

  function DaysInMonth(y: int, m: int): (n: int)
    requires 1 <= m <= 12
    ensures 28 <= n <= 31
    ensures m == 2 ==> (n == 29 <==> IsLeapYear(y))
  {
    if m == 2 then (if IsLeapYear(y) then 29 else 28)
    else if m == 4 || m == 6 || m == 9 || m == 11 then 30
    else 31
  }

  function DaysInYear(y: int): int {
    if IsLeapYear(y) then 366 else 365
  }

  /** A real calendar day of a non-negative year. */
  predicate Valid(d: Date) {
    && 0 <= d.year
    && 1 <= d.month <= 12
    && 1 <= d.day <= DaysInMonth(d.year, d.month)
  }

  // ---------------------------------------------------------------------
  // Text form

  /** `YYYY-MM-DD`, zero-padded. */
  function FormatIsoDate(d: Date): (s: string)
    requires Valid(d) && d.year <= 9999
    ensures IsDateShape(s)
  {
    PadDigits(d.year, 4) + "-" + PadDigits(d.month, 2) + "-" + PadDigits(d.day, 2)
  }

  /** Reads a `YYYY-MM-DD` string denoting a real calendar day; `None` for
      anything else (JavaScript's `Invalid Date`). */
  function ParseIsoDate(s: string): (r: Option<Date>)
    ensures r.Some? ==> IsDateShape(s) && Valid(r.value) && r.value.year <= 9999
  {
    if !IsDateShape(s) then None
    else
      var d := Date(DigitsValue(s[0..4]), DigitsValue(s[5..7]), DigitsValue(s[8..10]));
      if 1 <= d.month <= 12 && 1 <= d.day <= DaysInMonth(d.year, d.month) then Some(d)
      else None
  }

  /** Writing a date and reading it back gives the date. */
  lemma ParseFormat(d: Date)
    requires Valid(d) && d.year <= 9999
    ensures ParseIsoDate(FormatIsoDate(d)) == Some(d)
  {
    var s := FormatIsoDate(d);
    assert s[0..4] == PadDigits(d.year, 4);
    assert s[5..7] == PadDigits(d.month, 2);
    assert s[8..10] == PadDigits(d.day, 2);
    DigitsValuePad(d.year, 4);
    DigitsValuePad(d.month, 2);
    DigitsValuePad(d.day, 2);
  }

  /** Reading a date and writing it back gives the original text. */
  lemma FormatParse(s: string)
    requires ParseIsoDate(s).Some?
    ensures FormatIsoDate(ParseIsoDate(s).value) == s
  {
    PadDigitsValue(s[0..4]);
    PadDigitsValue(s[5..7]);
    PadDigitsValue(s[8..10]);
    assert s == s[0..4] + "-" + s[5..7] + "-" + s[8..10];
  }

  // ---------------------------------------------------------------------
  // Day numbers and weekdays

  /** The number of leap years among 0, 1, .., y - 1. */
  function LeapYearsBefore(y: nat): int {
    (y + 3) / 4 - (y + 99) / 100 + (y + 399) / 400
  }

  /** Days from 0000-01-01 to the first day of year `y`. */
  function DaysBeforeYear(y: nat): int {
    365 * y + LeapYearsBefore(y)
  }

  /** Days from the first of January to the first day of month `m` of year `y`. */
  function DaysBeforeMonth(y: int, m: int): int
    requires 1 <= m <= 12
  {
    var leap := if IsLeapYear(y) then 1 else 0;
    match m
    case 1 => 0
    case 2 => 31
    case 3 => 59 + leap
    case 4 => 90 + leap
    case 5 => 120 + leap
    case 6 => 151 + leap
    case 7 => 181 + leap
    case 8 => 212 + leap
    case 9 => 243 + leap
    case 10 => 273 + leap
    case 11 => 304 + leap
    case _ => 334 + leap
  }

  /** Days from 0000-01-01 to 1970-01-01, the epoch of ECMAScript time values. */
  const EpochDays: int := 719528

  /** ECMA-262's Day(t) for midnight UTC of `d`: days since 1970-01-01. */
  function DayNumber(d: Date): int
    requires Valid(d)
  {
    DaysBeforeYear(d.year) + DaysBeforeMonth(d.year, d.month) + d.day - 1 - EpochDays
  }

  /** ECMA-262's WeekDay: 0 is Sunday, 1 Monday, .., 6 Saturday. */
  function Weekday(d: Date): (w: int)
    requires Valid(d)
    ensures 0 <= w < 7
  {
    (DayNumber(d) + 4) % 7
  }

  /** The calendar day after `d`. */
  function NextDay(d: Date): (n: Date)
    requires Valid(d)
    ensures Valid(n)
  {
    if d.day < DaysInMonth(d.year, d.month) then Date(d.year, d.month, d.day + 1)
    else if d.month < 12 then Date(d.year, d.month + 1, 1)
    else Date(d.year + 1, 1, 1)
  }

  /** A year adds one leap year to the count exactly when it is a leap year. */
  lemma LeapYearsStep(y: nat)
    ensures LeapYearsBefore(y + 1) == LeapYearsBefore(y) + (if IsLeapYear(y) then 1 else 0)
  {
    RoundUpStep(y, 4);
    RoundUpStep(y, 100);
    RoundUpStep(y, 400);
    CenturyDivisibility(y);
  }

  /** Multiples of 400 are multiples of 100, and those are multiples of 4. */
  lemma CenturyDivisibility(y: nat)
    ensures y % 400 == 0 ==> y % 100 == 0
    ensures y % 100 == 0 ==> y % 4 == 0
  {
    if y % 400 == 0 {
      var q := y / 400;
      assert y == 100 * (4 * q) + 0;
      ModOf(y, 100, 4 * q, 0);
    }
    if y % 100 == 0 {
      var q := y / 100;
      assert y == 4 * (25 * q) + 0;
      ModOf(y, 4, 25 * q, 0);
    }
  }

  /** The remainder is determined by quotient and remainder. */
  lemma ModOf(a: int, k: int, q: int, r: int)
    requires k > 0 && a == k * q + r && 0 <= r < k
    ensures a % k == r
  {
    DivOf(a, k, q, r);
  }

  /** Counting the multiples of `k` below `y`, as `(y + k - 1) / k` does,
      goes up by one exactly when `y` itself is a multiple. */
  lemma RoundUpStep(y: nat, k: int)
    requires k > 0
    ensures (y + k) / k == (y + k - 1) / k + (if y % k == 0 then 1 else 0)
  {
    var q, r := y / k, y % k;
    assert y == k * q + r;
    DivOf(y + k, k, q + 1, r);
    if r == 0 {
      DivOf(y + k - 1, k, q, k - 1);
    } else {
      DivOf(y + k - 1, k, q + 1, r - 1);
    }
  }

  /** Division is determined by quotient and remainder. */
  lemma DivOf(a: int, k: int, q: int, r: int)
    requires k > 0 && a == k * q + r && 0 <= r < k
    ensures a / k == q
  {
    var q', r' := a / k, a % k;
    assert k * q' + r' == k * q + r;
    if q' > q {
      assert k * q' >= k * (q + 1) by {
        MulMono(k, q + 1, q');
      }
    } else if q' < q {
      assert k * q >= k * (q' + 1) by {
        MulMono(k, q' + 1, q);
      }
    }
  }

  lemma MulMono(k: int, a: int, b: int)
    requires k > 0 && a <= b
    ensures k * a <= k * b
  {
  }

  /** Consecutive months of a year are consecutive blocks of days. */
  lemma DaysBeforeMonthStep(y: int, m: int)
    requires 1 <= m < 12
    ensures DaysBeforeMonth(y, m + 1) == DaysBeforeMonth(y, m) + DaysInMonth(y, m)
  {
  }

  /** December ends the year: the months of `y` add up to its length. */
  lemma MonthsFillYear(y: nat)
    ensures DaysBeforeMonth(y, 12) + DaysInMonth(y, 12) == DaysInYear(y)
    ensures DaysBeforeYear(y + 1) == DaysBeforeYear(y) + DaysInYear(y)
  {
    LeapYearsStep(y);
  }

  /** Day numbers count days: the next calendar day has the next number. */
  lemma DayNumberNext(d: Date)
    requires Valid(d)
    ensures DayNumber(NextDay(d)) == DayNumber(d) + 1
  {
    if d.day < DaysInMonth(d.year, d.month) {
    } else if d.month < 12 {
      DaysBeforeMonthStep(d.year, d.month);
    } else {
      MonthsFillYear(d.year);
    }
  }

  /** Weekdays run Sunday .. Saturday and wrap: the next day is one weekday on. */
  lemma WeekdayNext(d: Date)
    requires Valid(d)
    ensures Weekday(NextDay(d)) == (Weekday(d) + 1) % 7
  {
    DayNumberNext(d);
    WeekCycle(DayNumber(d) + 4);
  }

  /** Counting on by one day moves one place round the week. */
  lemma WeekCycle(k: int)
    ensures (k + 1) % 7 == (k % 7 + 1) % 7
  {
    var q, r := k / 7, k % 7;
    assert k + 1 == 7 * q + (r + 1);
    if r == 6 {
      assert k + 1 == 7 * (q + 1);
    }
  }

  /** 1970-01-01, day 0 of ECMAScript time, was a Thursday. */
  lemma EpochIsThursday()
    ensures Valid(Date(1970, 1, 1))
    ensures DayNumber(Date(1970, 1, 1)) == 0
    ensures Weekday(Date(1970, 1, 1)) == 4
  {
  }

  /** 2024-06-10 is read as a Monday. */
  lemma ExampleMonday()
    ensures ParseIsoDate("2024-06-10") == Some(Date(2024, 6, 10))
    ensures Weekday(Date(2024, 6, 10)) == 1
  {
    ParseFormat(Date(2024, 6, 10));
    assert FormatIsoDate(Date(2024, 6, 10)) == "2024-06-10";
  }
}
