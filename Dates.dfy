/**
  Proleptic Gregorian calendar dates, the way the year grid and the events
  route use them: whole days with no time of day.  A date keeps its weekday
  (JavaScript `getDay()`) next to year, month and day, and `Valid` ties the
  weekday to the calendar.  `DayNumber` counts days from 0001-01-01 (day 0,
  a Monday), so consecutive calendar days have consecutive day numbers.
 */
module Dates {

  /** A calendar date; `month` is 1..12 (January is 1); `weekday` is 0 (Sunday) .. 6 (Saturday). */
  datatype Date = Date(year: int, month: int, day: int, weekday: int)

  predicate IsLeapYear(y: int) {
    y % 4 == 0 && (y % 100 != 0 || y % 400 == 0)
  }

  function DaysInMonth(y: int, m: int): int {
    if m == 2 then (if IsLeapYear(y) then 29 else 28)
    else if m == 4 || m == 6 || m == 9 || m == 11 then 30
    else 31
  }

  function YearLength(y: int): int {
    if IsLeapYear(y) then 366 else 365
  }

  /** Days of year `y` before the first day of month `m` (m = 13 gives the whole year; meaningful for 1..13). */
  function DaysBeforeMonth(y: int, m: int): int {
    var leapDay := if m > 2 && IsLeapYear(y) then 1 else 0;
    leapDay +
    (if m == 1 then 0 else if m == 2 then 31 else if m == 3 then 59
     else if m == 4 then 90 else if m == 5 then 120 else if m == 6 then 151
     else if m == 7 then 181 else if m == 8 then 212 else if m == 9 then 243
     else if m == 10 then 273 else if m == 11 then 304 else if m == 12 then 334
     else 365)
  }

  /** Days from 0001-01-01 to the first day of year `y`. */
  function DaysBeforeYear(y: int): int {
    var p := y - 1;
    365 * p + p / 4 - p / 100 + p / 400
  }

  /** Days from 0001-01-01 to day `dd` of month `m` of year `y`. */
  function CalendarDayNumber(y: int, m: int, dd: int): int {
    DaysBeforeYear(y) + DaysBeforeMonth(y, m) + dd - 1
  }

  /** The weekday of a calendar day: 0001-01-01 was a Monday. */
  function CalendarWeekday(y: int, m: int, dd: int): int {
    (CalendarDayNumber(y, m, dd) + 1) % 7
  }

  predicate Valid(d: Date) {
    && 1 <= d.month <= 12
    && 1 <= d.day <= DaysInMonth(d.year, d.month)
    && d.weekday == CalendarWeekday(d.year, d.month, d.day)
  }

  /** A real calendar day, as every JavaScript `Date` object denotes. */
  type ValidDate = d: Date | Valid(d) witness Date(2000, 1, 1, 6)

  /** The year JavaScript's `Date` constructor and `Date.UTC` use for a year argument: 0..99 mean 1900..1999. */
  function FullYear(y: int): int {
    if 0 <= y <= 99 then 1900 + y else y
  }

  /**
    The years whose 1 January lies inside JavaScript's time range of
    8.64e15 ms either side of 1970-01-01 (-271821-04-20 to 275760-09-13),
    whatever the local time zone; outside it a `Date` is an Invalid Date.
   */
  const MinJsYear := -271820
  const MaxJsYear := 275760

  /** `new Date(y, 0, 1)` is a valid date. */
  predicate JanFirstInRange(y: int) {
    MinJsYear <= FullYear(y) <= MaxJsYear
  }

  /** The date object for day `dd` of month `m` of year `y`. */
  function MakeDate(y: int, m: int, dd: int): Date {
    Date(y, m, dd, CalendarWeekday(y, m, dd))
  }

  function DayNumber(d: Date): int {
    CalendarDayNumber(d.year, d.month, d.day)
  }

  /** JavaScript's `getDay()`: 0 is Sunday, 6 is Saturday. */
  function Weekday(d: Date): int {
    d.weekday
  }

  predicate IsSunday(d: Date) {
    d.weekday == 0
  }

  /** Lexicographic order of (year, month, day). */
  predicate Before(a: Date, b: Date) {
    a.year < b.year || (a.year == b.year && (a.month < b.month || (a.month == b.month && a.day < b.day)))
  }

  lemma DaysBeforeMonthStep(y: int, m: int)
    requires 1 <= m <= 12
    ensures DaysBeforeMonth(y, m + 1) == DaysBeforeMonth(y, m) + DaysInMonth(y, m)
  {
  }

  lemma DaysBeforeMonthMonotone(y: int, m: int, n: int)
    requires 1 <= m < n <= 13
    ensures DaysBeforeMonth(y, m) + DaysInMonth(y, m) <= DaysBeforeMonth(y, n)
  {
  }

  lemma YearLengthIsMonthTotal(y: int)
    ensures DaysBeforeMonth(y, 13) == YearLength(y)
  {
  }

  /** Year `y` has exactly YearLength(y) days. */
  lemma YearStep(y: int)
    ensures DaysBeforeYear(y + 1) == DaysBeforeYear(y) + YearLength(y)
  {
    Quarter(y);
    Century(y);
    QuadCentury(y);
  }

  lemma Quarter(y: int)
    ensures y / 4 - (y - 1) / 4 == if y % 4 == 0 then 1 else 0
  {
    var q, r := (y - 1) / 4, (y - 1) % 4;
    if r == 3 {
      Exact4(y, q + 1, 0);
    } else {
      Exact4(y, q, r + 1);
    }
  }

  lemma Century(y: int)
    ensures y / 100 - (y - 1) / 100 == if y % 100 == 0 then 1 else 0
    ensures y % 100 == 0 ==> y % 4 == 0
  {
    var q, r := (y - 1) / 100, (y - 1) % 100;
    if r == 99 {
      Exact100(y, q + 1, 0);
      Exact4(y, 25 * (q + 1), 0);
    } else {
      Exact100(y, q, r + 1);
    }
  }

  lemma QuadCentury(y: int)
    ensures y / 400 - (y - 1) / 400 == if y % 400 == 0 then 1 else 0
    ensures y % 400 == 0 ==> y % 100 == 0
  {
    var q, r := (y - 1) / 400, (y - 1) % 400;
    if r == 399 {
      Exact400(y, q + 1, 0);
      Exact100(y, 4 * (q + 1), 0);
    } else {
      Exact400(y, q, r + 1);
    }
  }

  lemma Exact4(n: int, q: int, r: int)
    requires 0 <= r < 4 && n == 4 * q + r
    ensures n / 4 == q && n % 4 == r
  {
  }

  lemma Exact100(n: int, q: int, r: int)
    requires 0 <= r < 100 && n == 100 * q + r
    ensures n / 100 == q && n % 100 == r
  {
  }

  lemma Exact400(n: int, q: int, r: int)
    requires 0 <= r < 400 && n == 400 * q + r
    ensures n / 400 == q && n % 400 == r
  {
  }

  lemma {:induction false} DaysBeforeYearMonotone(a: int, b: int)
    requires a <= b
    ensures DaysBeforeYear(a) <= DaysBeforeYear(b)
    ensures a < b ==> DaysBeforeYear(a) + YearLength(a) <= DaysBeforeYear(b)
    decreases b - a
  {
    if a < b {
      YearStep(a);
      DaysBeforeYearMonotone(a + 1, b);
    }
  }

  /** A date's day number lies inside its own year. */
  lemma DayNumberInYear(d: ValidDate)
    ensures DaysBeforeYear(d.year) <= DayNumber(d) < DaysBeforeYear(d.year + 1)
  {
    YearStep(d.year);
    DaysBeforeMonthMonotone(d.year, d.month, 13);
  }

  /** Day numbers order dates exactly as the calendar does. */
  lemma DayNumberOrder(a: ValidDate, b: ValidDate)
    ensures DayNumber(a) < DayNumber(b) <==> Before(a, b)
    ensures DayNumber(a) == DayNumber(b) <==> a == b
  {
    DayNumberInYear(a);
    DayNumberInYear(b);
    if a.year < b.year {
      DaysBeforeYearMonotone(a.year + 1, b.year);
    } else if b.year < a.year {
      DaysBeforeYearMonotone(b.year + 1, a.year);
    } else if a.month < b.month {
      DaysBeforeMonthMonotone(a.year, a.month, b.month);
    } else if b.month < a.month {
      DaysBeforeMonthMonotone(a.year, b.month, a.month);
    }
  }

  lemma ModSucc(n: int)
    ensures (n + 1) % 7 == (n % 7 + 1) % 7
  {
    var q := n / 7;
    assert n == 7 * q + n % 7;
    if n % 7 == 6 {
      assert n + 1 == 7 * (q + 1);
    } else {
      assert n + 1 == 7 * q + (n % 7 + 1);
    }
  }

  lemma ModPred(n: int)
    ensures (n - 1) % 7 == (n % 7 + 6) % 7
  {
    ModSucc(n - 1);
    assert ((n - 1) % 7 + 1) % 7 == n % 7;
  }

  /** The calendar day after `d` (JavaScript `setDate(getDate() + 1)`). */
  function NextDay(d: ValidDate): (n: ValidDate)
    ensures DayNumber(n) == DayNumber(d) + 1
    ensures Weekday(n) == (Weekday(d) + 1) % 7
  {
    var w := (d.weekday + 1) % 7;
    ModSucc(DayNumber(d) + 1);
    if d.day < DaysInMonth(d.year, d.month) then
      Date(d.year, d.month, d.day + 1, w)
    else if d.month < 12 then
      DaysBeforeMonthStep(d.year, d.month);
      Date(d.year, d.month + 1, 1, w)
    else
      YearStep(d.year);
      Date(d.year + 1, 1, 1, w)
  }

  /** The calendar day before `d` (JavaScript `setUTCDate(getUTCDate() - 1)`). */
  function PrevDay(d: ValidDate): (p: ValidDate)
    ensures DayNumber(p) == DayNumber(d) - 1
  {
    var w := (d.weekday + 6) % 7;
    ModPred(DayNumber(d) + 1);
    if d.day > 1 then
      Date(d.year, d.month, d.day - 1, w)
    else if d.month > 1 then
      DaysBeforeMonthStep(d.year, d.month - 1);
      Date(d.year, d.month - 1, DaysInMonth(d.year, d.month - 1), w)
    else
      YearStep(d.year - 1);
      Date(d.year - 1, 12, 31, w)
  }

  /** `d` moved by `n` days, one day at a time. */
  function AddDays(d: ValidDate, n: int): (r: ValidDate)
    ensures DayNumber(r) == DayNumber(d) + n
    decreases if n < 0 then -n else n
  {
    if n == 0 then d
    else if n > 0 then AddDays(NextDay(d), n - 1)
    else AddDays(PrevDay(d), n + 1)
  }

  lemma NextDayOfPrevDay(d: ValidDate)
    ensures NextDay(PrevDay(d)) == d
  {
    DayNumberOrder(NextDay(PrevDay(d)), d);
  }

  /** 2023 began on a Sunday, 2024 on a Monday and 2026 on a Thursday. */
  lemma KnownWeekdays()
    ensures Weekday(MakeDate(2023, 1, 1)) == 0
    ensures Weekday(MakeDate(2024, 1, 1)) == 1
    ensures Weekday(MakeDate(2026, 1, 1)) == 4
  {
    Exact4(2022, 505, 2);
    Exact100(2022, 20, 22);
    Exact400(2022, 5, 22);
    assert CalendarDayNumber(2023, 1, 1) == 738520 == 7 * 105502 + 6;
    Exact4(2023, 505, 3);
    Exact100(2023, 20, 23);
    Exact400(2023, 5, 23);
    assert CalendarDayNumber(2024, 1, 1) == 738885 == 7 * 105555;
    Exact4(2025, 506, 1);
    Exact100(2025, 20, 25);
    Exact400(2025, 5, 25);
    assert CalendarDayNumber(2026, 1, 1) == 739616 == 7 * 105659 + 3;
    assert CalendarWeekday(2026, 1, 1) == 4;
  }
}
