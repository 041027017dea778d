/**
  A naive proleptic-Gregorian wall clock standing in for the JavaScript
  `Date` fields the analytics code reads and writes: year, month (0-11),
  day of month, hour, minute, second and millisecond. Time zones and
  daylight-saving transitions are not part of this model.
 */
module Calendar {

  datatype Instant = Instant(year: int, month: int, day: int, hour: int, minute: int, second: int, ms: int)

  predicate IsLeapYear(y: int) {
    y % 4 == 0 && (y % 100 != 0 || y % 400 == 0)
  }

  function DaysInMonth(y: int, m: int): (n: int)
    requires 0 <= m < 12
    ensures 28 <= n <= 31
  {
    if m == 1 then (if IsLeapYear(y) then 29 else 28)
    else if m == 3 || m == 5 || m == 8 || m == 10 then 30
    else 31
  }

  predicate ValidDate(y: int, m: int, d: int) {
    0 <= y && 0 <= m < 12 && 1 <= d <= DaysInMonth(y, m)
  }

  /** The instants a `Date` can hold in this model. */
  predicate Valid(t: Instant) {
    && ValidDate(t.year, t.month, t.day)
    && 0 <= t.hour < 24
    && 0 <= t.minute < 60
    && 0 <= t.second < 60
    && 0 <= t.ms < 1000
  }

  /** Lexicographic order on the calendar fields: `a < b` on two `Date`s. */
  predicate Before(a: Instant, b: Instant) {
    if a.year != b.year then a.year < b.year
    else if a.month != b.month then a.month < b.month
    else if a.day != b.day then a.day < b.day
    else if a.hour != b.hour then a.hour < b.hour
    else if a.minute != b.minute then a.minute < b.minute
    else if a.second != b.second then a.second < b.second
    else a.ms < b.ms
  }

  /** `a <= b` on two `Date`s. */
  predicate NotAfter(a: Instant, b: Instant) {
    !Before(b, a)
  }

  /** `Before` is a strict total order, so `NotAfter` is a total order. */
  lemma BeforeIsStrictTotalOrder(a: Instant, b: Instant, c: Instant)
    ensures !Before(a, a)
    ensures Before(a, b) ==> !Before(b, a)
    ensures a == b || Before(a, b) || Before(b, a)
    ensures Before(a, b) && Before(b, c) ==> Before(a, c)
  {
  }

  predicate DateBefore(y1: int, m1: int, d1: int, y2: int, m2: int, d2: int) {
    y1 < y2 || (y1 == y2 && (m1 < m2 || (m1 == m2 && d1 < d2)))
  }

  function YearLength(y: int): int {
    if IsLeapYear(y) then 366 else 365
  }

  /** Days in the months of year `y` before month `m` (0-based). */
  function DaysBeforeMonth(y: int, m: int): int
    requires 0 <= m <= 12
  {
    var common :=
      if m == 0 then 0 else if m == 1 then 31 else if m == 2 then 59
      else if m == 3 then 90 else if m == 4 then 120 else if m == 5 then 151
      else if m == 6 then 181 else if m == 7 then 212 else if m == 8 then 243
      else if m == 9 then 273 else if m == 10 then 304 else if m == 11 then 334
      else 365;
    common + (if 2 <= m && IsLeapYear(y) then 1 else 0)
  }

  /** Days in the years before year `y`, counting from year 0. */
  function DaysBeforeYear(y: nat): nat {
    if y == 0 then 0 else DaysBeforeYear(y - 1) + YearLength(y - 1)
  }

  /** Days from 0000-01-01 to the given date. */
  function DayNumber(y: int, m: int, d: int): int
    requires 0 <= y && 0 <= m < 12
  {
    DaysBeforeYear(y) + DaysBeforeMonth(y, m) + d - 1
  }

  lemma MonthTable(y: int, m: int)
    requires 0 <= m < 12
    ensures DaysBeforeMonth(y, m + 1) == DaysBeforeMonth(y, m) + DaysInMonth(y, m)
    ensures DaysBeforeMonth(y, 12) == YearLength(y)
  {
  }

  lemma {:induction false} DaysBeforeYearGrows(y1: nat, y2: nat)
    requires y1 < y2
    ensures DaysBeforeYear(y1) + YearLength(y1) <= DaysBeforeYear(y2)
    decreases y2
  {
    if y1 + 1 < y2 {
      DaysBeforeYearGrows(y1, y2 - 1);
    }
  }

  /** Within a year, a date's offset lies inside the year. */
  lemma DayOfYearBounds(y: int, m: int, d: int)
    requires ValidDate(y, m, d)
    ensures 0 <= DaysBeforeMonth(y, m) + d - 1 < YearLength(y)
  {
    MonthTable(y, m);
  }

  /** An earlier month of the same year starts no later than a later one ends. */
  lemma MonthsOrdered(y: int, m1: int, m2: int)
    requires 0 <= m1 < m2 < 12
    ensures DaysBeforeMonth(y, m1) + DaysInMonth(y, m1) <= DaysBeforeMonth(y, m2)
  {
    MonthTable(y, m1);
  }

  /**
    Day numbers order valid dates exactly as the calendar does, and two
    valid dates share a day number only when they are the same date.
   */
  lemma DayNumberOrder(y1: int, m1: int, d1: int, y2: int, m2: int, d2: int)
    requires ValidDate(y1, m1, d1) && ValidDate(y2, m2, d2)
    ensures DateBefore(y1, m1, d1, y2, m2, d2) <==> DayNumber(y1, m1, d1) < DayNumber(y2, m2, d2)
    ensures (y1, m1, d1) == (y2, m2, d2) <==> DayNumber(y1, m1, d1) == DayNumber(y2, m2, d2)
  {
    DayOfYearBounds(y1, m1, d1);
    DayOfYearBounds(y2, m2, d2);
    if y1 < y2 {
      DaysBeforeYearGrows(y1, y2);
    } else if y2 < y1 {
      DaysBeforeYearGrows(y2, y1);
    } else if m1 < m2 {
      MonthsOrdered(y1, m1, m2);
    } else if m2 < m1 {
      MonthsOrdered(y1, m2, m1);
    }
  }

  /** `setDate(getDate() + 1)`: the same time of day on the next calendar day. */
  function NextDay(t: Instant): (r: Instant)
    requires Valid(t)
    ensures Valid(r)
    ensures DayNumber(r.year, r.month, r.day) == DayNumber(t.year, t.month, t.day) + 1
    ensures (r.hour, r.minute, r.second, r.ms) == (t.hour, t.minute, t.second, t.ms)
  {
    if t.day < DaysInMonth(t.year, t.month) then
      t.(day := t.day + 1)
    else if t.month < 11 then
      MonthTable(t.year, t.month);
      t.(month := t.month + 1, day := 1)
    else
      MonthTable(t.year, t.month);
      t.(year := t.year + 1, month := 0, day := 1)
  }

  /** Hours from 0000-01-01 00:00 to the start of the instant's hour. */
  function HourNumber(t: Instant): int
    requires Valid(t)
  {
    DayNumber(t.year, t.month, t.day) * 24 + t.hour
  }

  /** `setHours(getHours() + 1)`: the same minute and second one hour later. */
  function NextHour(t: Instant): (r: Instant)
    requires Valid(t)
    ensures Valid(r)
    ensures HourNumber(r) == HourNumber(t) + 1
    ensures (r.minute, r.second, r.ms) == (t.minute, t.second, t.ms)
  {
    if t.hour < 23 then t.(hour := t.hour + 1) else NextDay(t.(hour := 0))
  }

  /**
    The next day is the calendar successor: it is later than `t`, and no
    valid date lies strictly between the two.
   */
  lemma NextDayIsSuccessor(t: Instant, y: int, m: int, d: int)
    requires Valid(t) && ValidDate(y, m, d)
    ensures var n := NextDay(t);
      && DateBefore(t.year, t.month, t.day, n.year, n.month, n.day)
      && (DateBefore(t.year, t.month, t.day, y, m, d) ==>
            (n.year, n.month, n.day) == (y, m, d) || DateBefore(n.year, n.month, n.day, y, m, d))
  {
    var n := NextDay(t);
    DayNumberOrder(t.year, t.month, t.day, n.year, n.month, n.day);
    DayNumberOrder(t.year, t.month, t.day, y, m, d);
    DayNumberOrder(n.year, n.month, n.day, y, m, d);
  }
}
