/** Naive local date-times as Python's `datetime` holds them (without microseconds, which
    none of the formats used by the snapshot collector can produce), their validity rules,
    and their ordering. */
module Clock {

  datatype DateTime = DateTime(year: int, month: int, day: int, hour: int, minute: int, second: int)

  predicate IsLeapYear(y: int) {
    y % 4 == 0 && (y % 100 != 0 || y % 400 == 0)
  }

  function DaysInMonth(y: int, m: int): (n: int)
    requires 1 <= m <= 12
    ensures 28 <= n <= 31
    ensures n == 29 <==> m == 2 && IsLeapYear(y)
  {
    if m == 2 then (if IsLeapYear(y) then 29 else 28)
    else if m == 4 || m == 6 || m == 9 || m == 11 then 30
    else 31
  }

  /** The values `datetime(year, month, day, hour, minute, second)` accepts. */
  predicate Valid(t: DateTime) {
    && 1 <= t.year <= 9999
    && 1 <= t.month <= 12
    && 1 <= t.day <= DaysInMonth(t.year, t.month)
    && 0 <= t.hour < 24
    && 0 <= t.minute < 60
    && 0 <= t.second < 60
  }

  /** Python's `a < b` on naive datetimes: the field tuples compared lexicographically. */
  predicate Before(a: DateTime, b: DateTime) {
    || a.year < b.year
    || (a.year == b.year && a.month < b.month)
    || (a.year == b.year && a.month == b.month && a.day < b.day)
    || (a.year == b.year && a.month == b.month && a.day == b.day && a.hour < b.hour)
    || (a.year == b.year && a.month == b.month && a.day == b.day && a.hour == b.hour
        && a.minute < b.minute)
    || (a.year == b.year && a.month == b.month && a.day == b.day && a.hour == b.hour
        && a.minute == b.minute && a.second < b.second)
  }

  /** Python's `a <= b` on naive datetimes. */
  predicate AtMost(a: DateTime, b: DateTime) {
    !Before(b, a)
  }

  /** `AtMost` is "before or equal", and `Before` is a strict total order. */
  lemma OrderFacts(a: DateTime, b: DateTime, c: DateTime)
    ensures AtMost(a, b) <==> a == b || Before(a, b)
    ensures !Before(a, a)
    ensures Before(a, b) ==> !Before(b, a)
    ensures Before(a, b) && Before(b, c) ==> Before(a, c)
    ensures a == b || Before(a, b) || Before(b, a)
  {
  }

  // A reference definition of time: seconds elapsed since 0001-01-01 00:00:00.

  function DaysBeforeMonth(y: int, m: int): (n: nat)
    requires 1 <= m <= 13
  {
    if m == 1 then 0 else DaysBeforeMonth(y, m - 1) + DaysInMonth(y, m - 1)
  }

  function DaysInYear(y: int): nat {
    DaysBeforeMonth(y, 13)
  }

  function DaysBeforeYear(y: int): nat
    requires y >= 1
  {
    if y == 1 then 0 else DaysBeforeYear(y - 1) + DaysInYear(y - 1)
  }

  function Seconds(t: DateTime): int
    requires Valid(t)
  {
    (DaysBeforeYear(t.year) + DaysBeforeMonth(t.year, t.month) + t.day - 1) * 86400
      + t.hour * 3600 + t.minute * 60 + t.second
  }

  lemma {:induction false} MonthsAccumulate(y: int, m: int, m': int)
    requires 1 <= m < m' <= 13
    ensures DaysBeforeMonth(y, m) + DaysInMonth(y, m) <= DaysBeforeMonth(y, m')
    decreases m'
  {
    if m' > m + 1 {
      MonthsAccumulate(y, m, m' - 1);
    }
  }

  lemma {:induction false} YearsAccumulate(y: int, y': int)
    requires 1 <= y < y'
    ensures DaysBeforeYear(y) + DaysInYear(y) <= DaysBeforeYear(y')
    decreases y'
  {
    assert DaysBeforeYear(y') == DaysBeforeYear(y' - 1) + DaysInYear(y' - 1);
    if y' > y + 1 {
      YearsAccumulate(y, y' - 1);
    }
  }

  /** The day of the year, counted from zero, is less than the length of the year. */
  lemma DayOfYearBound(t: DateTime)
    requires Valid(t)
    ensures DaysBeforeMonth(t.year, t.month) + t.day - 1 < DaysInYear(t.year)
  {
    MonthsAccumulate(t.year, t.month, 13);
  }

  lemma SecondsMonotone(a: DateTime, b: DateTime)
    requires Valid(a) && Valid(b) && Before(a, b)
    ensures Seconds(a) < Seconds(b)
  {
    var da := DaysBeforeYear(a.year) + DaysBeforeMonth(a.year, a.month) + a.day - 1;
    var db := DaysBeforeYear(b.year) + DaysBeforeMonth(b.year, b.month) + b.day - 1;
    if a.year < b.year {
      DayOfYearBound(a);
      YearsAccumulate(a.year, b.year);
      assert da < db;
    } else if a.month < b.month {
      MonthsAccumulate(a.year, a.month, b.month);
      assert da < db;
    }
  }

  /** The lexicographic order on valid date-times is the chronological order. */
  lemma BeforeIsChronological(a: DateTime, b: DateTime)
    requires Valid(a) && Valid(b)
    ensures Before(a, b) <==> Seconds(a) < Seconds(b)
    ensures AtMost(a, b) <==> Seconds(a) <= Seconds(b)
  {
    if Before(a, b) {
      SecondsMonotone(a, b);
    } else if Before(b, a) {
      SecondsMonotone(b, a);
    }
  }
}
