/**
 * Naive timestamps as Python's `datetime` has them: a calendar date, a time of day down to
 * the microsecond, no time zone. Comparison is field by field, which is chronological order
 * for valid timestamps.
 */
module DateTimes {

  datatype DateTime = DateTime(year: int, month: int, day: int,
                               hour: int, minute: int, second: int, microsecond: int)

  /** Gregorian leap years, as `calendar.isleap`. */
  predicate IsLeapYear(year: int) {
    year % 4 == 0 && (year % 100 != 0 || year % 400 == 0)
  }

  function DaysInMonth(year: int, month: int): (n: int)
    requires 1 <= month <= 12
    ensures 28 <= n <= 31
    ensures n == 28 <==> month == 2 && !IsLeapYear(year)
    ensures n == 29 <==> month == 2 && IsLeapYear(year)
    ensures n == 30 <==> month in {4, 6, 9, 11}
    ensures n == 31 <==> month in {1, 3, 5, 7, 8, 10, 12}
  {
    if month == 2 then (if IsLeapYear(year) then 29 else 28)
    else if month in {4, 6, 9, 11} then 30
    else 31
  }

  /** The range `datetime` itself enforces: MINYEAR = 1, MAXYEAR = 9999. */
  predicate Valid(t: DateTime) {
    1 <= t.year <= 9999 && 1 <= t.month <= 12 && 1 <= t.day <= DaysInMonth(t.year, t.month) &&
    0 <= t.hour < 24 && 0 <= t.minute < 60 && 0 <= t.second < 60 &&
    0 <= t.microsecond < 1000000
  }

  /** A timestamp with whole minutes, the precision of the due dates the bot stores. */
  predicate WholeMinute(t: DateTime) {
    t.second == 0 && t.microsecond == 0
  }

  /** `a < b` on naive datetimes. */
  predicate Before(a: DateTime, b: DateTime) {
    if a.year != b.year then a.year < b.year
    else if a.month != b.month then a.month < b.month
    else if a.day != b.day then a.day < b.day
    else if a.hour != b.hour then a.hour < b.hour
    else if a.minute != b.minute then a.minute < b.minute
    else if a.second != b.second then a.second < b.second
    else a.microsecond < b.microsecond
  }

  lemma BeforeIrreflexive(a: DateTime)
    ensures !Before(a, a)
  {
  }

  lemma BeforeTransitive(a: DateTime, b: DateTime, c: DateTime)
    requires Before(a, b) && Before(b, c)
    ensures Before(a, c)
  {
  }

  /** Any two distinct timestamps are ordered one way or the other. */
  lemma BeforeTotal(a: DateTime, b: DateTime)
    ensures a == b || Before(a, b) || Before(b, a)
    ensures !(Before(a, b) && Before(b, a))
  {
  }

  /**
   * A whole-minute timestamp is before every later instant of its own minute: a task due at
   * 10:00 is overdue at 10:00:30 but not at 10:00:00.
   */
  lemma WholeMinuteBeforeSameMinute(due: DateTime, now: DateTime)
    requires WholeMinute(due)
    requires (due.year, due.month, due.day, due.hour, due.minute) ==
             (now.year, now.month, now.day, now.hour, now.minute)
    requires now.second >= 0 && now.microsecond >= 0
    ensures Before(due, now) <==> now.second != 0 || now.microsecond != 0
  {
  }
}
