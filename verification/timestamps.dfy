/**
 * Naive local timestamps as the event planner stores them (Python
 * `datetime` values without microseconds), the Gregorian calendar rules that
 * make one valid, and a seconds ordinal used for the poller's time comparisons.
 */
module Timestamps {

  /** Years whose `%Y` rendering is exactly four digits on every platform. */
  const MinYear := 1000
  const MaxYear := 9999

  const SecondsPerDay := 86400
  const MicrosPerSecond := 1000000

  datatype DateTime = DateTime(year: int, month: int, day: int, hour: int, minute: int, second: int)

  predicate IsLeapYear(y: int) {
    y % 4 == 0 && (y % 100 != 0 || y % 400 == 0)
  }

  function DaysInMonth(y: int, m: int): (n: int)
    requires 1 <= m <= 12
    ensures 28 <= n <= 31
    ensures n == 29 <==> m == 2 && IsLeapYear(y)
  {
    if m == 2 then (if IsLeapYear(y) then 29 else 28)
    else if m == 4 || m == 6 || m == 9 || m == 11 then 30
    else 31
  }

  function DaysInYear(y: int): int {
    if IsLeapYear(y) then 366 else 365
  }

  predicate ValidDate(y: int, m: int, d: int) {
    MinYear <= y <= MaxYear && 1 <= m <= 12 && 1 <= d <= DaysInMonth(y, m)
  }

  predicate ValidTime(h: int, mi: int, s: int) {
    0 <= h < 24 && 0 <= mi < 60 && 0 <= s < 60
  }

  predicate Valid(t: DateTime) {
    ValidDate(t.year, t.month, t.day) && ValidTime(t.hour, t.minute, t.second)
  }

  /** A `datetime` value: like Python's, it cannot hold an impossible date or time. */
  type Timestamp = t: DateTime | Valid(t) witness DateTime(MinYear, 1, 1, 0, 0, 0)

  /** Python's datetime ordering: lexicographic on (year, month, day, hour, minute, second). */
  predicate Precedes(a: DateTime, b: DateTime) {
    || a.year < b.year
    || (a.year == b.year && a.month < b.month)
    || (a.year == b.year && a.month == b.month && a.day < b.day)
    || (a.year == b.year && a.month == b.month && a.day == b.day && a.hour < b.hour)
    || (a.year == b.year && a.month == b.month && a.day == b.day && a.hour == b.hour && a.minute < b.minute)
    || (a.year == b.year && a.month == b.month && a.day == b.day && a.hour == b.hour && a.minute == b.minute
        && a.second < b.second)
  }

  /** Days in the months of year `y` before month `m`. */
  function DaysBeforeMonth(y: int, m: int): int
    requires 1 <= m <= 12
  {
    var common :=
      match m
      case 1 => 0 case 2 => 31 case 3 => 59 case 4 => 90 case 5 => 120 case 6 => 151
      case 7 => 181 case 8 => 212 case 9 => 243 case 10 => 273 case 11 => 304 case _ => 334;
    if m > 2 && IsLeapYear(y) then common + 1 else common
  }

  /** Days in the years from `MinYear` up to, not including, `y`. */
  function DaysBeforeYear(y: int): nat
    requires MinYear <= y
    decreases y
  {
    if y == MinYear then 0 else DaysBeforeYear(y - 1) + DaysInYear(y - 1)
  }

  /** Days from 1000-01-01 to the timestamp's date. */
  function DayNumber(t: Timestamp): nat {
    DaysBeforeYear(t.year) + DaysBeforeMonth(t.year, t.month) + t.day - 1
  }

  function SecondOfDay(t: Timestamp): nat {
    t.hour * 3600 + t.minute * 60 + t.second
  }

  /** Seconds elapsed from 1000-01-01 00:00:00 to `t`. */
  function ToSeconds(t: Timestamp): nat {
    DayNumber(t) * SecondsPerDay + SecondOfDay(t)
  }

  /** A month ends where the next one begins, and December ends with the year. */
  lemma {:induction false} MonthEnd(y: int, m: int)
    requires 1 <= m <= 12
    ensures m < 12 ==> DaysBeforeMonth(y, m) + DaysInMonth(y, m) == DaysBeforeMonth(y, m + 1)
    ensures m == 12 ==> DaysBeforeMonth(y, m) + DaysInMonth(y, m) == DaysInYear(y)
  {
  }

  /** An earlier month of the same year ends no later than a later month begins. */
  lemma {:induction false} MonthOrder(y: int, m1: int, m2: int)
    requires 1 <= m1 < m2 <= 12
    ensures DaysBeforeMonth(y, m1) + DaysInMonth(y, m1) <= DaysBeforeMonth(y, m2)
    decreases m2
  {
    MonthEnd(y, m1);
    if m1 + 1 < m2 {
      MonthOrder(y, m1, m2 - 1);
      MonthEnd(y, m2 - 1);
    }
  }

  /** Every day of a valid date falls inside its year. */
  lemma {:induction false} DayWithinYear(y: int, m: int, d: int)
    requires ValidDate(y, m, d)
    ensures DaysBeforeMonth(y, m) + d - 1 < DaysInYear(y)
  {
    if m < 12 {
      MonthOrder(y, m, 12);
    }
    MonthEnd(y, 12);
  }

  /** An earlier year ends no later than a later year begins. */
  lemma {:induction false} YearOrder(y1: int, y2: int)
    requires MinYear <= y1 < y2
    ensures DaysBeforeYear(y1) + DaysInYear(y1) <= DaysBeforeYear(y2)
    decreases y2
  {
    if y1 + 1 < y2 {
      YearOrder(y1, y2 - 1);
    }
  }

  /** An earlier calendar date has a smaller day number. */
  lemma {:induction false} DayNumberMonotone(a: Timestamp, b: Timestamp)
    requires a.year < b.year
          || (a.year == b.year && a.month < b.month)
          || (a.year == b.year && a.month == b.month && a.day < b.day)
    ensures DayNumber(a) < DayNumber(b)
  {
    if a.year < b.year {
      DayWithinYear(a.year, a.month, a.day);
      YearOrder(a.year, b.year);
    } else if a.month < b.month {
      MonthOrder(a.year, a.month, b.month);
    }
  }

  /** `ToSeconds` is strictly monotone in Python's lexicographic datetime order. */
  lemma {:induction false} ToSecondsMonotone(a: Timestamp, b: Timestamp)
    requires Precedes(a, b)
    ensures ToSeconds(a) < ToSeconds(b)
  {
    if a.year != b.year || a.month != b.month || a.day != b.day {
      DayNumberMonotone(a, b);
    }
  }

  /** Comparing ordinals is the same as comparing timestamps field by field. */
  lemma {:induction false} ToSecondsOrder(a: Timestamp, b: Timestamp)
    ensures Precedes(a, b) <==> ToSeconds(a) < ToSeconds(b)
    ensures a == b <==> ToSeconds(a) == ToSeconds(b)
  {
    if Precedes(a, b) {
      ToSecondsMonotone(a, b);
    } else if Precedes(b, a) {
      ToSecondsMonotone(b, a);
    }
  }

  /** The microsecond part of a clock reading. */
  type Microsecond = x: int | 0 <= x < MicrosPerSecond

  /** A reading of `datetime.now()`, which, unlike stored timestamps, carries microseconds. */
  datatype Instant = Instant(at: Timestamp, micro: Microsecond)

  function Micros(now: Instant): int {
    ToSeconds(now.at) * MicrosPerSecond + now.micro
  }

  /** `now >= t` for a clock reading and a whole-second timestamp. */
  predicate AtOrAfter(now: Instant, t: Timestamp) {
    Micros(now) >= ToSeconds(t) * MicrosPerSecond
  }

  /** `now < t + timedelta(minutes=1)`. */
  predicate WithinMinuteOf(now: Instant, t: Timestamp) {
    Micros(now) < (ToSeconds(t) + 60) * MicrosPerSecond
  }

  /**
   * The microseconds of `now` never decide either comparison, and `now >= t`
   * is Python's datetime comparison: `t` does not come after the reading's
   * whole-second part.
   */
  lemma {:induction false} ComparisonsIgnoreMicros(now: Instant, t: Timestamp)
    ensures AtOrAfter(now, t) <==> ToSeconds(now.at) >= ToSeconds(t)
    ensures AtOrAfter(now, t) <==> !Precedes(now.at, t)
    ensures WithinMinuteOf(now, t) <==> ToSeconds(now.at) < ToSeconds(t) + 60
  {
    ToSecondsOrder(now.at, t);
  }
}
