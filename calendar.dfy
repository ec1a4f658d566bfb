/**
 * The proleptic Gregorian calendar as Python's `datetime` uses it, and the
 * conversion of a calendar date and wall-clock time to seconds since the
 * Unix epoch (1970-01-01 00:00 UTC), which is how this model stores every
 * TIMESTAMPTZ column.
 */
module Calendar {

  datatype Date = Date(year: int, month: int, day: int)

  predicate IsLeap(y: int) {
    y % 4 == 0 && (y % 100 != 0 || y % 400 == 0)
  }

  function DaysInMonth(y: int, m: int): (n: int)
    requires 1 <= m <= 12
    ensures 28 <= n <= 31
  {
    if m == 2 then (if IsLeap(y) then 29 else 28)
    else if m == 4 || m == 6 || m == 9 || m == 11 then 30
    else 31
  }

  function DaysInYear(y: int): int {
    if IsLeap(y) then 366 else 365
  }

  /** What `datetime(year, month, day)` accepts: MINYEAR 1 to MAXYEAR 9999
      and a day that exists in that month. */
  predicate ValidDate(d: Date) {
    1 <= d.year <= 9999 && 1 <= d.month <= 12 && 1 <= d.day <= DaysInMonth(d.year, d.month)
  }

  /** A date a clock can report. */
  type Day = d: Date | ValidDate(d) witness Date(1970, 1, 1)

  predicate ValidClock(hour: int, minute: int) {
    0 <= hour <= 23 && 0 <= minute <= 59
  }

  function DaysBeforeYear(y: int): int
    requires y >= 1
  {
    var p := y - 1;
    365 * p + p / 4 - p / 100 + p / 400
  }

  /** Days in the months before `m` of year `y` (Python's
      `_days_before_month`). */
  function DaysBeforeMonth(y: int, m: int): int
    requires 1 <= m <= 12
  {
    [0, 31, 59, 90, 120, 151, 181, 212, 243, 273, 304, 334][m - 1]
      + (if m > 2 && IsLeap(y) then 1 else 0)
  }

  /** `date.toordinal()`: 0001-01-01 is day 1. */
  function Ordinal(d: Date): int
    requires ValidDate(d)
  {
    DaysBeforeYear(d.year) + DaysBeforeMonth(d.year, d.month) + d.day
  }

  /** `date(1970, 1, 1).toordinal()`. */
  const EpochOrdinal: int := 719163

  const SecondsPerDay: int := 86400

  /** Seconds since the Unix epoch of the wall-clock time `hour:minute` on
      day `d`, read as UTC. */
  function EpochSeconds(d: Date, hour: int, minute: int): int
    requires ValidDate(d)
  {
    (Ordinal(d) - EpochOrdinal) * SecondsPerDay + hour * 3600 + minute * 60
  }

  /** Midnight at the start of `d`, UTC. */
  function DayStart(d: Date): int
    requires ValidDate(d)
  {
    EpochSeconds(d, 0, 0)
  }

  /** The calendar date after `d`. */
  function NextDay(d: Date): (e: Date)
    requires ValidDate(d) && d != Date(9999, 12, 31)
    ensures ValidDate(e) && Ordinal(e) == Ordinal(d) + 1
  {
    if d.day < DaysInMonth(d.year, d.month) then Date(d.year, d.month, d.day + 1)
    else if d.month < 12 then
      MonthStep(d.year, d.month);
      Date(d.year, d.month + 1, 1)
    else
      YearLength(d.year);
      MonthsFillYear(d.year);
      Date(d.year + 1, 1, 1)
  }

  predicate Before(a: Date, b: Date) {
    a.year < b.year
    || (a.year == b.year && a.month < b.month)
    || (a.year == b.year && a.month == b.month && a.day < b.day)
  }

  /** Going from year p to p + 1 adds one to the count of multiples of 4,
      100 and 400 exactly when p + 1 is such a multiple. */
  lemma MultiplesStep(p: int)
    requires p >= 0
    ensures (p + 1) / 4 == p / 4 + (if (p + 1) % 4 == 0 then 1 else 0)
    ensures (p + 1) / 100 == p / 100 + (if (p + 1) % 100 == 0 then 1 else 0)
    ensures (p + 1) / 400 == p / 400 + (if (p + 1) % 400 == 0 then 1 else 0)
  {
  }

  /** A year has 365 days, 366 when it is a leap year. */
  lemma YearLength(y: int)
    requires y >= 1
    ensures DaysBeforeYear(y + 1) == DaysBeforeYear(y) + DaysInYear(y)
  {
    MultiplesStep(y - 1);
  }

  /** Each month's days start where the previous month's end. */
  lemma MonthStep(y: int, m: int)
    requires 1 <= m < 12
    ensures DaysBeforeMonth(y, m + 1) == DaysBeforeMonth(y, m) + DaysInMonth(y, m)
  {
  }

  /** The twelve months make up the year. */
  lemma MonthsFillYear(y: int)
    ensures DaysBeforeMonth(y, 12) + DaysInMonth(y, 12) == DaysInYear(y)
  {
  }

  lemma MonthsIncrease(y: int, m: int, m': int)
    requires 1 <= m < m' <= 12
    ensures DaysBeforeMonth(y, m) + DaysInMonth(y, m) <= DaysBeforeMonth(y, m')
  {
  }

  lemma {:induction false} YearsIncrease(y: int, y': int)
    requires 1 <= y < y'
    ensures DaysBeforeYear(y) + DaysInYear(y) <= DaysBeforeYear(y')
    decreases y' - y
  {
    YearLength(y);
    if y + 1 < y' {
      YearsIncrease(y + 1, y');
      YearLength(y + 1);
    }
  }

  lemma OrdinalInYear(d: Date)
    requires ValidDate(d)
    ensures DaysBeforeYear(d.year) < Ordinal(d) <= DaysBeforeYear(d.year) + DaysInYear(d.year)
  {
    if d.month < 12 {
      MonthsIncrease(d.year, d.month, 12);
    }
    MonthsFillYear(d.year);
  }

  /** Ordinals follow the calendar order, so distinct valid dates have
      distinct ordinals. */
  lemma OrdinalIncreasing(a: Date, b: Date)
    requires ValidDate(a) && ValidDate(b) && Before(a, b)
    ensures Ordinal(a) < Ordinal(b)
  {
    if a.year < b.year {
      OrdinalInYear(a);
      OrdinalInYear(b);
      YearsIncrease(a.year, b.year);
    } else if a.month < b.month {
      MonthsIncrease(a.year, a.month, b.month);
    }
  }

  /** A timestamp determines its date and its time of day: equal epoch
      seconds for valid dates and clock times mean the same date and time. */
  lemma EpochSecondsInjective(a: Date, h: int, m: int, b: Date, h': int, m': int)
    requires ValidDate(a) && ValidClock(h, m)
    requires ValidDate(b) && ValidClock(h', m')
    requires EpochSeconds(a, h, m) == EpochSeconds(b, h', m')
    ensures a == b && h == h' && m == m'
  {
    if Before(a, b) {
      OrdinalIncreasing(a, b);
    } else if Before(b, a) {
      OrdinalIncreasing(b, a);
    }
    assert Ordinal(a) == Ordinal(b);
  }

  /** The ordinal numbering agrees with Python's: 1970-01-01 is day 719163. */
  lemma EpochIsUnixEpoch()
    ensures ValidDate(Date(1970, 1, 1)) && Ordinal(Date(1970, 1, 1)) == EpochOrdinal
  {
  }
}
