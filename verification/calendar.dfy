/**
 * The proleptic Gregorian calendar as JavaScript's `Date` sees it: civil
 * dates, day numbers counted from 1970-01-01, and the limit of 10^8 days on
 * either side of that epoch beyond which a `Date` holds no time value.
 */
module Calendar {

  /** A year, month (1..12) and day of the month, as `getFullYear`, `getMonth() + 1` and `getDate` report them. */
  datatype CivilDate = CivilDate(year: int, month: int, day: int)

  predicate IsLeapYear(y: int) {
    y % 4 == 0 && (y % 100 != 0 || y % 400 == 0)
  }

  function DaysInYear(y: int): int {
    if IsLeapYear(y) then 366 else 365
  }

  function DaysInMonth(y: int, m: int): (n: int)
    requires 1 <= m <= 12
    ensures 28 <= n <= 31
    ensures n == 29 <==> m == 2 && IsLeapYear(y)
  {
    if m == 2 then (if IsLeapYear(y) then 29 else 28)
    else if m == 4 || m == 6 || m == 9 || m == 11 then 30
    else 31
  }

  /** A date that names an existing day: no month 13, no April 31st, no February 29th outside leap years. */
  predicate IsCalendarDate(d: CivilDate) {
    1 <= d.month <= 12 && 1 <= d.day <= DaysInMonth(d.year, d.month)
  }

  /** `a` comes strictly before `b`: compared by year, then month, then day. */
  predicate Precedes(a: CivilDate, b: CivilDate) {
    a.year < b.year
    || (a.year == b.year && a.month < b.month)
    || (a.year == b.year && a.month == b.month && a.day < b.day)
  }

  predicate OnOrBefore(a: CivilDate, b: CivilDate) {
    a == b || Precedes(a, b)
  }

  // ---------------------------------------------------------------------
  // Day numbers and time values
  // ---------------------------------------------------------------------

  /** Days in the months of year `y` before month `m`. */
  function DaysBeforeMonth(y: int, m: int): (n: int)
    requires 1 <= m <= 12
    ensures 0 <= n <= 335
  {
    var common := [0, 31, 59, 90, 120, 151, 181, 212, 243, 273, 304, 334][m - 1];
    if m > 2 && IsLeapYear(y) then common + 1 else common
  }

  /** The day number of January 1st of year `y`, counted from 1970-01-01 (ECMAScript's DayFromYear). */
  function DayFromYear(y: int): int {
    365 * (y - 1970) + (y - 1969) / 4 - (y - 1901) / 100 + (y - 1601) / 400
  }

  /** The day number of `d`: how many days it lies after 1970-01-01 (negative before it). */
  function DayNumber(d: CivilDate): int
    requires IsCalendarDate(d)
  {
    DayFromYear(d.year) + DaysBeforeMonth(d.year, d.month) + d.day - 1
  }

  const MsPerDay: int := 86400000

  /** The largest magnitude a `Date`'s time value may have: 8.64 * 10^15 milliseconds. */
  const MaxTimeValue: int := 8640000000000000

  /** The time value of midnight at the start of `d`, in milliseconds from the epoch. */
  function TimeValue(d: CivilDate): int
    requires IsCalendarDate(d)
  {
    DayNumber(d) * MsPerDay
  }

  /** A `Date` for midnight of `d` holds a time value, not NaN. */
  predicate TimeValueInRange(d: CivilDate)
    requires IsCalendarDate(d)
  {
    -MaxTimeValue <= TimeValue(d) <= MaxTimeValue
  }

  /** The first and the last day a `Date` can represent. */
  const EarliestDate: CivilDate := CivilDate(-271821, 4, 20)
  const LatestDate: CivilDate := CivilDate(275760, 9, 13)

  predicate WithinTimeRange(d: CivilDate) {
    OnOrBefore(EarliestDate, d) && OnOrBefore(d, LatestDate)
  }

  // ---------------------------------------------------------------------
  // Day numbers count days
  // ---------------------------------------------------------------------

  /** Each month starts where the previous one ends, and the twelve months fill the year. */
  lemma MonthsAdjacent(y: int, m: int)
    requires 1 <= m <= 12
    ensures m < 12 ==> DaysBeforeMonth(y, m + 1) == DaysBeforeMonth(y, m) + DaysInMonth(y, m)
    ensures m == 12 ==> DaysBeforeMonth(y, m) + DaysInMonth(y, m) == DaysInYear(y)
  {
  }

  lemma DaysBeforeMonthMonotone(y: int, m1: int, m2: int)
    requires 1 <= m1 <= m2 <= 12
    ensures DaysBeforeMonth(y, m1) <= DaysBeforeMonth(y, m2)
  {
  }

  lemma DivideBy4(q: int, r: int)
    requires 0 <= r < 4
    ensures (4 * q + r) / 4 == q && (4 * q + r) % 4 == r
  {
  }

  lemma DivideBy100(q: int, r: int)
    requires 0 <= r < 100
    ensures (100 * q + r) / 100 == q && (100 * q + r) % 100 == r
  {
  }

  lemma DivideBy400(q: int, r: int)
    requires 0 <= r < 400
    ensures (400 * q + r) / 400 == q && (400 * q + r) % 400 == r
  {
  }

  /** `(y - 1969) / 4` steps up by one exactly when `y` is a multiple of four. */
  lemma QuadrennialStep(y: int)
    ensures (y - 1968) / 4 - (y - 1969) / 4 == (if y % 4 == 0 then 1 else 0)
  {
    var q, r := (y - 1969) / 4, (y - 1969) % 4;
    DivideBy4(y / 4 - 492, y % 4);
    assert y - 1968 == 4 * (y / 4 - 492) + y % 4;
    if r == 3 {
      DivideBy4(q + 1, 0);
      assert y - 1968 == 4 * (q + 1) + 0;
    } else {
      DivideBy4(q, r + 1);
      assert y - 1968 == 4 * q + (r + 1);
    }
  }

  /** `(y - 1901) / 100` steps up by one exactly when `y` is a multiple of a hundred. */
  lemma CenturyStep(y: int)
    ensures (y - 1900) / 100 - (y - 1901) / 100 == (if y % 100 == 0 then 1 else 0)
  {
    var q, r := (y - 1901) / 100, (y - 1901) % 100;
    DivideBy100(y / 100 - 19, y % 100);
    assert y - 1900 == 100 * (y / 100 - 19) + y % 100;
    if r == 99 {
      DivideBy100(q + 1, 0);
      assert y - 1900 == 100 * (q + 1) + 0;
    } else {
      DivideBy100(q, r + 1);
      assert y - 1900 == 100 * q + (r + 1);
    }
  }

  /** `(y - 1601) / 400` steps up by one exactly when `y` is a multiple of four hundred. */
  lemma QuadricentennialStep(y: int)
    ensures (y - 1600) / 400 - (y - 1601) / 400 == (if y % 400 == 0 then 1 else 0)
  {
    var q, r := (y - 1601) / 400, (y - 1601) % 400;
    DivideBy400(y / 400 - 4, y % 400);
    assert y - 1600 == 400 * (y / 400 - 4) + y % 400;
    if r == 399 {
      DivideBy400(q + 1, 0);
      assert y - 1600 == 400 * (q + 1) + 0;
    } else {
      DivideBy400(q, r + 1);
      assert y - 1600 == 400 * q + (r + 1);
    }
  }

  /** A multiple of 400 is a multiple of 100, and a multiple of 100 a multiple of 4. */
  lemma MultiplesNest(y: int)
    ensures y % 400 == 0 ==> y % 100 == 0
    ensures y % 100 == 0 ==> y % 4 == 0
  {
    if y % 400 == 0 {
      DivideBy100(4 * (y / 400), 0);
      assert y == 100 * (4 * (y / 400)) + 0;
    }
    if y % 100 == 0 {
      DivideBy4(25 * (y / 100), 0);
      assert y == 4 * (25 * (y / 100)) + 0;
    }
  }

  /** The length of a year as the sum of the three Gregorian corrections. */
  lemma LeapCorrections(y: int)
    ensures DaysInYear(y)
            == 365 + (if y % 4 == 0 then 1 else 0) - (if y % 100 == 0 then 1 else 0)
               + (if y % 400 == 0 then 1 else 0)
  {
    MultiplesNest(y);
  }

  /** One more year adds that year's length to the day number of January 1st. */
  lemma YearLength(y: int)
    ensures DayFromYear(y + 1) == DayFromYear(y) + DaysInYear(y)
  {
    QuadrennialStep(y);
    CenturyStep(y);
    QuadricentennialStep(y);
    LeapCorrections(y);
    assert DayFromYear(y + 1) == 365 * (y - 1969) + (y - 1968) / 4 - (y - 1900) / 100 + (y - 1600) / 400;
  }

  lemma {:induction false} DayFromYearMonotone(y1: int, y2: int)
    requires y1 < y2
    ensures DayFromYear(y1) + DaysInYear(y1) <= DayFromYear(y2)
    decreases y2 - y1
  {
    YearLength(y1);
    if y1 + 1 < y2 {
      DayFromYearMonotone(y1 + 1, y2);
    }
  }

  /** The last day of a month's day number is below the next month's first. */
  lemma DayNumberBelowNextMonth(d: CivilDate)
    requires IsCalendarDate(d)
    ensures d.month < 12 ==> DayNumber(d) < DayFromYear(d.year) + DaysBeforeMonth(d.year, d.month + 1)
    ensures DayNumber(d) < DayFromYear(d.year) + DaysInYear(d.year)
  {
    MonthsAdjacent(d.year, d.month);
    DaysBeforeMonthMonotone(d.year, d.month, 12);
    MonthsAdjacent(d.year, 12);
  }

  /** Day numbers follow the calendar order: a strictly earlier date has a strictly smaller day number. */
  lemma DayNumberMonotone(a: CivilDate, b: CivilDate)
    requires IsCalendarDate(a) && IsCalendarDate(b)
    requires Precedes(a, b)
    ensures DayNumber(a) < DayNumber(b)
  {
    DayNumberBelowNextMonth(a);
    if a.year < b.year {
      DayFromYearMonotone(a.year, b.year);
    } else if a.month < b.month {
      DaysBeforeMonthMonotone(a.year, a.month + 1, b.month);
    }
  }

  lemma BoundaryDayNumbers()
    ensures IsCalendarDate(EarliestDate) && DayNumber(EarliestDate) == -100000000
    ensures IsCalendarDate(LatestDate) && DayNumber(LatestDate) == 100000000
  {
  }

  /**
   * A calendar date has a time value exactly when it lies between
   * -271821-04-20 and 275760-09-13, both included.
   */
  lemma TimeValueInRangeIffWithin(d: CivilDate)
    requires IsCalendarDate(d)
    ensures TimeValueInRange(d) <==> WithinTimeRange(d)
  {
    BoundaryDayNumbers();
    if Precedes(d, EarliestDate) {
      DayNumberMonotone(d, EarliestDate);
    } else if Precedes(LatestDate, d) {
      DayNumberMonotone(LatestDate, d);
    } else {
      if d != EarliestDate {
        DayNumberMonotone(EarliestDate, d);
      }
      if d != LatestDate {
        DayNumberMonotone(d, LatestDate);
      }
    }
  }

  // ---------------------------------------------------------------------
  // Age in whole years
  // ---------------------------------------------------------------------

  /**
   * Whole years from `birth` to `today`: the difference of the years, one
   * less while this year's birthday (by month and day) is still ahead.
   */
  function Age(birth: CivilDate, today: CivilDate): int {
    var age := today.year - birth.year;
    var monthDiff := today.month - birth.month;
    if monthDiff < 0 || (monthDiff == 0 && today.day < birth.day) then age - 1 else age
  }

  /**
   * The age reaches `n` exactly when the `n`-th anniversary, taken as a
   * year, month and day triple, is not after `today`.
   */
  lemma AgeReached(birth: CivilDate, today: CivilDate, n: int)
    ensures Age(birth, today) >= n
            <==> OnOrBefore(CivilDate(birth.year + n, birth.month, birth.day), today)
  {
  }
}
