/**
 * Calendar days in the proleptic Gregorian calendar, shared by both sides.
 *
 * Python's `date` compares (year, month, day) lexicographically (`Before`).
 * JavaScript's `Date` compares time values; on whole days that is the day
 * count `DayNumber`, which, like ECMAScript's MakeDay, also gives a meaning to
 * an out-of-range month or day by rolling it over into the next or previous
 * month or year. `DayNumberOrder` shows that the two agree on valid dates.
 */
module Calendar {
  import opened Text

  datatype Date = Date(year: int, month: int, day: int)

  predicate IsLeapYear(y: int) {
    y % 4 == 0 && (y % 100 != 0 || y % 400 == 0)
  }

  function DaysInMonth(y: int, m: int): int {
    if m == 2 then (if IsLeapYear(y) then 29 else 28)
    else if m == 4 || m == 6 || m == 9 || m == 11 then 30
    else 31
  }

  function YearLength(y: int): int {
    if IsLeapYear(y) then 366 else 365
  }

  /** A day that exists in the calendar (February 29 only in leap years). */
  predicate IsValid(d: Date) {
    1 <= d.month <= 12 && 1 <= d.day <= DaysInMonth(d.year, d.month)
  }

  /** Python's `a < b` on `date` values. */
  predicate Before(a: Date, b: Date) {
    a.year < b.year || (a.year == b.year && (a.month < b.month || (a.month == b.month && a.day < b.day)))
  }

  /** Days from 0001-01-01 to January 1 of year `y`. */
  function DaysBeforeYear(y: int): int {
    365 * (y - 1) + (y - 1) / 4 - (y - 1) / 100 + (y - 1) / 400
  }

  /** Days from January 1 to the first of month `m` of year `y`. */
  function DaysBeforeMonth(y: int, m: int): (n: int)
    requires 1 <= m <= 12
    ensures 0 <= n
  {
    if m == 1 then 0 else DaysBeforeMonth(y, m - 1) + DaysInMonth(y, m - 1)
  }

  /** The day count of ECMAScript's MakeDay(year, month - 1, day), taken from
      0001-01-01: the month is first folded into the year, then `day - 1` days
      are added to the first of that month, so day 0 is the last day of the
      previous month and month 13 is January of the next year. */
  function DayNumber(d: Date): int {
    var y := d.year + (d.month - 1) / 12;
    var m := (d.month - 1) % 12 + 1;
    DaysBeforeYear(y) + DaysBeforeMonth(y, m) + d.day - 1
  }

  /** The day count of 1970-01-01, the origin of JavaScript time values. */
  const UnixEpochDay: int := 719162

  lemma FloorStep(y: int)
    ensures y / 4 - (y - 1) / 4 == (if y % 4 == 0 then 1 else 0)
    ensures y / 100 - (y - 1) / 100 == (if y % 100 == 0 then 1 else 0)
    ensures y / 400 - (y - 1) / 400 == (if y % 400 == 0 then 1 else 0)
  {
  }

  /** A year contributes its length to the running day count. */
  lemma YearStep(y: int)
    ensures DaysBeforeYear(y + 1) == DaysBeforeYear(y) + YearLength(y)
  {
    FloorStep(y);
  }

  lemma {:induction false} YearsAscend(y1: int, y2: int)
    requires y1 <= y2
    ensures DaysBeforeYear(y1) <= DaysBeforeYear(y2)
    decreases y2 - y1
  {
    if y1 < y2 {
      YearStep(y1);
      YearsAscend(y1 + 1, y2);
    }
  }

  lemma {:induction false} MonthsAscend(y: int, m1: int, m2: int)
    requires 1 <= m1 < m2 <= 12
    ensures DaysBeforeMonth(y, m1) + DaysInMonth(y, m1) <= DaysBeforeMonth(y, m2)
    decreases m2 - m1
  {
    if m1 + 1 < m2 {
      MonthsAscend(y, m1 + 1, m2);
    }
  }

  /** The twelve months fill the year exactly. */
  lemma {:induction false} YearFits(y: int)
    ensures DaysBeforeMonth(y, 12) + DaysInMonth(y, 12) == YearLength(y)
  {
    var leap := if IsLeapYear(y) then 1 else 0;
    assert DaysBeforeMonth(y, 2) == 31;
    assert DaysBeforeMonth(y, 3) == 59 + leap;
    assert DaysBeforeMonth(y, 4) == 90 + leap;
    assert DaysBeforeMonth(y, 5) == 120 + leap;
    assert DaysBeforeMonth(y, 6) == 151 + leap;
    assert DaysBeforeMonth(y, 7) == 181 + leap;
    assert DaysBeforeMonth(y, 8) == 212 + leap;
    assert DaysBeforeMonth(y, 9) == 243 + leap;
    assert DaysBeforeMonth(y, 10) == 273 + leap;
    assert DaysBeforeMonth(y, 11) == 304 + leap;
    assert DaysBeforeMonth(y, 12) == 334 + leap;
  }

  /** The day count of a date whose month needs no folding. */
  lemma InRangeMonth(d: Date)
    requires 1 <= d.month <= 12
    ensures DayNumber(d) == DaysBeforeYear(d.year) + DaysBeforeMonth(d.year, d.month) + d.day - 1
  {
    assert (d.month - 1) / 12 == 0 && (d.month - 1) % 12 == d.month - 1;
  }
  lemma UnixEpoch()
    ensures DayNumber(Date(1970, 1, 1)) == UnixEpochDay
  {
    InRangeMonth(Date(1970, 1, 1));
    var y := 1969;
    assert y / 4 == 492;
    assert y / 100 == 19;
    assert y / 400 == 4;
  }


  /** A valid date's day count lies inside its own year. */
  lemma WithinYear(d: Date)
    requires IsValid(d)
    ensures DaysBeforeYear(d.year) <= DayNumber(d) < DaysBeforeYear(d.year + 1)
  {
    InRangeMonth(d);
    YearStep(d.year);
    YearFits(d.year);
    if d.month < 12 {
      MonthsAscend(d.year, d.month, 12);
    }
    assert DaysBeforeMonth(d.year, d.month) + d.day <= DaysBeforeMonth(d.year, 12) + DaysInMonth(d.year, 12);
  }

  /** A later year starts after every day of an earlier one. */
  lemma EarlierYear(a: Date, b: Date)
    requires IsValid(a) && IsValid(b) && a.year < b.year
    ensures DayNumber(a) < DayNumber(b)
  {
    WithinYear(a);
    WithinYear(b);
    YearsAscend(a.year + 1, b.year);
  }

  /** Within a year, a later month starts after every day of an earlier one. */
  lemma EarlierMonth(a: Date, b: Date)
    requires IsValid(a) && IsValid(b) && a.year == b.year && a.month < b.month
    ensures DayNumber(a) < DayNumber(b)
  {
    InRangeMonth(a);
    InRangeMonth(b);
    MonthsAscend(a.year, a.month, b.month);
  }

  lemma BeforeIsSmaller(a: Date, b: Date)
    requires IsValid(a) && IsValid(b) && Before(a, b)
    ensures DayNumber(a) < DayNumber(b)
  {
    if a.year < b.year {
      EarlierYear(a, b);
    } else if a.month < b.month {
      EarlierMonth(a, b);
    } else {
      InRangeMonth(a);
      InRangeMonth(b);
    }
  }

  /** On valid dates, JavaScript's order of time values is Python's date
      order, and equal day counts mean the same date. */
  lemma DayNumberOrder(a: Date, b: Date)
    requires IsValid(a) && IsValid(b)
    ensures Before(a, b) <==> DayNumber(a) < DayNumber(b)
    ensures a == b <==> DayNumber(a) == DayNumber(b)
  {
    if Before(a, b) {
      BeforeIsSmaller(a, b);
    } else if a != b {
      assert Before(b, a);
      BeforeIsSmaller(b, a);
    }
  }

  /** `DayNumberOrder` for dates that may be invalid. */
  lemma ValidDayOrder(a: Date, b: Date)
    ensures IsValid(a) && IsValid(b) ==> (Before(a, b) <==> DayNumber(a) < DayNumber(b))
  {
    if IsValid(a) && IsValid(b) {
      DayNumberOrder(a, b);
    }
  }

  /** `new Date(y, m - 1, d)` with the day one past the month's end is the
      first of the next month (of January of the next year after December). */
  lemma DayRollsOver(y: int, m: int)
    requires 1 <= m <= 12
    ensures DayNumber(Date(y, m, DaysInMonth(y, m) + 1)) ==
            DayNumber(if m == 12 then Date(y + 1, 1, 1) else Date(y, m + 1, 1))
  {
    InRangeMonth(Date(y, m, DaysInMonth(y, m) + 1));
    if m == 12 {
      YearFits(y);
      YearStep(y);
      InRangeMonth(Date(y + 1, 1, 1));
    } else {
      InRangeMonth(Date(y, m + 1, 1));
    }
  }

  /** Twelve months more is one year more: a month index past December
      carries into the year. */
  lemma MonthCarries(y: int, m: int, d: int)
    ensures DayNumber(Date(y, m + 12, d)) == DayNumber(Date(y + 1, m, d))
  {
    var k := m - 1;
    assert (k + 12) / 12 == k / 12 + 1;
    assert (k + 12) % 12 == k % 12;
  }

  /** The wire format of a due date: `YYYY-MM-DD`, zero-padded. */
  function FormatIso(d: Date): string
    requires 0 <= d.year <= 9999 && 1 <= d.month <= 12 && 1 <= d.day <= 31
  {
    Numeral(d.year, 4) + "-" + Numeral(d.month, 2) + "-" + Numeral(d.day, 2)
  }

  /** The `D/M/YYYY` form, day and month without padding. */
  function FormatDmy(d: Date): string
    requires 0 <= d.year <= 9999 && 1 <= d.month <= 12 && 1 <= d.day <= 31
  {
    Show(d.day) + "/" + Show(d.month) + "/" + Numeral(d.year, 4)
  }
}
