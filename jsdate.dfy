/**
 * Calendar dates as the JavaScript `Date` constructor builds them from a
 * (year, month, day) triple: months are 0-based, out-of-range months and
 * days roll over into neighbouring years and months, and a year from 0 to
 * 99 is read as 1900 to 1999. Times of day and time zones are not modelled.
 */
module JsDate {

  /** A calendar date; `month` is 0-based as in `Date.prototype.getMonth`. */
  datatype Date = Date(year: int, month: int, day: int)

  predicate IsLeapYear(y: int) {
    (y % 4 == 0 && y % 100 != 0) || y % 400 == 0
  }

  function DaysInMonth(y: int, m: int): (n: int)
    requires 0 <= m < 12
    ensures 28 <= n <= 31
    ensures m == 1 ==> (n == 29 <==> IsLeapYear(y))
  {
    if m == 1 then (if IsLeapYear(y) then 29 else 28)
    else if m == 3 || m == 5 || m == 8 || m == 10 then 30
    else 31
  }

  /** A date the calendar has: a month 0..11 and a day within that month. */
  predicate ValidDate(d: Date) {
    0 <= d.month < 12 && 1 <= d.day <= DaysInMonth(d.year, d.month)
  }

  /** The year `new Date(y, ...)` uses: two-digit years are 19xx. */
  function FullYear(y: int): (r: int)
    ensures 0 <= y <= 99 ==> r == 1900 + y
    ensures !(0 <= y <= 99) ==> r == y
  {
    if 0 <= y <= 99 then 1900 + y else y
  }

  /** Carries a day number outside month `m` of year `y` into the months
      before or after it, one month at a time. */
  function NormalizeDay(y: int, m: int, d: int): (r: Date)
    requires 0 <= m < 12
    ensures ValidDate(r)
    ensures 1 <= d <= DaysInMonth(y, m) ==> r == Date(y, m, d)
    decreases if d < 1 then 1 else 0, if d < 1 then 1 - d else d
  {
    if d < 1 then
      var py := if m == 0 then y - 1 else y;
      var pm := if m == 0 then 11 else m - 1;
      NormalizeDay(py, pm, d + DaysInMonth(py, pm))
    else if d > DaysInMonth(y, m) then
      var ny := if m == 11 then y + 1 else y;
      var nm := if m == 11 then 0 else m + 1;
      NormalizeDay(ny, nm, d - DaysInMonth(y, m))
    else
      Date(y, m, d)
  }

  // ---------------------------------------------------------------------
  // Day numbers: an independent account of where a day lands
  // ---------------------------------------------------------------------

  /** Days from 1 January of year 0 to 1 January of year `y` (negative
      before year 0): 365 a year plus one for each leap year passed. */
  function DaysBeforeYear(y: int): int {
    365 * y + (y + 3) / 4 - (y + 99) / 100 + (y + 399) / 400
  }

  /** Days from the leap years of the Julian rule (every fourth year) to
      `y`: stepping the year adds one exactly at a multiple of 4. */
  lemma FourthYears(y: int)
    ensures (y + 4) / 4 - (y + 3) / 4 == if y % 4 == 0 then 1 else 0
  {
    assert (y + 4) % 4 == y % 4;
  }

  /** Likewise for the century years the Gregorian rule takes back. */
  lemma CenturyYears(y: int)
    ensures (y + 100) / 100 - (y + 99) / 100 == if y % 100 == 0 then 1 else 0
  {
    assert (y + 100) % 100 == y % 100;
  }

  /** Likewise for the every-fourth century it restores. */
  lemma QuadricentennialYears(y: int)
    ensures (y + 400) / 400 - (y + 399) / 400 == if y % 400 == 0 then 1 else 0
  {
    assert (y + 400) % 400 == y % 400;
  }

  /** A multiple of 400 is a multiple of 100. */
  lemma QuadricentennialIsCentury(y: int)
    requires y % 400 == 0
    ensures y % 100 == 0
  {
    var k := y / 400;
    assert y == 100 * (4 * k);
  }

  /** A multiple of 100 is a multiple of 4. */
  lemma CenturyIsFourth(y: int)
    requires y % 100 == 0
    ensures y % 4 == 0
  {
    var k := y / 100;
    assert y == 4 * (25 * k);
  }

  /** A year has 366 days when it is a leap year and 365 otherwise. */
  lemma YearLength(y: int)
    ensures DaysBeforeYear(y + 1) == DaysBeforeYear(y) + (if IsLeapYear(y) then 366 else 365)
  {
    FourthYears(y);
    CenturyYears(y);
    QuadricentennialYears(y);
    if y % 400 == 0 {
      QuadricentennialIsCentury(y);
    }
    if y % 100 == 0 {
      CenturyIsFourth(y);
    }
  }

  /** Days from 1 January to the first of month `m` of year `y`. */
  function DaysBeforeMonth(y: int, m: int): (n: int)
    requires 0 <= m <= 12
    ensures n >= 0
  {
    if m == 0 then 0 else DaysBeforeMonth(y, m - 1) + DaysInMonth(y, m - 1)
  }

  /** The twelve months make up the year. */
  lemma MonthsMakeYear(y: int)
    ensures DaysBeforeMonth(y, 12) == if IsLeapYear(y) then 366 else 365
  {
    assert DaysBeforeMonth(y, 1) == 31;
    assert DaysBeforeMonth(y, 2) == 31 + DaysInMonth(y, 1);
    assert DaysBeforeMonth(y, 3) == DaysBeforeMonth(y, 2) + 31;
    assert DaysBeforeMonth(y, 4) == DaysBeforeMonth(y, 3) + 30;
    assert DaysBeforeMonth(y, 5) == DaysBeforeMonth(y, 4) + 31;
    assert DaysBeforeMonth(y, 6) == DaysBeforeMonth(y, 5) + 30;
    assert DaysBeforeMonth(y, 7) == DaysBeforeMonth(y, 6) + 31;
    assert DaysBeforeMonth(y, 8) == DaysBeforeMonth(y, 7) + 31;
    assert DaysBeforeMonth(y, 9) == DaysBeforeMonth(y, 8) + 30;
    assert DaysBeforeMonth(y, 10) == DaysBeforeMonth(y, 9) + 31;
    assert DaysBeforeMonth(y, 11) == DaysBeforeMonth(y, 10) + 30;
    assert DaysBeforeMonth(y, 12) == DaysBeforeMonth(y, 11) + 31;
  }

  /** Days from 1 January of year 0 to the first of month `m` of year `y`. */
  function MonthStart(y: int, m: int): int
    requires 0 <= m < 12
  {
    DaysBeforeYear(y) + DaysBeforeMonth(y, m)
  }

  /** The number of a day: days from 1 January of year 0. */
  function DayNumber(date: Date): int
    requires 0 <= date.month < 12
  {
    MonthStart(date.year, date.month) + date.day - 1
  }

  /** The first of the month after `m` is `DaysInMonth(y, m)` days on. */
  lemma NextMonthNumber(y: int, m: int)
    requires 0 <= m < 12
    ensures var ny, nm := if m == 11 then y + 1 else y, if m == 11 then 0 else m + 1;
            MonthStart(ny, nm) == MonthStart(y, m) + DaysInMonth(y, m)
  {
    if m == 11 {
      MonthsMakeYear(y);
      YearLength(y);
    }
  }

  /** A day before the month is carried into the month before it, whose
      first day is that month's length earlier. */
  lemma CarryBack(y: int, m: int, d: int)
    requires 0 <= m < 12 && d < 1
    ensures var py, pm := if m == 0 then y - 1 else y, if m == 0 then 11 else m - 1;
            && NormalizeDay(y, m, d) == NormalizeDay(py, pm, d + DaysInMonth(py, pm))
            && MonthStart(py, pm) + DaysInMonth(py, pm) == MonthStart(y, m)
  {
    NextMonthNumber(if m == 0 then y - 1 else y, if m == 0 then 11 else m - 1);
  }

  /** A day past the month is carried into the month after it, whose first
      day is this month's length later. */
  lemma CarryForward(y: int, m: int, d: int)
    requires 0 <= m < 12 && d > DaysInMonth(y, m)
    ensures var ny, nm := if m == 11 then y + 1 else y, if m == 11 then 0 else m + 1;
            && NormalizeDay(y, m, d) == NormalizeDay(ny, nm, d - DaysInMonth(y, m))
            && MonthStart(ny, nm) == MonthStart(y, m) + DaysInMonth(y, m)
  {
    NextMonthNumber(y, m);
  }

  /** `NormalizeDay(y, m, d)` is `d - 1` days after the first of month `m`
      of year `y`, however far outside the month `d` lies. */
  lemma {:induction false} NormalizeDayNumber(y: int, m: int, d: int)
    requires 0 <= m < 12
    ensures DayNumber(NormalizeDay(y, m, d)) == MonthStart(y, m) + d - 1
    decreases if d < 1 then 1 else 0, if d < 1 then 1 - d else d
  {
    if d < 1 {
      CarryBack(y, m, d);
      var py, pm := if m == 0 then y - 1 else y, if m == 0 then 11 else m - 1;
      NormalizeDayNumber(py, pm, d + DaysInMonth(py, pm));
    } else if d > DaysInMonth(y, m) {
      CarryForward(y, m, d);
      NormalizeDayNumber(if m == 11 then y + 1 else y, if m == 11 then 0 else m + 1, d - DaysInMonth(y, m));
    }
  }

  /** Later years start later. */
  lemma {:induction false} DaysBeforeYearIncreases(y: int, z: int)
    requires y < z
    ensures DaysBeforeYear(y + 1) <= DaysBeforeYear(z)
    decreases z - y
  {
    if y + 1 < z {
      DaysBeforeYearIncreases(y + 1, z);
      YearLength(y + 1);
    }
  }

  /** Later months of a year start later. */
  lemma {:induction false} DaysBeforeMonthIncreases(y: int, m: int, n: int)
    requires 0 <= m < n <= 12
    ensures DaysBeforeMonth(y, m + 1) <= DaysBeforeMonth(y, n)
    decreases n - m
  {
    if m + 1 < n {
      DaysBeforeMonthIncreases(y, m + 1, n);
    }
  }

  /** The days of a valid date's year all fall within that year's span. */
  lemma WithinYear(date: Date)
    requires ValidDate(date)
    ensures DaysBeforeYear(date.year) <= DayNumber(date) < DaysBeforeYear(date.year + 1)
  {
    if date.month < 11 {
      DaysBeforeMonthIncreases(date.year, date.month, 12);
    }
    MonthsMakeYear(date.year);
    YearLength(date.year);
  }

  /** Different valid dates have different numbers. */
  lemma DayNumberInjective(a: Date, b: Date)
    requires ValidDate(a) && ValidDate(b) && DayNumber(a) == DayNumber(b)
    ensures a == b
  {
    WithinYear(a);
    WithinYear(b);
    if a.year < b.year {
      DaysBeforeYearIncreases(a.year, b.year);
    } else if b.year < a.year {
      DaysBeforeYearIncreases(b.year, a.year);
    }
    assert a.year == b.year;
    if a.month < b.month {
      DaysBeforeMonthIncreases(a.year, a.month, b.month);
    } else if b.month < a.month {
      DaysBeforeMonthIncreases(a.year, b.month, a.month);
    }
  }

  /** So the rollover lands on the one date the calendar has `d - 1` days
      after the first of month `m` of year `y`. */
  lemma NormalizeDayLands(y: int, m: int, d: int, date: Date)
    requires 0 <= m < 12 && ValidDate(date)
    ensures NormalizeDay(y, m, d) == date <==> DayNumber(date) == MonthStart(y, m) + d - 1
  {
    NormalizeDayNumber(y, m, d);
    if DayNumber(date) == MonthStart(y, m) + d - 1 {
      DayNumberInjective(NormalizeDay(y, m, d), date);
    }
  }

  /** `new Date(y, m, d)`, read back through `getFullYear`, `getMonth` and
      `getDate`. The month carries into the year first (`/` and `%` by a
      positive divisor round down), then the day into the months. */
  function MakeDate(y: int, m: int, d: int): (r: Date)
    ensures ValidDate(r)
  {
    NormalizeDay(FullYear(y) + m / 12, m % 12, d)
  }

  /** A date the calendar has, in a year outside 0..99, is built unchanged. */
  lemma MakeDateOfValid(d: Date)
    requires ValidDate(d) && !(0 <= d.year <= 99)
    ensures MakeDate(d.year, d.month, d.day) == d
  {
  }

  /** Whether `new Date(y, m, d)` has exactly the fields it was given: the
      test that rejects dates such as 02/30. */
  predicate Exact(y: int, m: int, d: int) {
    MakeDate(y, m, d) == Date(y, m, d)
  }

  /** The test accepts exactly the dates the calendar has, outside 0..99. */
  lemma ExactIffValid(y: int, m: int, d: int)
    ensures Exact(y, m, d) <==> ValidDate(Date(y, m, d)) && !(0 <= y <= 99)
  {
    if ValidDate(Date(y, m, d)) && !(0 <= y <= 99) {
      MakeDateOfValid(Date(y, m, d));
    }
    if 0 <= y <= 99 && ValidDate(Date(y, m, d)) {
      assert m / 12 == 0 && m % 12 == m;
      assert MakeDate(y, m, d) == NormalizeDay(1900 + y, m, d);
      if d > DaysInMonth(1900 + y, m) {
        assert MakeDate(y, m, d).day == d - DaysInMonth(1900 + y, m);
      } else {
        assert MakeDate(y, m, d).year == 1900 + y;
      }
    }
  }

  /** The first day of the month after the given month. */
  lemma NextMonthStart(y: int, m: int)
    requires 0 <= m < 12 && !(0 <= y <= 99)
    ensures m < 11 ==> MakeDate(y, m + 1, 1) == Date(y, m + 1, 1)
    ensures m == 11 ==> MakeDate(y, m + 1, 1) == Date(y + 1, 0, 1)
  {
    if m == 11 {
      assert (m + 1) / 12 == 1 && (m + 1) % 12 == 0;
    } else {
      assert (m + 1) / 12 == 0 && (m + 1) % 12 == m + 1;
    }
  }

  /** The first day of the month before the given month. */
  lemma PreviousMonthStart(y: int, m: int)
    requires 0 <= m < 12 && !(0 <= y <= 99)
    ensures m > 0 ==> MakeDate(y, m - 1, 1) == Date(y, m - 1, 1)
    ensures m == 0 ==> MakeDate(y, m - 1, 1) == Date(y - 1, 11, 1)
  {
    if m == 0 {
      assert (m - 1) / 12 == -1 && (m - 1) % 12 == 11;
    } else {
      assert (m - 1) / 12 == 0 && (m - 1) % 12 == m - 1;
    }
  }

  /** 2024 is a leap year and 2023 is not: 02/29 exists only in the first. */
  lemma LeapDay()
    ensures Exact(2024, 1, 29)
    ensures !Exact(2023, 1, 29) && MakeDate(2023, 1, 29) == Date(2023, 2, 1)
    ensures !Exact(2024, 1, 30) && MakeDate(2024, 1, 30) == Date(2024, 2, 1)
  {
    assert IsLeapYear(2024) && !IsLeapYear(2023);
    assert 1 / 12 == 0 && 1 % 12 == 1;
    assert MakeDate(2023, 1, 29) == NormalizeDay(2023, 2, 1);
    assert MakeDate(2024, 1, 30) == NormalizeDay(2024, 2, 1);
  }
}
