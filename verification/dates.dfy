/** Calendar arithmetic on day numbers: a day is the number of days since
    1970-01-01 in the proleptic Gregorian calendar, negative before it.  This
    is the day part of an ECMAScript time value, and `MakeDay` is the
    ECMAScript operation `Date.UTC` and `new Date(y, m, d)` are built on. */
module Dates {

  /** A calendar date: `month` counts from 1, as in an iCalendar token. */
  datatype Civil = Civil(year: int, month: int, day: int)

  predicate IsLeapYear(y: int) {
    y % 4 == 0 && (y % 100 != 0 || y % 400 == 0)
  }

  function DaysInYear(y: int): int {
    if IsLeapYear(y) then 366 else 365
  }

  function DaysInMonth(y: int, m: int): (n: int)
    requires 1 <= m <= 12
    ensures 28 <= n <= 31
    ensures n == 29 <==> m == 2 && IsLeapYear(y)
  {
    if m == 2 then (if IsLeapYear(y) then 29 else 28)
    else if m == 4 || m == 6 || m == 9 || m == 11 then 30
    else 31
  }

  predicate ValidCivil(c: Civil) {
    1 <= c.month <= 12 && 1 <= c.day <= DaysInMonth(c.year, c.month)
  }

  /** The number of leap years among 1..y (extended to all integers). */
  function LeapYearsThrough(y: int): int {
    y / 4 - y / 100 + y / 400
  }

  /** The day number of January 1 of `y`: the lengths of the years from 1970
      up to `y`, or minus those from `y` up to 1970. */
  function DaysBeforeYear(y: int): int
    decreases if y < 1970 then 1970 - y else y - 1970
  {
    if y == 1970 then 0
    else if y > 1970 then DaysBeforeYear(y - 1) + DaysInYear(y - 1)
    else DaysBeforeYear(y + 1) - DaysInYear(y)
  }

  /** Days of `y` before the first of month `m`. */
  function DaysBeforeMonth(y: int, m: int): (n: int)
    requires 1 <= m <= 12
    ensures 0 <= n && n + DaysInMonth(y, m) <= DaysInYear(y)
    ensures m == 1 ==> n == 0
    ensures m == 12 ==> n + DaysInMonth(y, m) == DaysInYear(y)
  {
    var leap := if m > 2 && IsLeapYear(y) then 1 else 0;
    leap +
      if m == 1 then 0 else if m == 2 then 31 else if m == 3 then 59 else if m == 4 then 90
      else if m == 5 then 120 else if m == 6 then 151 else if m == 7 then 181
      else if m == 8 then 212 else if m == 9 then 243 else if m == 10 then 273
      else if m == 11 then 304 else 334
  }

  /** Each month starts where the one before it ends. */
  lemma MonthStep(y: int, m: int)
    requires 1 <= m < 12
    ensures DaysBeforeMonth(y, m) + DaysInMonth(y, m) == DaysBeforeMonth(y, m + 1)
  {
  }

  /** The day number of a date whose month is in range; the day of the month
      may run past either end of the month. */
  function DaysFromCivil(c: Civil): int
    requires 1 <= c.month <= 12
  {
    DaysBeforeYear(c.year) + DaysBeforeMonth(c.year, c.month) + c.day - 1
  }

  // ---------------------------------------------------------------------------
  // Years
  // ---------------------------------------------------------------------------

  /** A year adds one leap day exactly when it is a leap year. */
  lemma LeapStep(y: int)
    ensures LeapYearsThrough(y) - LeapYearsThrough(y - 1) == if IsLeapYear(y) then 1 else 0
  {
    DivStep(y, 4);
    DivStep(y, 100);
    DivStep(y, 400);
    if y % 400 == 0 {
      var k := y / 400;
      assert y == 100 * (4 * k);
      DivExact(y, 100, 4 * k);
      assert y == 4 * (100 * k);
      DivExact(y, 4, 100 * k);
    } else if y % 100 == 0 {
      var k := y / 100;
      assert y == 4 * (25 * k);
      DivExact(y, 4, 25 * k);
    }
  }

  /** A multiple of `d` leaves no remainder. */
  lemma DivExact(y: int, d: int, k: int)
    requires d > 0 && y == d * k
    ensures y % d == 0
  {
    var q, r := y / d, y % d;
    assert y == d * q + r && 0 <= r < d;
    assert d * (k - q) == r;
    MultipleBounds(d, k - q);
  }

  /** Floor division by `d` steps up by one exactly at the multiples of `d`. */
  lemma DivStep(y: int, d: int)
    requires d > 0
    ensures y / d - (y - 1) / d == if y % d == 0 then 1 else 0
  {
    var q, r := (y - 1) / d, (y - 1) % d;
    assert y - 1 == d * q + r && 0 <= r < d;
    if r + 1 < d {
      DivUnique(y, d, q, r + 1);
    } else {
      assert y == d * (q + 1);
      DivUnique(y, d, q + 1, 0);
    }
  }

  lemma DivUnique(y: int, d: int, q: int, r: int)
    requires d > 0 && y == d * q + r && 0 <= r < d
    ensures y / d == q && y % d == r
  {
    var q', r' := y / d, y % d;
    assert y == d * q' + r' && 0 <= r' < d;
    assert d * (q - q') == r' - r;
    MultipleBounds(d, q - q');
  }

  /** A non-zero multiple of `d` is at least `d` away from zero. */
  lemma MultipleBounds(d: int, t: int)
    requires d > 0
    ensures t >= 1 ==> d * t >= d
    ensures t <= -1 ==> d * t <= -d
  {
    if t >= 1 {
      assert d * t == d + d * (t - 1);
    } else if t <= -1 {
      assert d * t == -d + d * (t + 1);
    }
  }

  lemma YearLength(y: int)
    ensures DaysBeforeYear(y + 1) == DaysBeforeYear(y) + DaysInYear(y)
  {
  }

  /** The closed form: 365 days a year plus one per leap year since 1970. */
  lemma {:induction false} DaysBeforeYearFormula(y: int)
    ensures DaysBeforeYear(y) == 365 * (y - 1970) + LeapYearsThrough(y - 1) - LeapYearsThrough(1969)
    decreases if y < 1970 then 1970 - y else y - 1970
  {
    if y > 1970 {
      DaysBeforeYearFormula(y - 1);
      LeapStep(y - 1);
    } else if y < 1970 {
      DaysBeforeYearFormula(y + 1);
      LeapStep(y);
    }
  }

  /** Later years start later, by at least 365 days a year. */
  lemma {:induction false} YearsIncrease(a: int, b: int)
    requires a <= b
    ensures DaysBeforeYear(a) + 365 * (b - a) <= DaysBeforeYear(b)
    decreases b - a
  {
    if a < b {
      YearsIncrease(a, b - 1);
      YearLength(b - 1);
    }
  }

  predicate InYear(n: int, y: int) {
    DaysBeforeYear(y) <= n < DaysBeforeYear(y + 1)
  }

  /** Every day lies in exactly one year. */
  lemma YearUnique(n: int, y1: int, y2: int)
    requires InYear(n, y1) && InYear(n, y2)
    ensures y1 == y2
  {
    if y1 < y2 {
      YearsIncrease(y1 + 1, y2);
    } else if y2 < y1 {
      YearsIncrease(y2 + 1, y1);
    }
  }

  function YearUp(n: int, y: int): (r: int)
    requires DaysBeforeYear(y) <= n
    ensures InYear(n, r)
    decreases n - DaysBeforeYear(y)
  {
    YearLength(y);
    if n < DaysBeforeYear(y + 1) then y else YearUp(n, y + 1)
  }

  function YearDown(n: int, y: int): (r: int)
    requires n < DaysBeforeYear(y + 1)
    ensures InYear(n, r)
    decreases DaysBeforeYear(y + 1) - n
  {
    YearLength(y);
    if DaysBeforeYear(y) <= n then y else YearDown(n, y - 1)
  }

  /** The year day `n` falls in. */
  function YearOf(n: int): (y: int)
    ensures InYear(n, y)
  {
    if n >= 0 then YearUp(n, 1970) else YearDown(n, 1969)
  }

  // ---------------------------------------------------------------------------
  // Months
  // ---------------------------------------------------------------------------

  predicate InMonth(y: int, r: int, m: int)
    requires 1 <= m <= 12
  {
    DaysBeforeMonth(y, m) <= r < DaysBeforeMonth(y, m) + DaysInMonth(y, m)
  }

  lemma {:induction false} MonthsIncrease(y: int, a: int, b: int)
    requires 1 <= a < b <= 12
    ensures DaysBeforeMonth(y, a) + DaysInMonth(y, a) <= DaysBeforeMonth(y, b)
    decreases b - a
  {
    MonthStep(y, a);
    if a + 1 < b {
      MonthsIncrease(y, a + 1, b);
    }
  }

  lemma MonthUnique(y: int, r: int, a: int, b: int)
    requires 1 <= a <= 12 && 1 <= b <= 12
    requires InMonth(y, r, a) && InMonth(y, r, b)
    ensures a == b
  {
    if a < b {
      MonthsIncrease(y, a, b);
    } else if b < a {
      MonthsIncrease(y, b, a);
    }
  }

  /** The month holding day `r` of the year, searching down from `m`. */
  function MonthFrom(y: int, r: int, m: int): (res: int)
    requires 1 <= m <= 12 && 0 <= r < DaysBeforeMonth(y, m) + DaysInMonth(y, m)
    ensures 1 <= res <= m && InMonth(y, r, res)
    decreases m
  {
    if DaysBeforeMonth(y, m) <= r then m
    else
      MonthStep(y, m - 1);
      MonthFrom(y, r, m - 1)
  }

  // ---------------------------------------------------------------------------
  // Day numbers and dates
  // ---------------------------------------------------------------------------

  /** The date of day `n`. */
  function CivilFromDays(n: int): (c: Civil)
    ensures ValidCivil(c) && DaysFromCivil(c) == n
  {
    var y := YearOf(n);
    YearLength(y);
    var r := n - DaysBeforeYear(y);
    var m := MonthFrom(y, r, 12);
    Civil(y, m, r - DaysBeforeMonth(y, m) + 1)
  }

  /** A valid date survives the trip to a day number and back. */
  lemma CivilRoundTrip(c: Civil)
    requires ValidCivil(c)
    ensures CivilFromDays(DaysFromCivil(c)) == c
  {
    var n := DaysFromCivil(c);
    var d := CivilFromDays(n);
    YearLength(c.year);
    YearUnique(n, c.year, d.year);
    MonthUnique(c.year, n - DaysBeforeYear(c.year), c.month, d.month);
  }

  /** Distinct valid dates have distinct day numbers. */
  lemma DaysFromCivilInjective(a: Civil, b: Civil)
    requires ValidCivil(a) && ValidCivil(b) && DaysFromCivil(a) == DaysFromCivil(b)
    ensures a == b
  {
    CivilRoundTrip(a);
    CivilRoundTrip(b);
  }

  /** The day after the last of a month is the first of the next month, and
      the day after December 31 is January 1. */
  lemma MonthAfter(y: int, m: int)
    requires 1 <= m <= 12
    ensures var next := if m == 12 then Civil(y + 1, 1, 1) else Civil(y, m + 1, 1);
      DaysFromCivil(next) == DaysFromCivil(Civil(y, m, DaysInMonth(y, m))) + 1
  {
    YearLength(y);
  }

  // ---------------------------------------------------------------------------
  // Weekdays
  // ---------------------------------------------------------------------------

  /** The weekday of day `n`, 0 for Sunday through 6 for Saturday; day 0 was
      a Thursday. */
  function Weekday(n: int): (w: int)
    ensures 0 <= w < 7
  {
    (n + 4) % 7
  }

  /** Weekdays advance by one each day and repeat every seven. */
  lemma WeekdayNext(n: int)
    ensures Weekday(n + 1) == (Weekday(n) + 1) % 7
    ensures Weekday(n + 7) == Weekday(n)
  {
  }

  /** 7 January 2024 was a Sunday, so 7 to 13 January 2024 run from weekday 0
      (Sunday) to weekday 6 (Saturday). */
  lemma {:induction false} KnownWeek(k: int)
    requires 0 <= k < 7
    ensures Weekday(DaysFromCivil(Civil(2024, 1, 7 + k))) == k
  {
    DaysBeforeYearFormula(2024);
    assert LeapYearsThrough(2023) == 490;
    assert LeapYearsThrough(1969) == 477;
  }

  // ---------------------------------------------------------------------------
  // ECMAScript dates
  // ---------------------------------------------------------------------------

  /** The year `Date.UTC` and `new Date(y, m, d)` use: 0 through 99 stand for
      1900 through 1999. */
  function FullYear(y: int): (r: int)
    ensures 0 <= y <= 99 ==> r == 1900 + y
    ensures !(0 <= y <= 99) ==> r == y
  {
    if 0 <= y <= 99 then 1900 + y else y
  }

  /** ECMAScript MakeDay: the month counts from 0 and overflows into the year
      (by floor division), and the day of the month may be out of range. */
  function MakeDay(year: int, month0: int, date: int): (n: int)
  {
    FirstOfMonth(year + month0 / 12, month0 % 12) + date - 1
  }

  /** The day number of the first of month `m0` (counted from 0) of `y`. */
  function FirstOfMonth(y: int, m0: int): int
    requires 0 <= m0 <= 11
  {
    DaysFromCivil(Civil(y, m0 + 1, 1))
  }

  /** An in-range month and day make the day number of that very date. */
  lemma MakeDayOfDate(year: int, month0: int, date: int)
    requires 0 <= month0 <= 11 && 1 <= date <= DaysInMonth(year, month0 + 1)
    ensures CivilFromDays(MakeDay(year, month0, date)) == Civil(year, month0 + 1, date)
  {
    MakeDayInYear(year, month0, date);
    CivilRoundTrip(Civil(year, month0 + 1, date));
  }

  /** With the month in range, `MakeDay` is the day number of the date, even
      when the day runs past the month. */
  lemma MakeDayInYear(year: int, month0: int, date: int)
    requires 0 <= month0 <= 11
    ensures MakeDay(year, month0, date) == DaysFromCivil(Civil(year, month0 + 1, date))
  {
    DivUnique(month0, 12, 0, month0);
  }

  /** Overflowing months carry into the year; days shift the day number one
      for one. */
  lemma MakeDayCarries(year: int, month0: int, date: int)
    ensures MakeDay(year, month0 + 12, date) == MakeDay(year + 1, month0, date)
    ensures MakeDay(year, month0 - 12, date) == MakeDay(year - 1, month0, date)
    ensures MakeDay(year, month0, date + 1) == MakeDay(year, month0, date) + 1
  {
    MonthCarry(year, month0, date);
    MonthCarry(year - 1, month0 - 12, date);
  }

  /** Within one month argument, day numbers move with the date. */
  lemma DayShift(year: int, month0: int, a: int, b: int)
    ensures MakeDay(year, month0, b) == MakeDay(year, month0, a) + (b - a)
  {
  }

  lemma MonthCarry(year: int, month0: int, date: int)
    ensures MakeDay(year, month0 + 12, date) == MakeDay(year + 1, month0, date)
  {
    DivUnique(month0 + 12, 12, month0 / 12 + 1, month0 % 12);
  }

  /** Day 0 of the next month is the last day of this one, the idiom
      `new Date(year, month + 1, 0)`. */
  lemma DayZeroIsLastOfPreviousMonth(year: int, month0: int)
    requires 0 <= month0 <= 11
    ensures MakeDay(year, month0 + 1, 0) == MakeDay(year, month0, DaysInMonth(year, month0 + 1))
  {
    if month0 == 11 {
      DayZeroOfDecember(year);
    } else {
      DayZeroWithinYear(year, month0);
    }
  }

  lemma DayZeroWithinYear(year: int, month0: int)
    requires 0 <= month0 < 11
    ensures MakeDay(year, month0 + 1, 0) == MakeDay(year, month0, DaysInMonth(year, month0 + 1))
  {
    MonthAfter(year, month0 + 1);
    MakeDayInYear(year, month0, DaysInMonth(year, month0 + 1));
    MakeDayInYear(year, month0 + 1, 0);
  }

  lemma DayZeroOfDecember(year: int)
    ensures MakeDay(year, 12, 0) == MakeDay(year, 11, 31)
  {
    assert DaysInMonth(year, 12) == 31;
    MonthAfter(year, 12);
    assert DaysFromCivil(Civil(year + 1, 1, 1)) == DaysFromCivil(Civil(year, 12, 31)) + 1;
    MakeDayInYear(year, 11, 31);
    assert MakeDay(year, 11, 31) == DaysFromCivil(Civil(year, 12, 31));
    DayZeroOfJanuary(year);
    assert MakeDay(year, 12, 0) == DaysFromCivil(Civil(year + 1, 1, 1)) - 1;
  }

  lemma DayZeroOfJanuary(year: int)
    ensures MakeDay(year, 12, 0) == DaysFromCivil(Civil(year + 1, 1, 1)) - 1
  {
    DivUnique(12, 12, 1, 0);
  }
}
