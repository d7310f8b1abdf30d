/** Whole-day calendar arithmetic behind the viewer's JavaScript `Date`
    values: the proleptic Gregorian calendar, the day-of-month normalisation
    `new Date(y, m, d)` and `setDate` perform, and `addDays`. */
module Calendar {

  /** A civil day. Years are astronomical (year 0 is 1 BCE); `month` runs
      1..12, that is the JavaScript month index plus one. */
  datatype Date = Date(year: int, month: int, day: int)

  predicate IsLeapYear(y: int) {
    y % 4 == 0 && (y % 100 != 0 || y % 400 == 0)
  }

  function DaysInMonth(y: int, m: int): (n: int)
    requires 1 <= m <= 12
    ensures 28 <= n <= 31
    ensures n == 29 <==> m == 2 && IsLeapYear(y)
  {
    if m == 2 then (if IsLeapYear(y) then 29 else 28)
    else if m == 4 || m == 6 || m == 9 || m == 11 then 30
    else 31
  }

  function DaysInYear(y: int): int {
    if IsLeapYear(y) then 366 else 365
  }

  /** A day that exists in the calendar. */
  predicate Valid(d: Date) {
    1 <= d.month <= 12 && 1 <= d.day <= DaysInMonth(d.year, d.month)
  }

  /** Days from 0000-01-01 to the first of January of year `y`: 365 per year
      plus one per leap year in between, counted in closed form. */
  function DaysBeforeYear(y: int): int {
    365 * y + (y + 3) / 4 - (y + 99) / 100 + (y + 399) / 400
  }

  /** Days from the first of January to the first of month `m`, from a table
      of common-year offsets. */
  function DaysBeforeMonth(y: int, m: int): int
    requires 1 <= m <= 12
  {
    [0, 31, 59, 90, 120, 151, 181, 212, 243, 273, 304, 334][m - 1]
      + (if m > 2 && IsLeapYear(y) then 1 else 0)
  }

  /** The serial number of a day, counted from 0000-01-01; the reference every
      ordering and arithmetic property below is stated against. */
  function DayNumber(d: Date): int
    requires Valid(d)
  {
    DaysBeforeYear(d.year) + DaysBeforeMonth(d.year, d.month) + d.day - 1
  }

  /** Chronological order: earlier year, else earlier month, else earlier day.
      This is what `<` on two midnight `Date` values decides. */
  predicate Before(a: Date, b: Date) {
    a.year < b.year
    || (a.year == b.year && (a.month < b.month || (a.month == b.month && a.day < b.day)))
  }

  /** The following day. */
  function Next(d: Date): (r: Date)
    requires Valid(d)
    ensures Valid(r) && DayNumber(r) == DayNumber(d) + 1
  {
    if d.day < DaysInMonth(d.year, d.month) then
      Date(d.year, d.month, d.day + 1)
    else if d.month < 12 then
      MonthLength(d.year, d.month);
      Date(d.year, d.month + 1, 1)
    else
      YearLength(d.year);
      Date(d.year + 1, 1, 1)
  }

  /** The preceding day. */
  function Prev(d: Date): (r: Date)
    requires Valid(d)
    ensures Valid(r) && DayNumber(r) == DayNumber(d) - 1
  {
    if d.day > 1 then
      Date(d.year, d.month, d.day - 1)
    else if d.month > 1 then
      MonthLength(d.year, d.month - 1);
      Date(d.year, d.month - 1, DaysInMonth(d.year, d.month - 1))
    else
      YearLength(d.year - 1);
      Date(d.year - 1, 12, 31)
  }

  /** The day `n` days after `d` (before it when `n` is negative), one day
      at a time. */
  function Shift(d: Date, n: int): (r: Date)
    requires Valid(d)
    ensures Valid(r) && DayNumber(r) == DayNumber(d) + n
    decreases if n < 0 then -n else n
  {
    if n == 0 then d
    else if n > 0 then Shift(Next(d), n - 1)
    else Shift(Prev(d), n + 1)
  }

  /** The day that JavaScript's `MakeDay(y, mi, dt)` denotes: month index
      `mi` may lie outside 0..11 and carries into the year; day of month
      `dt` may lie outside the month and counts from the first of it. */
  function Normalize(y: int, mi: int, dt: int): (r: Date)
    ensures Valid(r)
    ensures 0 <= mi < 12 && 1 <= dt <= DaysInMonth(y, mi + 1) ==> r == Date(y, mi + 1, dt)
  {
    var r := Shift(MonthStart(y, mi), dt - 1);
    assert 0 <= mi < 12 && 1 <= dt <= DaysInMonth(y, mi + 1) ==> r == Date(y, mi + 1, dt) by {
      if 0 <= mi < 12 && 1 <= dt <= DaysInMonth(y, mi + 1) {
        assert MonthStart(y, mi) == Date(y, mi + 1, 1);
        DayNumberInjective(r, Date(y, mi + 1, dt));
      }
    }
    r
  }

  /** The first day of month index `mi` counted from January of year `y`. */
  function MonthStart(y: int, mi: int): (r: Date)
    ensures Valid(r)
  {
    Date(y + mi / 12, mi % 12 + 1, 1)
  }

  /** `MakeDay(y, mi, dt)` lies `dt - 1` days after the first of the month
      that `mi` names, whichever month and day it is given. */
  lemma NormalizeCounts(y: int, mi: int, dt: int)
    ensures DayNumber(Normalize(y, mi, dt)) == DayNumber(MonthStart(y, mi)) + dt - 1
  {
  }

  /** `new Date(y, mi, dt)` (at midnight): as `Normalize`, except that the
      constructor reads a year 0..99 as 1900..1999. */
  function NewDate(y: int, mi: int, dt: int): (r: Date)
    ensures Valid(r)
    ensures (y < 0 || 99 < y) && 0 <= mi < 12 && 1 <= dt <= DaysInMonth(y, mi + 1) ==>
              r == Date(y, mi + 1, dt)
    ensures 0 <= y <= 99 && 0 <= mi < 12 && 1 <= dt <= DaysInMonth(1900 + y, mi + 1) ==>
              r == Date(1900 + y, mi + 1, dt)
  {
    if 0 <= y <= 99 then
      Normalize(1900 + y, mi, dt)
    else
      Normalize(y, mi, dt)
  }

  /** `addDays(date, days)`: a copy of `date` whose day of month is moved by
      `days` through `setDate`, which normalises like `MakeDay` and, unlike
      the constructor, keeps two-digit years as they are. */
  function AddDays(d: Date, n: int): (r: Date)
    requires Valid(d)
    ensures Valid(r) && DayNumber(r) == DayNumber(d) + n
  {
    assert MonthStart(d.year, d.month - 1) == Date(d.year, d.month, 1);
    NormalizeCounts(d.year, d.month - 1, d.day + n);
    Normalize(d.year, d.month - 1, d.day + n)
  }

  // ---- the serial number is an order isomorphism ----

  /** A year holds as many days as its months together, and the next year
      starts that many days later. */
  lemma YearLength(y: int)
    ensures DaysBeforeYear(y + 1) == DaysBeforeYear(y) + DaysInYear(y)
    ensures DaysBeforeMonth(y, 12) + 31 == DaysInYear(y)
  {
    var a := (y + 4) / 4 - (y + 3) / 4;
    var b := (y + 100) / 100 - (y + 99) / 100;
    var c := (y + 400) / 400 - (y + 399) / 400;
    assert DaysBeforeYear(y + 1) == DaysBeforeYear(y) + 365 + a - b + c;
    StepCount4(y);
    StepCount100(y);
    StepCount400(y);
    LeapDivisors(y);
  }

  lemma LeapDivisors(y: int)
    ensures y % 400 == 0 ==> y % 100 == 0
    ensures y % 100 == 0 ==> y % 4 == 0
  {
    if y % 400 == 0 {
      assert y == 400 * (y / 400);
      TimesFour(y / 400);
    }
    if y % 100 == 0 {
      assert y == 100 * (y / 100);
      TimesTwentyFive(y / 100);
    }
  }

  lemma TimesFour(q: int)
    ensures (400 * q) % 100 == 0
  {
    assert 400 * q == 100 * (4 * q);
  }

  lemma TimesTwentyFive(q: int)
    ensures (100 * q) % 4 == 0
  {
    assert 100 * q == 4 * (25 * q);
  }

  /** `(y + 4) / 4` exceeds `(y + 3) / 4` exactly when 4 divides `y`; the
      same holds for 100 and 400. */
  lemma StepCount4(y: int)
    ensures (y + 4) / 4 - (y + 3) / 4 == if y % 4 == 0 then 1 else 0
  {
  }

  lemma StepCount100(y: int)
    ensures (y + 100) / 100 - (y + 99) / 100 == if y % 100 == 0 then 1 else 0
  {
  }

  lemma StepCount400(y: int)
    ensures (y + 400) / 400 - (y + 399) / 400 == if y % 400 == 0 then 1 else 0
  {
  }

  lemma MonthLength(y: int, m: int)
    requires 1 <= m < 12
    ensures DaysBeforeMonth(y, m + 1) == DaysBeforeMonth(y, m) + DaysInMonth(y, m)
  {
  }

  /** A day's serial number lies within its year. */
  lemma WithinYear(d: Date)
    requires Valid(d)
    ensures DaysBeforeYear(d.year) <= DayNumber(d) < DaysBeforeYear(d.year) + DaysInYear(d.year)
  {
    YearLength(d.year);
  }

  lemma {:induction false} YearsAscend(y: int, z: int)
    requires y < z
    ensures DaysBeforeYear(y) + DaysInYear(y) <= DaysBeforeYear(z)
    decreases z - y
  {
    YearLength(y);
    if y + 1 < z {
      YearsAscend(y + 1, z);
      YearLength(y + 1);
    }
  }

  /** Chronological order is the order of serial numbers. */
  lemma BeforeIffEarlier(a: Date, b: Date)
    requires Valid(a) && Valid(b)
    ensures Before(a, b) <==> DayNumber(a) < DayNumber(b)
  {
    if a.year < b.year {
      WithinYear(a);
      WithinYear(b);
      YearsAscend(a.year, b.year);
    } else if b.year < a.year {
      WithinYear(a);
      WithinYear(b);
      YearsAscend(b.year, a.year);
    } else if a.month < b.month {
      MonthsAscend(a.year, a.month, b.month);
    } else if b.month < a.month {
      MonthsAscend(a.year, b.month, a.month);
    }
  }

  lemma MonthsAscend(y: int, m: int, n: int)
    requires 1 <= m < n <= 12
    ensures DaysBeforeMonth(y, m) + DaysInMonth(y, m) <= DaysBeforeMonth(y, n)
  {
  }

  /** Of two different days one is before the other. */
  lemma BeforeTotal(a: Date, b: Date)
    ensures a == b || Before(a, b) || Before(b, a)
    ensures !(Before(a, b) && Before(b, a))
  {
  }

  lemma BeforeTransitive(a: Date, b: Date, c: Date)
    ensures Before(a, b) && Before(b, c) ==> Before(a, c)
    ensures !Before(b, a) && !Before(c, b) ==> !Before(c, a)
  {
  }

  /** Two days with the same serial number are the same day. */
  lemma DayNumberInjective(a: Date, b: Date)
    requires Valid(a) && Valid(b) && DayNumber(a) == DayNumber(b)
    ensures a == b
  {
    BeforeIffEarlier(a, b);
    BeforeIffEarlier(b, a);
  }

  // ---- properties of day arithmetic ----

  /** Stepping forward then back, or back then forward, returns to the same day. */
  lemma NextPrevInverse(d: Date)
    requires Valid(d)
    ensures Prev(Next(d)) == d && Next(Prev(d)) == d
  {
    DayNumberInjective(Prev(Next(d)), d);
    DayNumberInjective(Next(Prev(d)), d);
  }

  /** `addDays(d, 0)` is `d`. */
  lemma AddDaysZero(d: Date)
    requires Valid(d)
    ensures AddDays(d, 0) == d
  {
    DayNumberInjective(AddDays(d, 0), d);
  }

  /** `addDays(addDays(d, n), -n)` is `d` again. */
  lemma AddDaysInverse(d: Date, n: int)
    requires Valid(d)
    ensures AddDays(AddDays(d, n), -n) == d
  {
    DayNumberInjective(AddDays(AddDays(d, n), -n), d);
  }

  /** Two shifts make one: moving `m` days then `n` days is moving `m + n`. */
  lemma AddDaysAdd(d: Date, m: int, n: int)
    requires Valid(d)
    ensures AddDays(AddDays(d, m), n) == AddDays(d, m + n)
  {
    DayNumberInjective(AddDays(AddDays(d, m), n), AddDays(d, m + n));
  }

  /** A shift by one day is the calendar successor or predecessor, which
      rolls over month and year ends. */
  lemma AddDaysOne(d: Date)
    requires Valid(d)
    ensures AddDays(d, 1) == Next(d) && AddDays(d, -1) == Prev(d)
  {
    DayNumberInjective(AddDays(d, 1), Next(d));
    DayNumberInjective(AddDays(d, -1), Prev(d));
  }

  /** Moving `k - 1` days on from the next day is moving `k` days. */
  lemma AddDaysFromNext(d: Date, k: int)
    requires Valid(d)
    ensures AddDays(Next(d), k - 1) == AddDays(d, k)
  {
    AddDaysOne(d);
    AddDaysAdd(d, 1, k - 1);
  }

  /** The day reached is later than `d` exactly when `n` is positive. */
  lemma AddDaysLater(d: Date, n: int)
    requires Valid(d)
    ensures Before(d, AddDays(d, n)) <==> n > 0
  {
    BeforeIffEarlier(d, AddDays(d, n));
  }

  /** Every day is reached from `d` by shifting it by the difference of
      their serial numbers. */
  lemma AddDaysReaches(d: Date, e: Date)
    requires Valid(d) && Valid(e)
    ensures AddDays(d, DayNumber(e) - DayNumber(d)) == e
  {
    DayNumberInjective(AddDays(d, DayNumber(e) - DayNumber(d)), e);
  }

  /** Month and year ends, including the 29th of February of leap years. */
  lemma RolloverExamples()
    ensures Next(Date(2024, 2, 28)) == Date(2024, 2, 29)
    ensures Next(Date(2024, 2, 29)) == Date(2024, 3, 1)
    ensures Next(Date(2026, 2, 28)) == Date(2026, 3, 1)
    ensures Next(Date(1900, 2, 28)) == Date(1900, 3, 1)
    ensures Next(Date(2000, 2, 28)) == Date(2000, 2, 29)
    ensures Next(Date(2026, 4, 30)) == Date(2026, 5, 1)
    ensures Next(Date(2026, 12, 31)) == Date(2027, 1, 1)
    ensures Prev(Date(2027, 1, 1)) == Date(2026, 12, 31)
    ensures Prev(Date(2024, 3, 1)) == Date(2024, 2, 29)
  {
  }
}
