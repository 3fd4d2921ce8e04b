/**
 * Gregorian calendar arithmetic as the widget obtains it from JavaScript's
 * Date object in local time: the day-number encoding, week days and the
 * normalisation that the Date constructor and the setters perform
 * (the abstract operations DayFromYear, DaysInYear, MakeDay, WeekDay and
 * DateFromTime of section 21.4.1 of ECMA-262).
 *
 * A calendar day is a value `Date(year, month, day)` with month 0..11, as
 * getFullYear, getMonth and getDate report it. Every JavaScript operation
 * that builds or moves a date is modelled by a function returning the
 * valid date whose day number equals what MakeDay computes; since
 * `DayNumber` is injective on valid dates (DayNumberInjective), that is
 * exactly the date DateFromTime would give back. Two limits apply: the
 * model's integers are unbounded, whereas a time value beyond 8.64e15 ms
 * makes the Date object hold NaN (section 21.4.1.1 of ECMA-262); and the
 * Date constructor reads a year 0 to 99 as 1900 to 1999 (section 21.4.2.1),
 * which these functions do not do (see Grid.GridStartAsWritten).
 */
module Dates {

  datatype Date = Date(year: int, month: int, day: int) {
    /** The dates a Date object can report: month 0..11, day within the month. */
    predicate Valid() {
      0 <= month < 12 && 1 <= day <= DaysInMonth(year, month)
    }
  }

  /** Week days as Date.prototype.getDay numbers them. */
  const SUNDAY := 0
  const MONDAY := 1

  predicate IsLeapYear(y: int) {
    y % 4 == 0 && (y % 100 != 0 || y % 400 == 0)
  }

  function DaysInYear(y: int): (n: int)
    ensures n == 366 <==> IsLeapYear(y)
    ensures n == 365 <==> !IsLeapYear(y)
  {
    if IsLeapYear(y) then 366 else 365
  }

  function DaysInMonth(y: int, m: int): (n: int)
    requires 0 <= m < 12
    ensures 28 <= n <= 31
    ensures n == 29 <==> m == 1 && IsLeapYear(y)
  {
    if m == 1 then (if IsLeapYear(y) then 29 else 28)
    else if m == 3 || m == 5 || m == 8 || m == 10 then 30
    else 31
  }

  /** Days of year y that come before month m; month 12 stands for the whole year. */
  function DaysBeforeMonth(y: int, m: int): (n: int)
    requires 0 <= m <= 12
    ensures 0 <= n <= 31 * m
    ensures m == 0 ==> n == 0
  {
    if m == 0 then 0 else DaysBeforeMonth(y, m - 1) + DaysInMonth(y, m - 1)
  }

  /**
   * The day number of January 1 of year y (day 0 is 1 January 1970), counted
   * year by year; DayFromYearFormula shows it equals ECMA-262's DayFromYear.
   */
  function DayFromYear(y: int): int
    decreases if y < 1970 then 1970 - y else y - 1970
  {
    if y == 1970 then 0
    else if y > 1970 then DayFromYear(y - 1) + DaysInYear(y - 1)
    else DayFromYear(y + 1) - DaysInYear(y)
  }

  /**
   * MakeDay(year, month, date): month may lie outside 0..11 and date outside the
   * month; the excess carries into the year and into the following days.
   */
  function MakeDay(y: int, m: int, dt: int): int {
    var ym := y + m / 12;
    var mn := m % 12;
    DayFromYear(ym) + DaysBeforeMonth(ym, mn) + dt - 1
  }

  /** The day number of a valid date. */
  function DayNumber(d: Date): int
    requires d.Valid()
  {
    DayFromYear(d.year) + DaysBeforeMonth(d.year, d.month) + d.day - 1
  }

  /** WeekDay: 0 is Sunday; 1 January 1970 was a Thursday. */
  function WeekDay(n: int): (w: int)
    ensures 0 <= w < 7
    ensures n == 0 ==> w == 4
  {
    (n + 4) % 7
  }

  function WeekDayOf(d: Date): (w: int)
    requires d.Valid()
    ensures 0 <= w < 7
  {
    WeekDay(DayNumber(d))
  }

  /** A year contributes DaysInYear days to the day count. */
  lemma DayFromYearStep(y: int)
    ensures DayFromYear(y + 1) == DayFromYear(y) + DaysInYear(y)
  {
  }

  /** DayFromYear as section 21.4.1.3 of ECMA-262 writes it, with floor divisions. */
  function EcmaDayFromYear(y: int): int {
    365 * (y - 1970) + (y - 1969) / 4 - (y - 1901) / 100 + (y - 1601) / 400
  }

  /** The three floor-division terms each grow by one at their multiples. */
  lemma Quadrennial(y: int)
    ensures (y - 1968) / 4 == (y - 1969) / 4 + (if y % 4 == 0 then 1 else 0)
  {
  }

  lemma Centennial(y: int)
    ensures (y - 1900) / 100 == (y - 1901) / 100 + (if y % 100 == 0 then 1 else 0)
  {
  }

  lemma Quadricentennial(y: int)
    ensures (y - 1600) / 400 == (y - 1601) / 400 + (if y % 400 == 0 then 1 else 0)
  {
  }

  /** A multiple of 400 is a multiple of 100, and a multiple of 100 is a multiple of 4. */
  lemma CenturyDivisors(y: int)
    ensures y % 400 == 0 ==> y % 100 == 0
    ensures y % 100 == 0 ==> y % 4 == 0
  {
  }

  lemma EcmaDayFromYearStep(y: int)
    ensures EcmaDayFromYear(y + 1) == EcmaDayFromYear(y) + DaysInYear(y)
  {
    Quadrennial(y);
    Centennial(y);
    Quadricentennial(y);
    CenturyDivisors(y);
  }

  /** The year-by-year count is ECMA-262's closed formula, for every year. */
  lemma {:induction false} DayFromYearFormula(y: int)
    ensures DayFromYear(y) == EcmaDayFromYear(y)
    decreases if y < 1970 then 1970 - y else y - 1970
  {
    if y > 1970 {
      DayFromYearFormula(y - 1);
      EcmaDayFromYearStep(y - 1);
    } else if y < 1970 {
      DayFromYearFormula(y + 1);
      EcmaDayFromYearStep(y);
    }
  }

  lemma {:induction false} DayFromYearMonotone(y1: int, y2: int)
    requires y1 < y2
    ensures DayFromYear(y1) + DaysInYear(y1) <= DayFromYear(y2)
    decreases y2 - y1
  {
    DayFromYearStep(y1);
    if y1 + 1 < y2 {
      DayFromYearMonotone(y1 + 1, y2);
    }
  }

  lemma DaysBeforeMonthStep(y: int, m: int)
    requires 0 <= m < 12
    ensures DaysBeforeMonth(y, m + 1) == DaysBeforeMonth(y, m) + DaysInMonth(y, m)
  {
  }

  /** The twelve months make up the year. */
  lemma DaysBeforeMonthYear(y: int)
    ensures DaysBeforeMonth(y, 12) == DaysInYear(y)
  {
    assert DaysBeforeMonth(y, 1) == 31;
    assert DaysBeforeMonth(y, 2) == 31 + DaysInMonth(y, 1);
    assert DaysBeforeMonth(y, 3) == 62 + DaysInMonth(y, 1);
    assert DaysBeforeMonth(y, 4) == 92 + DaysInMonth(y, 1);
    assert DaysBeforeMonth(y, 5) == 123 + DaysInMonth(y, 1);
    assert DaysBeforeMonth(y, 6) == 153 + DaysInMonth(y, 1);
    assert DaysBeforeMonth(y, 7) == 184 + DaysInMonth(y, 1);
    assert DaysBeforeMonth(y, 8) == 215 + DaysInMonth(y, 1);
    assert DaysBeforeMonth(y, 9) == 245 + DaysInMonth(y, 1);
    assert DaysBeforeMonth(y, 10) == 276 + DaysInMonth(y, 1);
    assert DaysBeforeMonth(y, 11) == 306 + DaysInMonth(y, 1);
  }

  lemma {:induction false} DaysBeforeMonthMonotone(y: int, m1: int, m2: int)
    requires 0 <= m1 < m2 <= 12
    ensures DaysBeforeMonth(y, m1) + DaysInMonth(y, m1) <= DaysBeforeMonth(y, m2)
    decreases m2 - m1
  {
    if m1 + 1 < m2 {
      DaysBeforeMonthMonotone(y, m1, m2 - 1);
    }
  }

  /** A valid date lies inside its own year's range of day numbers. */
  lemma DayNumberInYear(d: Date)
    requires d.Valid()
    ensures DayFromYear(d.year) <= DayNumber(d) < DayFromYear(d.year) + DaysInYear(d.year)
  {
    DaysBeforeMonthYear(d.year);
    DaysBeforeMonthMonotone(d.year, d.month, 12);
  }

  /** Lexicographic order on (year, month, day). */
  predicate Before(a: Date, b: Date) {
    a.year < b.year
    || (a.year == b.year && a.month < b.month)
    || (a.year == b.year && a.month == b.month && a.day < b.day)
  }

  /** Day numbers order valid dates exactly as the calendar does. */
  lemma DayNumberOrder(a: Date, b: Date)
    requires a.Valid() && b.Valid()
    ensures DayNumber(a) < DayNumber(b) <==> Before(a, b)
  {
    DayNumberInYear(a);
    DayNumberInYear(b);
    if a.year < b.year {
      DayFromYearMonotone(a.year, b.year);
    } else if b.year < a.year {
      DayFromYearMonotone(b.year, a.year);
    } else if a.month < b.month {
      DaysBeforeMonthMonotone(a.year, a.month, b.month);
    } else if b.month < a.month {
      DaysBeforeMonthMonotone(a.year, b.month, a.month);
    }
  }

  /** Distinct valid dates have distinct day numbers: DateFromTime is well defined. */
  lemma DayNumberInjective(a: Date, b: Date)
    requires a.Valid() && b.Valid()
    requires DayNumber(a) == DayNumber(b)
    ensures a == b
  {
    DayNumberOrder(a, b);
    DayNumberOrder(b, a);
  }

  /** MakeDay on the month after m: a day count past the end of month m. */
  lemma MakeDayNextMonth(y: int, m: int, dt: int)
    requires 0 <= m < 12
    ensures MakeDay(y, m + 1, dt) == DayFromYear(y) + DaysBeforeMonth(y, m) + DaysInMonth(y, m) + dt - 1
  {
    DaysBeforeMonthStep(y, m);
    if m == 11 {
      assert (m + 1) / 12 == 1 && (m + 1) % 12 == 0;
      DaysBeforeMonthYear(y);
      DayFromYearStep(y);
    } else {
      assert (m + 1) / 12 == 0 && (m + 1) % 12 == m + 1;
    }
  }

  /**
   * The last day of month m of year y: what `new Date(y, m + 1, 0)` gives
   * for a year outside 0 to 99 (the constructor reads those as 1900 to 1999).
   */
  function LastOfMonth(y: int, m: int): (r: Date)
    requires 0 <= m < 12
    ensures r.Valid() && r.year == y && r.month == m
  {
    Date(y, m, DaysInMonth(y, m))
  }

  /** Day 0 of the month after m is the last day of month m, December carrying into the next year. */
  lemma LastOfMonthIsMakeDay(y: int, m: int)
    requires 0 <= m < 12
    ensures DayNumber(LastOfMonth(y, m)) == MakeDay(y, m + 1, 0)
    ensures forall d: Date :: d.Valid() && d.year == y && d.month == m ==> d.day <= LastOfMonth(y, m).day
  {
    MakeDayNextMonth(y, m, 0);
  }

  /** The month before month m of year y, as a (year, month) pair. */
  function PrevMonth(y: int, m: int): (r: (int, int))
    requires 0 <= m < 12
    ensures 0 <= r.1 < 12 && r.1 != m
    ensures r.0 * 12 + r.1 == y * 12 + m - 1
  {
    if m == 0 then (y - 1, 11) else (y, m - 1)
  }

  /** The month after month m of year y, as a (year, month) pair. */
  function NextMonth(y: int, m: int): (r: (int, int))
    requires 0 <= m < 12
    ensures 0 <= r.1 < 12 && r.1 != m
    ensures r.0 * 12 + r.1 == y * 12 + m + 1
  {
    if m == 11 then (y + 1, 0) else (y, m + 1)
  }

  /** MakeDay with a month inside 0..11: no carry into the year. */
  lemma MakeDayInMonth(y: int, m: int, dt: int)
    requires 0 <= m < 12
    ensures MakeDay(y, m, dt) == DayFromYear(y) + DaysBeforeMonth(y, m) + dt - 1
  {
    assert m / 12 == 0 && m % 12 == m;
  }

  /** The first of the next month immediately follows the last of this one. */
  lemma FirstOfNextMonth(y: int, m: int)
    requires 0 <= m < 12
    ensures var (ny, nm) := NextMonth(y, m);
      Date(ny, nm, 1).Valid() && DayNumber(Date(ny, nm, 1)) == DayNumber(LastOfMonth(y, m)) + 1
  {
    var (ny, nm) := NextMonth(y, m);
    MakeDayNextMonth(y, m, 1);
    MakeDayInMonth(ny, nm, 1);
    if m == 11 {
      DaysBeforeMonthYear(y);
      DayFromYearStep(y);
    } else {
      DaysBeforeMonthStep(y, m);
    }
  }

  /** `d.setDate(d.getDate() + 1)`: the following day. */
  function NextDay(d: Date): (r: Date)
    requires d.Valid()
    ensures r.Valid()
    ensures DayNumber(r) == DayNumber(d) + 1
  {
    if d.day < DaysInMonth(d.year, d.month) then
      Date(d.year, d.month, d.day + 1)
    else
      FirstOfNextMonth(d.year, d.month);
      var (ny, nm) := NextMonth(d.year, d.month);
      Date(ny, nm, 1)
  }

  /** `d.setDate(d.getDate() - 1)`: the preceding day. */
  function PrevDay(d: Date): (r: Date)
    requires d.Valid()
    ensures r.Valid()
    ensures DayNumber(r) + 1 == DayNumber(d)
  {
    if d.day > 1 then
      Date(d.year, d.month, d.day - 1)
    else
      var (py, pm) := PrevMonth(d.year, d.month);
      assert NextMonth(py, pm) == (d.year, d.month);
      FirstOfNextMonth(py, pm);
      LastOfMonth(py, pm)
  }

  /** The following day is the next week day, Saturday (6) wrapping round to Sunday (0); the preceding day the one before. */
  lemma StepWeekDay(d: Date)
    requires d.Valid()
    ensures WeekDayOf(NextDay(d)) == (WeekDayOf(d) + 1) % 7
    ensures WeekDayOf(PrevDay(d)) == (WeekDayOf(d) + 6) % 7
  {
    WeekDayShift(DayNumber(d));
  }

  lemma WeekDayShift(n: int)
    ensures WeekDay(n + 1) == (WeekDay(n) + 1) % 7
    ensures WeekDay(n - 1) == (WeekDay(n) + 6) % 7
  {
    var q, w := (n + 4) / 7, (n + 4) % 7;
    assert n + 4 == 7 * q + w;
    if w == 6 {
      assert n + 5 == 7 * (q + 1);
    } else {
      assert n + 5 == 7 * q + (w + 1);
    }
    if w == 0 {
      assert n + 3 == 7 * (q - 1) + 6;
    } else {
      assert n + 3 == 7 * q + (w - 1);
    }
  }

  /**
   * A valid date's day number is what MakeDay gives for its own fields, and
   * the days after and before it are those `setDate(getDate() + 1)` and
   * `setDate(getDate() - 1)` produce.
   */
  lemma StepsAreMakeDay(d: Date)
    requires d.Valid()
    ensures DayNumber(d) == MakeDay(d.year, d.month, d.day)
    ensures DayNumber(NextDay(d)) == MakeDay(d.year, d.month, d.day + 1)
    ensures DayNumber(PrevDay(d)) == MakeDay(d.year, d.month, d.day - 1)
  {
    MakeDayInMonth(d.year, d.month, d.day);
    MakeDayInMonth(d.year, d.month, d.day + 1);
    MakeDayInMonth(d.year, d.month, d.day - 1);
  }

  /**
   * `d.setMonth(d.getMonth() + v)`: the month moves by v, carrying into the
   * year; a day of month beyond the target month's length runs on into the
   * month after it.
   */
  function AddMonths(d: Date, v: int): (r: Date)
    requires d.Valid()
    ensures r.Valid()
    ensures DayNumber(r) == MakeDay(d.year, d.month + v, d.day)
  {
    var ty := d.year + (d.month + v) / 12;
    var tm := (d.month + v) % 12;
    if d.day <= DaysInMonth(ty, tm) then
      Date(ty, tm, d.day)
    else
      var last := LastOfMonth(ty, tm);
      var (ny, nm) := NextMonth(ty, tm);
      assert NextDay(last) == Date(ny, nm, 1);
      Date(ny, nm, d.day - DaysInMonth(ty, tm))
  }

  /** Whether `setMonth` overflows: the day does not exist in the target month. */
  predicate MonthOverflows(d: Date, v: int)
    requires d.Valid()
  {
    d.day > DaysInMonth(d.year + (d.month + v) / 12, (d.month + v) % 12)
  }

  /**
   * Moving by v months lands v months further on, counted as year * 12 + month,
   * and one month further still when the day overflows; the day of month is
   * kept unless it overflows.
   */
  lemma AddMonthsCarry(d: Date, v: int)
    requires d.Valid()
    ensures var r := AddMonths(d, v);
      r.year * 12 + r.month == d.year * 12 + d.month + v + (if MonthOverflows(d, v) then 1 else 0)
      && (r.day == d.day <==> !MonthOverflows(d, v))
  {
  }

  /** The day k days after d. */
  function Forward(d: Date, k: nat): (r: Date)
    requires d.Valid()
    ensures r.Valid() && DayNumber(r) == DayNumber(d) + k
  {
    if k == 0 then d else NextDay(Forward(d, k - 1))
  }

  /** The day k days before d. */
  function Back(d: Date, k: nat): (r: Date)
    requires d.Valid()
    ensures r.Valid() && DayNumber(r) + k == DayNumber(d)
  {
    if k == 0 then d else PrevDay(Back(d, k - 1))
  }

  /** Moving a days and then b days moves a + b days. */
  lemma ForwardAdd(d: Date, a: nat, b: nat, c: nat)
    requires d.Valid() && a + b == c
    ensures Forward(Forward(d, a), b) == Forward(d, c)
  {
    DayNumberInjective(Forward(Forward(d, a), b), Forward(d, c));
  }

  /** Two years differ before month m only by the leap day of February. */
  lemma {:induction false} DaysBeforeMonthYears(y1: int, y2: int, m: int)
    requires 0 <= m <= 12
    ensures DaysBeforeMonth(y1, m) - DaysBeforeMonth(y2, m)
      == (if m >= 2 then DaysInMonth(y1, 1) - DaysInMonth(y2, 1) else 0)
  {
    if m > 0 {
      DaysBeforeMonthYears(y1, y2, m - 1);
    }
  }

  /** The same month of a later year lies more than eleven months further on. */
  lemma SameMonthLaterYear(a: Date, b: Date)
    requires a.Valid() && b.Valid()
    requires a.month == b.month && a.year < b.year
    ensures DayNumber(a) + 334 <= DayNumber(b)
  {
    DayFromYearMonotone(a.year, b.year);
    DaysBeforeMonthYears(b.year, a.year, a.month);
  }
}
