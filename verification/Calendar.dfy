/**
 * Gregorian day numbers as ECMAScript defines them (section 21.4.1 of ECMA-262) and the calendar
 * shift built on them (src/utils/dateUtils.ts, addCalendarDays). The epoch is 1 January 1970.
 */
module Calendar {
  import opened Sequences

  datatype CalendarParts = CalendarParts(year: int, month: int, day: int)

  /** Largest day number of a valid Date, either side of the epoch. */
  const MAX_DAY := 100000000

  // ----- years -----

  predicate IsLeap(y: int) { y % 4 == 0 && (y % 100 != 0 || y % 400 == 0) }

  function DaysInYear(y: int): int { if IsLeap(y) then 366 else 365 }

  /** Day number of 1 January, by counting whole years away from the epoch. */
  function DayFromYear(y: int): int
    decreases if y >= 1970 then y - 1970 else 1970 - y
  {
    if y == 1970 then 0
    else if y > 1970 then DayFromYear(y - 1) + DaysInYear(y - 1)
    else DayFromYear(y + 1) - DaysInYear(y)
  }

  lemma YearStep(y: int)
    ensures DayFromYear(y + 1) == DayFromYear(y) + DaysInYear(y)
  {
  }

  lemma QuotientStep(x: int, m: int)
    requires m == 4 || m == 100 || m == 400
    ensures (x + 1) / m == x / m + if (x + 1) % m == 0 then 1 else 0
  {
  }

  /** The formula of the standard; division floors. */
  function YearFormula(y: int): int {
    365 * (y - 1970) + (y - 1969) / 4 - (y - 1901) / 100 + (y - 1601) / 400
  }

  lemma FormulaStep(y: int)
    ensures YearFormula(y + 1) == YearFormula(y) + DaysInYear(y)
  {
    QuotientStep(y - 1969, 4);
    QuotientStep(y - 1901, 100);
    QuotientStep(y - 1601, 400);
    LeapResidues(y);
  }

  lemma LeapResidues(y: int)
    ensures (y - 1969 + 1) % 4 == y % 4 && (y - 1901 + 1) % 100 == y % 100 && (y - 1601 + 1) % 400 == y % 400
    ensures y % 100 == 0 ==> y % 4 == 0
    ensures y % 400 == 0 ==> y % 100 == 0
  {
    SameResidue(y, 4, -492);
    SameResidue(y, 100, -19);
    SameResidue(y, 400, -4);
    MultipleOf(y, 25, 4);
    MultipleOf(y, 4, 100);
  }

  lemma SameResidue(y: int, m: int, k: int)
    requires m > 0
    ensures (y + m * k) % m == y % m
  {
    assert y == m * (y / m) + y % m;
    assert y + m * k == m * (y / m + k) + y % m;
    QuotientOrder(m, y / m + k, y % m, (y + m * k) / m, (y + m * k) % m);
    QuotientOrder(m, (y + m * k) / m, (y + m * k) % m, y / m + k, y % m);
  }

  lemma MultipleOf(y: int, k: int, m: int)
    requires k > 0 && m > 0
    ensures y % (k * m) == 0 ==> y % m == 0
  {
    if y % (k * m) == 0 {
      assert y == m * (k * (y / (k * m)));
      SameResidue(0, m, k * (y / (k * m)));
    }
  }

  /** Counting years agrees with the formula, on both sides of the epoch. */
  lemma {:induction false} YearFormulaIsExact(y: int)
    ensures DayFromYear(y) == YearFormula(y)
    decreases if y >= 1970 then y - 1970 else 1970 - y
  {
    if y > 1970 {
      YearFormulaIsExact(y - 1);
      FormulaStep(y - 1);
    } else if y < 1970 {
      YearFormulaIsExact(y + 1);
      FormulaStep(y);
    }
  }

  lemma {:induction false} YearsAreOrdered(a: int, b: int)
    requires a < b
    ensures DayFromYear(a) + DaysInYear(a) <= DayFromYear(b)
    decreases b - a
  {
    YearStep(a);
    if a + 1 < b {
      YearsAreOrdered(a + 1, b);
    }
  }

  /** The year containing day `n`, looked for from `y`. */
  function YearSearch(n: int, y: int): (r: int)
    ensures DayFromYear(r) <= n < DayFromYear(r) + DaysInYear(r)
    decreases if n < DayFromYear(y) then DayFromYear(y) - n
              else if n >= DayFromYear(y + 1) then n - DayFromYear(y) else 0
  {
    YearStep(y - 1);
    YearStep(y);
    YearStep(y + 1);
    if n < DayFromYear(y) then YearSearch(n, y - 1)
    else if n >= DayFromYear(y + 1) then YearSearch(n, y + 1)
    else y
  }

  function YearFromDay(n: int): (r: int)
    ensures DayFromYear(r) <= n < DayFromYear(r) + DaysInYear(r)
  {
    YearSearch(n, 1970)
  }

  lemma YearIsUnique(n: int, y: int)
    requires DayFromYear(y) <= n < DayFromYear(y) + DaysInYear(y)
    ensures YearFromDay(n) == y
  {
    var r := YearFromDay(n);
    if r < y {
      YearsAreOrdered(r, y);
    }
    if y < r {
      YearsAreOrdered(y, r);
    }
  }

  // ----- months, counted from 0 as in the standard -----

  function DaysInMonth(month: int, leap: bool): (r: int)
    ensures 28 <= r <= 31
  {
    if month == 1 then (if leap then 29 else 28)
    else if month == 3 || month == 5 || month == 8 || month == 10 then 30 else 31
  }

  /** Days of the year before the given month. */
  function DaysBefore(month: int, leap: bool): int
    requires 0 <= month <= 12
    decreases month
  {
    if month == 0 then 0 else DaysBefore(month - 1, leap) + DaysInMonth(month - 1, leap)
  }

  lemma YearLength(y: int)
    ensures DaysBefore(12, IsLeap(y)) == DaysInYear(y)
  {
    var leap := IsLeap(y);
    var february := if leap then 29 else 28;
    assert DaysBefore(2, leap) == 31 + february;
    assert DaysBefore(4, leap) == DaysBefore(2, leap) + 61;
    assert DaysBefore(6, leap) == DaysBefore(4, leap) + 61;
    assert DaysBefore(8, leap) == DaysBefore(6, leap) + 62;
    assert DaysBefore(10, leap) == DaysBefore(8, leap) + 61;
    assert DaysBefore(12, leap) == DaysBefore(10, leap) + 61;
  }

  function MonthSearch(day: int, leap: bool, month: int): (r: int)
    requires 0 <= month < 12 && DaysBefore(month, leap) <= day < DaysBefore(12, leap)
    ensures 0 <= r < 12 && DaysBefore(r, leap) <= day < DaysBefore(r + 1, leap)
    decreases 12 - month
  {
    if day < DaysBefore(month + 1, leap) then month else MonthSearch(day, leap, month + 1)
  }

  lemma {:induction false} MonthsAreOrdered(a: int, b: int, leap: bool)
    requires 0 <= a <= b <= 12
    ensures DaysBefore(a, leap) <= DaysBefore(b, leap)
    decreases b - a
  {
    if a < b {
      MonthsAreOrdered(a, b - 1, leap);
    }
  }

  ghost predicate InMonth(day: int, leap: bool, month: int) {
    0 <= month < 12 && DaysBefore(month, leap) <= day < DaysBefore(month + 1, leap)
  }

  lemma SameMonth(day: int, leap: bool, m: int, n: int)
    requires InMonth(day, leap, m) && InMonth(day, leap, n)
    ensures m == n
  {
    if m < n {
      MonthsAreOrdered(m + 1, n, leap);
    }
    if n < m {
      MonthsAreOrdered(n + 1, m, leap);
    }
  }

  lemma MonthIsUnique(day: int, leap: bool, month: int)
    requires InMonth(day, leap, month)
    ensures 0 <= day < DaysBefore(12, leap) && MonthSearch(day, leap, 0) == month
  {
    MonthsAreOrdered(0, month, leap);
    MonthsAreOrdered(month + 1, 12, leap);
    SameMonth(day, leap, MonthSearch(day, leap, 0), month);
  }

  // ----- dates and day numbers -----

  predicate InCalendar(p: CalendarParts) { 1 <= p.month <= 12 }

  ghost predicate ValidDate(p: CalendarParts) {
    InCalendar(p) && 1 <= p.day <= DaysInMonth(p.month - 1, IsLeap(p.year))
  }

  /** Days since 1 January of the same year. */
  function DayWithinYear(p: CalendarParts): int
    requires InCalendar(p)
  {
    DaysBefore(p.month - 1, IsLeap(p.year)) + p.day - 1
  }

  /** The day number of a date. */
  function DayOf(p: CalendarParts): int
    requires InCalendar(p)
  {
    DayFromYear(p.year) + DayWithinYear(p)
  }

  /** MakeDay: the month, counted from 0, may lie outside the year and the day outside the month. */
  function MakeDay(year: int, month: int, date: int): int {
    var y, m := year + month / 12, month % 12;
    DayFromYear(y) + DaysBefore(m, IsLeap(y)) + date - 1
  }

  function FromDay(n: int): CalendarParts {
    var y := YearFromDay(n);
    FromDayWithinYear(y, n - DayFromYear(y))
  }

  function FromDayWithinYear(y: int, d: int): CalendarParts
    requires 0 <= d < DaysInYear(y)
  {
    YearLength(y);
    var m := MonthSearch(d, IsLeap(y), 0);
    CalendarParts(y, m + 1, d - DaysBefore(m, IsLeap(y)) + 1)
  }

  lemma WithinYearRoundTrip(y: int, d: int)
    requires 0 <= d < DaysInYear(y)
    ensures var p := FromDayWithinYear(y, d);
      ValidDate(p) && p.year == y && DayWithinYear(p) == d
  {
  }

  lemma WithinYear(p: CalendarParts)
    requires ValidDate(p)
    ensures 0 <= DayWithinYear(p) < DaysInYear(p.year)
    ensures FromDayWithinYear(p.year, DayWithinYear(p)) == p
  {
    YearLength(p.year);
    MonthIsUnique(DayWithinYear(p), IsLeap(p.year), p.month - 1);
  }

  /** Reading a day number as a date and numbering that date again is the identity. */
  lemma DayRoundTrip(n: int)
    ensures ValidDate(FromDay(n)) && DayOf(FromDay(n)) == n
  {
    var y := YearFromDay(n);
    WithinYearRoundTrip(y, n - DayFromYear(y));
  }

  /** Numbering a valid date and reading the number again is the identity. */
  lemma DateRoundTrip(p: CalendarParts)
    requires ValidDate(p)
    ensures FromDay(DayOf(p)) == p
  {
    WithinYear(p);
    YearIsUnique(DayOf(p), p.year);
  }

  ghost predicate Earlier(p: CalendarParts, q: CalendarParts) {
    p.year < q.year || (p.year == q.year && (p.month < q.month || (p.month == q.month && p.day < q.day)))
  }

  lemma EarlierInYear(p: CalendarParts, q: CalendarParts)
    requires ValidDate(p) && ValidDate(q) && Earlier(p, q) && p.year == q.year
    ensures DayWithinYear(p) < DayWithinYear(q)
  {
    var leap := IsLeap(p.year);
    EarlierInMonths(p.month - 1, p.day, q.month - 1, q.day, leap);
  }

  lemma EarlierInMonths(m: int, day: int, m': int, day': int, leap: bool)
    requires 0 <= m < 12 && 0 <= m' < 12 && 1 <= day <= DaysInMonth(m, leap) && 1 <= day'
    requires m < m' || (m == m' && day < day')
    ensures DaysBefore(m, leap) + day < DaysBefore(m', leap) + day'
  {
    if m < m' {
      MonthsAreOrdered(m + 1, m', leap);
    }
  }

  lemma EarlierHasSmallerDay(p: CalendarParts, q: CalendarParts)
    requires ValidDate(p) && ValidDate(q) && Earlier(p, q)
    ensures DayOf(p) < DayOf(q)
  {
    if p.year == q.year {
      EarlierInYear(p, q);
    } else {
      WithinYear(p);
      WithinYear(q);
      YearsAreOrdered(p.year, q.year);
    }
  }

  /** Day numbers order dates exactly as year, month and day do. */
  lemma DayOrder(p: CalendarParts, q: CalendarParts)
    requires ValidDate(p) && ValidDate(q)
    ensures DayOf(p) < DayOf(q) <==> Earlier(p, q)
  {
    if Earlier(p, q) {
      EarlierHasSmallerDay(p, q);
    } else if Earlier(q, p) {
      EarlierHasSmallerDay(q, p);
    } else {
      assert p == q;
    }
  }

  // ----- addCalendarDays -----

  /** Date.UTC reads years 0 to 99 as 1900 to 1999. */
  function FullYear(year: int): int { if 0 <= year <= 99 then 1900 + year else year }

  /** None where the source gets an invalid Date, whose parts are NaN. */
  function AddCalendarDays(p: CalendarParts, days: int): Option<CalendarParts> {
    DateOfDay(MakeDay(FullYear(p.year), p.month - 1, p.day + days))
  }

  function DateOfDay(n: int): Option<CalendarParts> {
    if -MAX_DAY <= n <= MAX_DAY then Some(FromDay(n)) else None
  }

  lemma DateOfDayNumber(n: int)
    requires -MAX_DAY <= n <= MAX_DAY
    ensures DateOfDay(n).Some? && ValidDate(DateOfDay(n).value) && DayOf(DateOfDay(n).value) == n
  {
    DayRoundTrip(n);
  }

  lemma ShiftIsDayAddition(p: CalendarParts, days: int)
    requires InCalendar(p) && !(0 <= p.year <= 99)
    ensures AddCalendarDays(p, days) == DateOfDay(DayOf(p) + days)
  {
    MakeDayInCalendar(p, days);
  }

  lemma MakeDayInCalendar(p: CalendarParts, days: int)
    requires InCalendar(p)
    ensures MakeDay(p.year, p.month - 1, p.day + days) == DayOf(p) + days
  {
    assert (p.month - 1) / 12 == 0 && (p.month - 1) % 12 == p.month - 1;
  }

  /** Adding a and then b is adding a + b. */
  lemma ShiftsCompose(p: CalendarParts, a: int, b: int)
    requires InCalendar(p) && !(0 <= p.year <= 99) && AddCalendarDays(p, a).Some?
    requires !(0 <= AddCalendarDays(p, a).value.year <= 99)
    ensures AddCalendarDays(AddCalendarDays(p, a).value, b) == AddCalendarDays(p, a + b)
  {
    var q := AddCalendarDays(p, a).value;
    ShiftedDay(p, a, q);
    ShiftIsDayAddition(q, b);
    ShiftIsDayAddition(p, a + b);
  }

  lemma ShiftedDay(p: CalendarParts, a: int, q: CalendarParts)
    requires InCalendar(p) && !(0 <= p.year <= 99) && AddCalendarDays(p, a) == Some(q)
    ensures ValidDate(q) && DayOf(q) == DayOf(p) + a
  {
    ShiftIsDayAddition(p, a);
    DateOfDayNumber(DayOf(p) + a);
  }

  /**
   * Adding nothing is the identity on a valid date if and only if its year has more than two digits:
   * years 0 to 99 are moved to the twentieth century.
   */
  lemma ZeroShift(p: CalendarParts)
    requires ValidDate(p) && -MAX_DAY <= DayOf(p) <= MAX_DAY
    ensures AddCalendarDays(p, 0) == Some(p) <==> !(0 <= p.year <= 99)
  {
    if 0 <= p.year <= 99 {
      MovedCentury(p);
    } else {
      ShiftIsDayAddition(p, 0);
      DateRoundTrip(p);
    }
  }

  lemma WithinAnyYear(month: int, day: int, leap: bool, leap': bool)
    requires 0 <= month < 12 && 1 <= day <= DaysInMonth(month, leap)
    ensures 0 <= DaysBefore(month, leap') + day - 1 < DaysBefore(12, leap')
  {
    MonthsAreOrdered(0, month, leap');
    MonthsAreOrdered(month + 1, 12, leap');
    if month == 1 {
      assert DaysBefore(3, leap') == DaysBefore(2, leap') + 31;
      MonthsAreOrdered(3, 12, leap');
    }
  }

  lemma MovedCentury(p: CalendarParts)
    requires ValidDate(p) && 0 <= p.year <= 99
    ensures AddCalendarDays(p, 0).Some? ==> AddCalendarDays(p, 0).value.year == 1900 + p.year
  {
    var q := p.(year := 1900 + p.year);
    WithinAnyYear(p.month - 1, p.day, IsLeap(p.year), IsLeap(q.year));
    StaysInYear(q);
    ShiftMoves(p, q);
  }

  lemma StaysInYear(q: CalendarParts)
    requires InCalendar(q) && 0 <= DayWithinYear(q) < DaysBefore(12, IsLeap(q.year))
    ensures FromDay(DayOf(q)).year == q.year
  {
    YearLength(q.year);
    YearIsUnique(DayOf(q), q.year);
  }

  lemma ShiftMoves(p: CalendarParts, q: CalendarParts)
    requires InCalendar(p) && q == p.(year := FullYear(p.year))
    ensures AddCalendarDays(p, 0) == DateOfDay(DayOf(q))
  {
    MakeDayInCalendar(q, 0);
  }

  /** A shift goes later exactly when it is positive. */
  lemma ShiftOrder(p: CalendarParts, days: int)
    requires ValidDate(p) && !(0 <= p.year <= 99) && AddCalendarDays(p, days).Some?
    ensures ValidDate(AddCalendarDays(p, days).value)
    ensures Earlier(p, AddCalendarDays(p, days).value) <==> days > 0
  {
    ShiftIsDayAddition(p, days);
    DateOfDayNumber(DayOf(p) + days);
    DayOrder(p, AddCalendarDays(p, days).value);
  }

  /** The opposite shift leads back. */
  lemma ShiftBack(p: CalendarParts, days: int)
    requires ValidDate(p) && !(0 <= p.year <= 99) && -MAX_DAY <= DayOf(p) <= MAX_DAY
    requires AddCalendarDays(p, days).Some? && !(0 <= AddCalendarDays(p, days).value.year <= 99)
    ensures AddCalendarDays(AddCalendarDays(p, days).value, -days) == Some(p)
  {
    ShiftsCompose(p, days, -days);
    ZeroShift(p);
  }

  // ----- anchors -----

  function FirstOf(year: int, month: int): CalendarParts { CalendarParts(year, month, 1) }

  /** The month of a date has the given number of days: that far apart lie its first and the next first. */
  ghost predicate HasDays(year: int, month: int, days: int) {
    1 <= month <= 12 &&
    DayOf(if month == 12 then FirstOf(year + 1, 1) else FirstOf(year, month + 1)) - DayOf(FirstOf(year, month)) == days
  }

  lemma MonthIsLong(year: int, month: int)
    requires 1 <= month < 12
    ensures HasDays(year, month, DaysInMonth(month - 1, IsLeap(year)))
  {
  }

  /** How long each month of each year is. */
  lemma MonthLengths(year: int)
    ensures HasDays(year, 1, 31) && HasDays(year, 3, 31) && HasDays(year, 4, 30) && HasDays(year, 5, 31)
    ensures HasDays(year, 2, if year % 400 == 0 || (year % 4 == 0 && year % 100 != 0) then 29 else 28)
    ensures HasDays(year, 6, 30) && HasDays(year, 7, 31) && HasDays(year, 8, 31) && HasDays(year, 9, 30)
    ensures HasDays(year, 10, 31) && HasDays(year, 11, 30) && HasDays(year, 12, 31)
  {
    MonthIsLong(year, 1);
    MonthIsLong(year, 2);
    MonthIsLong(year, 3);
    MonthIsLong(year, 4);
    MonthIsLong(year, 5);
    MonthIsLong(year, 6);
    MonthIsLong(year, 7);
    MonthIsLong(year, 8);
    MonthIsLong(year, 9);
    MonthIsLong(year, 10);
    MonthIsLong(year, 11);
    LeapIffDivisible(year);
    December(year);
  }

  lemma LeapIffDivisible(year: int)
    ensures IsLeap(year) <==> year % 400 == 0 || (year % 4 == 0 && year % 100 != 0)
  {
    LeapResidues(year);
  }

  lemma December(year: int)
    ensures HasDays(year, 12, 31)
  {
    YearLength(year);
    YearStep(year);
    assert DaysBefore(12, IsLeap(year)) == DaysBefore(11, IsLeap(year)) + 31;
  }

  /** The epoch. */
  lemma EpochIsDayZero(epoch: CalendarParts)
    requires epoch.year == 1970 && epoch.month == 1 && epoch.day == 1
    ensures DayOf(epoch) == 0 && FromDay(DayOf(epoch)) == epoch
  {
    DateRoundTrip(epoch);
  }
}
