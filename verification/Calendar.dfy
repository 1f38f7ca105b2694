/**
  The proleptic Gregorian calendar, by closed formulas: day numbers counted from 0001-01-01,
  ticks of 100 nanoseconds, and the fields of a date and time. Years are astronomical: year 0
  is 1 BC.
*/
module Calendar {
  import opened Bits

  const MIN_YEAR: int := -9998    // the earliest year with a table entry
  const MAX_YEAR: int := 9999
  const DAY: int := 864_000_000_000

  predicate Leap(y: int) {
    if y % 400 == 0 then true else if y % 100 == 0 then false else y % 4 == 0
  }

  function YearLength(y: int): int { if Leap(y) then 366 else 365 }

  /** The days from 0001-01-01 to the first day of year y; negative before. */
  function DaysBefore(y: int): int {
    365 * (y - 1) + (y - 1) / 4 - (y - 1) / 100 + (y - 1) / 400
  }

  lemma YearStep(y: int)
    ensures DaysBefore(y + 1) == DaysBefore(y) + YearLength(y)
  {
    QuotientStep(y, 4);
    QuotientStep(y, 100);
    QuotientStep(y, 400);
    Divisors(y);
  }

  lemma QuotientStep(y: int, n: int)
    requires n > 1
    ensures y / n == (y - 1) / n + if y % n == 0 then 1 else 0
  {
    var q, r := y / n, y % n;
    assert y == q * n + r;
    if r == 0 {
      assert y - 1 == (q - 1) * n + (n - 1);
      ModUnique(y - 1, n, q - 1, n - 1);
    } else {
      ModUnique(y - 1, n, q, r - 1);
    }
  }

  lemma Divisors(y: int)
    ensures y % 400 == 0 ==> y % 100 == 0
    ensures y % 100 == 0 ==> y % 4 == 0
  {
    if y % 400 == 0 { ModUnique(y, 100, 4 * (y / 400), 0); }
    if y % 100 == 0 { ModUnique(y, 4, 25 * (y / 100), 0); }
  }

  lemma {:induction false} YearsMonotone(a: int, b: int)
    requires a < b
    ensures DaysBefore(a) + YearLength(a) <= DaysBefore(b)
    decreases b - a
  {
    hide DaysBefore, YearLength;
    YearStep(b - 1);
    if a < b - 1 {
      YearsMonotone(a, b - 1);
      LongYears(b - 1);
    }
  }

  lemma LongYears(y: int)
    ensures 365 <= YearLength(y) <= 366
  {
  }

  // ---------------------------------------------------------------- months

  // The days of month m (0 for January)
  function MonthLength(m: nat, leap: bool): nat
    requires m < 12
  {
    if m == 1 then (if leap then 29 else 28)
    else if m == 3 || m == 5 || m == 8 || m == 10 then 30 else 31
  }

  // The days of the year before month m
  function DaysToMonth(m: nat, leap: bool): nat
    requires m <= 12
  {
    if m == 0 then 0 else DaysToMonth(m - 1, leap) + MonthLength(m - 1, leap)
  }

  lemma {:induction false} MonthsMonotone(a: nat, b: nat, leap: bool)
    requires a < b <= 12
    ensures DaysToMonth(a, leap) + MonthLength(a, leap) <= DaysToMonth(b, leap)
  {
    if a < b - 1 { MonthsMonotone(a, b - 1, leap); }
  }

  lemma WholeYear(y: int)
    ensures DaysToMonth(12, Leap(y)) == YearLength(y)
  {
    hide Leap;
    TwelveMonths(Leap(y));
  }

  /** The accumulated days of the months, which are also the table of month lengths. */
  lemma TwelveMonths(leap: bool)
    ensures DaysToMonth(1, leap) == 31
    ensures [DaysToMonth(2, leap), DaysToMonth(3, leap), DaysToMonth(4, leap), DaysToMonth(5, leap)]
      == if leap then [60, 91, 121, 152] else [59, 90, 120, 151]
    ensures [DaysToMonth(6, leap), DaysToMonth(7, leap), DaysToMonth(8, leap), DaysToMonth(9, leap)]
      == if leap then [182, 213, 244, 274] else [181, 212, 243, 273]
    ensures [DaysToMonth(10, leap), DaysToMonth(11, leap), DaysToMonth(12, leap)]
      == if leap then [305, 335, 366] else [304, 334, 365]
  {
    assert DaysToMonth(1, leap) == 31;
    assert DaysToMonth(2, leap) == if leap then 60 else 59;
    assert DaysToMonth(3, leap) == if leap then 91 else 90;
    assert DaysToMonth(4, leap) == if leap then 121 else 120;
    assert DaysToMonth(5, leap) == if leap then 152 else 151;
    assert DaysToMonth(6, leap) == if leap then 182 else 181;
    assert DaysToMonth(7, leap) == if leap then 213 else 212;
    assert DaysToMonth(8, leap) == if leap then 244 else 243;
    assert DaysToMonth(9, leap) == if leap then 274 else 273;
    assert DaysToMonth(10, leap) == if leap then 305 else 304;
    assert DaysToMonth(11, leap) == if leap then 335 else 334;
  }

  // ---------------------------------------------------------------- dates and times

  datatype Fields = Fields(year: int, month: nat, day: nat, hour: nat, minute: nat, second: nat, milli: nat, rest: nat)

  predicate ValidDate(f: Fields) {
    MIN_YEAR <= f.year <= MAX_YEAR && 1 <= f.month <= 12 && 1 <= f.day <= MonthLength(f.month - 1, Leap(f.year))
  }

  predicate ValidTime(f: Fields) {
    f.hour < 24 && f.minute < 60 && f.second < 60 && f.milli < 1000 && f.rest < 10000
  }

  function DayOfYear(f: Fields): int
    requires 1 <= f.month <= 12
  {
    DaysToMonth(f.month - 1, Leap(f.year)) + f.day
  }

  function DayNumber(f: Fields): int
    requires 1 <= f.month <= 12
  {
    DaysBefore(f.year) + DayOfYear(f) - 1
  }

  function TimeTicks(f: Fields): int {
    ((((f.hour * 60) + f.minute) * 60 + f.second) * 1000 + f.milli) * 10000 + f.rest
  }

  function TicksOf(f: Fields): int
    requires 1 <= f.month <= 12
  {
    DayNumber(f) * DAY + TimeTicks(f)
  }

  const MIN_TICKS: int := DaysBefore(MIN_YEAR) * DAY
  const MAX_TICKS: int := DaysBefore(MAX_YEAR + 1) * DAY - 1

  // 0 for Sunday; 0001-01-01 was a Monday
  function WeekDay(day: int): int { (day + 1) % 7 }

  /** The weight of each field of the time. */
  lemma TimeWeights(f: Fields)
    ensures TimeTicks(f)
      == f.hour * 36_000_000_000 + f.minute * 600_000_000 + f.second * 10_000_000 + f.milli * 10_000 + f.rest
  {
  }

  /** Fixed points: leap years by centuries, and the first day of 1970, a Thursday, with its ticks. */
  lemma KnownDates()
    ensures Leap(2000) && !Leap(1900) && Leap(2024) && !Leap(2023) && Leap(0)
    ensures var f := Fields(1970, 1, 1, 0, 0, 0, 0, 0);
      DayNumber(f) == 719162 && WeekDay(DayNumber(f)) == 4 && TicksOf(f) == 621_355_968_000_000_000
    ensures var f := Fields(2024, 12, 31, 23, 59, 58, 7, 5);
      DayOfYear(f) == 366 && WeekDay(DayNumber(f)) == 2 && TicksOf(f) == 638_712_863_980_070_005
  {
    TwelveMonths(true);
  }

  lemma DayInYear(f: Fields)
    requires ValidDate(f)
    ensures 1 <= DayOfYear(f) <= YearLength(f.year)
  {
    hide Leap, MonthLength;
    var leap := Leap(f.year);
    WholeYear(f.year);
    if f.month < 12 { MonthsMonotone(f.month - 1, 12, leap); }
  }

  lemma TimeInDay(f: Fields)
    requires ValidTime(f)
    ensures 0 <= TimeTicks(f) < DAY
  {
  }

  /** The day number determines the date. */
  lemma DateUnique(f: Fields, g: Fields)
    requires ValidDate(f) && ValidDate(g) && DayNumber(f) == DayNumber(g)
    ensures f.year == g.year && f.month == g.month && f.day == g.day
  {
    hide DaysBefore, YearLength, Leap, MonthLength, DaysToMonth;
    DayInYear(f);
    DayInYear(g);
    if f.year < g.year { YearsMonotone(f.year, g.year); }
    if g.year < f.year { YearsMonotone(g.year, f.year); }
    var leap := Leap(f.year);
    if f.month < g.month { MonthsMonotone(f.month - 1, g.month - 1, leap); }
    if g.month < f.month { MonthsMonotone(g.month - 1, f.month - 1, leap); }
  }

  lemma TimeUnique(f: Fields, g: Fields)
    requires ValidTime(f) && ValidTime(g) && TimeTicks(f) == TimeTicks(g)
    ensures f.hour == g.hour && f.minute == g.minute && f.second == g.second && f.milli == g.milli && f.rest == g.rest
  {
  }

  /** Ticks determine the fields: there is one valid date and time for each. */
  lemma TicksUnique(f: Fields, g: Fields)
    requires ValidDate(f) && ValidTime(f) && ValidDate(g) && ValidTime(g) && TicksOf(f) == TicksOf(g)
    ensures f == g
  {
    hide DayNumber, TimeTicks, MonthLength, Leap;
    TimeInDay(f);
    TimeInDay(g);
    assert DayNumber(f) == DayNumber(g);
    DateUnique(f, g);
    TimeUnique(f, g);
  }

  lemma TicksInRange(f: Fields)
    requires ValidDate(f) && ValidTime(f)
    ensures MIN_TICKS <= TicksOf(f) <= MAX_TICKS
  {
    hide DaysBefore, YearLength, Leap, MonthLength, DaysToMonth, TimeTicks;
    DayInYear(f);
    TimeInDay(f);
    if MIN_YEAR < f.year { YearsMonotone(MIN_YEAR, f.year); LongYears(MIN_YEAR); }
    YearsMonotone(f.year, MAX_YEAR + 1);
  }
}
