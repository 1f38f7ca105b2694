/**
  DateTime: fields and ticks kept in step by way of tables of accumulated days.
*/
module DateTimeModel {
  import opened Bits
  import opened Calendar

  const ZERO_YEAR: int := 9999        // ZeroYearIndex, the negative of the declared MinYear
  const TABLE_SIZE: int := 20000

  // What entry i of the table of years means: the days before year i - 9998
  function YearEntry(i: int): int { DaysBefore(i - ZERO_YEAR + 1) }

  lemma EntriesMonotone(i: int, j: int)
    requires i < j
    ensures YearEntry(i) < YearEntry(j)
  {
    hide DaysBefore, YearLength;
    YearsMonotone(i - ZERO_YEAR + 1, j - ZERO_YEAR + 1);
    LongYears(i - ZERO_YEAR + 1);
  }

  lemma EntryStep(i: int)
    ensures YearEntry(i + 1) == YearEntry(i) + YearLength(i - ZERO_YEAR + 1)
  {
    hide DaysBefore, YearLength;
    YearStep(i - ZERO_YEAR + 1);
  }

  lemma YearOne()
    ensures YearEntry(ZERO_YEAR) == 0
  {
  }

  // C's remainder, which takes the sign of the dividend, and quotient
  function Rem(a: int, n: int): int requires n > 0 { if a >= 0 then a % n else -((-a) % n) }
  function Quo(a: int, n: int): int requires n > 0 { if a >= 0 then a / n else -((-a) / n) }

  lemma WeekDayByRem(d: int)
    ensures (1 + 7 + Rem(d, 7)) % 7 == WeekDay(d)
  {
    if d < 0 {
      var q, r := (-d) / 7, (-d) % 7;
      assert d + 1 == -q * 7 + 1 - r;
    }
  }

  class DateTimeConstData {
    const daysOfMonth: array<nat>
    const accMonths: array<nat>
    const accYears: array<int>

    // The last entry of the table of years is never written.
    ghost predicate Valid()
      reads daysOfMonth, accMonths, accYears
    {
      && daysOfMonth.Length == 12 && accMonths.Length == 12 && accYears.Length == TABLE_SIZE
      && (forall m :: 0 <= m < 12 ==> daysOfMonth[m] == MonthLength(m, false))
      && (forall m :: 0 <= m < 12 ==> accMonths[m] == DaysToMonth(m + 1, false))
      && (forall i :: 0 <= i < TABLE_SIZE - 1 ==> accYears[i] == YearEntry(i))
    }

    constructor ()
      ensures Valid() && fresh(daysOfMonth) && fresh(accMonths) && fresh(accYears)
    {
      daysOfMonth := new nat[12] [31, 28, 31, 30, 31, 30, 31, 31, 30, 31, 30, 31];
      accMonths := new nat[12];
      accYears := new int[TABLE_SIZE];
      new;
      FillMonths();
      FillYears();
    }

    method FillMonths()
      requires daysOfMonth.Length == 12 && accMonths.Length == 12 && daysOfMonth != accMonths
      requires forall m :: 0 <= m < 12 ==> daysOfMonth[m] == MonthLength(m, false)
      modifies accMonths
      ensures forall m :: 0 <= m < 12 ==> accMonths[m] == DaysToMonth(m + 1, false)
    {
      hide MonthLength;
      accMonths[0] := daysOfMonth[0];
      assert DaysToMonth(0, false) == 0;
      var month := 1;
      while month < 12
        invariant 1 <= month <= 12
        invariant forall m :: 0 <= m < month ==> accMonths[m] == DaysToMonth(m + 1, false)
      {
        accMonths[month] := accMonths[month - 1] + daysOfMonth[month];
        month := month + 1;
      }
    }

    // Forwards from year 1, then backwards from year 0
    method FillYears()
      requires accYears.Length == TABLE_SIZE
      modifies accYears
      ensures forall i :: 0 <= i < TABLE_SIZE - 1 ==> accYears[i] == YearEntry(i)
    {
      hide YearEntry, YearLength, Leap;
      YearOne();
      var acc, year := 0, 1;
      while year <= MAX_YEAR
        invariant 1 <= year <= MAX_YEAR + 1 && acc == YearEntry(ZERO_YEAR + year - 1)
        invariant forall i :: ZERO_YEAR < i < ZERO_YEAR + year ==> accYears[i] == YearEntry(i)
      {
        var days := if Leap(year) then 366 else 365;
        assert days == YearLength(year) by { LengthByLeap(year); }
        EntryStep(ZERO_YEAR + year - 1);
        accYears[ZERO_YEAR + year] := acc + days;
        acc, year := acc + days, year + 1;
      }
      acc, year := 0, 0;
      accYears[ZERO_YEAR] := 0;
      while year > -ZERO_YEAR
        invariant -ZERO_YEAR <= year <= 0 && acc == YearEntry(ZERO_YEAR + year)
        invariant forall i :: ZERO_YEAR + year <= i < TABLE_SIZE - 1 ==> accYears[i] == YearEntry(i)
      {
        var days := if Leap(year) then 366 else 365;
        assert days == YearLength(year) by { LengthByLeap(year); }
        EntryStep(ZERO_YEAR + year - 1);
        accYears[ZERO_YEAR + year - 1] := acc - days;
        acc, year := acc - days, year - 1;
      }
    }

    // `GetDaysOfMonth`
    method DaysOfMonth(month: nat, leap: bool) returns (n: nat)
      requires Valid() && month < 12
      ensures n == MonthLength(month, leap)
    {
      n := if leap && month == 1 then 29 else daysOfMonth[month];
    }

    // `GetAccumulatedDaysByMonth`
    method AccumulatedDays(month: nat, leap: bool) returns (n: nat)
      requires Valid() && month < 12
      ensures n == DaysToMonth(month + 1, leap)
    {
      hide MonthLength;
      LeapMonths(month + 1);
      n := if leap && month > 0 then accMonths[month] + 1 else accMonths[month];
    }

    /**
      The binary search of `Set(ticks)`. It ends on the year that contains the day, without
      having read the entry that was never written.
    */
    method FindYear(deltaDays: int) returns (mid: int)
      requires Valid() && 0 <= deltaDays < YearEntry(TABLE_SIZE - 2) - YearEntry(0)
      ensures 0 <= mid < TABLE_SIZE - 2
      ensures YearEntry(mid) <= deltaDays + YearEntry(0) < YearEntry(mid + 1)
    {
      hide YearEntry, DaysToMonth, MonthLength;
      EntriesMonotone(TABLE_SIZE - 2, TABLE_SIZE - 1);
      var left, right := 0, TABLE_SIZE - 1;
      mid := (left + right) / 2;
      while right > left
        invariant 0 <= left < right <= TABLE_SIZE - 1 && mid == (left + right) / 2
        invariant YearEntry(left) <= deltaDays + YearEntry(0) < YearEntry(right)
        decreases right - left
      {
        if accYears[mid] - accYears[0] > deltaDays {
          right := mid;
        } else {
          assert mid + 1 < TABLE_SIZE - 1;    // the entry read next has been written
          if accYears[mid + 1] - accYears[0] <= deltaDays {
            left := mid + 1;
          } else {
            return;
          }
        }
        mid := (left + right) / 2;
      }
    }
  }

  // The months' part of `Set(ticks)`: the month and day of a day of the year
  method FindMonth(g: DateTimeConstData, dayOfYear: int, leap: bool) returns (month: nat, day: nat)
    requires g.Valid() && 1 <= dayOfYear <= DaysToMonth(12, leap)
    ensures 1 <= month <= 12 && 1 <= day <= MonthLength(month - 1, leap)
    ensures DaysToMonth(month - 1, leap) + day == dayOfYear
  {
    hide MonthLength;
    month, day := 1, dayOfYear;
    NoMonths(leap);
    var m := 2;
    while m <= 12
      invariant 2 <= m <= 13 && month == 1 && day == dayOfYear && (m > 2 ==> dayOfYear > DaysToMonth(m - 1, leap))
    {
      var before := g.AccumulatedDays((m - 1) - 1, leap);
      if dayOfYear <= before {
        break;
      }
      var upto := g.AccumulatedDays(m - 1, leap);
      if dayOfYear <= upto {
        month, day := m, dayOfYear - before;
        break;
      }
      m := m + 1;
    }
    assert DaysToMonth(1, leap) == MonthLength(0, leap);
  }

  lemma LengthByLeap(y: int)
    ensures YearLength(y) == if Leap(y) then 366 else 365
  {
  }

  lemma {:induction false} LeapMonths(m: nat)
    requires m <= 12
    ensures DaysToMonth(m, true) == DaysToMonth(m, false) + if m > 1 then 1 else 0
  {
    if m > 0 { LeapMonths(m - 1); }
  }

  function Clamp(lo: int, x: int, hi: int): int { if x < lo then lo else if x > hi then hi else x }

  // The year number without a year 0 that callers use, as an astronomical year
  function InnerYear(year: int): int { if year > 0 then year else year + 1 }

  /** What `Set(y, m, d, ...)` makes of its arguments. */
  function Clamped(year: int, month: int, day: int, hour: int, minute: int, second: int, milli: int): Fields {
    var y, m := Clamp(-ZERO_YEAR, InnerYear(year), MAX_YEAR), Clamp(1, month, 12);
    Fields(y, m, Clamp(1, day, MonthLength(m - 1, Leap(y))),
           Clamp(0, hour, 23), Clamp(0, minute, 59), Clamp(0, second, 59), Clamp(0, milli, 999), 0)
  }

  // Each field is its own argument, or the bound it has passed.
  lemma ClampedFields(y: int, mo: nat, d: nat, h: nat, mi: nat, s: nat, ms: nat)
    requires y >= -ZERO_YEAR
    ensures var f := Clamped(y, mo, d, h, mi, s, ms);
      && f.year == (if y <= 0 then y + 1 else if y > 9999 then 9999 else y)
      && f.month == (if mo == 0 then 1 else if mo > 12 then 12 else mo)
      && var len := MonthLength(f.month - 1, Leap(f.year));
      f.day == (if d == 0 then 1 else if d > len then len else d)
      && f.hour == (if h > 23 then 23 else h) && f.minute == (if mi > 59 then 59 else mi)
      && f.second == (if s > 59 then 59 else s) && f.milli == (if ms > 999 then 999 else ms) && f.rest == 0
  {
    hide Leap, MonthLength;
    var f := Clamped(y, mo, d, h, mi, s, ms);
    LongMonths(f.month - 1, Leap(f.year));
  }

  // The time of day and the day number in a number of ticks, as Set computes them
  lemma SplitTicks(delta: int)
    requires delta >= 0
    ensures var seconds := delta / 10000 / 1000;
      && delta == (seconds / 60 / 60 / 24) * DAY
         + (((((seconds / 60 / 60 % 24) * 60) + (seconds / 60 % 60)) * 60 + seconds % 60) * 1000
            + delta / 10000 % 1000) * 10000 + delta % 10000
      && 0 <= seconds / 60 / 60 % 24 < 24 && 0 <= seconds / 60 % 60 < 60 && 0 <= seconds % 60 < 60
      && 0 <= delta / 10000 % 1000 < 1000 && 0 <= delta % 10000 < 10000
      && 0 <= seconds / 60 / 60 / 24
  {
    var a := delta / 10000;
    var seconds := a / 1000;
    var minutes := seconds / 60;
    var hours := minutes / 60;
    assert delta == a * 10000 + delta % 10000;
    assert a == seconds * 1000 + a % 1000;
    assert seconds == minutes * 60 + seconds % 60;
    assert minutes == hours * 60 + minutes % 60;
    assert hours == (hours / 24) * 24 + hours % 24;
  }

  /** Ticks, weekday and day of the year that go with the fields. */
  ghost predicate Agrees(f: Fields, ticks: int, dayOfWeek: int, dayOfYear: int) {
    && ValidDate(f) && ValidTime(f)
    && ticks == TicksOf(f) && dayOfWeek == WeekDay(DayNumber(f)) && dayOfYear == DayOfYear(f)
  }

  lemma DaysInRange(delta: int, days: int, time: int)
    requires 0 <= delta <= MAX_TICKS - MIN_TICKS && delta == days * DAY + time && 0 <= time < DAY
    ensures 0 <= days < YearEntry(TABLE_SIZE - 2) - YearEntry(0)
  {
    hide DaysBefore;
    EntryOfYear(MIN_YEAR);
    EntryOfYear(MAX_YEAR + 1);
  }

  // The fields found from delta ticks after the earliest time
  lemma FoundFields(f: Fields, delta: int, days: int)
    requires ValidDate(f) && ValidTime(f) && DayNumber(f) == days + YearEntry(0) && delta == days * DAY + TimeTicks(f)
    ensures TicksOf(f) == MIN_TICKS + delta
  {
    hide DaysBefore, DayNumber, TimeTicks;
    EntryOfYear(MIN_YEAR);
  }

  class DateTime {
    var year: int
    var month: nat
    var day: nat
    var hour: nat
    var minute: nat
    var second: nat
    var millisecond: nat
    var remainingTicks: nat
    var ticks: int
    var dayOfWeek: int
    var dayOfYear: int

    function Value(): Fields
      reads this
    {
      Fields(year, month, day, hour, minute, second, millisecond, remainingTicks)
    }

    // The fields are a date and time of the calendar.
    ghost predicate InCalendar()
      reads this
    {
      ValidDate(Value()) && ValidTime(Value())
    }

    /** Ticks, weekday and day of the year agree with the fields. */
    ghost predicate Valid()
      reads this
    {
      Agrees(Value(), ticks, dayOfWeek, dayOfYear)
    }

    /** `UpdateSecondaryData`: ticks, weekday and day of the year from the fields. */
    method UpdateSecondaryData(g: DateTimeConstData)
      requires g.Valid() && InCalendar()
      modifies this`ticks, this`dayOfWeek, this`dayOfYear
      ensures Valid()
    {
      hide DaysBefore, Leap, MonthLength, DaysToMonth;
      var leap := Leap(year);
      dayOfYear := day;
      assert DaysToMonth(0, leap) == 0 by { NoMonths(leap); }
      if month > 1 {
        var n := g.AccumulatedDays((month - 1) - 1, leap);
        dayOfYear := dayOfYear + n;
      }
      var days := g.accYears[ZERO_YEAR + year - 1];
      assert days == DaysBefore(year) by { EntryOfYear(year); }
      days := days + (dayOfYear - 1);
      WeekDayByRem(days);
      dayOfWeek := (1 + 7 + Rem(days, 7)) % 7;
      ticks := ((((days * 24 + hour) * 60 + minute) * 60 + second) * 1000 + millisecond) * 10000 + remainingTicks;
    }

    /** `Set(y, m, d, ...)`: the nearest valid fields. */
    method SetFields(g: DateTimeConstData, y: int, mo: nat, d: nat, h: nat, mi: nat, s: nat, ms: nat)
      requires g.Valid() && y >= -ZERO_YEAR
      modifies this
      ensures Valid() && Value() == Clamped(y, mo, d, h, mi, s, ms)
      ensures year == if y <= 0 then y + 1 else if y > 9999 then 9999 else y
      ensures month == if mo == 0 then 1 else if mo > 12 then 12 else mo
      ensures var len := MonthLength(month - 1, Leap(year)); day == if d == 0 then 1 else if d > len then len else d
      ensures hour == if h > 23 then 23 else h
      ensures minute == if mi > 59 then 59 else mi
      ensures second == if s > 59 then 59 else s
      ensures millisecond == if ms > 999 then 999 else ms
      ensures remainingTicks == 0
      decreases if y == 0 then 4 else 0
    {
      hide Leap, MonthLength, Agrees, Clamp, ValidDate, ValidTime;
      ClampedValid(y, mo, d, h, mi, s, ms);
      ClampedFields(y, mo, d, h, mi, s, ms);
      if y == 0 {
        Set(g, 0);
      }
      var innerYear := if y > 0 then y else y + 1;
      var year', month' := Clamp(-ZERO_YEAR, innerYear, MAX_YEAR), Clamp(1, mo, 12);
      var n := g.DaysOfMonth(month' - 1, Leap(year'));
      Assign(Fields(year', month', Clamp(1, d, n), Clamp(0, h, 23), Clamp(0, mi, 59), Clamp(0, s, 59),
                    Clamp(0, ms, 999), 0));
      UpdateSecondaryData(g);
    }

    method Assign(f: Fields)
      modifies this`year, this`month, this`day, this`hour, this`minute, this`second, this`millisecond,
               this`remainingTicks
      ensures Value() == f
    {
      year, month, day := f.year, f.month, f.day;
      hour, minute, second, millisecond, remainingTicks := f.hour, f.minute, f.second, f.milli, f.rest;
    }

    constructor (g: DateTimeConstData, y: int, mo: nat, d: nat, h: nat, mi: nat, s: nat, ms: nat)
      requires g.Valid() && y >= -ZERO_YEAR
      ensures Valid() && Value() == Clamped(y, mo, d, h, mi, s, ms)
      decreases if y == 0 then 5 else 1
    {
      new;
      SetFields(g, y, mo, d, h, mi, s, ms);
    }

    static method MinValue(g: DateTimeConstData) returns (dt: DateTime)
      requires g.Valid()
      ensures fresh(dt) && dt.Valid() && dt.ticks == MIN_TICKS
      decreases 2
    {
      dt := new DateTime(g, -ZERO_YEAR, 1, 1, 0, 0, 0, 0);
      FirstTick();
    }

    static method MaxValue(g: DateTimeConstData) returns (dt: DateTime)
      requires g.Valid()
      ensures fresh(dt) && dt.Valid() && dt.ticks == MAX_TICKS
      decreases 2
    {
      hide Agrees, Clamped;
      dt := new DateTime(g, MAX_YEAR, 12, 31, 23, 59, 59, 999);
      LastTick();
      LaterTick(dt.Value(), dt.ticks, dt.dayOfWeek, dt.dayOfYear, 9999);
      dt.remainingTicks := 9999;
      dt.ticks := dt.ticks + dt.remainingTicks;
    }

    method CopyFrom(dt: DateTime)
      requires dt.Valid()
      modifies this
      ensures Valid() && Value() == old(dt.Value()) && ticks == old(dt.ticks)
    {
      hide Agrees;
      var t, w, n := dt.ticks, dt.dayOfWeek, dt.dayOfYear;
      Assign(Fields(dt.year, dt.month, dt.day, dt.hour, dt.minute, dt.second, dt.millisecond, dt.remainingTicks));
      ticks, dayOfWeek, dayOfYear := t, w, n;
    }

    /** `Set(ticks)`: the one valid date and time with these ticks, or the nearest in range. */
    method Set(g: DateTimeConstData, t: int)
      requires g.Valid()
      modifies this
      ensures Valid() && ticks == Clamp(MIN_TICKS, t, MAX_TICKS)
      decreases 3
    {
      hide DaysBefore, Leap, MonthLength, DaysToMonth, YearLength, YearEntry, WeekDay, DayOfYear,
           DayNumber, TicksOf, Agrees, ValidDate;
      var maxDt := MaxValue(g);
      if t > maxDt.ticks {
        RangeOrder();
        CopyFrom(maxDt);
        return;
      }
      var minDt := MinValue(g);
      if t < minDt.ticks {
        CopyFrom(minDt);
        return;
      }
      var delta := t - minDt.ticks;
      SetTime(delta);
      ghost var time := TimeTicks(Value());
      var deltaDays := delta / 10000 / 1000 / 60 / 60 / 24;
      TimeInDay(Value());
      DaysInRange(delta, deltaDays, time);
      SetDate(g, deltaDays);
      assert TimeTicks(Value()) == time;
      FoundFields(Value(), delta, deltaDays);
      ticks := t;
      AgreesIntro(Value(), t, dayOfWeek, dayOfYear);
    }

    // The time part of `Set(ticks)`
    method SetTime(delta: int)
      requires delta >= 0
      modifies this`hour, this`minute, this`second, this`millisecond,
               this`remainingTicks
      ensures ValidTime(Value()) && delta == (delta / 10000 / 1000 / 60 / 60 / 24) * DAY + TimeTicks(Value())
    {
      SplitTicks(delta);
      var seconds := delta / 10000 / 1000;
      remainingTicks := delta % 10000;
      millisecond := delta / 10000 % 1000;
      second := seconds % 60;
      minute := seconds / 60 % 60;
      hour := seconds / 60 / 60 % 24;
    }

    /**
      `AddMonths`: the month count moves by exactly n, the day is cut to the month's length and
      the time of day stays. The resulting year must be one that has a table entry, and the sum of
      month and n must fit its 32-bit int.
    */
    method AddMonths(g: DateTimeConstData, n: int32)
      requires g.Valid() && Valid()
      requires 12 * year + month + n >= 12 * MIN_YEAR + 1 && month - 1 + n < 0x8000_0000
      modifies this
      ensures Valid()
      ensures 12 * old(year) + old(month) + n <= 12 * MAX_YEAR + 12 ==>
        12 * year + month == 12 * old(year) + old(month) + n
      ensures 12 * old(year) + old(month) + n > 12 * MAX_YEAR + 12 ==>
        year == MAX_YEAR && (month - old(month) - n) % 12 == 0
      ensures var len := MonthLength(month - 1, Leap(year)); day == if old(day) <= len then old(day) else len
      ensures TimeTicks(Value()) == TimeTicks(old(Value()))
    {
      hide Leap, MonthLength, TicksOf, WeekDay, DayOfYear, DayNumber;
      var months := Int32(month - 1 + n);
      var year' := year + Quo(months, 12);
      var month' := 1 + Rem(months, 12);
      if month' <= 0 {
        month' := month' + 12;
        year' := year' - 1;
      }
      MonthArithmetic(year, month, n, year', month');
      year' := Clamp(-ZERO_YEAR, year', MAX_YEAR);
      var len := g.DaysOfMonth(month' - 1, Leap(year'));
      LongMonths(month' - 1, Leap(year'));
      Assign(Value().(year := year', month := month', day := Clamp(1, day, len)));
      UpdateSecondaryData(g);
    }

    // The date part of `Set(ticks)`, from the number of days since the earliest one
    method SetDate(g: DateTimeConstData, deltaDays: int)
      requires g.Valid() && 0 <= deltaDays < YearEntry(TABLE_SIZE - 2) - YearEntry(0)
      modifies this`year, this`month, this`day, this`dayOfYear, this`dayOfWeek
      ensures ValidDate(Value()) && DayNumber(Value()) == deltaDays + YearEntry(0)
      ensures dayOfYear == DayOfYear(Value()) && dayOfWeek == WeekDay(DayNumber(Value()))
    {
      hide DaysBefore, Leap, MonthLength, DaysToMonth, YearLength, YearEntry, WeekDay;
      var mid := g.FindYear(deltaDays);
      year := mid - ZERO_YEAR + 1;
      EntryOfYear(year);
      EntryStep(mid);
      dayOfYear := 1 + (deltaDays - (g.accYears[mid] - g.accYears[0]));
      WholeYear(year);
      WeekDayByRem(deltaDays + g.accYears[0]);
      dayOfWeek := (1 + 7 + Rem(deltaDays + g.accYears[0], 7)) % 7;
      var mo, d := FindMonth(g, dayOfYear, Leap(year));
      month, day := mo, d;
    }
  }

  lemma LongMonths(m: nat, leap: bool)
    requires m < 12
    ensures 28 <= MonthLength(m, leap) <= 31
  {
  }

  // Truncating division with the correction is division rounding down.
  lemma MonthArithmetic(year: int, month: int, n: int, year': int, month': int)
    requires var q, r := Quo(month - 1 + n, 12), 1 + Rem(month - 1 + n, 12);
      if r <= 0 then year' == year + q - 1 && month' == r + 12 else year' == year + q && month' == r
    ensures 1 <= month' <= 12 && 12 * year' + month' == 12 * year + month + n
  {
  }

  lemma FirstTick()
    ensures Clamped(-ZERO_YEAR, 1, 1, 0, 0, 0, 0) == Fields(MIN_YEAR, 1, 1, 0, 0, 0, 0, 0)
    ensures TicksOf(Fields(MIN_YEAR, 1, 1, 0, 0, 0, 0, 0)) == MIN_TICKS
  {
  }

  lemma LastTick()
    ensures Clamped(MAX_YEAR, 12, 31, 23, 59, 59, 999) == Fields(MAX_YEAR, 12, 31, 23, 59, 59, 999, 0)
    ensures TicksOf(Fields(MAX_YEAR, 12, 31, 23, 59, 59, 999, 0)) + 9999 == MAX_TICKS
  {
    YearStep(MAX_YEAR);
    WholeYear(MAX_YEAR);
    assert DaysToMonth(12, false) == DaysToMonth(11, false) + 31;
  }

  lemma AgreesIntro(f: Fields, ticks: int, dayOfWeek: int, dayOfYear: int)
    requires ValidDate(f) && ValidTime(f)
    requires ticks == TicksOf(f) && dayOfWeek == WeekDay(DayNumber(f)) && dayOfYear == DayOfYear(f)
    ensures Agrees(f, ticks, dayOfWeek, dayOfYear)
  {
  }

  // Ticks below the millisecond do not touch the date.
  lemma LaterTick(f: Fields, ticks: int, dayOfWeek: int, dayOfYear: int, n: nat)
    requires Agrees(f, ticks, dayOfWeek, dayOfYear) && f.rest == 0 && n < 10000
    ensures Agrees(f.(rest := n), ticks + n, dayOfWeek, dayOfYear) && ticks == TicksOf(f)
  {
    hide DaysBefore, Leap, MonthLength, DaysToMonth, WeekDay;
  }

  lemma ClampedValid(y: int, mo: nat, d: nat, h: nat, mi: nat, s: nat, ms: nat)
    requires y >= -ZERO_YEAR
    ensures var f := Clamped(y, mo, d, h, mi, s, ms); ValidDate(f) && ValidTime(f)
    ensures 1 <= Clamp(1, mo, 12) <= 12 && forall n :: n > 0 ==> 1 <= Clamp(1, d, n) <= n
    ensures Clamp(0, h, 23) >= 0 && Clamp(0, mi, 59) >= 0 && Clamp(0, s, 59) >= 0 && Clamp(0, ms, 999) >= 0
    ensures MonthLength(Clamp(1, mo, 12) - 1, Leap(Clamp(-ZERO_YEAR, InnerYear(y), MAX_YEAR))) > 0
  {
    hide Leap;
  }

  lemma RangeOrder()
    ensures MIN_TICKS <= MAX_TICKS
  {
  }

  lemma NoMonths(leap: bool)
    ensures DaysToMonth(0, leap) == 0
  {
  }

  lemma EntryOfYear(year: int)
    ensures YearEntry(ZERO_YEAR + year - 1) == DaysBefore(year)
  {
    hide DaysBefore;
    assert (ZERO_YEAR + year - 1) - ZERO_YEAR + 1 == year;
  }

  /** Every tick in range comes back from the fields it yields, and so does its weekday. */
  method TicksRoundTrip(g: DateTimeConstData, t: int) returns (dt: DateTime)
    requires g.Valid() && MIN_TICKS <= t <= MAX_TICKS
    ensures fresh(dt) && dt.Valid() && dt.ticks == t
  {
    hide Agrees, Clamped;
    dt := new DateTime(g, 1, 1, 1, 0, 0, 0, 0);
    dt.Set(g, t);
    ghost var f, w := dt.Value(), dt.dayOfWeek;
    AgreesParts(f, t, w, dt.dayOfYear);
    dt.UpdateSecondaryData(g);
    AgreesParts(f, dt.ticks, dt.dayOfWeek, dt.dayOfYear);
    assert dt.dayOfWeek == w;
  }

  /** Every valid date and time comes back from its ticks. */
  method FieldsRoundTrip(g: DateTimeConstData, f: Fields) returns (dt: DateTime)
    requires g.Valid() && ValidDate(f) && ValidTime(f)
    ensures fresh(dt) && dt.Valid() && dt.Value() == f
  {
    hide Agrees, Clamped, MonthLength, Leap, DayNumber, TimeTicks;
    dt := new DateTime(g, 1, 1, 1, 0, 0, 0, 0);
    TicksInRange(f);
    dt.Set(g, TicksOf(f));
    AgreesParts(dt.Value(), dt.ticks, dt.dayOfWeek, dt.dayOfYear);
    TicksUnique(f, dt.Value());
  }

  lemma AgreesParts(f: Fields, ticks: int, dayOfWeek: int, dayOfYear: int)
    requires Agrees(f, ticks, dayOfWeek, dayOfYear)
    ensures ValidDate(f) && ValidTime(f) && ticks == TicksOf(f)
    ensures dayOfWeek == WeekDay(DayNumber(f)) && dayOfYear == DayOfYear(f)
  {
  }

  // ---------------------------------------------------------------- the years that have an entry

  // The table index that UpdateSecondaryData reads for a year, once it has been clamped
  function TableIndex(year: int): int { ZERO_YEAR + Clamp(-ZERO_YEAR, year, MAX_YEAR) - 1 }

  /** `Set(y, ...)` reads a written entry if and only if y is at least -9999; -10000 reads entry -1. */
  lemma SetInTable(y: int)
    ensures 0 <= TableIndex(InnerYear(y)) < TABLE_SIZE - 1 <==> y >= -ZERO_YEAR
    ensures TableIndex(InnerYear(-10000)) == -1
  {
  }

  // The year that AddMonths computes before clamping, with the sum of the months in 32 bits
  function MovedYear(year: int, month: nat, n: int32): int {
    var months := Int32(month - 1 + n);
    var q, r := Quo(months, 12), 1 + Rem(months, 12);
    if r <= 0 then year + q - 1 else year + q
  }

  /**
    `AddMonths` reads a written entry if and only if it does not go back before the first month
    of the earliest year and the sum of the months does not overflow. One month back from the
    earliest month reads entry -1.
  */
  lemma AddMonthsInTable(year: int, month: nat, n: int32)
    requires 1 <= month <= 12 && MIN_YEAR <= year <= MAX_YEAR
    ensures 0 <= TableIndex(MovedYear(year, month, n)) < TABLE_SIZE - 1 <==>
      12 * year + month + n >= 12 * MIN_YEAR + 1 && month - 1 + n < 0x8000_0000
    ensures TableIndex(MovedYear(MIN_YEAR, 1, -1)) == -1
  {
    MovedMonths(year, month, n);
    MovedMonths(MIN_YEAR, 1, -1);
  }

  // The year reached is the one the reduced number of months leads to.
  lemma MovedMonths(year: int, month: nat, n: int32)
    ensures 1 <= 12 * year + 1 + Int32(month - 1 + n) - 12 * MovedYear(year, month, n) <= 12
  {
    hide Quo, Rem;
    var months := Int32(month - 1 + n);
    var r := 1 + Rem(months, 12);
    MonthArithmetic(year, 1, months, MovedYear(year, month, n), if r <= 0 then r + 12 else r);
  }

  /**
    December plus 2147483647 months: the sum is reduced to -2147483638, the year falls below the
    earliest one whatever it was, and entry -1 is read where the last one was due.
  */
  lemma DecemberOverflows(year: int)
    requires MIN_YEAR <= year <= MAX_YEAR
    ensures Int32(12 - 1 + 2147483647) == -2147483638
    ensures TableIndex(MovedYear(year, 12, 2147483647)) == -1
  {
    MovedMonths(year, 12, 2147483647);
  }
}
