/** The calendar with its month lengths and its leap years written out. */
module CalendarDays {
  import opened Values
  import opened Calendar

  /** A year divisible by 4 and not by 100, or by 400. */
  predicate HasLeapDay(year: int) {
    (year % 4 == 0 && year % 100 != 0) || year % 400 == 0
  }

  /** Days of the year before its months, in a year without a leap day. */
  const DAYS_BEFORE: seq<int> := [0, 31, 59, 90, 120, 151, 181, 212, 243, 273, 304, 334]

  /** The first of a month is that many days after 1 January, and one more after February in
      a leap year. */
  lemma {:induction false} MonthsBegin(year: int, month: int)
    requires 1 <= month <= 12
    ensures DayNumber(year, month, 1) - DayNumber(year, 1, 1) ==
              DAYS_BEFORE[month - 1] + if month > 2 && HasLeapDay(year) then 1 else 0
    decreases month
  {
    if month > 1 {
      MonthsBegin(year, month - 1);
      MonthIsThatLong(year, month - 1);
    }
  }

  lemma MonthIsThatLong(year: int, month: int)
    requires 1 <= month < 12
    ensures DayNumber(year, month + 1, 1) - DayNumber(year, month, 1) ==
              DAYS_BEFORE[month] - DAYS_BEFORE[month - 1] + if month == 2 && HasLeapDay(year) then 1 else 0
  {
    LengthOfMonth(year, month);
    MonthEnds(year, month);
    DayNumberOfDate(year, month, 1);
  }

  lemma LengthOfMonth(year: int, month: int)
    requires 1 <= month < 12
    ensures DaysInMonth(year, month) == DAYS_BEFORE[month] - DAYS_BEFORE[month - 1] + if month == 2 && HasLeapDay(year) then 1 else 0
  {
    LeapRule(year);
  }

  lemma LeapRule(year: int)
    ensures IsLeap(year) <==> HasLeapDay(year)
  {
    if year % 400 == 0 {
      CycleYears(year);
      CenturyYears(year);
    }
  }

  /** A year has 365 days, and a leap year 366. */
  lemma YearsBegin(year: int)
    ensures DayNumber(year + 1, 1, 1) - DayNumber(year, 1, 1) == if HasLeapDay(year) then 366 else 365
  {
    DayNumberOfDate(year, 1, 1);
    DayNumberOfDate(year + 1, 1, 1);
    LeapRule(year);
    YearLength(year);
  }

  predicate IsMonthEnd(f: Fields) {
    match f.month
    case 1 => f.day == 31
    case 2 => f.day == if HasLeapDay(f.year) then 29 else 28
    case 3 => f.day == 31
    case 4 => f.day == 30
    case 5 => f.day == 31
    case 6 => f.day == 30
    case 7 => f.day == 31
    case 8 => f.day == 31
    case 9 => f.day == 30
    case 10 => f.day == 31
    case 11 => f.day == 30
    case _ => f.day == 31
  }

  function NextDay(f: Fields): Fields {
    if !IsMonthEnd(f) then f.(day := f.day + 1)
    else if f.month != 12 then f.(month := f.month + 1, day := 1)
    else f.(year := f.year + 1, month := 1, day := 1)
  }

  /** What a clock does in a second. */
  function Tick(f: Fields): Fields {
    if f.seconds != 59 then f.(seconds := f.seconds + 1)
    else if f.minutes != 59 then f.(minutes := f.minutes + 1, seconds := 0)
    else if f.hours != 23 then f.(hours := f.hours + 1, minutes := 0, seconds := 0)
    else NextDay(f.(hours := 0, minutes := 0, seconds := 0))
  }

  lemma MonthEnd(f: Fields)
    requires Normal(f)
    ensures IsMonthEnd(f) <==> f.day == DaysInMonth(f.year, f.month)
  {
    LeapRule(f.year);
  }

  lemma NextDayIsNormal(f: Fields)
    requires Normal(f)
    ensures Normal(NextDay(f))
  {
    MonthEnd(f);
  }

  lemma NextDayIsNext(f: Fields)
    requires Normal(f)
    ensures DayNumber(NextDay(f).year, NextDay(f).month, NextDay(f).day) == DayNumber(f.year, f.month, f.day) + 1
  {
    MonthEnd(f);
    DayNumberOfDate(f.year, f.month, f.day);
    if !IsMonthEnd(f) {
      DayNumberOfDate(f.year, f.month, f.day + 1);
    } else if f.month == 12 {
      YearEnds(f.year);
    } else {
      MonthEnds(f.year, f.month);
    }
  }

  lemma MonthEnds(year: int, month: int)
    requires 1 <= month < 12
    ensures DayNumber(year, month + 1, 1) == DaysBeforeYear(year) + DaysBeforeMonth(year, month) + DaysInMonth(year, month)
  {
    DayNumberOfDate(year, month + 1, 1);
  }

  lemma YearEnds(year: int)
    ensures DayNumber(year + 1, 1, 1) == DaysBeforeYear(year) + DaysBeforeMonth(year, 12) + DaysInMonth(year, 12)
  {
    DayNumberOfDate(year + 1, 1, 1);
    YearLength(year);
    MonthsFillYear(year);
    assert DaysBeforeMonth(year, 13) == DaysBeforeMonth(year, 12) + DaysInMonth(year, 12);
  }

  lemma NextDayDenotes(f: Fields)
    requires Normal(f)
    ensures Normal(NextDay(f)) && UtcSeconds(NextDay(f)) == UtcSeconds(f) + 86400
  {
    NextDayIsNormal(f);
    NextDayIsNext(f);
  }

  lemma TickDenotes(f: Fields)
    requires Normal(f)
    ensures Normal(Tick(f)) && UtcSeconds(Tick(f)) == UtcSeconds(f) + 1
  {
    if f.seconds == 59 && f.minutes == 59 && f.hours == 23 {
      NextDayDenotes(f.(hours := 0, minutes := 0, seconds := 0));
    }
  }

  lemma GmtimeIs(t: int, f: Fields)
    requires Normal(f) && UtcSeconds(f) == t
    ensures Gmtime(t) == f
  {
    GmtimeIsInverse(f);
  }

  /** A day later it is the next day at the same time. */
  lemma DaysPass(t: int)
    ensures Gmtime(t + 86400) == NextDay(Gmtime(t))
  {
    GmtimeDenotes(t);
    NextDayDenotes(Gmtime(t));
    GmtimeIs(t + 86400, NextDay(Gmtime(t)));
  }

  /** Time 0 is the start of 1970, and each second the clock ticks: this determines the fields
      of every time. */
  lemma ClockTicks(t: int)
    ensures Gmtime(0) == Fields(1970, 1, 1, 0, 0, 0)
    ensures Gmtime(t + 1) == Tick(Gmtime(t))
  {
    EpochIsZero();
    GmtimeIs(0, Fields(1970, 1, 1, 0, 0, 0));
    GmtimeDenotes(t);
    TickDenotes(Gmtime(t));
    GmtimeIs(t + 1, Tick(Gmtime(t)));
  }

  /** Fields out of range carry into the next larger unit, as mktime takes them. */
  lemma FieldsCarry(f: Fields, k: int)
    ensures UtcSeconds(f.(seconds := f.seconds + 60 * k)) == UtcSeconds(f.(minutes := f.minutes + k))
    ensures UtcSeconds(f.(minutes := f.minutes + 60 * k)) == UtcSeconds(f.(hours := f.hours + k))
    ensures UtcSeconds(f.(hours := f.hours + 24 * k)) == UtcSeconds(f.(day := f.day + k))
    ensures UtcSeconds(f.(month := f.month + 12 * k)) == UtcSeconds(f.(year := f.year + k))
  {
    assert (f.month + 12 * k - 1) / 12 == (f.month - 1) / 12 + k;
    assert (f.month + 12 * k - 1) % 12 == (f.month - 1) % 12;
  }
}
