/** Calendar arithmetic of the C runtime in a zone with a fixed offset.  mktime, gmtime and
    localtime are taken as in section 7.23.2.3 of ISO/IEC 9899:1999, on the proleptic
    Gregorian calendar. */
module Calendar {
  import opened Options
  import opened Numbers
  import opened Values

  const SECONDS_PER_DAY := 86400

  // ------------------------------------------------------------ days

  predicate IsLeap(y: int) {
    y % 4 == 0 && (y % 100 != 0 || y % 400 == 0)
  }

  /** Days from 1 January of year 1 to 1 January of year y. */
  function DaysBeforeYear(y: int): int {
    365 * (y - 1) + (y - 1) / 4 - (y - 1) / 100 + (y - 1) / 400
  }

  function DaysInMonth(y: int, m: int): int
    requires 1 <= m <= 12
  {
    if m == 2 then (if IsLeap(y) then 29 else 28) else if m == 4 || m == 6 || m == 9 || m == 11 then 30 else 31
  }

  function DaysBeforeMonth(y: int, m: int): int
    requires 1 <= m <= 13
    decreases m
  {
    if m == 1 then 0 else DaysBeforeMonth(y, m - 1) + DaysInMonth(y, m - 1)
  }

  /** The number of a date; a month outside 1..12 carries into the year. */
  function DayNumber(y: int, m: int, d: int): int {
    var year := y + (m - 1) / 12;
    DaysBeforeYear(year) + DaysBeforeMonth(year, (m - 1) % 12 + 1) + d - 1
  }

  /** The broken-down fields of a time. */
  datatype Fields = Fields(year: int, month: int, day: int, hours: int, minutes: int, seconds: int)

  ghost predicate Normal(f: Fields) {
    && 1 <= f.month <= 12 && 1 <= f.day <= DaysInMonth(f.year, f.month)
    && 0 <= f.hours < 24 && 0 <= f.minutes < 60 && 0 <= f.seconds < 60
  }

  const EPOCH_DAY := DayNumber(1970, 1, 1)

  /** Seconds since the epoch if the fields are read as UTC, whatever their ranges. */
  function UtcSeconds(f: Fields): int {
    (DayNumber(f.year, f.month, f.day) - EPOCH_DAY) * SECONDS_PER_DAY + f.hours * 3600 + f.minutes * 60 + f.seconds
  }

  /** The last year from y on that begins by the given day. */
  function YearFrom(y: int, days: int): (r: int)
    requires DaysBeforeYear(y) <= days
    ensures DaysBeforeYear(r) <= days < DaysBeforeYear(r + 1)
    decreases days - DaysBeforeYear(y)
  {
    if days < DaysBeforeYear(y + 1) then y else YearFrom(y + 1, days)
  }

  /** The last month from m on that begins by the given day of the year. */
  function MonthFrom(y: int, m: int, day: int): (r: int)
    requires 1 <= m <= 12 && DaysBeforeMonth(y, m) <= day < DaysBeforeMonth(y, 13)
    ensures 1 <= r <= 12 && DaysBeforeMonth(y, r) <= day < DaysBeforeMonth(y, r + 1)
    decreases 12 - m
  {
    if m == 12 || day < DaysBeforeMonth(y, m + 1) then m else MonthFrom(y, m + 1, day)
  }

  lemma YearLength(y: int)
    ensures DaysBeforeYear(y + 1) == DaysBeforeYear(y) + if IsLeap(y) then 366 else 365
  {
    FourthYears(y);
    CenturyYears(y);
    CycleYears(y);
  }

  lemma FourthYears(y: int)
    ensures y / 4 == (y - 1) / 4 + if y % 4 == 0 then 1 else 0
  {
  }

  lemma CenturyYears(y: int)
    ensures y / 100 == (y - 1) / 100 + if y % 100 == 0 then 1 else 0
    ensures y % 100 == 0 ==> y % 4 == 0
  {
  }

  lemma CycleYears(y: int)
    ensures y / 400 == (y - 1) / 400 + if y % 400 == 0 then 1 else 0
    ensures y % 400 == 0 ==> y % 100 == 0
  {
  }

  lemma MonthsFillYear(y: int)
    ensures DaysBeforeMonth(y, 13) == if IsLeap(y) then 366 else 365
  {
    assert DaysBeforeMonth(y, 3) == 31 + DaysInMonth(y, 2);
    assert DaysBeforeMonth(y, 5) == DaysBeforeMonth(y, 3) + 61;
    assert DaysBeforeMonth(y, 7) == DaysBeforeMonth(y, 5) + 61;
    assert DaysBeforeMonth(y, 9) == DaysBeforeMonth(y, 7) + 62;
    assert DaysBeforeMonth(y, 11) == DaysBeforeMonth(y, 9) + 61;
  }

  /** 400 years have a whole number of days, so a search can start at a cycle. */
  lemma CycleStart(days: int)
    ensures DaysBeforeYear(1 + 400 * (days / 146097)) <= days
  {
    var k := days / 146097;
    assert (400 * k) / 4 == 100 * k && (400 * k) / 100 == 4 * k && (400 * k) / 400 == k;
  }

  /** gmtime: the fields of a time. */
  function Gmtime(t: int): Fields {
    var days := t / SECONDS_PER_DAY + EPOCH_DAY;
    var rest := t % SECONDS_PER_DAY;
    CycleStart(days);
    var year := YearFrom(1 + 400 * (days / 146097), days);
    var dayOfYear := days - DaysBeforeYear(year);
    YearLength(year);
    MonthsFillYear(year);
    var month := MonthFrom(year, 1, dayOfYear);
    Fields(year, month, dayOfYear - DaysBeforeMonth(year, month) + 1, rest / 3600, rest / 60 % 60, rest % 60)
  }

  /** gmtime yields normal fields that denote the time. */
  lemma GmtimeDenotes(t: int)
    ensures Normal(Gmtime(t)) && UtcSeconds(Gmtime(t)) == t
  {
    var f := Gmtime(t);
    var rest := t % SECONDS_PER_DAY;
    assert DaysBeforeMonth(f.year, f.month + 1) == DaysBeforeMonth(f.year, f.month) + DaysInMonth(f.year, f.month);
    DayNumberOfDate(f.year, f.month, f.day);
    ClockFields(rest);
  }

  lemma ClockFields(rest: nat)
    ensures rest == rest / 3600 * 3600 + rest / 60 % 60 * 60 + rest % 60
  {
    var (hours, left) := (rest / 3600, rest % 3600);
    assert rest / 60 == 60 * hours + left / 60 && 0 <= left / 60 < 60;
  }

  lemma {:induction false} YearsIncrease(y: int, z: int)
    requires y < z
    ensures DaysBeforeYear(y + 1) <= DaysBeforeYear(z)
    decreases z - y
  {
    if y + 1 < z {
      YearLength(z - 1);
      YearsIncrease(y, z - 1);
    }
  }

  lemma {:induction false} MonthsIncrease(y: int, m: int, n: int)
    requires 1 <= m < n <= 13
    ensures DaysBeforeMonth(y, m) + DaysInMonth(y, m) <= DaysBeforeMonth(y, n)
    decreases n - m
  {
    if m + 1 < n {
      MonthsIncrease(y, m, n - 1);
    }
  }

  /** Different normal dates have different day numbers. */
  lemma DateIsUnique(y: int, m: int, d: int, z: int, n: int, e: int)
    requires 1 <= m <= 12 && 1 <= d <= DaysInMonth(y, m) && 1 <= n <= 12 && 1 <= e <= DaysInMonth(z, n)
    requires DayNumber(y, m, d) == DayNumber(z, n, e)
    ensures y == z && m == n && d == e
  {
    WithinYear(y, m, d);
    WithinYear(z, n, e);
    if y < z { YearsIncrease(y, z); }
    if z < y { YearsIncrease(z, y); }
    if m < n { MonthsIncrease(y, m, n); }
    if n < m { MonthsIncrease(y, n, m); }
  }

  lemma WithinYear(y: int, m: int, d: int)
    requires 1 <= m <= 12 && 1 <= d <= DaysInMonth(y, m)
    ensures DayNumber(y, m, d) == DaysBeforeYear(y) + DaysBeforeMonth(y, m) + d - 1
    ensures DaysBeforeYear(y) <= DayNumber(y, m, d) < DaysBeforeYear(y + 1)
  {
    DayNumberOfDate(y, m, d);
    DayOfYearBounds(y, m, d);
    YearLength(y);
  }

  lemma DayNumberOfDate(y: int, m: int, d: int)
    requires 1 <= m <= 12
    ensures DayNumber(y, m, d) == DaysBeforeYear(y) + DaysBeforeMonth(y, m) + d - 1
  {
    MonthIsNormal(m);
  }

  lemma MonthIsNormal(m: int)
    requires 1 <= m <= 12
    ensures (m - 1) / 12 == 0 && (m - 1) % 12 + 1 == m
  {
  }

  lemma DayOfYearBounds(y: int, m: int, d: int)
    requires 1 <= m <= 12 && 1 <= d <= DaysInMonth(y, m)
    ensures 0 <= DaysBeforeMonth(y, m) + d - 1 < if IsLeap(y) then 366 else 365
  {
    MonthsFillYear(y);
    if m < 12 {
      MonthsIncrease(y, m, 13);
    }
    if 1 < m {
      MonthsIncrease(y, 1, m);
    }
  }

  /** Normal fields are determined by the time they denote. */
  lemma GmtimeIsInverse(f: Fields)
    requires Normal(f)
    ensures Gmtime(UtcSeconds(f)) == f
  {
    var t := UtcSeconds(f);
    var g := Gmtime(t);
    GmtimeDenotes(t);
    var a := f.hours * 3600 + f.minutes * 60 + f.seconds;
    var b := g.hours * 3600 + g.minutes * 60 + g.seconds;
    var c := DayNumber(f.year, f.month, f.day) - EPOCH_DAY;
    var e := DayNumber(g.year, g.month, g.day) - EPOCH_DAY;
    assert 0 <= a < SECONDS_PER_DAY && 0 <= b < SECONDS_PER_DAY;
    assert c * SECONDS_PER_DAY + a == e * SECONDS_PER_DAY + b;
    assert c == e && a == b;
    DateIsUnique(f.year, f.month, f.day, g.year, g.month, g.day);
  }

  // ------------------------------------------------------ the fixed-offset zone

  /** localtime and mktime in a zone whose clocks show UTC plus `offset` seconds. */
  function Localtime(t: int, offset: int): Fields {
    Gmtime(t + offset)
  }

  function Mktime(f: Fields, offset: int): int {
    UtcSeconds(f) - offset
  }

  /** mktime also brings its argument into range. */
  function Normalized(f: Fields, offset: int): Fields {
    Localtime(Mktime(f, offset), offset)
  }

  function FieldsOf(d: DateTime): Fields {
    Fields(d.year, d.month, d.day, d.hours, d.minutes, d.seconds)
  }

  function MicrosecondsOfSeconds(s: int): int {
    s * MICROSECONDS_PER_SECOND
  }

  /** nvipfix_datetime_to_ctime. */
  function DatetimeToCtime(d: DateTime, offset: int): int {
    Mktime(FieldsOf(d), offset)
  }

  /** nvipfix_ctime_to_datetime: the fields of gmtime are put through mktime as if local. */
  function CtimeToDatetime(t: int, offset: int): DateTime {
    var local, utc := Localtime(t, offset), Gmtime(t);
    DateTime(local.year, local.month, local.day, local.hours, local.minutes, local.seconds, 0,
             Timespan(MicrosecondsOfSeconds(Mktime(utc, offset) - t), true), true)
  }

  /** nvipfix_datetime_add_timespan: the truncated seconds are added to an int member of the
      broken-down time, which mktime then normalizes. */
  function AddTimespan(d: DateTime, span: Timespan, offset: int): (int, DateTime) {
    var f := FieldsOf(d).(seconds := ToInt32(d.seconds + TruncDiv(span.microseconds, MICROSECONDS_PER_SECOND)));
    var n := Normalized(f, offset);
    (Mktime(f, offset),
     d.(year := n.year, month := n.month, day := n.day, hours := n.hours, minutes := n.minutes, seconds := n.seconds, milliseconds := 0))
  }

  /** nvipfix_datetime_get_seconds_since_epoch.  The difference is a floating-point number that
      is converted to an unsigned 32-bit one: outside that range the language leaves the result
      undefined (section 6.3.1.4 of ISO/IEC 9899:1999). */
  function SecondsSinceEpoch(d: DateTime, year: int, month: int, offset: int): Option<nat> {
    var difference := Mktime(FieldsOf(d), offset) - Mktime(Fields(year, month, 1, 0, 0, 0), offset);
    if 0 <= difference < U32 then Some(difference) else None
  }

  /** A time survives the way to a date-time and back, and the stored offset is what turns
      the local fields into UTC. */
  lemma CtimeRoundTrip(t: int, offset: int)
    ensures var d := CtimeToDatetime(t, offset);
      && DatetimeToCtime(d, offset) == t
      && Normal(FieldsOf(d))
      && UtcSeconds(FieldsOf(d)) + GetSeconds(d.tzOffset) == t
      && GetSeconds(d.tzOffset) == -offset
      && d.tzOffset.hasValue && d.hasValue && d.milliseconds == 0
  {
    GmtimeDenotes(t);
    LocaltimeDenotes(t, offset);
    assert FieldsOf(CtimeToDatetime(t, offset)) == Localtime(t, offset);
    WholeSeconds(-offset);
  }

  lemma WholeSeconds(s: int)
    ensures TruncDiv(MicrosecondsOfSeconds(s), MICROSECONDS_PER_SECOND) == s
  {
  }

  /** A normal date-time survives the way to a time and back in all six fields. */
  lemma DatetimeCtimeRoundTrip(d: DateTime, offset: int)
    requires Normal(FieldsOf(d))
    ensures FieldsOf(CtimeToDatetime(DatetimeToCtime(d, offset), offset)) == FieldsOf(d)
  {
    LocaltimeIsInverse(FieldsOf(d), offset);
    FieldsOfCtime(DatetimeToCtime(d, offset), offset);
  }

  lemma LocaltimeIsInverse(f: Fields, offset: int)
    requires Normal(f)
    ensures Localtime(Mktime(f, offset), offset) == f
  {
    GmtimeIsInverse(f);
    assert Mktime(f, offset) + offset == UtcSeconds(f);
  }

  /** Adding a span gives the old time plus its whole seconds exactly when the seconds member
      can hold the sum; either way the new fields are normal and denote the time returned,
      and the offset is kept. */
  lemma AddTimespanMoves(d: DateTime, span: Timespan, offset: int)
    ensures var (result, e) := AddTimespan(d, span, offset); var delta := TruncDiv(span.microseconds, MICROSECONDS_PER_SECOND);
      && (result == DatetimeToCtime(d, offset) + delta <==> -0x8000_0000 <= d.seconds + delta < 0x8000_0000)
      && Normal(FieldsOf(e)) && DatetimeToCtime(e, offset) == result
      && e.tzOffset == d.tzOffset && e.milliseconds == 0 && e.hasValue == d.hasValue
  {
    var s := ToInt32(d.seconds + TruncDiv(span.microseconds, MICROSECONDS_PER_SECOND));
    var f := FieldsOf(d).(seconds := s);
    SecondsCount(FieldsOf(d), s);
    LocaltimeDenotes(Mktime(f, offset), offset);
    assert FieldsOf(AddTimespan(d, span, offset).1) == Normalized(f, offset);
  }

  lemma LocaltimeDenotes(t: int, offset: int)
    ensures Normal(Localtime(t, offset)) && Mktime(Localtime(t, offset), offset) == t
  {
    GmtimeDenotes(t + offset);
  }

  lemma FieldsOfCtime(t: int, offset: int)
    ensures FieldsOf(CtimeToDatetime(t, offset)) == Localtime(t, offset)
  {
  }

  lemma SecondsCount(f: Fields, s: int)
    ensures UtcSeconds(f.(seconds := s)) == UtcSeconds(f) + s - f.seconds
  {
  }

  /** Adding a span and then its opposite leads back to the same time. */
  lemma AddThenSubtract(d: DateTime, span: Timespan, offset: int)
    requires var delta := TruncDiv(span.microseconds, MICROSECONDS_PER_SECOND);
      -0x8000_0000 <= d.seconds + delta < 0x8000_0000 && -0x7fff_ff00 <= delta <= 0x7fff_ff00
    ensures AddTimespan(AddTimespan(d, span, offset).1, Timespan(-span.microseconds, true), offset).0 == DatetimeToCtime(d, offset)
  {
    var (result, e) := AddTimespan(d, span, offset);
    AddTimespanMoves(d, span, offset);
    TruncDivOpposite(span.microseconds);
    AddTimespanMoves(e, Timespan(-span.microseconds, true), offset);
  }

  lemma TruncDivOpposite(a: int)
    ensures TruncDiv(-a, MICROSECONDS_PER_SECOND) == -TruncDiv(a, MICROSECONDS_PER_SECOND)
  {
  }

  /** The seconds the exporter reports for a time are those of the local clock, as long as they
      fit 32 bits; they are the time itself exactly in a zone without an offset. */
  lemma ExportedSecondsAreLocal(t: int, offset: int)
    ensures SecondsSinceEpoch(CtimeToDatetime(t, offset), 1970, 1, offset) == if 0 <= t + offset < U32 then Some(t + offset) else None
    ensures SecondsSinceEpoch(CtimeToDatetime(t, offset), 1970, 1, offset) == Some(t) <==> offset == 0 && 0 <= t < U32
  {
    LocaltimeDenotes(t, offset);
    FieldsOfCtime(t, offset);
    SecondsOfDifference(CtimeToDatetime(t, offset), offset, t);
  }

  lemma SecondsOfDifference(d: DateTime, offset: int, t: int)
    requires Mktime(FieldsOf(d), offset) == t
    ensures SecondsSinceEpoch(d, 1970, 1, offset) == if 0 <= t + offset < U32 then Some(t + offset) else None
  {
    EpochIsZero();
  }

  lemma EpochIsZero()
    ensures UtcSeconds(Fields(1970, 1, 1, 0, 0, 0)) == 0
  {
  }
}
