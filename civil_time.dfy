/**
 * UTC calendar arithmetic behind `datetime.utcfromtimestamp(...).isoformat()`
 * for whole-second timestamps: days since 1970-01-01 are turned into a
 * proleptic Gregorian date with integer "civil from days" arithmetic (eras of
 * 400 years, years that start on 1 March), and the date and time of day are
 * rendered as `YYYY-MM-DDTHH:MM:SS`.
 *
 * The partners of the conversion are `DaysFromCivil` (its inverse in both
 * directions) and `NextDay` (the calendar read one day at a time): the lemmas
 * below show that `CivilFromDays(0)` is 1970-01-01 and that each following
 * day number gives the following calendar day.  The partner of the rendering
 * is `ParseIso`.
 */
module CivilTime {
  import opened Wrappers

  /** A proleptic Gregorian calendar date. */
  datatype Date = Date(year: int, month: int, day: int)

  /** A UTC wall-clock time with whole-second resolution. */
  datatype DateTime = DateTime(date: Date, hour: int, minute: int, second: int)

  // ---------------------------------------------------------------------------
  // The calendar
  // ---------------------------------------------------------------------------

  predicate IsLeapYear(y: int) {
    (y % 4 == 0 && y % 100 != 0) || y % 400 == 0
  }

  function DaysInMonth(y: int, m: int): int
    requires 1 <= m <= 12
  {
    if m == 2 then (if IsLeapYear(y) then 29 else 28)
    else if m == 4 || m == 6 || m == 9 || m == 11 then 30
    else 31
  }

  predicate ValidDate(d: Date) {
    1 <= d.month <= 12 && 1 <= d.day <= DaysInMonth(d.year, d.month)
  }

  predicate ValidDateTime(t: DateTime) {
    ValidDate(t.date) && 0 <= t.hour < 24 && 0 <= t.minute < 60 && 0 <= t.second < 60
  }

  /** The calendar day after `d`. */
  function NextDay(d: Date): (n: Date)
    requires ValidDate(d)
    ensures ValidDate(n)
    ensures n.year == d.year || (n.year == d.year + 1 && n.month == 1 && n.day == 1)
  {
    if d.day < DaysInMonth(d.year, d.month) then Date(d.year, d.month, d.day + 1)
    else if d.month < 12 then Date(d.year, d.month + 1, 1)
    else Date(d.year + 1, 1, 1)
  }

  // ---------------------------------------------------------------------------
  // Civil-from-days arithmetic.  An era is 400 years (146097 days) starting on
  // 1 March of a year divisible by 400; inside an era, years start on 1 March
  // so that the leap day is the last day of a year.  Day 719468 after
  // 0000-03-01 is 1970-01-01.
  // ---------------------------------------------------------------------------

  /** Day of the era on which year `yoe` of the era begins. */
  function StartOfYear(yoe: int): int {
    365 * yoe + yoe / 4 - yoe / 100
  }

  /** Year of the era that holds day `doe` of the era. */
  function YearOfEra(doe: int): int {
    (doe - doe / 1460 + doe / 36524 - doe / 146096) / 365
  }

  /** Whether year `yoe` of an era (1 March to the end of February) ends with a 29 February. */
  predicate EndsWithLeapDay(yoe: int) {
    IsLeapYear(yoe + 1)
  }

  /** Month (0 = March, ..., 11 = February) that holds day `doy` of a March-based year. */
  function MonthOfYear(doy: int): int {
    (5 * doy + 2) / 153
  }

  /** Day of a March-based year on which month `mp` (0 = March) begins. */
  function StartOfMonth(mp: int): int {
    (153 * mp + 2) / 5
  }

  /** Index of a calendar month counted from March (0 = March, ..., 11 = February). */
  function MarchMonth(month: int): int {
    if month > 2 then month - 3 else month + 9
  }

  /** The March-based year that holds `d`: January and February belong to the previous one. */
  function MarchYear(d: Date): int {
    if d.month <= 2 then d.year - 1 else d.year
  }

  /** Day of its March-based year on which `d` falls (0 = 1 March). */
  function DayOfMarchYear(d: Date): int {
    StartOfMonth(MarchMonth(d.month)) + d.day - 1
  }

  /** Day number (days after 1970-01-01) of 1 March of year `y`. */
  function MarchFirst(y: int): int {
    (y / 400) * 146097 + StartOfYear(y % 400) - 719468
  }

  /** Day `doy` (0 = 1 March) of the March-based year `y`, as a calendar date. */
  function MarchDate(y: int, doy: int): Date {
    var mp := MonthOfYear(doy);
    var month := if mp < 10 then mp + 3 else mp - 9;
    Date(if month <= 2 then y + 1 else y, month, doy - StartOfMonth(mp) + 1)
  }

  /** Day `doe` of era `era`, as a calendar date. */
  function EraDate(era: int, doe: int): Date {
    var yoe := YearOfEra(doe);
    MarchDate(era * 400 + yoe, doe - StartOfYear(yoe))
  }

  /** The date `z` days after 1970-01-01 (before it when `z` is negative):
      always a real calendar date. */
  function CivilFromDays(z: int): (d: Date)
    ensures ValidDate(d)
  {
    EraDateValid((z + 719468) / 146097, (z + 719468) % 146097);
    EraDate((z + 719468) / 146097, (z + 719468) % 146097)
  }

  /** The number of days from 1970-01-01 to `d` (negative before it). */
  function DaysFromCivil(d: Date): int {
    MarchFirst(MarchYear(d)) + DayOfMarchYear(d)
  }

  // ---------------------------------------------------------------------------
  // Facts about the year and month arithmetic
  // ---------------------------------------------------------------------------

  /** `YearOfEra` finds the year that holds a day: the day lies between the
      start of that year and its last day (the 366th only in a year ending
      with a leap day). */
  lemma {:induction false} YearOfEraBounds(doe: int)
    requires 0 <= doe < 146097
    ensures 0 <= YearOfEra(doe) <= 399
    ensures StartOfYear(YearOfEra(doe)) <= doe
    ensures doe - StartOfYear(YearOfEra(doe)) <= (if EndsWithLeapDay(YearOfEra(doe)) then 365 else 364)
  {
    if doe == 146096 {
      assert YearOfEra(doe) == 399;
    } else {
      // doe = 36524 * c + 1461 * q + s: c whole centuries, q whole four-year cycles, s days
      var c := doe / 36524;
      var q := (doe % 36524) / 1461;
      var s := (doe % 36524) % 1461;
      assert doe == 36524 * c + 1461 * q + s;
      var t := if s == 1460 then 3 else s / 365;
      YearOfEraInCycle(c, q, s);
      StartOfYearInCycle(c, q, t);
      if s == 1460 {
        LeapDayEndsCycle(c, q);
      }
    }
  }

  lemma YearOfEraInCycle(c: int, q: int, s: int)
    requires 0 <= c <= 3 && 0 <= q <= 24 && 0 <= s <= 1460
    requires q == 24 ==> s <= 1459
    ensures YearOfEra(36524 * c + 1461 * q + s) == 100 * c + 4 * q + (if s == 1460 then 3 else s / 365)
  {
    var doe := 36524 * c + 1461 * q + s;
    var delta := if 24 * c + q + s >= 1460 then 1 else 0;
    assert doe / 1460 == 25 * c + q + delta;
    assert doe / 36524 == c;
    assert doe / 146096 == 0;
    assert doe - doe / 1460 + doe / 36524 - doe / 146096 == 36500 * c + 1460 * q + s - delta;
  }

  lemma StartOfYearInCycle(c: int, q: int, t: int)
    requires 0 <= c <= 3 && 0 <= q <= 24 && 0 <= t <= 3
    ensures StartOfYear(100 * c + 4 * q + t) == 36524 * c + 1461 * q + 365 * t
  {
    var yoe := 100 * c + 4 * q + t;
    assert yoe / 4 == 25 * c + q;
    assert yoe / 100 == c;
  }

  lemma LeapDayEndsCycle(c: int, q: int)
    requires 0 <= c <= 3 && 0 <= q <= 23
    ensures EndsWithLeapDay(100 * c + 4 * q + 3)
  {
    var n := 100 * c + 4 * q + 4;
    assert n == 4 * (25 * c + q + 1);
    assert n % 4 == 0;
    assert n % 100 != 0;
  }

  /** Consecutive years of an era follow each other without gap or overlap. */
  lemma StartOfYearStep(yoe: int)
    requires 0 <= yoe < 399
    ensures StartOfYear(yoe + 1) == StartOfYear(yoe) + (if EndsWithLeapDay(yoe) then 366 else 365)
  {
    var n := yoe + 1;
    assert n / 4 == yoe / 4 + (if n % 4 == 0 then 1 else 0);
    assert n / 100 == yoe / 100 + (if n % 100 == 0 then 1 else 0);
  }

  lemma {:induction false} StartOfYearMonotone(a: int, b: int)
    requires 0 <= a <= b <= 399
    ensures StartOfYear(a) <= StartOfYear(b)
    ensures a < b ==> StartOfYear(a) + 365 <= StartOfYear(b)
    decreases b - a
  {
    if a < b {
      StartOfYearStep(a);
      StartOfYearMonotone(a + 1, b);
    }
  }

  /** A day of an era lies in exactly one year of the era. */
  lemma YearOfEraUnique(doe: int, yoe: int)
    requires 0 <= yoe <= 399
    requires StartOfYear(yoe) <= doe
    requires doe - StartOfYear(yoe) <= (if EndsWithLeapDay(yoe) then 365 else 364)
    ensures 0 <= doe < 146097
    ensures YearOfEra(doe) == yoe
  {
    StartOfYearMonotone(yoe, 399);
    assert StartOfYear(399) == 145731;
    YearOfEraBounds(doe);
    var k := YearOfEra(doe);
    if k < yoe {
      StartOfYearStep(k);
      StartOfYearMonotone(k + 1, yoe);
    } else if yoe < k {
      StartOfYearStep(yoe);
      StartOfYearMonotone(yoe + 1, k);
    }
  }

  /** Length of month `mp` (0 = March) of a March-based year, with February counted as 29 days. */
  function MonthSpan(mp: int): int
    requires 0 <= mp <= 11
  {
    if mp == 11 then 29 else if mp == 1 || mp == 3 || mp == 6 || mp == 8 then 30 else 31
  }

  /** `MonthOfYear` finds the month that holds a day of a March-based year. */
  lemma MonthOfYearBounds(doy: int)
    requires 0 <= doy <= 365
    ensures 0 <= MonthOfYear(doy) <= 11
    ensures StartOfMonth(MonthOfYear(doy)) <= doy < StartOfMonth(MonthOfYear(doy)) + MonthSpan(MonthOfYear(doy))
    ensures MonthOfYear(doy) == 11 ==> StartOfMonth(11) == 337
  {
  }

  /** A day of a month is recovered from its offset in the March-based year. */
  lemma MonthOfYearUnique(mp: int, offset: int)
    requires 0 <= mp <= 11 && 0 <= offset < MonthSpan(mp)
    ensures MonthOfYear(StartOfMonth(mp) + offset) == mp
  {
  }

  /** `DaysInMonth` agrees with the March-based month lengths. */
  lemma DaysInMonthMarchBased(year: int, month: int)
    requires 1 <= month <= 12
    ensures DaysInMonth(year, month) == if month == 2 then (if IsLeapYear(year) then 29 else 28) else MonthSpan(MarchMonth(month))
  {
  }

  /** Shifting a year by whole eras keeps whether it is a leap year. */
  lemma LeapYearShift(y: int, era: int)
    ensures IsLeapYear(y + era * 400) == IsLeapYear(y)
  {
    ModShift400(y, era);
    ModShift100(y, 4 * era);
    ModShift4(y, 100 * era);
  }

  lemma ModShift400(y: int, k: int)
    ensures (y + 400 * k) % 400 == y % 400
  {
    assert y + 400 * k == 400 * (y / 400 + k) + y % 400;
  }

  lemma ModShift100(y: int, k: int)
    ensures (y + 100 * k) % 100 == y % 100
  {
    assert y + 100 * k == 100 * (y / 100 + k) + y % 100;
  }

  lemma ModShift4(y: int, k: int)
    ensures (y + 4 * k) % 4 == y % 4
  {
    assert y + 4 * k == 4 * (y / 4 + k) + y % 4;
  }

  /** Last day of the March-based year `y` (364, or 365 when it ends with a 29 February). */
  function LastDayOfMarchYear(y: int): int {
    if IsLeapYear(y + 1) then 365 else 364
  }

  /** A day of a March-based year is a real date of that March-based year. */
  lemma MarchDateValid(y: int, doy: int)
    requires 0 <= doy <= LastDayOfMarchYear(y)
    ensures ValidDate(MarchDate(y, doy))
    ensures MarchYear(MarchDate(y, doy)) == y
    ensures DayOfMarchYear(MarchDate(y, doy)) == doy
  {
    MonthOfYearBounds(doy);
    var d := MarchDate(y, doy);
    DaysInMonthMarchBased(d.year, d.month);
  }

  /** A real date is a day of its March-based year. */
  lemma MarchDateOfDate(d: Date)
    requires ValidDate(d)
    ensures 0 <= DayOfMarchYear(d) <= LastDayOfMarchYear(MarchYear(d))
    ensures MarchDate(MarchYear(d), DayOfMarchYear(d)) == d
  {
    DaysInMonthMarchBased(d.year, d.month);
    MonthOfYearUnique(MarchMonth(d.month), d.day - 1);
  }

  /** The March-based year `y` is followed by year `y + 1` without gap or overlap. */
  lemma MarchFirstStep(y: int)
    ensures MarchFirst(y + 1) == MarchFirst(y) + LastDayOfMarchYear(y) + 1
  {
    var era := y / 400;
    var yoe := y % 400;
    assert y == era * 400 + yoe;
    LeapYearShift(yoe + 1, era);
    if yoe < 399 {
      assert (y + 1) / 400 == era && (y + 1) % 400 == yoe + 1;
      StartOfYearStep(yoe);
    } else {
      assert (y + 1) / 400 == era + 1 && (y + 1) % 400 == 0;
      assert StartOfYear(399) == 145731;
    }
  }

  /** Day `doe` of an era is a real date, and it lies `doe` days after the era's start. */
  lemma EraDateValid(era: int, doe: int)
    requires 0 <= doe < 146097
    ensures ValidDate(EraDate(era, doe))
    ensures MarchYear(EraDate(era, doe)) == era * 400 + YearOfEra(doe)
    ensures DayOfMarchYear(EraDate(era, doe)) == doe - StartOfYear(YearOfEra(doe))
  {
    YearOfEraBounds(doe);
    var yoe := YearOfEra(doe);
    LeapYearShift(yoe + 1, era);
    assert LastDayOfMarchYear(era * 400 + yoe) == if EndsWithLeapDay(yoe) then 365 else 364;
    MarchDateValid(era * 400 + yoe, doe - StartOfYear(yoe));
  }

  // ---------------------------------------------------------------------------
  // The conversion and its partners
  // ---------------------------------------------------------------------------

  /** Counting the days back from the date gives the day number. */
  lemma DaysFromCivilOfCivilFromDays(z: int)
    ensures DaysFromCivil(CivilFromDays(z)) == z
  {
    var era := (z + 719468) / 146097;
    var doe := (z + 719468) % 146097;
    assert z == era * 146097 + doe - 719468;
    EraDateValid(era, doe);
    YearOfEraBounds(doe);
    var yoe := YearOfEra(doe);
    var y := era * 400 + yoe;
    EraYear(era, yoe);
    var d := CivilFromDays(z);
    assert d == EraDate(era, doe);
    assert MarchFirst(MarchYear(d)) == era * 146097 + StartOfYear(yoe) - 719468;
    assert DayOfMarchYear(d) == doe - StartOfYear(yoe);
  }

  /** Year `yoe` of era `era` splits back into the two. */
  lemma EraYear(era: int, yoe: int)
    requires 0 <= yoe < 400
    ensures (era * 400 + yoe) / 400 == era && (era * 400 + yoe) % 400 == yoe
  {
  }

  /** A real calendar date is recovered from its day number. */
  lemma CivilFromDaysOfDaysFromCivil(d: Date)
    requires ValidDate(d)
    ensures CivilFromDays(DaysFromCivil(d)) == d
  {
    var y := MarchYear(d);
    DateInEra(d);
    CivilFromDaysOfEra(y / 400, StartOfYear(y % 400) + DayOfMarchYear(d));
  }

  /** A real date is the day of its era that its day number says. */
  lemma DateInEra(d: Date)
    requires ValidDate(d)
    ensures var y := MarchYear(d); var doe := StartOfYear(y % 400) + DayOfMarchYear(d);
      0 <= doe < 146097 && EraDate(y / 400, doe) == d
      && DaysFromCivil(d) == (y / 400) * 146097 + doe - 719468
  {
    var y := MarchYear(d);
    var era := y / 400;
    var yoe := y % 400;
    var doy := DayOfMarchYear(d);
    MarchDateOfDate(d);
    assert y == era * 400 + yoe && 0 <= yoe < 400;
    LeapYearShift(yoe + 1, era);
    assert LastDayOfMarchYear(y) == if EndsWithLeapDay(yoe) then 365 else 364;
    var doe := StartOfYear(yoe) + doy;
    YearOfEraUnique(doe, yoe);
    assert EraDate(era, doe) == MarchDate(y, doy);
    assert DaysFromCivil(d) == era * 146097 + StartOfYear(yoe) - 719468 + doy;
  }

  /** Day `doe` of era `era` is the date of its day number. */
  lemma CivilFromDaysOfEra(era: int, doe: int)
    requires 0 <= doe < 146097
    ensures CivilFromDays(era * 146097 + doe - 719468) == EraDate(era, doe)
  {
    var z := era * 146097 + doe - 719468;
    assert (z + 719468) / 146097 == era;
    assert (z + 719468) % 146097 == doe;
  }

  /** `DaysFromCivil` counts days: the next calendar day has the next number. */
  lemma DaysFromCivilNextDay(d: Date)
    requires ValidDate(d)
    ensures DaysFromCivil(NextDay(d)) == DaysFromCivil(d) + 1
  {
    if d.day < DaysInMonth(d.year, d.month) {
      assert MarchYear(NextDay(d)) == MarchYear(d);
    } else if d.month == 2 {
      EndOfFebruaryNextDay(d);
    } else {
      EndOfMonthNextDay(d);
    }
  }

  /** The last day of a month other than February is followed by day 0 of the
      next month in the same March-based year. */
  lemma EndOfMonthNextDay(d: Date)
    requires ValidDate(d) && d.day == DaysInMonth(d.year, d.month) && d.month != 2
    ensures DaysFromCivil(NextDay(d)) == DaysFromCivil(d) + 1
  {
    DaysInMonthMarchBased(d.year, d.month);
    assert MarchYear(NextDay(d)) == MarchYear(d);
  }

  /** The last day of February ends a March-based year. */
  lemma EndOfFebruaryNextDay(d: Date)
    requires ValidDate(d) && d.day == DaysInMonth(d.year, d.month) && d.month == 2
    ensures DaysFromCivil(NextDay(d)) == DaysFromCivil(d) + 1
  {
    MarchFirstStep(d.year - 1);
    assert NextDay(d) == Date(d.year, 3, 1);
    assert DayOfMarchYear(d) == LastDayOfMarchYear(d.year - 1);
  }

  /** Day 19158 after the epoch is 2022-06-15. */
  lemma CivilFromDaysExample()
    ensures CivilFromDays(19158) == Date(2022, 6, 15)
  {
    assert (19158 + 719468) / 146097 == 5 && (19158 + 719468) % 146097 == 8141;
    assert YearOfEra(8141) == 22 by {
      YearOfEraInCycle(0, 5, 836);
    }
    assert StartOfYear(22) == 8035;
    assert MonthOfYear(106) == 3 && StartOfMonth(3) == 92;
    assert EraDate(5, 8141) == MarchDate(2022, 106);
  }

  /** Day 0 is 1970-01-01. */
  lemma CivilFromDaysEpoch()
    ensures CivilFromDays(0) == Date(1970, 1, 1)
    ensures DaysFromCivil(Date(1970, 1, 1)) == 0
  {
    assert (0 + 719468) / 146097 == 4 && (0 + 719468) % 146097 == 135080;
    assert YearOfEra(135080) == 369 by {
      YearOfEraInCycle(3, 17, 671);
    }
    assert StartOfYear(369) == 134774;
    assert MonthOfYear(306) == 10 && StartOfMonth(10) == 306;
    assert EraDate(4, 135080) == MarchDate(1969, 306);
    DaysFromCivilOfCivilFromDays(0);
  }

  /** Day `z + 1` is the calendar day after day `z`: together with
      `CivilFromDaysEpoch` this pins `CivilFromDays` down to the calendar. */
  lemma CivilFromDaysSucc(z: int)
    ensures ValidDate(CivilFromDays(z)) && CivilFromDays(z + 1) == NextDay(CivilFromDays(z))
  {
    DaysFromCivilOfCivilFromDays(z);
    NextDayNumbered(z, CivilFromDays(z));
  }

  lemma NextDayNumbered(z: int, d: Date)
    requires ValidDate(d) && DaysFromCivil(d) == z
    ensures CivilFromDays(z + 1) == NextDay(d)
  {
    DaysFromCivilNextDay(d);
    CivilFromDaysOfDaysFromCivil(NextDay(d));
  }

  // ---------------------------------------------------------------------------
  // Timestamps: whole seconds since 1970-01-01T00:00:00 UTC
  // ---------------------------------------------------------------------------

  /** `datetime.utcfromtimestamp(secs)` for a whole number of seconds: a real
      date and time that denotes `secs`. */
  function UtcFromTimestamp(secs: int): (t: DateTime)
    ensures ValidDateTime(t)
    ensures TimestampOf(t) == secs
  {
    var days := secs / 86400;
    var sod := secs % 86400;
    TimeOfDay(sod);
    DaysFromCivilOfCivilFromDays(days);
    assert secs == days * 86400 + sod;
    DateTime(CivilFromDays(days), sod / 3600, sod % 3600 / 60, sod % 60)
  }

  /** The timestamp of a UTC date and time. */
  function TimestampOf(t: DateTime): int {
    DaysFromCivil(t.date) * 86400 + t.hour * 3600 + t.minute * 60 + t.second
  }

  /** A second of the day comes back from its hour, minute and second. */
  lemma TimeOfDay(sod: int)
    requires 0 <= sod < 86400
    ensures 0 <= sod / 3600 < 24 && 0 <= sod % 3600 / 60 < 60 && 0 <= sod % 60 < 60
    ensures (sod / 3600) * 3600 + (sod % 3600 / 60) * 60 + sod % 60 == sod
  {
  }

  /** Every real date and time is what its timestamp converts back to. */
  lemma UtcFromTimestampOf(t: DateTime)
    requires ValidDateTime(t)
    ensures UtcFromTimestamp(TimestampOf(t)) == t
  {
    var days := DaysFromCivil(t.date);
    var sod := t.hour * 3600 + t.minute * 60 + t.second;
    assert 0 <= sod < 86400;
    assert sod / 3600 == t.hour && sod % 3600 / 60 == t.minute && sod % 60 == t.second;
    var secs := days * 86400 + sod;
    assert secs / 86400 == days && secs % 86400 == sod;
    CivilFromDaysOfDaysFromCivil(t.date);
  }

  /** Days from -719468 on (0000-03-01 onwards) fall in years 0 and later. */
  lemma CivilFromDaysYearNonNegative(z: int)
    requires z >= -719468
    ensures CivilFromDays(z).year >= 0
  {
    var era := (z + 719468) / 146097;
    var doe := (z + 719468) % 146097;
    EraDateValid(era, doe);
    YearOfEraBounds(doe);
    assert era >= 0;
    assert CivilFromDays(z).year >= MarchYear(CivilFromDays(z));
  }

  // ---------------------------------------------------------------------------
  // ISO 8601 rendering, as `datetime.isoformat()` writes a value without
  // microseconds or time zone: `YYYY-MM-DDTHH:MM:SS`
  // ---------------------------------------------------------------------------

  function Pow10(n: nat): nat {
    if n == 0 then 1 else 10 * Pow10(n - 1)
  }

  predicate IsDigit(c: char) {
    '0' <= c <= '9'
  }

  function DigitChar(v: int): (c: char)
    requires 0 <= v <= 9
    ensures IsDigit(c) && c as int - '0' as int == v
  {
    ('0' as int + v) as char
  }

  /** `n` in decimal with exactly `width` digits, zero-padded on the left (`%0<width>d`). */
  function Decimal(n: nat, width: nat): (s: string)
    requires n < Pow10(width)
    ensures |s| == width
    ensures forall i :: 0 <= i < |s| ==> IsDigit(s[i])
  {
    if width == 0 then "" else Decimal(n / 10, width - 1) + [DigitChar(n % 10)]
  }

  /** The value of a string of decimal digits (`None` if some character is not a digit). */
  function ParseDecimal(s: string): (r: Option<nat>)
    ensures r.Some? ==> r.value < Pow10(|s|)
    ensures r.Some? <==> forall i :: 0 <= i < |s| ==> IsDigit(s[i])
  {
    if s == [] then Some(0)
    else if !IsDigit(s[|s| - 1]) then None
    else match ParseDecimal(s[..|s| - 1])
      case None => None
      case Some(v) => Some(10 * v + (s[|s| - 1] as int - '0' as int))
  }

  lemma {:induction false} ParseDecimalOfDecimal(n: nat, width: nat)
    requires n < Pow10(width)
    ensures ParseDecimal(Decimal(n, width)) == Some(n)
  {
    if width > 0 {
      var s := Decimal(n, width);
      assert s[..|s| - 1] == Decimal(n / 10, width - 1);
      ParseDecimalOfDecimal(n / 10, width - 1);
    }
  }

  /** A string of digits is the padded decimal rendering of its value. */
  lemma {:induction false} DecimalOfParseDecimal(s: string)
    requires ParseDecimal(s).Some?
    ensures Decimal(ParseDecimal(s).value, |s|) == s
  {
    if s != [] {
      var v := ParseDecimal(s).value;
      var w := ParseDecimal(s[..|s| - 1]).value;
      DecimalOfParseDecimal(s[..|s| - 1]);
      assert v / 10 == w && v % 10 == s[|s| - 1] as int - '0' as int;
      assert s == s[..|s| - 1] + [s[|s| - 1]];
    }
  }

  /** A date and time that `isoformat` writes with a four-digit year. */
  predicate InIsoRange(t: DateTime) {
    ValidDateTime(t) && 0 <= t.date.year <= 9999
  }

  /** `t.isoformat()` for a value without microseconds or time zone. */
  function IsoFormat(t: DateTime): (s: string)
    requires InIsoRange(t)
    ensures |s| == 19
    ensures s[4] == '-' && s[7] == '-' && s[10] == 'T' && s[13] == ':' && s[16] == ':'
  {
    Decimal(t.date.year, 4) + "-" + Decimal(t.date.month, 2) + "-" + Decimal(t.date.day, 2) + "T"
      + Decimal(t.hour, 2) + ":" + Decimal(t.minute, 2) + ":" + Decimal(t.second, 2)
  }

  /** The rendering of 2022-06-15 20:00:00. */
  lemma IsoFormatExample()
    ensures IsoFormat(DateTime(Date(2022, 6, 15), 20, 0, 0)) == "2022-06-15T20:00:00"
  {
    DecimalExamples();
  }

  lemma DecimalExamples()
    ensures Decimal(2022, 4) == "2022"
    ensures Decimal(6, 2) == "06" && Decimal(15, 2) == "15"
    ensures Decimal(20, 2) == "20" && Decimal(0, 2) == "00"
  {
    assert DigitChar(0) == '0' && DigitChar(1) == '1' && DigitChar(2) == '2';
    assert DigitChar(5) == '5' && DigitChar(6) == '6';
    assert Decimal(20, 2) == Decimal(2, 1) + "0";
    assert Decimal(202, 3) == Decimal(20, 2) + "2";
  }

  /** Reads back a `YYYY-MM-DDTHH:MM:SS` string; `None` unless it names a real date and time. */
  function ParseIso(s: string): (r: Option<DateTime>)
    ensures r.Some? ==> InIsoRange(r.value)
  {
    if |s| != 19 || s[4] != '-' || s[7] != '-' || s[10] != 'T' || s[13] != ':' || s[16] != ':' then None
    else match (ParseDecimal(s[0..4]), ParseDecimal(s[5..7]), ParseDecimal(s[8..10]),
                ParseDecimal(s[11..13]), ParseDecimal(s[14..16]), ParseDecimal(s[17..19]))
      case (Some(y), Some(mo), Some(d), Some(h), Some(mi), Some(sec)) =>
        var t := DateTime(Date(y, mo, d), h, mi, sec);
        if ValidDateTime(t) then Some(t) else None
      case _ => None
  }

  /** Reading the rendering back gives the date and time that was rendered. */
  lemma ParseIsoOfIsoFormat(t: DateTime)
    requires InIsoRange(t)
    ensures ParseIso(IsoFormat(t)) == Some(t)
  {
    var s := IsoFormat(t);
    assert s[0..4] == Decimal(t.date.year, 4);
    assert s[5..7] == Decimal(t.date.month, 2);
    assert s[8..10] == Decimal(t.date.day, 2);
    assert s[11..13] == Decimal(t.hour, 2);
    assert s[14..16] == Decimal(t.minute, 2);
    assert s[17..19] == Decimal(t.second, 2);
    ParseDecimalOfDecimal(t.date.year, 4);
    ParseDecimalOfDecimal(t.date.month, 2);
    ParseDecimalOfDecimal(t.date.day, 2);
    ParseDecimalOfDecimal(t.hour, 2);
    ParseDecimalOfDecimal(t.minute, 2);
    ParseDecimalOfDecimal(t.second, 2);
  }

  /** Whatever is read back is written out again as the same string. */
  lemma IsoFormatOfParseIso(s: string)
    requires ParseIso(s).Some?
    ensures IsoFormat(ParseIso(s).value) == s
  {
    var t := ParseIso(s).value;
    ParseIsoFields(s);
    DecimalOfParseDecimal(s[0..4]);
    DecimalOfParseDecimal(s[5..7]);
    DecimalOfParseDecimal(s[8..10]);
    DecimalOfParseDecimal(s[11..13]);
    DecimalOfParseDecimal(s[14..16]);
    DecimalOfParseDecimal(s[17..19]);
    IsoPieces(s);
  }

  /** A 19-character string with the separators in place is its six fields joined by them. */
  lemma IsoPieces(s: string)
    requires |s| == 19 && s[4] == '-' && s[7] == '-' && s[10] == 'T' && s[13] == ':' && s[16] == ':'
    ensures s == s[0..4] + "-" + s[5..7] + "-" + s[8..10] + "T" + s[11..13] + ":" + s[14..16] + ":" + s[17..19]
  {
  }

  /** Where each field of an accepted string is read from. */
  lemma ParseIsoFields(s: string)
    requires ParseIso(s).Some?
    ensures |s| == 19 && s[4] == '-' && s[7] == '-' && s[10] == 'T' && s[13] == ':' && s[16] == ':'
    ensures ParseDecimal(s[0..4]) == Some(ParseIso(s).value.date.year)
    ensures ParseDecimal(s[5..7]) == Some(ParseIso(s).value.date.month)
    ensures ParseDecimal(s[8..10]) == Some(ParseIso(s).value.date.day)
    ensures ParseDecimal(s[11..13]) == Some(ParseIso(s).value.hour)
    ensures ParseDecimal(s[14..16]) == Some(ParseIso(s).value.minute)
    ensures ParseDecimal(s[17..19]) == Some(ParseIso(s).value.second)
  {
  }

  /** Timestamps that `utcfromtimestamp(...).isoformat()` renders in this model:
      from 1970 on, up to the last second of year 9999 (Python refuses later years). */
  predicate Renderable(secs: int) {
    secs >= 0 && CivilFromDays(secs / 86400).year <= 9999
  }

  /** `datetime.utcfromtimestamp(secs).isoformat()` for a whole number of seconds. */
  function UtcIsoFormat(secs: int): (s: string)
    requires Renderable(secs)
    ensures |s| == 19
  {
    CivilFromDaysYearNonNegative(secs / 86400);
    IsoFormat(UtcFromTimestamp(secs))
  }

  /** The timestamp written in a `YYYY-MM-DDTHH:MM:SS` string. */
  function IsoTimestamp(s: string): Option<int> {
    match ParseIso(s)
    case None => None
    case Some(t) => Some(TimestampOf(t))
  }

  /** The rendered string denotes exactly the instant it was rendered from. */
  lemma IsoTimestampOfUtcIsoFormat(secs: int)
    requires Renderable(secs)
    ensures IsoTimestamp(UtcIsoFormat(secs)) == Some(secs)
  {
    var t := UtcFromTimestamp(secs);
    CivilFromDaysYearNonNegative(secs / 86400);
    assert UtcIsoFormat(secs) == IsoFormat(t);
    ParseIsoOfIsoFormat(t);
  }

  /** 1655323200 seconds after the epoch is 2022-06-15 20:00:00 UTC. */
  lemma UtcIsoFormatExample()
    ensures Renderable(1655323200)
    ensures UtcIsoFormat(1655323200) == "2022-06-15T20:00:00"
  {
    var secs := 1655323200;
    assert secs / 86400 == 19158 && secs % 86400 == 72000;
    CivilFromDaysExample();
    assert UtcFromTimestamp(secs) == DateTime(Date(2022, 6, 15), 20, 0, 0);
    IsoFormatExample();
  }
}
