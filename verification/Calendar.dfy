/** Calendar time in seconds (mktimegm in cutils.c). */
module Calendar {

  // ----- The proleptic Gregorian calendar, day by day -----

  datatype Date = Date(year: int, month: int, day: int)

  predicate IsLeap(year: int) {
    year % 4 == 0 && (year % 100 != 0 || year % 400 == 0)
  }

  function DaysInMonth(year: int, month: int): int {
    if month == 2 then (if IsLeap(year) then 29 else 28)
    else if month == 4 || month == 6 || month == 9 || month == 11 then 30
    else 31
  }

  predicate IsDate(date: Date) {
    1 <= date.month <= 12 && 1 <= date.day <= DaysInMonth(date.year, date.month)
  }

  const EPOCH := Date(1970, 1, 1)

  function NextDay(date: Date): (next: Date)
    requires IsDate(date)
    ensures IsDate(next)
  {
    if date.day < DaysInMonth(date.year, date.month) then date.(day := date.day + 1)
    else if date.month < 12 then Date(date.year, date.month + 1, 1)
    else Date(date.year + 1, 1, 1)
  }

  /** Days from 1 January 1970 to 1 January of a year, one year at a time in either direction. */
  function DaysToYear(year: int): int
    decreases if year >= 1970 then year - 1970 else 1970 - year
  {
    if year == 1970 then 0
    else if year > 1970 then DaysToYear(year - 1) + (if IsLeap(year - 1) then 366 else 365)
    else DaysToYear(year + 1) - (if IsLeap(year) then 366 else 365)
  }

  /** Days from the first of January to the first of a month, one month at a time. */
  function DaysToMonth(year: int, month: int): int
    requires 1 <= month <= 12
  {
    if month == 1 then 0 else DaysToMonth(year, month - 1) + DaysInMonth(year, month - 1)
  }

  /** The number of days since 1 January 1970. */
  function DayNumber(date: Date): int
    requires IsDate(date)
  {
    DaysToYear(date.year) + DaysToMonth(date.year, date.month) + date.day - 1
  }

  // ----- The closed form -----

  /** The closed form of the source, with divisions rounding down. */
  function ClosedForm(date: Date): int {
    var y := if date.month < 3 then date.year - 1 else date.year;
    var m := if date.month < 3 then date.month + 12 else date.month;
    date.day + (153 * m - 457) / 5 + 365 * y + y / 4 - y / 100 + y / 400 - 719469
  }

  /** 1 March of year y ends a leap day cycle of 4, 100 and 400 years. */
  lemma {:induction false} YearClosedForm(year: int)
    ensures var y := year - 1;
            DaysToYear(year) == 365 * y + y / 4 - y / 100 + y / 400 - 719162
    decreases if year >= 1970 then year - 1970 else 1970 - year
  {
    if year > 1970 {
      YearClosedForm(year - 1);
      LeapStep(year - 1);
    } else if year < 1970 {
      YearClosedForm(year + 1);
      LeapStep(year);
    }
  }

  lemma LeapStep(y: int)
    ensures y / 4 == (y - 1) / 4 + (if y % 4 == 0 then 1 else 0)
    ensures y / 100 == (y - 1) / 100 + (if y % 100 == 0 then 1 else 0)
    ensures y / 400 == (y - 1) / 400 + (if y % 400 == 0 then 1 else 0)
    ensures y % 400 == 0 ==> y % 100 == 0
    ensures y % 100 == 0 ==> y % 4 == 0
  {
  }

  /** Counting the year from March makes month lengths independent of leap years. */
  lemma MonthClosedForm(year: int, month: int)
    requires 1 <= month <= 12
    ensures month < 3 ==> DaysToMonth(year, month) == (153 * (month + 12) - 457) / 5 - 306
    ensures month >= 3 ==> DaysToMonth(year, month) == (153 * month - 457) / 5 + 59 + (if IsLeap(year) then 1 else 0)
  {
    assert DaysToMonth(year, 2) == 31;
    assert DaysToMonth(year, 3) == 31 + DaysInMonth(year, 2);
    assert DaysToMonth(year, 5) == DaysToMonth(year, 3) + 31 + 30;
    assert DaysToMonth(year, 7) == DaysToMonth(year, 5) + 31 + 30;
    assert DaysToMonth(year, 9) == DaysToMonth(year, 7) + 31 + 31;
    assert DaysToMonth(year, 11) == DaysToMonth(year, 9) + 30 + 31;
  }

  lemma DaysInYear(year: int)
    ensures DaysToMonth(year, 12) + 31 == if IsLeap(year) then 366 else 365
  {
    MonthClosedForm(year, 12);
  }

  /** Day numbers count days: the epoch is day 0 and every day is followed by the next number,
      across the ends of months, years and centuries. */
  lemma DayNumberCounts(date: Date)
    requires IsDate(date)
    ensures DayNumber(EPOCH) == 0
    ensures DayNumber(NextDay(date)) == DayNumber(date) + 1
  {
    DaysInYear(date.year);
  }

  /** The calendar: every fourth year has a 29 February, but of the years that end a century only every fourth. */
  lemma LeapDays(year: int)
    requires 1901 <= year <= 2099
    ensures NextDay(Date(year, 2, 28)) == if year % 4 == 0 then Date(year, 2, 29) else Date(year, 3, 1)
    ensures NextDay(Date(1900, 2, 28)) == Date(1900, 3, 1) && NextDay(Date(2000, 2, 28)) == Date(2000, 2, 29)
    ensures NextDay(Date(2100, 2, 28)) == Date(2100, 3, 1)
  {
  }

  /** The other months and the end of the year. */
  lemma MonthEnds(year: int, month: int, day: int)
    requires 1 <= month <= 12 && month != 2 && 1 <= day <= 31
    ensures IsDate(Date(year, month, day)) <==> day <= 30 || month in {1, 3, 5, 7, 8, 10, 12}
    ensures NextDay(Date(year, 12, 31)) == Date(year + 1, 1, 1)
  {
  }

  lemma ClosedFormIsDayNumber(date: Date)
    requires IsDate(date)
    ensures ClosedForm(date) == DayNumber(date)
  {
    YearClosedForm(date.year);
    MonthClosedForm(date.year, date.month);
    if date.month >= 3 { LeapStep(date.year); }
  }

  // ----- The routine, in 32-bit int arithmetic -----

  type int32 = n: int | -0x8000_0000 <= n < 0x8000_0000

  function Wrap(x: int): int32 {
    (x + 0x8000_0000) % 0x1_0000_0000 - 0x8000_0000
  }

  /** Division of C, which rounds toward zero. */
  function Quotient(a: int, b: nat): int
    requires b > 0
  {
    if a >= 0 then a / b else -(-a / b)
  }

  /** The remainder has the sign of the dividend. */
  lemma RoundsTowardZero(a: int, b: nat)
    requires b > 0
    ensures var r := a - b * Quotient(a, b); if a >= 0 then 0 <= r < b else 0 < r + b <= b
  {
  }

  /** The broken-down time of the C library: years since 1900, months since January. */
  datatype Tm = Tm(sec: int32, min: int32, hour: int32, mday: int32, mon: int32, year: int32)

  function DateOf(tm: Tm): Date {
    Date(tm.year + 1900, tm.mon + 1, tm.mday)
  }

  predicate IsTm(tm: Tm) {
    IsDate(DateOf(tm)) && 0 <= tm.hour < 24 && 0 <= tm.min < 60 && 0 <= tm.sec <= 60
  }

  function TimeOfDay(tm: Tm): int {
    3600 * tm.hour + 60 * tm.min + tm.sec
  }

  const MAX_DAY := 24855

  /** The width of time_t: that of an int on a 32-bit host, otherwise twice as much. */
  datatype TimeType = Narrow | Wide

  /** A value stored in a time_t. */
  function Stored(width: TimeType, x: int): int {
    if width.Narrow? then Wrap(x) else x
  }

  /** The true number of seconds since the epoch. */
  function Seconds(tm: Tm): int
    requires IsTm(tm)
  {
    86400 * DayNumber(DateOf(tm)) + TimeOfDay(tm)
  }

  /** What a clock shows one second later on the same day: the seconds go up to 59, or to 60 where a leap second is
      inserted. */
  predicate NextSecond(tm: Tm, next: Tm) {
    && IsTm(tm) && IsTm(next) && DateOf(next) == DateOf(tm)
    && (|| (next.hour == tm.hour && next.min == tm.min && next.sec == tm.sec + 1)
        || (next.hour == tm.hour && next.min == tm.min + 1 && next.sec == 0 && tm.sec == 59)
        || (next.hour == tm.hour + 1 && next.min == 0 && next.sec == 0 && tm.min == 59 && tm.sec == 59))
  }

  /** The last second of a day, and the first second of the next one. */
  predicate NextMidnight(tm: Tm, next: Tm) {
    && IsTm(tm) && IsTm(next) && DateOf(next) == NextDay(DateOf(tm))
    && tm.hour == 23 && tm.min == 59 && tm.sec == 59 && next.hour == 0 && next.min == 0 && next.sec == 0
  }

  /** Seconds count seconds: every second of the clock is followed by the next number, across the ends of minutes,
      hours and days. */
  lemma SecondsCount(tm: Tm, next: Tm)
    requires NextSecond(tm, next) || NextMidnight(tm, next)
    ensures Seconds(next) == Seconds(tm) + 1
  {
    if NextSecond(tm, next) {
      TimeCounts(tm, next);
    } else {
      DayNumberCounts(DateOf(tm));
    }
  }

  lemma TimeCounts(tm: Tm, next: Tm)
    requires NextSecond(tm, next)
    ensures TimeOfDay(next) == TimeOfDay(tm) + 1
  {
  }

  /** Every second but a leap second has such a successor, except at the end of the last year of a 32-bit number. */
  lemma SecondFollows(tm: Tm) returns (next: Tm)
    requires IsTm(tm) && tm.sec < 60 && tm.year < 0x7fff_ffff
    ensures IsTm(next) && Seconds(next) == Seconds(tm) + 1
    ensures if tm.sec < 59 then next == tm.(sec := tm.sec + 1)
            else if tm.min < 59 then next == tm.(sec := 0, min := tm.min + 1)
            else if tm.hour < 23 then next == tm.(sec := 0, min := 0, hour := tm.hour + 1)
            else next.sec == next.min == next.hour == 0 && DateOf(next) == NextDay(DateOf(tm))
  {
    if tm.sec < 59 {
      next := tm.(sec := tm.sec + 1);
    } else if tm.min < 59 {
      next := tm.(sec := 0, min := tm.min + 1);
    } else if tm.hour < 23 {
      next := tm.(sec := 0, min := 0, hour := tm.hour + 1);
    } else {
      var date := NextDay(DateOf(tm));
      next := Tm(0, 0, 0, date.day, date.month - 1, date.year - 1900);
    }
    SecondsCount(tm, next);
  }

  /** The epoch is second 0. */
  lemma SecondsStart(tm: Tm)
    requires DateOf(tm) == EPOCH && tm.hour == 0 && tm.min == 0 && tm.sec == 0
    ensures IsTm(tm) && Seconds(tm) == 0
  {
    DayNumberCounts(DateOf(tm));
  }

  /** Whether the routine gets a time right: with a narrow time_t the seconds must fit in an int, with a wide one
      it is the seconds at midnight that must, because the multiplication is one of ints. */
  predicate Representable(width: TimeType, tm: Tm)
    requires IsTm(tm)
  {
    if width.Narrow? then -0x8000_0000 <= Seconds(tm) < 0x8000_0000
    else -MAX_DAY <= DayNumber(DateOf(tm)) <= MAX_DAY
  }

  /** What the int expression for the days yields. */
  function Days(tm: Tm): int32 {
    var y: int := Wrap(tm.year + 1900);
    var m: int := tm.mon + 1;
    var m', y' := if m < 3 then m + 12 else m, if m < 3 then Wrap(y - 1) else y;
    Wrap(tm.mday + Quotient(153 * m' - 457, 5) + 365 * y'
         + Quotient(y', 4) - Quotient(y', 100) + Quotient(y', 400) - 719469)
  }

  function Result(width: TimeType, tm: Tm): int {
    Stored(width, Wrap(86400 * Days(tm)) + TimeOfDay(tm))
  }

  /** The result is the true number of seconds since the epoch if and only if it is representable. */
  method MkTimeGm(width: TimeType, tm: Tm) returns (t: int)
    requires IsTm(tm)
    ensures t == Result(width, tm)
    ensures t == Seconds(tm) <==> Representable(width, tm)
  {
    var y: int, m: int, d: int := Wrap(tm.year + 1900), tm.mon + 1, tm.mday;
    if m < 3 {
      m := m + 12;
      y := Wrap(y - 1);
    }
    t := Wrap(86400 * Wrap(d + Quotient(153 * m - 457, 5) + 365 * y
                           + Quotient(y, 4) - Quotient(y, 100) + Quotient(y, 400) - 719469));
    t := Stored(width, t + (3600 * tm.hour + 60 * tm.min + tm.sec));
    RightIff(width, tm);
  }

  lemma RightIff(width: TimeType, tm: Tm)
    requires IsTm(tm)
    ensures Result(width, tm) == Seconds(tm) <==> Representable(width, tm)
  {
    var trueDays := DayNumber(DateOf(tm));
    if -MAX_DAY - 1 <= trueDays <= MAX_DAY { DaysRight(tm); }
    if width.Narrow? {
      NarrowSeconds(Days(tm), trueDays, TimeOfDay(tm));
    } else {
      SecondsInRange(Days(tm), trueDays);
    }
  }

  /** Around the epoch the days are computed without overflow. */
  lemma DaysRight(tm: Tm)
    requires IsTm(tm) && -MAX_DAY - 1 <= DayNumber(DateOf(tm)) <= MAX_DAY + 1
    ensures Days(tm) == DayNumber(DateOf(tm))
  {
    ClosedFormIsDayNumber(DateOf(tm));
    YearInRange(DateOf(tm));
    WrapSmall(tm.year + 1900);
    WrapSmall(tm.year + 1899);
    WrapSmall(ClosedForm(DateOf(tm)));
  }

  /** Day numbers whose seconds fit in an int belong to a few years around the epoch. */
  lemma YearInRange(date: Date)
    requires IsDate(date) && -MAX_DAY - 1 <= ClosedForm(date) <= MAX_DAY + 1
    ensures 1900 <= date.year <= 2040
  {
  }

  lemma WrapSmall(x: int)
    requires -MAX_DAY - 1 <= x <= MAX_DAY + 1
    ensures Wrap(x) == x
  {
  }

  lemma SecondsInRange(days: int, trueDays: int)
    requires -MAX_DAY <= trueDays <= MAX_DAY ==> days == trueDays
    ensures Wrap(86400 * days) == 86400 * trueDays <==> -MAX_DAY <= trueDays <= MAX_DAY
  {
  }

  /** A narrow time_t: the two wrap-arounds together are one. */
  lemma NarrowSeconds(days: int, trueDays: int, timeOfDay: int)
    requires -MAX_DAY - 1 <= trueDays <= MAX_DAY ==> days == trueDays
    requires 0 <= timeOfDay <= 86400
    ensures var s := 86400 * trueDays + timeOfDay;
            Wrap(Wrap(86400 * days) + timeOfDay) == s <==> -0x8000_0000 <= s < 0x8000_0000
  {
    WrapTwice(86400 * days, timeOfDay);
  }

  lemma WrapTwice(x: int, y: int)
    ensures Wrap(Wrap(x) + y) == Wrap(x + y)
  {
  }

  /** Wrapping subtracts a multiple of 2^32, and any such multiple vanishes. */
  lemma WrapIs(x: int) returns (k: int)
    ensures Wrap(x) == x - 0x1_0000_0000 * k
  {
    k := (x + 0x8000_0000) / 0x1_0000_0000;
  }

  /** As long as no year number overflows or is negative, even a wrong result is right modulo 2^32: with a narrow
      time_t it is that of the seconds which fits in an int, with a wide one that of the seconds at midnight, plus the
      time of the day. */
  lemma RightModulo(width: TimeType, tm: Tm) returns (k: int)
    requires IsTm(tm) && 1 <= tm.year + 1900 < 0x8000_0000
    ensures Result(width, tm) == Seconds(tm) - 0x1_0000_0000 * k
    ensures -0x8000_0000 <= Result(width, tm) - (if width.Wide? then 3600 * tm.hour + 60 * tm.min + tm.sec else 0)
                         < 0x8000_0000
  {
    ClosedFormIsDayNumber(DateOf(tm));
    var days := DayNumber(DateOf(tm));
    var i := WrapIs(days);
    DaysWrapped(tm);
    var midnight := 86400 * Days(tm);
    var j := WrapIs(midnight);
    k := 86400 * i + j;
    assert Wrap(midnight) == 86400 * days - 0x1_0000_0000 * k;
    if width.Narrow? {
      var l := WrapIs(Wrap(midnight) + TimeOfDay(tm));
      k := k + l;
    }
  }

  lemma NoWrap(x: int)
    requires -0x8000_0000 <= x < 0x8000_0000
    ensures Wrap(x) == x
  {
  }

  /** Divisions of numbers that are not negative round down. */
  lemma DaysWrapped(tm: Tm)
    requires IsTm(tm) && 1 <= tm.year + 1900 < 0x8000_0000
    ensures Days(tm) == Wrap(ClosedForm(DateOf(tm)))
  {
    NoWrap(tm.year + 1900);
    NoWrap(tm.year + 1899);
    var y := if tm.mon + 1 < 3 then tm.year + 1899 else tm.year + 1900;
    var m := if tm.mon + 1 < 3 then tm.mon + 13 else tm.mon + 1;
    assert Quotient(y, 4) == y / 4 && Quotient(y, 100) == y / 100 && Quotient(y, 400) == y / 400;
    assert Quotient(153 * m - 457, 5) == (153 * m - 457) / 5;
  }

  // ----- Times that fail -----

  /** The routine on a day whose number is known. */
  lemma OnDay(width: TimeType, tm: Tm, day: int, timeOfDay: int, result: int)
    requires IsTm(tm) && ClosedForm(DateOf(tm)) == day && -MAX_DAY - 1 <= day <= MAX_DAY + 1
    requires TimeOfDay(tm) == timeOfDay && Stored(width, Wrap(86400 * day) + timeOfDay) == result
    ensures Seconds(tm) == 86400 * day + timeOfDay
    ensures Result(width, tm) == result
  {
    ClosedFormIsDayNumber(DateOf(tm));
    DaysRight(tm);
  }

  lemma WrappedTimes()
    ensures Stored(Narrow, Wrap(86400 * 24855) + 14400) == 2_147_486_400 - 0x1_0000_0000
    ensures Stored(Wide, Wrap(86400 * 24856) + 14400) == 2_147_572_800 - 0x1_0000_0000
    ensures Stored(Narrow, Wrap(86400 * -24856) + 74752) == -0x8000_0000
    ensures Stored(Wide, Wrap(86400 * -24856) + 74752) == 0x8000_0000
  {
  }

  /** With a narrow time_t 19 January 2038 04:00:00 comes out as a time in 1901. */
  lemma NarrowFails(tm: Tm)
    requires tm == Tm(0, 0, 4, 19, 0, 138)
    ensures IsTm(tm) && Seconds(tm) == 2_147_486_400
    ensures Result(Narrow, tm) == 2_147_486_400 - 0x1_0000_0000
  {
    WrappedTimes();
    OnDay(Narrow, tm, 24855, 14400, 2_147_486_400 - 0x1_0000_0000);
  }

  /** With a wide one the same time of the next day does. */
  lemma WideFails(tm: Tm)
    requires tm == Tm(0, 0, 4, 20, 0, 138)
    ensures IsTm(tm) && Seconds(tm) == 2_147_572_800
    ensures Result(Wide, tm) == 2_147_572_800 - 0x1_0000_0000
  {
    WrappedTimes();
    OnDay(Wide, tm, 24856, 14400, 2_147_572_800 - 0x1_0000_0000);
  }

  /** Conversely, the first time that fits in an int, 13 December 1901 20:45:52, is right with a narrow time_t
      and comes out as a time in 2038 with a wide one. */
  lemma WideFailsEarly(tm: Tm)
    requires tm == Tm(52, 45, 20, 13, 11, 1)
    ensures IsTm(tm) && Seconds(tm) == Result(Narrow, tm) == -0x8000_0000
    ensures Result(Wide, tm) == 0x8000_0000
  {
    WrappedTimes();
    OnDay(Narrow, tm, -24856, 74752, -0x8000_0000);
    OnDay(Wide, tm, -24856, 74752, 0x8000_0000);
  }
}
