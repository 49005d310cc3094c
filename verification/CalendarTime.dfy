/** Broken-down time to seconds since the epoch. */
module CalendarTime {
  import opened Common

  const TM_YEAR_BASE := 1900
  const EPOCH_YEAR := 1970

  // ----- Arithmetic of the source language

  /** Conversion to time_t, which is 64 bits wide and unsigned here. */
  function TimeT(x: int): nat {
    x % 0x1_0000_0000_0000_0000
  }

  /** Division and remainder that truncate toward zero. */
  function Quot(a: int, b: int): int
    requires b > 0
  {
    if a >= 0 then a / b else -((-a) / b)
  }

  function Rem(a: int, b: int): int
    requires b > 0
  {
    a - b * Quot(a, b)
  }

  /** A right shift by two. */
  function Quarter(a: int): int {
    a / 4
  }

  function Negated(x: int32): int32 {
    Narrow(-(x as int))
  }

  function Bit(b: bool): int {
    if b then 1 else 0
  }

  // ----- The source

  function MonYday(leap: bool): (t: seq<int>)
    ensures |t| == 13
  {
    if leap then [0, 31, 60, 91, 121, 152, 182, 213, 244, 274, 305, 335, 366]
    else [0, 31, 59, 90, 120, 151, 181, 212, 243, 273, 304, 334, 365]
  }

  /** `leapyear`, of a year counted from 1900. */
  predicate LeapYear(year: int) {
    year % 4 == 0 && (Rem(year, 100) != 0 || Quot(year, 100) % 4 == (-Quot(TM_YEAR_BASE, 100)) % 4)
  }

  /** The three counts of `ydhms_diff`: multiples of 4, of 100 and of 400 before the year. */
  function Fours(y: int): int32 {
    Narrow(Quarter(y) + Quarter(TM_YEAR_BASE) - Bit(y % 4 == 0))
  }

  function Hundreds(y: int): int32 {
    Narrow(Quot(Fours(y), 25) - Bit(Rem(Fours(y), 25) < 0))
  }

  function FourHundreds(y: int): int32 {
    Narrow(Quarter(Hundreds(y)))
  }

  function LeapDays(a4: int32, b4: int32, a100: int32, b100: int32, a400: int32, b400: int32): int32 {
    Narrow((a4 - b4) - (a100 - b100) + (a400 - b400))
  }

  function InterveningLeapDays(y1: int, y0: int): int32 {
    LeapDays(Fours(y1), Fours(y0), Hundreds(y1), Hundreds(y0), FourHundreds(y1), FourHundreds(y0))
  }

  /** `ydhms_diff`. */
  function YdhmsDiff(y1: int, yday1: int, h1: int, m1: int, s1: int,
                     y0: int32, yday0: int32, h0: int32, m0: int32, s0: int32): nat
  {
    var years := TimeT(TimeT(y1) - y0);
    var days := TimeT(365 * years + (yday1 - yday0 + InterveningLeapDays(y1, y0)));
    var hours := TimeT(24 * days + (h1 - h0));
    var minutes := TimeT(60 * hours + (m1 - m0));
    TimeT(60 * minutes + (s1 - s0))
  }

  /** `struct tm`. */
  class Tm {
    var sec: int32
    var min: int32
    var hour: int32
    var mday: int32
    var mon: int32
    var year: int32
    var yday: int32

    ghost function Date(): Civil
      reads this
    {
      Civil(year, mon, mday, hour, min, Clamped(sec))
    }

    /** `__mktime`: the seconds of the date the fields name, with any month number carried into the year. */
    method MkTime(offset: int32) returns (t: nat)
      modifies this
      ensures t == TimeT(Seconds(old(Date())) - Negated(offset))
      ensures Date() == WrittenBack(old(Date()))
      ensures sec == if old(sec) < 0 then 0 else if old(sec) <= 59 then old(sec) else 59
      ensures min == old(min) && hour == old(hour) && mday == old(mday)
      ensures mon == Rem(old(mon), 12) == old(mon) % 12 - if old(mon) < 0 && old(mon) % 12 != 0 then 12 else 0
      ensures year == Narrow(old(year) + old(mon) / 12)
      ensures yday == Narrow(MonthsDays(TM_YEAR_BASE + old(year) + old(mon) / 12, old(mon) % 12) + old(mday) - 1)
    {
      var longYear, monRem, longYday := YearAndDay();
      RemTruncates(mon);
      var seconds := sec;
      if seconds < 0 {
        seconds := 0;
      }
      if 59 < seconds {
        seconds := 59;
      }
      t := SinceEpoch(longYear, longYday, seconds, Negated(offset));
      sec := seconds;
      mon := monRem;
      year := Narrow(longYear);
      yday := Narrow(longYday);
    }

    /** The call of `ydhms_diff`. */
    method SinceEpoch(longYear: int, longYday: int, seconds: int, offset: int32) returns (t: nat)
      requires longYear == year + mon / 12
      requires longYday == MonthsDays(TM_YEAR_BASE + (year + mon / 12), mon % 12) - 1 + mday
      ensures t == TimeT(Seconds(Civil(year, mon, mday, hour, min, seconds)) - offset)
    {
      t := YdhmsDiff(longYear, longYday, hour, min, seconds, EPOCH_YEAR - TM_YEAR_BASE, 0, 0, 0, offset);
      DiffIsSeconds(year, mon, mday, hour, min, seconds, offset);
    }

    /** The part of `__mktime` that turns the month into years and days. */
    method YearAndDay() returns (longYear: int, monRem: int32, longYday: int)
      ensures longYear == year + mon / 12 && monRem == Rem(mon, 12)
      ensures longYday == MonthsDays(TM_YEAR_BASE + (year + mon / 12), mon % 12) - 1 + mday
    {
      monRem := Rem(mon, 12);
      var negMonRem := Bit(monRem < 0);
      var monYears := Quot(mon, 12) - negMonRem;
      longYear := year + monYears;
      MonthCarry(mon);
      TableEntry(longYear, monRem + 12 * negMonRem, mon);
      var monYday := MonYday(LeapYear(longYear))[monRem + 12 * negMonRem] - 1;
      longYday := monYday + mday;
    }
  }

  function Clamped(sec: int): int {
    if sec < 0 then 0 else if sec > 59 then 59 else sec
  }

  // ----- The calendar, counted year by year and month by month

  predicate Leap(y: int) {
    y % 4 == 0 && (y % 100 != 0 || y % 400 == 0)
  }

  function YearLength(y: int): int {
    if Leap(y) then 366 else 365
  }

  function MonthLength(y: int, m: int): int
    requires 0 <= m < 12
  {
    if m == 1 then if Leap(y) then 29 else 28
    else if m == 3 || m == 5 || m == 8 || m == 10 then 30
    else 31
  }

  /** The days from the start of one year to the start of another. */
  function YearsDays(from: int, to: int): int
    decreases if from <= to then to - from else from - to
  {
    if from == to then 0
    else if from < to then YearsDays(from, to - 1) + YearLength(to - 1)
    else YearsDays(from, to + 1) - YearLength(to)
  }

  /** The days of the year before its month `m`. */
  function MonthsDays(y: int, m: nat): int
    requires m <= 12
  {
    if m == 0 then 0 else MonthsDays(y, m - 1) + MonthLength(y, m - 1)
  }

  /** Days since the first of January 1970. */
  function DayNumber(y: int, m: int, d: int): int
    requires 0 <= m < 12
  {
    YearsDays(EPOCH_YEAR, y) + MonthsDays(y, m) + d - 1
  }

  /** What a `struct tm` names: the year counts from 1900, the month from 0, and no field need be in range. */
  datatype Civil = Civil(year: int, mon: int, mday: int, hour: int, min: int, sec: int)

  /** Seconds since the epoch. */
  function Seconds(c: Civil): int {
    60 * (60 * (24 * DayNumber(TM_YEAR_BASE + c.year + c.mon / 12, c.mon % 12, c.mday) + c.hour) + c.min) + c.sec
  }

  // ----- The fast forms are the calendar

  lemma LeapYearIsGregorian(year: int)
    ensures LeapYear(year) <==> Leap(TM_YEAR_BASE + year)
  {
    var q := Quot(year, 100);
    assert (-Quot(TM_YEAR_BASE, 100)) % 4 == 1;
    BaseIsMultipleOfFour(year);
    Hundred(year, q, Rem(year, 100));
    if Rem(year, 100) == 0 {
      FourCenturies(q);
    } else {
      Multiples(TM_YEAR_BASE + year);
    }
  }

  lemma BaseIsMultipleOfFour(year: int)
    ensures (TM_YEAR_BASE + year) % 4 == year % 4
  {
  }

  lemma Hundred(year: int, q: int, r: int)
    requires year == 100 * q + r && -100 < r < 100
    ensures r == 0 <==> (TM_YEAR_BASE + year) % 100 == 0
  {
    if r < 0 {
      assert TM_YEAR_BASE + year == 100 * (q + 18) + (r + 100);
    } else {
      assert TM_YEAR_BASE + year == 100 * (q + 19) + r;
    }
  }

  lemma FourCenturies(q: int)
    ensures q % 4 == 1 <==> (TM_YEAR_BASE + 100 * q) % 400 == 0
  {
    FourCenturiesOf(q / 4, q % 4);
  }

  lemma FourCenturiesOf(k: int, r: nat)
    requires r < 4
    ensures r == 1 <==> (TM_YEAR_BASE + 100 * (4 * k + r)) % 400 == 0
  {
    if r == 0 {
      assert TM_YEAR_BASE + 100 * (4 * k + r) == 400 * (k + 4) + 300;
    } else {
      assert TM_YEAR_BASE + 100 * (4 * k + r) == 400 * (k + 5) + 100 * (r - 1);
    }
  }

  lemma Multiples(y: int)
    ensures y % 400 == 0 ==> y % 100 == 0
    ensures y % 100 == 0 ==> y % 4 == 0
  {
    if y % 400 == 0 {
      FourHundredsAreHundreds(y / 400);
    }
    if y % 100 == 0 {
      HundredsAreFours(y / 100);
    }
  }

  lemma FourHundredsAreHundreds(k: int)
    ensures (400 * k) % 100 == 0
  {
    assert 400 * k == 100 * (4 * k);
  }

  lemma HundredsAreFours(k: int)
    ensures (100 * k) % 4 == 0
  {
    assert 100 * k == 4 * (25 * k);
  }

  lemma TableIsSum(year: int, m: nat)
    requires m <= 12
    ensures MonYday(LeapYear(year))[m] == MonthsDays(TM_YEAR_BASE + year, m)
  {
    LeapYearIsGregorian(year);
    if m > 0 {
      TableIsSum(year, m - 1);
    }
  }

  lemma FloorOfQuarter(y: int)
    ensures Quarter(y) + Quarter(TM_YEAR_BASE) - Bit(y % 4 == 0) == (TM_YEAR_BASE + y - 1) / 4
  {
  }

  lemma TruncatedToFloor(a: int)
    ensures Quot(a, 25) - Bit(Rem(a, 25) < 0) == a / 25
  {
    var q := a / 25;
    if a < 0 {
      assert (-a) / 25 == if a % 25 == 0 then -q else -q - 1;
    }
  }

  lemma HundredthOfFloor(x: int)
    ensures (x / 4) / 25 == x / 100
  {
  }

  lemma FourHundredthOfFloor(x: int)
    ensures (x / 100) / 4 == x / 400
  {
  }

  lemma FitsInt(x: int)
    requires -0x8000_0000 <= x <= INT_MAX
    ensures Narrow(x) == x
  {
  }

  /** No count overflows for any year a 32-bit year field with a month carry can name, and each is a floor. */
  lemma FoursAreFloors(y: int)
    requires -0x1_0000_0000 <= y <= 0x1_0000_0000
    ensures Fours(y) == (TM_YEAR_BASE + y - 1) / 4
  {
    FloorOfQuarter(y);
  }

  lemma HundredsAreFloors(y: int)
    requires -0x1_0000_0000 <= y <= 0x1_0000_0000
    ensures Hundreds(y) == (TM_YEAR_BASE + y - 1) / 100
  {
    FoursAreFloors(y);
    TruncatedToFloor(Fours(y));
    HundredthOfFloor(TM_YEAR_BASE + y - 1);
  }

  lemma FourHundredsAreFloors(y: int)
    requires -0x1_0000_0000 <= y <= 0x1_0000_0000
    ensures FourHundreds(y) == (TM_YEAR_BASE + y - 1) / 400
  {
    HundredsAreFloors(y);
    FourHundredthOfFloor(TM_YEAR_BASE + y - 1);
    FitsInt((TM_YEAR_BASE + y - 1) / 400);
  }

  function LeapDaysBefore(y: int): int {
    (y - 1) / 4 - (y - 1) / 100 + (y - 1) / 400
  }

  /** The closed form counts the leap years one by one. */
  lemma {:induction false} ClosedForm(from: int, to: int)
    ensures 365 * (to - from) + LeapDaysBefore(to) - LeapDaysBefore(from) == YearsDays(from, to)
    decreases if from <= to then to - from else from - to
  {
    if from < to {
      ClosedForm(from, to - 1);
      OneYear(to - 1);
    } else if from > to {
      ClosedForm(from, to + 1);
      OneYear(to);
    }
  }

  lemma OneYear(y: int)
    ensures LeapDaysBefore(y + 1) - LeapDaysBefore(y) == Bit(Leap(y))
  {
    QuarterStep(y);
    HundredthStep(y);
    FourHundredthStep(y);
    Multiples(y);
  }

  lemma QuarterStep(y: int)
    ensures y / 4 - (y - 1) / 4 == Bit(y % 4 == 0)
  {
  }

  lemma HundredthStep(y: int)
    ensures y / 100 - (y - 1) / 100 == Bit(y % 100 == 0)
  {
  }

  lemma FourHundredthStep(y: int)
    ensures y / 400 - (y - 1) / 400 == Bit(y % 400 == 0)
  {
  }

  lemma WholeTurns(z: int, turns: int)
    ensures TimeT(z + turns * 0x1_0000_0000_0000_0000) == TimeT(z)
  {
  }

  lemma TimeTOfScaled(k: int, x: int, c: int)
    ensures TimeT(k * TimeT(x) + c) == TimeT(k * x + c)
  {
    var q := x / 0x1_0000_0000_0000_0000;
    assert k * TimeT(x) + c == k * x + c + (-(k * q)) * 0x1_0000_0000_0000_0000;
    WholeTurns(k * x + c, -(k * q));
  }

  lemma LeapDaysFit(a4: int32, b4: int32, a100: int32, b100: int32, a400: int32, b400: int32)
    requires -0x4800_0000 <= a4 <= 0x4800_0000 && b4 == 492 && b100 == 19 && b400 == 4
    requires -0x400_0000 <= a100 <= 0x400_0000 && -0x400_0000 <= a400 <= 0x400_0000
    ensures LeapDays(a4, b4, a100, b100, a400, b400) == a4 - a100 + a400 - 477
  {
  }

  /** The year 1970 is the base of every call. */
  lemma LeapDaysAreExact(y1: int)
    requires -0x1_0000_0000 <= y1 <= 0x1_0000_0000
    ensures InterveningLeapDays(y1, 70) == LeapDaysBefore(TM_YEAR_BASE + y1) - LeapDaysBefore(EPOCH_YEAR)
  {
    FoursAreFloors(y1);
    HundredsAreFloors(y1);
    FourHundredsAreFloors(y1);
    LeapDaysFit(Fours(y1), Fours(70), Hundreds(y1), Hundreds(70), FourHundreds(y1), FourHundreds(70));
  }

  /** Each step wraps on its own; the result wraps once. */
  lemma StepsWrapOnce(years: int, d: int, h: int, m: int, s: int)
    ensures TimeT(60 * TimeT(60 * TimeT(24 * TimeT(365 * TimeT(years) + d) + h) + m) + s) ==
      TimeT(60 * (60 * (24 * (365 * years + d) + h) + m) + s)
  {
    TimeTOfScaled(365, years, d);
    TimeTOfScaled(24, 365 * years + d, h);
    TimeTOfScaled(60, 24 * (365 * years + d) + h, m);
    TimeTOfScaled(60, 60 * (24 * (365 * years + d) + h) + m, s);
  }

  /** `ydhms_diff`, called with the epoch, is the calendar's difference modulo the width of time_t. */
  lemma DiffIsCalendar(y1: int, yday1: int, h1: int, m1: int, s1: int, s0: int32)
    requires -0x1_0000_0000 <= y1 <= 0x1_0000_0000
    ensures YdhmsDiff(y1, yday1, h1, m1, s1, EPOCH_YEAR - TM_YEAR_BASE, 0, 0, 0, s0) ==
      TimeT(60 * (60 * (24 * (YearsDays(EPOCH_YEAR, TM_YEAR_BASE + y1) + yday1) + h1) + m1) + s1 - s0)
  {
    LeapDaysAreExact(y1);
    ClosedForm(EPOCH_YEAR, TM_YEAR_BASE + y1);
    DiffWrapsOnce(y1, yday1, h1, m1, s1, 70, 0, 0, 0, s0);
  }

  lemma TableEntry(year: int, entry: int, mon: int)
    requires entry == mon % 12
    ensures 0 <= entry < 12 && MonYday(LeapYear(year))[entry] == MonthsDays(TM_YEAR_BASE + year, entry)
  {
    TableIsSum(year, entry);
  }

  lemma DiffIsSeconds(year: int32, mon: int32, mday: int, hour: int, min: int, sec: int, offset: int32)
    ensures YdhmsDiff(year + mon / 12, MonthsDays(TM_YEAR_BASE + (year + mon / 12), mon % 12) - 1 + mday, hour, min,
                      sec, EPOCH_YEAR - TM_YEAR_BASE, 0, 0, 0, offset) ==
      TimeT(Seconds(Civil(year, mon, mday, hour, min, sec)) - offset)
  {
    DiffIsCalendar(year + mon / 12, MonthsDays(TM_YEAR_BASE + (year + mon / 12), mon % 12) - 1 + mday, hour, min, sec,
                   offset);
  }

  lemma DiffWrapsOnce(y1: int, yday1: int, h1: int, m1: int, s1: int,
                      y0: int32, yday0: int32, h0: int32, m0: int32, s0: int32)
    ensures YdhmsDiff(y1, yday1, h1, m1, s1, y0, yday0, h0, m0, s0) ==
      TimeT(60 * (60 * (24 * (365 * (y1 - y0) + (yday1 - yday0 + InterveningLeapDays(y1, y0))) + (h1 - h0))
                  + (m1 - m0)) + (s1 - s0))
  {
    TimeTOfScaled(1, y1, -(y0 as int));
    StepsWrapOnce(y1 - y0, yday1 - yday0 + InterveningLeapDays(y1, y0), h1 - h0, m1 - m0, s1 - s0);
  }

  /** The truncated remainder has the sign of the month. */
  lemma RemTruncates(mon: int)
    ensures Rem(mon, 12) == mon % 12 - if mon < 0 && mon % 12 != 0 then 12 else 0
  {
    MonthCarry(mon);
  }

  lemma MonthCarry(mon: int)
    ensures Rem(mon, 12) + 12 * Bit(Rem(mon, 12) < 0) == mon % 12
    ensures Quot(mon, 12) - Bit(Rem(mon, 12) < 0) == mon / 12
  {
    if mon < 0 {
      assert (-mon) / 12 == if mon % 12 == 0 then -(mon / 12) else -(mon / 12) - 1;
    }
  }

  // ----- What the result means

  datatype Date = Date(y: int, m: int, d: int) {
    predicate Valid() {
      0 <= m < 12 && 1 <= d <= MonthLength(y, m)
    }

    function Next(): (r: Date)
      requires Valid()
      ensures r.Valid()
    {
      if d < MonthLength(y, m) then Date(y, m, d + 1)
      else if m < 11 then Date(y, m + 1, 1)
      else Date(y + 1, 0, 1)
    }
  }

  lemma YearIsItsMonths(y: int)
    ensures MonthsDays(y, 12) == YearLength(y)
  {
    TableIsSum(y - TM_YEAR_BASE, 12);
    LeapYearIsGregorian(y - TM_YEAR_BASE);
  }

  lemma NextYear(y: int)
    ensures YearsDays(EPOCH_YEAR, y + 1) == YearsDays(EPOCH_YEAR, y) + YearLength(y)
  {
  }

  /** The day number goes up by one from each day to the next: the last of February, the last of December and
      all others. */
  lemma NextDayIsOneMore(date: Date)
    requires date.Valid()
    ensures DayNumber(date.Next().y, date.Next().m, date.Next().d) == DayNumber(date.y, date.m, date.d) + 1
  {
    YearIsItsMonths(date.y);
    NextYear(date.y);
  }

  /** The nth day after the first of January 1970, going from day to day. */
  function NthDay(n: nat): (date: Date)
    ensures date.Valid()
  {
    if n == 0 then Date(EPOCH_YEAR, 0, 1) else NthDay(n - 1).Next()
  }

  /** So the time of that day is its count of days. */
  lemma {:induction false} NthDayIsCounted(n: nat)
    ensures var d := NthDay(n); Seconds(Civil(d.y - TM_YEAR_BASE, d.m, d.d, 0, 0, 0)) == 86400 * n
  {
    if n > 0 {
      NthDayIsCounted(n - 1);
      NextDayIsOneMore(NthDay(n - 1));
    }
  }

  /** The formula of section 4.16 of IEEE Std 1003.1-2017, for the years it is given for. */
  function Posix(year: int, yday: int, hour: int, min: int, sec: int): int {
    sec + min * 60 + hour * 3600 + yday * 86400 + (year - 70) * 31536000
    + ((year - 69) / 4) * 86400 - ((year - 1) / 100) * 86400 + ((year + 299) / 400) * 86400
  }

  lemma SecondsArePosix(c: Civil)
    requires c.year + c.mon / 12 >= 70
    ensures
      var year := c.year + c.mon / 12;
      var yday := MonthsDays(TM_YEAR_BASE + year, c.mon % 12) + c.mday - 1;
      Seconds(c) == Posix(year, yday, c.hour, c.min, c.sec)
  {
    var year := c.year + c.mon / 12;
    ClosedForm(EPOCH_YEAR, TM_YEAR_BASE + year);
    assert (year + 1899) / 4 == (year - 69) / 4 + 492;
    assert (year + 1899) / 100 == (year - 1) / 100 + 19;
    assert (year + 1899) / 400 == (year + 299) / 400 + 4;
  }

  /** The offset is added, as far as it can be negated. */
  lemma OffsetIsAdded(c: Civil, offset: int32)
    requires offset != -0x8000_0000
    ensures TimeT(Seconds(c) - Negated(offset)) == (Seconds(c) + offset) % 0x1_0000_0000_0000_0000
  {
  }

  /** Whole years of months are years. */
  lemma MonthsCarry(c: Civil, k: int)
    ensures Seconds(c.(mon := c.mon + 12 * k)) == Seconds(c.(year := c.year + k))
  {
    assert (c.mon + 12 * k) / 12 == c.mon / 12 + k;
  }

  predicate Normalised(c: Civil) {
    && Date(TM_YEAR_BASE + c.year, c.mon, c.mday).Valid()
    && 0 <= c.hour < 24 && 0 <= c.min < 60 && 0 <= c.sec < 60
  }

  predicate DayBefore(a: Civil, b: Civil) {
    a.year < b.year || (a.year == b.year && (a.mon < b.mon || (a.mon == b.mon && a.mday < b.mday)))
  }

  predicate Earlier(a: Civil, b: Civil) {
    || DayBefore(a, b)
    || (&& a.year == b.year && a.mon == b.mon && a.mday == b.mday
        && (a.hour < b.hour || (a.hour == b.hour && (a.min < b.min || (a.min == b.min && a.sec < b.sec)))))
  }

  lemma {:induction false} MonthsGrow(y: int, m: nat, n: nat)
    requires m < n <= 12
    ensures MonthsDays(y, m) + MonthLength(y, m) <= MonthsDays(y, n)
  {
    if n > m + 1 {
      MonthsGrow(y, m, n - 1);
    }
  }

  lemma {:induction false} YearsGrow(y: int, z: int)
    requires y < z
    ensures YearsDays(EPOCH_YEAR, y) + YearLength(y) <= YearsDays(EPOCH_YEAR, z)
    decreases z - y
  {
    NextYear(z - 1);
    if z > y + 1 {
      YearsGrow(y, z - 1);
    }
  }

  lemma DaysGrow(a: Civil, b: Civil)
    requires Normalised(a) && Normalised(b) && DayBefore(a, b)
    ensures DayNumber(TM_YEAR_BASE + a.year, a.mon, a.mday) < DayNumber(TM_YEAR_BASE + b.year, b.mon, b.mday)
  {
    var y, z := TM_YEAR_BASE + a.year, TM_YEAR_BASE + b.year;
    if y < z {
      YearsGrow(y, z);
      YearIsItsMonths(y);
      MonthsGrow(y, a.mon, 12);
      if b.mon > 0 {
        MonthsGrow(z, 0, b.mon);
      }
    } else if a.mon < b.mon {
      MonthsGrow(y, a.mon, b.mon);
    }
  }

  /** Later dates get later times. */
  lemma LaterIsGreater(a: Civil, b: Civil)
    requires Normalised(a) && Normalised(b) && Earlier(a, b)
    ensures Seconds(a) < Seconds(b)
  {
    if DayBefore(a, b) {
      DaysGrow(a, b);
    }
  }

  /** From 1970 on nothing wraps: the result of `mktime` is the time itself. */
  lemma EpochYearsDoNotWrap(c: Civil)
    requires Normalised(c) && 70 <= c.year < 0x8000_0000
    ensures TimeT(Seconds(c)) == Seconds(c)
  {
    YearsBounded(TM_YEAR_BASE + c.year);
    MonthsNonNegative(TM_YEAR_BASE + c.year, c.mon);
  }

  lemma {:induction false} YearsBounded(y: int)
    requires y >= EPOCH_YEAR
    ensures 0 <= YearsDays(EPOCH_YEAR, y) <= 366 * (y - EPOCH_YEAR)
  {
    if y > EPOCH_YEAR {
      YearsBounded(y - 1);
    }
  }

  lemma {:induction false} MonthsNonNegative(y: int, m: nat)
    requires m <= 12
    ensures 0 <= MonthsDays(y, m) <= 31 * m
  {
    if m > 0 {
      MonthsNonNegative(y, m - 1);
    }
  }

  /** What a call leaves in the fields. */
  function WrittenBack(c: Civil): Civil {
    c.(year := Narrow(c.year + c.mon / 12), mon := Rem(c.mon, 12))
  }

  /** The carried year is one an int can hold, and the month is not a negative one inside a year: otherwise the
      year that is written back is another one, or it has its carry while the month is still negative. */
  predicate Settled(year: int32, mon: int32) {
    -0x8000_0000 <= year + mon / 12 <= INT_MAX && (mon >= 0 || mon % 12 == 0)
  }

  /** A second call on the fields that a first call left gives the same time exactly then. */
  lemma SecondCallAgrees(c: Civil, year: int32, mon: int32, offset: int32)
    requires c.year == year && c.mon == mon
    ensures TimeT(Seconds(WrittenBack(c)) - offset) == TimeT(Seconds(c) - offset) <==> Settled(year, mon)
  {
    MonthCarry(mon);
    var first, second := year + mon / 12, Narrow(year + mon / 12) - Bit(Rem(mon, 12) < 0);
    CarriesAgain(c);
    NarrowOrAway(first);
    assert second == first <==> Settled(year, mon);
    if second != first {
      YearsAreFar(c.(year := second, mon := mon % 12), c.(year := first, mon := mon % 12));
      assert Seconds(c) == Seconds(c.(year := first, mon := mon % 12));
      DifferentTimes(Seconds(WrittenBack(c)), Seconds(c), offset);
    }
  }

  lemma CarriesAgain(c: Civil)
    ensures Seconds(WrittenBack(c)) ==
      Seconds(c.(year := Narrow(c.year + c.mon / 12) - Bit(Rem(c.mon, 12) < 0), mon := c.mon % 12))
    ensures Seconds(c) == Seconds(c.(year := c.year + c.mon / 12, mon := c.mon % 12))
  {
    MonthCarry(c.mon);
    var rem := Rem(c.mon, 12);
    assert rem / 12 == -Bit(rem < 0) && rem % 12 == c.mon % 12;
  }

  lemma NarrowOrAway(x: int)
    requires -0x1_0000_0000 <= x <= 0x1_0000_0000
    ensures if -0x8000_0000 <= x <= INT_MAX then Narrow(x) == x
            else Narrow(x) == x + UINT_VALUES || Narrow(x) == x - UINT_VALUES
  {
  }

  lemma DifferentTimes(x: int, y: int, offset: int)
    requires x != y && -0x1000_0000_0000_0000 < x - y < 0x1000_0000_0000_0000
    ensures TimeT(x - offset) != TimeT(y - offset)
  {
  }

  /** Different years, with the same month and the same rest, are at least a day apart and not a turn of time_t. */
  lemma YearsAreFar(a: Civil, b: Civil)
    requires 0 <= a.mon == b.mon < 12 && a == b.(year := a.year) && a.year != b.year
    requires -0x3_0000_0000 <= a.year - b.year <= 0x3_0000_0000
    ensures Seconds(a) != Seconds(b) && -0x1000_0000_0000_0000 < Seconds(a) - Seconds(b) < 0x1000_0000_0000_0000
  {
    var y, z := TM_YEAR_BASE + a.year, TM_YEAR_BASE + b.year;
    MonthsDiffer(y, z, a.mon);
    if y < z {
      YearsBetween(y, z);
    } else {
      YearsBetween(z, y);
    }
  }

  lemma {:induction false} YearsBetween(y: int, z: int)
    requires y <= z
    ensures 365 * (z - y) <= YearsDays(EPOCH_YEAR, z) - YearsDays(EPOCH_YEAR, y) <= 366 * (z - y)
    decreases z - y
  {
    if y < z {
      YearsBetween(y, z - 1);
      NextYear(z - 1);
    }
  }

  /** Two dates on which it does not: the first of December 1969, written as month -1 of 1970, and the last
      year an int can hold, with month 12. */
  lemma SecondCallsThatDiffer()
    ensures Seconds(Civil(70, -1, 1, 0, 0, 0)) == -31 * 86400
    ensures Seconds(WrittenBack(Civil(70, -1, 1, 0, 0, 0))) == -396 * 86400
    ensures !Settled(70, -1) && !Settled(INT_MAX, 12)
  {
    var c := Civil(70, -1, 1, 0, 0, 0);
    NthDecember();
    assert WrittenBack(c) == Civil(69, -1, 1, 0, 0, 0);
  }

  lemma NthDecember()
    ensures MonthsDays(1969, 11) == MonthsDays(1968, 11) - 1 == 334
    ensures YearsDays(EPOCH_YEAR, 1969) == -365 && YearsDays(EPOCH_YEAR, 1968) == -731
  {
    TableIsSum(69, 11);
    TableIsSum(68, 11);
    NextYear(1969);
    NextYear(1968);
  }

  /** `mktime` twice on the same object. */
  method MkTimeTwice(tm: Tm, offset: int32) returns (first: nat, second: nat)
    modifies tm
    ensures first == second <==> Settled(old(tm.year), old(tm.mon))
  {
    ghost var c, year, mon := tm.Date(), tm.year, tm.mon;
    first := tm.MkTime(offset);
    second := tm.MkTime(offset);
    SecondCallAgrees(c, year, mon, Negated(offset));
  }

  lemma {:induction false} MonthsDiffer(y: int, z: int, m: nat)
    requires m <= 12
    ensures -1 <= MonthsDays(y, m) - MonthsDays(z, m) <= 1
    ensures m <= 1 ==> MonthsDays(y, m) == MonthsDays(z, m)
  {
    if m > 0 {
      MonthsDiffer(y, z, m - 1);
      if m > 2 {
        MonthsDiffer(y, z, 2);
        LaterMonths(y, z, m);
      }
    }
  }

  lemma {:induction false} LaterMonths(y: int, z: int, m: nat)
    requires 2 <= m <= 12
    ensures MonthsDays(y, m) - MonthsDays(y, 2) == MonthsDays(z, m) - MonthsDays(z, 2)
  {
    if m > 2 {
      LaterMonths(y, z, m - 1);
    }
  }
}
