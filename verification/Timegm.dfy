/** timegm: broken-down UTC time to seconds since the epoch, in 32-bit arithmetic. */
module Timegm {

  newtype int32 = x: int | -0x8000_0000 <= x < 0x8000_0000

  /** year counts from 1900, mon from 0, mday from 1. */
  datatype Tm = Tm(year: int32, mon: int32, mday: int32, hour: int32, min: int32, sec: int32)

  // ---------- The calendar ----------

  predicate IsLeap(y: int)
  {
    (y % 4 == 0 && y % 100 != 0) || y % 400 == 0
  }

  function LeapDay(y: int): int
  {
    if IsLeap(y) then 1 else 0
  }

  const DAYS_IN_MONTH: seq<int32> := [31, 28, 31, 30, 31, 30, 31, 31, 30, 31, 30, 31]

  function MonthLength(y: int, m: nat): (r: int)
    requires m < 12
    ensures 28 <= r <= 31
  {
    DAYS_IN_MONTH[m] as int + if m == 1 then LeapDay(y) else 0
  }

  /** Days in the months before m. */
  function MonthDays(y: int, m: nat): (r: int)
    requires m <= 12
    ensures 28 * m <= r <= 31 * m
  {
    if m == 0 then 0 else MonthDays(y, m - 1) + MonthLength(y, m - 1)
  }

  /** Days from 1970-01-01 to the first day of year y; negative for earlier years. */
  function YearDays(y: int): int
    decreases if y >= 1970 then y - 1970 else 1970 - y
  {
    if y == 1970 then 0
    else if y > 1970 then YearDays(y - 1) + 365 + LeapDay(y - 1)
    else YearDays(y + 1) - 365 - LeapDay(y)
  }

  lemma YearHasItsMonths(y: int)
    ensures MonthDays(y, 12) == 365 + LeapDay(y)
  {
    hide LeapDay;
    assert MonthDays(y, 2) == MonthDays(y, 1) + MonthLength(y, 1) == 59 + LeapDay(y);
    assert MonthDays(y, 4) == MonthDays(y, 3) + MonthLength(y, 3) == 120 + LeapDay(y);
    assert MonthDays(y, 6) == MonthDays(y, 5) + MonthLength(y, 5) == 181 + LeapDay(y);
    assert MonthDays(y, 8) == MonthDays(y, 7) + MonthLength(y, 7) == 243 + LeapDay(y);
    assert MonthDays(y, 10) == MonthDays(y, 9) + MonthLength(y, 9) == 304 + LeapDay(y);
  }

  /** The fields of a date, up to the length of the month, and a time of day with room for a leap second. */
  predicate Valid(tm: Tm)
  {
    0 <= tm.mon <= 11 && 1 <= tm.mday <= 31 && 0 <= tm.hour <= 23 && 0 <= tm.min <= 59 && 0 <= tm.sec <= 60
  }

  /** The year and the month that the fields denote: months beyond the twelve count on into other years. */
  function Year(tm: Tm): int
  {
    tm.year as int + 1900 + tm.mon as int / 12
  }

  function Month(tm: Tm): (m: nat)
    ensures m < 12
  {
    tm.mon as int % 12
  }

  function DayNumber(tm: Tm): int
  {
    YearDays(Year(tm)) + MonthDays(Year(tm), Month(tm)) + tm.mday as int - 1
  }

  function Clock(tm: Tm): int
  {
    tm.hour as int * 3600 + tm.min as int * 60 + tm.sec as int
  }

  /** The time that the fields denote, whether they are in their ranges or not. */
  function Seconds(tm: Tm): int
  {
    DayNumber(tm) * 86400 + Clock(tm)
  }

  // ---------- The closed formula ----------

  /** Section 4.16 of POSIX.1-2017 XBD, from the year and the day of the year. */
  function PosixFormula(year: int, yday: int, clock: int): int
  {
    clock + yday * 86400 + (year - 70) * 31536000
    + ((year - 69) / 4) * 86400 - ((year - 1) / 100) * 86400 + ((year + 299) / 400) * 86400
  }

  function LeapFormula(year: int): int
  {
    (year - 69) / 4 - (year - 1) / 100 + (year + 299) / 400
  }

  lemma QuarterStep(x: int)
    ensures (x + 1 - 69) / 4 == (x - 69) / 4 + if (x + 1900) % 4 == 0 then 1 else 0
  {
  }

  lemma CenturyStep(x: int)
    ensures x / 100 == (x - 1) / 100 + if (x + 1900) % 100 == 0 then 1 else 0
  {
  }

  lemma CycleStep(x: int)
    ensures (x + 300) / 400 == (x + 299) / 400 + if (x + 1900) % 400 == 0 then 1 else 0
  {
  }

  lemma Nested(y: int)
    ensures (y % 400 == 0 ==> y % 100 == 0) && (y % 100 == 0 ==> y % 4 == 0)
  {
    if y % 100 == 0 {
      assert y == 4 * (25 * (y / 100));
    }
    if y % 400 == 0 {
      assert y == 100 * (4 * (y / 400));
    }
  }

  lemma LeapStep(year: int)
    ensures LeapFormula(year + 1) == LeapFormula(year) + LeapDay(year + 1900)
  {
    QuarterStep(year);
    CenturyStep(year);
    CycleStep(year);
    Nested(year + 1900);
  }

  lemma {:induction false} YearDaysClosed(y: int)
    ensures YearDays(y) == (y - 1970) * 365 + LeapFormula(y - 1900)
    decreases if y >= 1970 then y - 1970 else 1970 - y
  {
    if y > 1970 {
      YearDaysClosed(y - 1);
      LeapStep(y - 1901);
    } else if y < 1970 {
      YearDaysClosed(y + 1);
      LeapStep(y - 1900);
    }
  }

  /** The day of the year, from 0: 31 days in January, 28 or 29 in February, and from March on 153 days in
      five months. */
  ghost function DayOfYear(y: int, m: nat, mday: int): int
  {
    mday - 1 + if m == 0 then 0 else if m == 1 then 31 else (153 * (m - 2) + 2) / 5 + 59 + LeapDay(y)
  }

  lemma MonthDaysClosed(y: int, m: nat)
    requires m < 12
    ensures MonthDays(y, m) == DayOfYear(y, m, 1)
  {
    hide LeapDay;
    assert MonthDays(y, 1) == 31 && MonthDays(y, 2) == 59 + LeapDay(y);
    assert MonthDays(y, 4) == MonthDays(y, 3) + MonthLength(y, 3);
    assert MonthDays(y, 6) == MonthDays(y, 5) + MonthLength(y, 5);
    assert MonthDays(y, 8) == MonthDays(y, 7) + MonthLength(y, 7);
    assert MonthDays(y, 10) == MonthDays(y, 9) + MonthLength(y, 9);
  }

  /** The calendar that counts year by year and month by month agrees with the closed formula. */
  lemma SecondsByFormula(tm: Tm)
    requires 0 <= tm.mon <= 11
    ensures Seconds(tm) ==
      PosixFormula(tm.year as int, DayOfYear(tm.year as int + 1900, tm.mon as int, tm.mday as int),
                   tm.hour as int * 3600 + tm.min as int * 60 + tm.sec as int)
  {
    hide MonthDays;
    YearDaysClosed(tm.year as int + 1900);
    MonthDaysClosed(tm.year as int + 1900, tm.mon as int);
  }

  /** Twelve months are a year, also for months out of their range. */
  lemma TwelveMonths(tm: Tm, tn: Tm)
    requires tn.year as int == tm.year as int - 1 && tn.mon as int == tm.mon as int + 12
    requires tn == tm.(year := tn.year, mon := tn.mon)
    ensures Seconds(tn) == Seconds(tm)
  {
  }

  // ---------- timegm ----------

  /** Leap years from 1970 up to y, of which there are none when y is earlier. */
  function LeapsSince1970(y: int): (r: int)
    ensures 0 <= r && (y > 1970 ==> r <= y - 1970)
    decreases y - 1970
  {
    if y <= 1970 then 0 else LeapsSince1970(y - 1) + LeapDay(y - 1)
  }

  function LeapsUpTo1970(y: int): (r: int)
    ensures 0 <= r
    decreases 1970 - y
  {
    if y >= 1970 then 0 else LeapsUpTo1970(y + 1) + LeapDay(y)
  }

  lemma {:induction false} YearDaysCounted(y: int)
    ensures YearDays(y) == (y - 1970) * 365 + LeapsSince1970(y) - LeapsUpTo1970(y)
    decreases if y >= 1970 then y - 1970 else 1970 - y
  {
    if y > 1970 {
      YearDaysCounted(y - 1);
    } else if y < 1970 {
      YearDaysCounted(y + 1);
    }
  }

  /** How many months the second loop goes through. */
  function MonthsRun(tm: Tm): (m: nat)
    requires tm.mon <= 12
    ensures m <= 12
  {
    if tm.mon < 0 then 0 else tm.mon as nat
  }

  /** The day number that the two loops arrive at. */
  function LoopDays(tm: Tm): int
    requires tm.mon <= 12
  {
    (tm.year as int - 70) * 365 + LeapsSince1970(tm.year as int + 1900)
    + MonthDays(tm.year as int + 1900, MonthsRun(tm)) + tm.mday as int - 1
  }

  predicate InWord(x: int)
  {
    -0x8000_0000 <= x < 0x8000_0000
  }

  /** No sum or product of the original leaves the 32-bit numbers, where its result would be undefined. */
  predicate NoOverflow(tm: Tm)
    requires tm.mon <= 12
  {
    var first := (tm.year as int - 70) * 365;
    var y, hours, minutes := tm.year as int + 1900, tm.hour as int * 3600, tm.min as int * 60;
    var days := LoopDays(tm);
    && InWord(y) && InWord(y - 1970) && InWord(first)
    && InWord(first + LeapsSince1970(y)) && InWord(first + LeapsSince1970(y) + MonthDays(y, MonthsRun(tm)))
    && InWord(tm.mday as int - 1) && InWord(days) && InWord(days * 86400)
    && InWord(hours) && InWord(days * 86400 + hours)
    && InWord(minutes) && InWord(days * 86400 + hours + minutes)
    && InWord(days * 86400 + hours + minutes + tm.sec as int)
  }

  /** For a negative month, the days from the month that is meant to the beginning of the year, at which
      the second loop stays. */
  function DaysBack(tm: Tm): int
  {
    if tm.mon < 0 then YearDays(tm.year as int + 1900) - YearDays(Year(tm)) - MonthDays(Year(tm), Month(tm)) else 0
  }

  predicate LeapYear(y: int32)
    ensures LeapYear(y) <==> LeapDay(y as int) == 1
  {
    (y % 4 == 0 && y % 100 != 0) || y % 400 == 0
  }

  lemma NextMonth(y: int, m: nat)
    requires m < 12
    ensures MonthDays(y, m + 1) == MonthDays(y, m) + DAYS_IN_MONTH[m] as int + if m == 1 then LeapDay(y) else 0
  {
  }

  /** The thirteenth month, to which the table of the original still reaches, is January of the next year. */
  lemma Carry(tm: Tm)
    requires 0 <= tm.mon <= 12
    ensures YearDays(Year(tm)) + MonthDays(Year(tm), Month(tm))
         == YearDays(tm.year as int + 1900) + MonthDays(tm.year as int + 1900, tm.mon as nat)
  {
    var y := tm.year as int + 1900;
    if tm.mon == 12 {
      YearHasItsMonths(y);
      NextYearDays(y);
    }
  }

  lemma NextYearDays(y: int)
    ensures YearDays(y + 1) == YearDays(y) + 365 + LeapDay(y)
  {
  }

  /** The first loop. */
  method CountYears(year: int32) returns (days: int32)
    requires InWord(year as int - 1970) && InWord((year as int - 1970) * 365)
    requires InWord((year as int - 1970) * 365 + LeapsSince1970(year as int))
    ensures days as int == (year as int - 1970) * 365 + LeapsSince1970(year as int)
  {
    hide IsLeap, LeapYear, LeapsSince1970;
    LeapsSinceStart();
    days := (year - 1970) * 365;
    var i: int32 := 1970;
    while i < year
      invariant 1970 <= i && (i <= year || i == 1970)
      invariant days as int == (year as int - 1970) * 365 + LeapsSince1970(i as int)
      decreases year as int - i as int
    {
      LeapsGrow(i as int + 1, year as int);
      NextYear(i as int);
      if LeapYear(i) {
        days := days + 1;
      }
      i := i + 1;
    }
  }

  /** The second loop. */
  method AddMonths(days0: int32, year: int32, month: int32) returns (days: int32)
    requires month <= 12
    requires InWord(days0 as int + MonthDays(year as int, if month < 0 then 0 else month as nat))
    ensures days as int == days0 as int + MonthDays(year as int, if month < 0 then 0 else month as nat)
  {
    hide MonthLength, MonthDays, IsLeap, LeapYear;
    NoMonths(year as int);
    days := days0;
    var i: int32 := 0;
    while i < month
      invariant 0 <= i && (i <= month || i == 0)
      invariant days as int == days0 as int + MonthDays(year as int, i as int)
    {
      MonthsGrow(year as int, i as nat + 1, month as nat);
      NextMonth(year as int, i as nat);
      days := days + DAYS_IN_MONTH[i];
      if i == 1 && LeapYear(year) {
        days := days + 1;
      }
      i := i + 1;
    }
  }

  /** For all fields: the result is the time that they denote, too late by one day for each leap year
      between the year and 1970, and by the months that a negative month goes back. */
  method Timegm(tm: Tm) returns (t: int32)
    requires tm.mon <= 12 && NoOverflow(tm)
    ensures t as int == Seconds(tm) + 86400 * (LeapsUpTo1970(tm.year as int + 1900) + DaysBack(tm))
  {
    hide MonthDays, YearDays, LeapsUpTo1970, LeapsSince1970;
    var year: int32 := tm.year + 1900;
    var days := CountYears(year);
    days := AddMonths(days, year, tm.mon);
    days := days + (tm.mday - 1);
    LoopDaysAre(tm);
    t := days * 86400 + tm.hour * 3600 + tm.min * 60 + tm.sec;
  }

  lemma LoopDaysAre(tm: Tm)
    requires tm.mon <= 12
    ensures LoopDays(tm) == DayNumber(tm) + LeapsUpTo1970(tm.year as int + 1900) + DaysBack(tm)
  {
    hide YearDays, LeapsSince1970, LeapsUpTo1970, MonthLength;
    YearDaysCounted(tm.year as int + 1900);
    if tm.mon >= 0 {
      Carry(tm);
    }
  }

  lemma LeapsSinceStart()
    ensures forall y :: y <= 1970 ==> LeapsSince1970(y) == 0
  {
  }

  lemma NextYear(y: int)
    requires y >= 1970
    ensures LeapsSince1970(y + 1) == LeapsSince1970(y) + LeapDay(y)
  {
  }

  lemma NoMonths(y: int)
    ensures MonthDays(y, 0) == 0
  {
  }

  lemma {:induction false} LeapsGrow(a: int, b: int)
    requires a <= b
    ensures LeapsSince1970(a) <= LeapsSince1970(b)
    decreases b - a
  {
    if a < b {
      LeapsGrow(a, b - 1);
    }
  }

  lemma {:induction false} MonthsGrow(y: int, a: nat, b: nat)
    requires a <= b <= 12
    ensures MonthDays(y, a) <= MonthDays(y, b)
    decreases b - a
  {
    if a < b {
      MonthsGrow(y, a, b - 1);
    }
  }

  /** From 1970 on nothing overflows exactly when the time is at most 2^31 - 1. */
  lemma FitsFrom1970(tm: Tm)
    requires Valid(tm) && tm.year >= 70
    ensures NoOverflow(tm) <==> Seconds(tm) <= 0x7fff_ffff
  {
    hide YearDays, LeapsSince1970, MonthLength;
    LoopDaysAre(tm);
    assert LeapsUpTo1970(tm.year as int + 1900) == 0;
    NonNegative(tm);
  }

  lemma NonNegative(tm: Tm)
    requires tm.mon <= 12
    ensures 0 <= LeapsSince1970(tm.year as int + 1900) && 0 <= MonthDays(tm.year as int + 1900, MonthsRun(tm))
  {
  }

  lemma {:induction false} LeapsBefore1969(y: int)
    requires y <= 1968
    ensures LeapsUpTo1970(y) >= 1
    decreases 1970 - y
  {
    if y < 1968 {
      LeapsBefore1969(y + 1);
    }
  }

  lemma {:induction false} YearDaysGrow(a: int, b: int)
    requires a <= b
    ensures YearDays(a) <= YearDays(b)
    decreases b - a
  {
    if a < b {
      YearDaysGrow(a, b - 1);
      NextYearDays(b - 1);
    }
  }

  lemma GoesBack(tm: Tm)
    requires tm.mon < 0
    ensures DaysBack(tm) > 0
  {
    hide YearDays, MonthDays, LeapDay;
    var y := Year(tm);
    assert y + 1 <= tm.year as int + 1900;
    YearDaysGrow(y + 1, tm.year as int + 1900);
    NextYearDays(y);
    YearHasItsMonths(y);
    AddMonth(y, 11);
    MonthsGrow(y, Month(tm), 11);
  }

  /** It is right exactly for the years from 1969 on and months that are not negative: before 1969, days of
      leap years are missing, and negative months are taken for January. */
  lemma RightFrom1969(tm: Tm, t: int)
    requires tm.mon <= 12 && t == Seconds(tm) + 86400 * (LeapsUpTo1970(tm.year as int + 1900) + DaysBack(tm))
    ensures t == Seconds(tm) <==> tm.year >= 69 && tm.mon >= 0
  {
    if tm.mon < 0 {
      GoesBack(tm);
    } else if tm.year < 69 {
      LeapsBefore1969(tm.year as int + 1900);
    } else {
      assert LeapsUpTo1970(1970) == 0 && !IsLeap(1969);
    }
  }

  // ---------- The inverse: from seconds to fields ----------

  function YearFrom(day: nat, y: int): (int, nat)
  {
    if day < 365 + LeapDay(y) then (y, day) else YearFrom(day - 365 - LeapDay(y), y + 1)
  }

  function MonthFrom(day: nat, y: int, m: nat): (r: (nat, nat))
    requires m < 12 && day < MonthDays(y, 12) - MonthDays(y, m)
    ensures r.0 < 12 && r.1 < MonthLength(y, r.0)
    decreases 12 - m
  {
    if day < MonthLength(y, m) then (m, day)
    else
      assert m < 11 by { assert MonthDays(y, 12) == MonthDays(y, 11) + MonthLength(y, 11); }
      MonthFrom(day - MonthLength(y, m), y, m + 1)
  }

  lemma {:induction false} YearFromAdds(day: nat, y: int)
    requires y >= 1970
    ensures var r := YearFrom(day, y);
      r.0 >= y && r.1 < 365 + LeapDay(r.0) && YearDays(r.0) + r.1 == YearDays(y) + day
    decreases day
  {
    if day >= 365 + LeapDay(y) {
      YearFromAdds(day - 365 - LeapDay(y), y + 1);
    }
  }

  lemma {:induction false} MonthFromAdds(day: nat, y: int, m: nat)
    requires m < 12 && day < MonthDays(y, 12) - MonthDays(y, m)
    ensures var r := MonthFrom(day, y, m); MonthDays(y, r.0) + r.1 == MonthDays(y, m) + day
    decreases 12 - m
  {
    if day >= MonthLength(y, m) {
      assert m < 11 by { assert MonthDays(y, 12) == MonthDays(y, 11) + MonthLength(y, 11); }
      MonthFromAdds(day - MonthLength(y, m), y, m + 1);
    }
  }

  /** year, month, day of the month, hour, minute and second, as gmtime gives them. */
  datatype Civil = Civil(year: int, mon: nat, mday: nat, hour: nat, min: nat, sec: nat)

  function Gmtime(t: nat): Civil
  {
    var (y, yday) := YearFrom(t / 86400, 1970);
    YearFromAdds(t / 86400, 1970);
    YearHasItsMonths(y);
    var (m, d) := MonthFrom(yday, y, 0);
    var clock := t % 86400;
    Civil(y, m, d + 1, clock / 3600, clock % 3600 / 60, clock % 60)
  }

  lemma Epoch()
    ensures YearDays(1970) == 0
  {
  }

  predicate IsCivil(tm: Tm, c: Civil)
  {
    && tm.year as int + 1900 == c.year && tm.mon as int == c.mon && tm.mday as int == c.mday
    && tm.hour as int == c.hour && tm.min as int == c.min && tm.sec as int == c.sec
  }

  /** Expanding a time and converting back gives the time. */
  lemma ExpandThenConvert(t: nat, tm: Tm)
    requires IsCivil(tm, Gmtime(t))
    ensures Valid(tm) && Seconds(tm) == t
  {
    hide YearDays, MonthDays, LeapDay, YearFrom, MonthFrom;
    Epoch();
    var (y, yday) := YearFrom(t / 86400, 1970);
    YearFromAdds(t / 86400, 1970);
    YearHasItsMonths(y);
    NoMonths(y);
    MonthFromAdds(yday, y, 0);
    var clock := t % 86400;
    assert clock == clock / 3600 * 3600 + clock % 3600 / 60 * 60 + clock % 60;
  }

  /** A date of the calendar: the day exists in its month, and there is no leap second. */
  predicate Proper(tm: Tm)
  {
    Valid(tm) && tm.year >= 70 && tm.mday as int <= MonthLength(tm.year as int + 1900, tm.mon as nat) && tm.sec <= 59
  }

  lemma {:induction false} YearFromUnique(y: int, day: nat, start: int)
    requires 1970 <= start <= y && day < 365 + LeapDay(y)
    ensures YearDays(y) - YearDays(start) >= 0
    ensures YearFrom(YearDays(y) - YearDays(start) + day, start) == (y, day)
    decreases y - start
  {
    if start < y {
      YearFromUnique(y, day, start + 1);
      assert YearDays(start + 1) == YearDays(start) + 365 + LeapDay(start);
    }
  }

  lemma MonthFromStep(y: int, day: nat, m: nat)
    requires m < 11 && MonthLength(y, m) <= day < MonthDays(y, 12) - MonthDays(y, m)
    ensures MonthDays(y, m + 1) == MonthDays(y, m) + MonthLength(y, m)
    ensures MonthFrom(day, y, m) == MonthFrom(day - MonthLength(y, m), y, m + 1)
  {
  }

  lemma MonthFromHere(y: int, day: nat, m: nat)
    requires m < 12 && day < MonthLength(y, m) && day < MonthDays(y, 12) - MonthDays(y, m)
    ensures MonthFrom(day, y, m) == (m, day)
  {
  }

  lemma AddMonth(y: int, m: nat)
    requires m < 12
    ensures MonthDays(y, m + 1) == MonthDays(y, m) + MonthLength(y, m)
  {
  }

  lemma {:induction false} MonthFromUnique(y: int, mon: nat, day: nat, m: nat)
    requires m <= mon < 12 && day < MonthLength(y, mon)
    ensures 0 <= MonthDays(y, mon) - MonthDays(y, m) && MonthDays(y, mon) + day < MonthDays(y, 12)
    ensures MonthFrom(MonthDays(y, mon) - MonthDays(y, m) + day, y, m) == (mon, day)
    decreases mon - m
  {
    hide MonthDays, MonthLength, MonthFrom;
    MonthsGrow(y, m, mon);
    MonthsGrow(y, mon + 1, 12);
    AddMonth(y, mon);
    if m == mon {
      MonthFromHere(y, day, m);
    } else {
      AddMonth(y, m);
      MonthsGrow(y, m + 1, mon);
      MonthFromStep(y, MonthDays(y, mon) - MonthDays(y, m) + day, m);
      MonthFromUnique(y, mon, day, m + 1);
    }
  }

  lemma ClockFields(hour: nat, min: nat, sec: nat)
    requires hour <= 23 && min <= 59 && sec <= 59
    ensures var clock := hour * 3600 + min * 60 + sec;
      clock < 86400 && clock / 3600 == hour && clock % 3600 / 60 == min && clock % 60 == sec
  {
  }

  /** Converting a proper date and expanding the time gives the date back. */
  lemma ConvertThenExpand(tm: Tm)
    requires Proper(tm)
    ensures Seconds(tm) >= 0 && IsCivil(tm, Gmtime(Seconds(tm)))
  {
    hide YearDays, MonthDays, LeapDay, MonthLength, YearFrom, MonthFrom;
    var y, mon, d := tm.year as int + 1900, tm.mon as nat, tm.mday as nat - 1;
    NoMonths(y);
    Epoch();
    YearHasItsMonths(y);
    MonthFromUnique(y, mon, d, 0);
    YearFromUnique(y, MonthDays(y, mon) + d, 1970);
    ClockFields(tm.hour as nat, tm.min as nat, tm.sec as nat);
    assert Seconds(tm) / 86400 == DayNumber(tm) && Seconds(tm) % 86400 == Clock(tm);
  }
}
