/** `std::tm` and `mktime` on the Gregorian calendar in UTC. Years are written in full: `tm_year` is 1900 less. */
module Calendar {

  /* Days, counted from 1970-01-01 */

  predicate Leap(y: int) {
    y % 4 == 0 && (y % 100 != 0 || y % 400 == 0)
  }

  function YearDays(y: int): int {
    if Leap(y) then 366 else 365
  }

  function LeapsBefore(y: int): int {
    (y - 1) / 4 - (y - 1) / 100 + (y - 1) / 400
  }

  /** The first day of a year. */
  function YearStart(y: int): int {
    365 * (y - 1970) + LeapsBefore(y) - LeapsBefore(1970)
  }

  lemma YearStep(y: int)
    ensures YearStart(y + 1) == YearStart(y) + YearDays(y)
  {
    FoursBefore(y);
    HundredsBefore(y);
    FourHundredsBefore(y);
    Multiples(y);
  }

  lemma FoursBefore(y: int)
    ensures y / 4 == (y - 1) / 4 + if y % 4 == 0 then 1 else 0
  {
  }

  lemma HundredsBefore(y: int)
    ensures y / 100 == (y - 1) / 100 + if y % 100 == 0 then 1 else 0
  {
  }

  lemma FourHundredsBefore(y: int)
    ensures y / 400 == (y - 1) / 400 + if y % 400 == 0 then 1 else 0
  {
  }

  lemma Multiples(y: int)
    ensures y % 400 == 0 ==> y % 100 == 0
    ensures y % 100 == 0 ==> y % 4 == 0
  {
  }

  lemma {:induction false} YearsAscend(y: int, z: int)
    requires y < z
    ensures YearStart(y + 1) <= YearStart(z)
    decreases z - y
  {
    hide YearStart;
    if y + 1 < z {
      YearStep(z - 1);
      YearsAscend(y, z - 1);
    }
  }

  /** The number of days in a month; months count from zero. */
  function DaysIn(y: int, m: int): (n: int)
    ensures 28 <= n <= 31
  {
    if m == 1 then (if Leap(y) then 29 else 28)
    else if m == 3 || m == 5 || m == 8 || m == 10 then 30
    else 31
  }

  /** The days of a year before month `m`. */
  function MonthStart(y: int, m: nat): (n: int)
    ensures 28 * m <= n <= 31 * m
  {
    if m == 0 then 0 else MonthStart(y, m - 1) + DaysIn(y, m - 1)
  }

  lemma YearIsItsMonths(y: int)
    ensures MonthStart(y, 12) == YearDays(y)
    ensures MonthStart(y, 11) == YearDays(y) - 31
  {
    assert MonthStart(y, 2) == 31 + DaysIn(y, 1);
    assert MonthStart(y, 4) == MonthStart(y, 2) + 61;
    assert MonthStart(y, 6) == MonthStart(y, 4) + 61;
    assert MonthStart(y, 8) == MonthStart(y, 6) + 62;
    assert MonthStart(y, 10) == MonthStart(y, 8) + 61;
    assert MonthStart(y, 12) == MonthStart(y, 10) + 61;
  }

  lemma {:induction false} MonthsAscend(y: int, m: nat, n: nat)
    requires m < n
    ensures MonthStart(y, m) + DaysIn(y, m) <= MonthStart(y, n)
    decreases n
  {
    hide DaysIn;
    if m + 1 < n { MonthsAscend(y, m, n - 1); }
  }

  function FirstOf(y: int, m: nat): int {
    YearStart(y) + MonthStart(y, m)
  }

  /* The date of a day */

  predicate InYear(day: int, y: int) {
    YearStart(y) <= day < YearStart(y + 1)
  }

  function YearFrom(day: int, y: int): (r: int)
    requires YearStart(y) <= day
    ensures InYear(day, r)
    decreases day - YearStart(y)
  {
    YearStep(y);
    if day < YearStart(y + 1) then y else YearFrom(day, y + 1)
  }

  function YearBefore(day: int, y: int): (r: int)
    requires day < YearStart(y + 1)
    ensures InYear(day, r)
    decreases YearStart(y + 1) - day
  {
    YearStep(y);
    if YearStart(y) <= day then y else YearBefore(day, y - 1)
  }

  function YearOf(day: int): (y: int)
    ensures InYear(day, y)
  {
    if day >= YearStart(1970) then YearFrom(day, 1970) else YearBefore(day, 1969)
  }

  lemma YearUnique(day: int, y: int)
    requires InYear(day, y)
    ensures YearOf(day) == y
  {
    var z := YearOf(day);
    if z < y { YearsAscend(z, y); } else if y < z { YearsAscend(y, z); }
  }

  predicate InMonth(day: int, y: int, m: nat) {
    FirstOf(y, m) <= day < FirstOf(y, m) + DaysIn(y, m)
  }

  function MonthFrom(day: int, y: int, m: nat): (r: nat)
    requires FirstOf(y, m) <= day < FirstOf(y, 12) && m < 12
    ensures r < 12 && InMonth(day, y, r)
    decreases 12 - m
  {
    if day < FirstOf(y, m) + DaysIn(y, m) then m else MonthFrom(day, y, m + 1)
  }

  function MonthOf(day: int): (m: nat)
    ensures m < 12 && InMonth(day, YearOf(day), m)
  {
    YearStep(YearOf(day));
    YearIsItsMonths(YearOf(day));
    MonthFrom(day, YearOf(day), 0)
  }

  /** The day of the month, from one. */
  function MdayOf(day: int): (d: int)
    ensures 1 <= d <= DaysIn(YearOf(day), MonthOf(day))
  {
    day - FirstOf(YearOf(day), MonthOf(day)) + 1
  }

  /** Days since Sunday. */
  function WdayOf(day: int): (w: int)
    ensures 0 <= w < 7
  {
    (day + 4) % 7
  }

  /** A day has one date only. */
  lemma DateUnique(day: int, y: int, m: nat)
    requires m < 12 && InMonth(day, y, m)
    ensures YearOf(day) == y && MonthOf(day) == m && MdayOf(day) == day - FirstOf(y, m) + 1
  {
    hide YearOf, YearStart, MonthStart, DaysIn;
    YearStep(y);
    YearIsItsMonths(y);
    MonthsAscend(y, m, 12);
    YearUnique(day, y);
    var n := MonthOf(day);
    if m < n { MonthsAscend(y, m, n); } else if n < m { MonthsAscend(y, n, m); }
  }

  /* Times, in seconds since the epoch, and broken-down times */

  /** A `std::tm`; its fields need not be in range. */
  datatype Tm = Tm(sec: int, min: int, hour: int, mday: int, mon: int, year: int, wday: int)

  const DAY := 86400

  function DayOf(t: int): int {
    t / DAY
  }

  function Sec(t: int): (s: int)
    ensures 0 <= s < 60
  {
    t % 60
  }

  function Min(t: int): (m: int)
    ensures 0 <= m < 60
  {
    t / 60 % 60
  }

  function Hour(t: int): (h: int)
    ensures 0 <= h < 24
  {
    t / 3600 % 24
  }

  function Mday(t: int): (d: int)
    ensures 1 <= d <= 31
  {
    MdayOf(DayOf(t))
  }

  function Wday(t: int): (w: int)
    ensures 0 <= w < 7
  {
    WdayOf(DayOf(t))
  }

  function Mon(t: int): (m: nat)
    ensures m < 12
  {
    MonthOf(DayOf(t))
  }

  function Year(t: int): int {
    YearOf(DayOf(t))
  }

  /** `gmtime`. */
  function FromTime(t: int): Tm {
    Tm(Sec(t), Min(t), Hour(t), Mday(t), Mon(t), Year(t), Wday(t))
  }

  /** `mktime`: months out of range carry into the year, and all other fields simply add up. The weekday is not read. */
  function MkTime(tm: Tm): int {
    (FirstOf(tm.year + tm.mon / 12, tm.mon % 12) + tm.mday - 1) * DAY + tm.hour * 3600 + tm.min * 60 + tm.sec
  }

  /** The two are inverse to each other. */
  lemma MkTimeFromTime(t: int)
    ensures MkTime(FromTime(t)) == t
  {
    hide FirstOf, YearOf, MonthOf;
    assert t == DayOf(t) * DAY + Hour(t) * 3600 + Min(t) * 60 + Sec(t) by { ClockAddsUp(t); }
  }

  lemma ClockAddsUp(t: int)
    ensures t == DayOf(t) * DAY + Hour(t) * 3600 + Min(t) * 60 + Sec(t)
  {
    assert t / 3600 == t / 60 / 60;
    assert t / DAY == t / 3600 / 24;
  }

  predicate Normal(tm: Tm) {
    && 0 <= tm.sec < 60 && 0 <= tm.min < 60 && 0 <= tm.hour < 24
    && 0 <= tm.mon < 12 && 1 <= tm.mday <= DaysIn(tm.year, tm.mon)
    && tm.wday == WdayOf(FirstOf(tm.year, tm.mon) + tm.mday - 1)
  }

  lemma ClockOf(day: int, hour: int, min: int, sec: int)
    requires 0 <= hour < 24 && 0 <= min < 60 && 0 <= sec < 60
    ensures var t := day * DAY + hour * 3600 + min * 60 + sec;
      DayOf(t) == day && Hour(t) == hour && Min(t) == min && Sec(t) == sec
  {
    var t := day * DAY + hour * 3600 + min * 60 + sec;
    var minutes := day * 1440 + hour * 60 + min;
    Sixties(minutes, sec);
    assert t == 60 * minutes + sec;
    Sixties(day * 24 + hour, min);
    assert minutes == 60 * (day * 24 + hour) + min;
    TwentyFours(day, hour);
    QuotientsOf(t);
  }

  lemma Sixties(q: int, m: int)
    requires 0 <= m < 60
    ensures (60 * q + m) / 60 == q && (60 * q + m) % 60 == m
  {
  }

  lemma TwentyFours(q: int, m: int)
    requires 0 <= m < 24
    ensures (24 * q + m) / 24 == q && (24 * q + m) % 24 == m
  {
  }

  lemma QuotientsOf(t: int)
    ensures t / 3600 == t / 60 / 60 && t / DAY == t / 3600 / 24
  {
  }

  lemma FromTimeMkTime(tm: Tm)
    requires Normal(tm)
    ensures FromTime(MkTime(tm)) == tm
  {
    hide FirstOf, YearOf, MonthOf, DaysIn, DayOf, Hour, Min, Sec;
    var day := FirstOf(tm.year, tm.mon) + tm.mday - 1;
    ClockOf(day, tm.hour, tm.min, tm.sec);
    DateUnique(day, tm.year, tm.mon);
  }

  /** Every time is broken down into fields in range, so those are exactly the ones that times have. */
  lemma FromTimeIsNormal(t: int)
    ensures Normal(FromTime(t))
  {
    hide FirstOf, YearOf, MonthOf, DaysIn, DayOf, Hour, Min, Sec, WdayOf;
  }

  /* The calendar as a clock that ticks */

  /** The length of each month, from January on; February has a day more in leap years. */
  const MONTH_LENGTHS := [31, 28, 31, 30, 31, 30, 31, 31, 30, 31, 30, 31]

  function LengthOf(y: int, m: nat): int
    requires m < 12
  {
    if m == 1 && y % 4 == 0 && (y % 100 != 0 || y % 400 == 0) then 29 else MONTH_LENGTHS[m]
  }

  lemma LengthIsDays(y: int, m: nat)
    requires m < 12
    ensures LengthOf(y, m) == DaysIn(y, m)
  {
  }

  /** The day after a date. */
  function NextDate(tm: Tm): Tm
    requires 0 <= tm.mon < 12
  {
    var tm := tm.(wday := if tm.wday == 6 then 0 else tm.wday + 1);
    if tm.mday < LengthOf(tm.year, tm.mon) then tm.(mday := tm.mday + 1)
    else if tm.mon < 11 then tm.(mday := 1, mon := tm.mon + 1)
    else tm.(mday := 1, mon := 0, year := tm.year + 1)
  }

  /** The second after a time. */
  function Tick(tm: Tm): Tm
    requires 0 <= tm.mon < 12
  {
    if tm.sec < 59 then tm.(sec := tm.sec + 1)
    else if tm.min < 59 then tm.(sec := 0, min := tm.min + 1)
    else if tm.hour < 23 then tm.(sec := 0, min := 0, hour := tm.hour + 1)
    else NextDate(tm.(sec := 0, min := 0, hour := 0))
  }

  lemma DayAfter(day: int)
    ensures var (y, m, d) := (YearOf(day), MonthOf(day), MdayOf(day));
      (YearOf(day + 1), MonthOf(day + 1), MdayOf(day + 1)) ==
        if d < LengthOf(y, m) then (y, m, d + 1) else if m < 11 then (y, m + 1, 1) else (y + 1, 0, 1)
    ensures WdayOf(day + 1) == if WdayOf(day) == 6 then 0 else WdayOf(day) + 1
  {
    hide YearOf, MonthOf, YearStart, MonthStart, DaysIn, LengthOf;
    var (y, m, d) := (YearOf(day), MonthOf(day), MdayOf(day));
    LengthIsDays(y, m);
    if d < DaysIn(y, m) {
      DateUnique(day + 1, y, m);
    } else if m < 11 {
      MonthEnds(y, m);
      DateUnique(day + 1, y, m + 1);
    } else {
      MonthEnds(y, m);
      YearStep(y);
      YearIsItsMonths(y);
      NewYear(y + 1);
      DateUnique(day + 1, y + 1, 0);
    }
  }

  lemma MonthEnds(y: int, m: nat)
    ensures MonthStart(y, m + 1) == MonthStart(y, m) + DaysIn(y, m)
  {
  }

  lemma NewYear(y: int)
    ensures MonthStart(y, 0) == 0
  {
  }

  lemma ClockTicks(t: int)
    ensures Sec(t + 1) == if Sec(t) < 59 then Sec(t) + 1 else 0
    ensures Min(t + 1) == if Sec(t) < 59 then Min(t) else if Min(t) < 59 then Min(t) + 1 else 0
    ensures Hour(t + 1) ==
      if Sec(t) < 59 || Min(t) < 59 then Hour(t) else if Hour(t) < 23 then Hour(t) + 1 else 0
    ensures DayOf(t + 1) == if Sec(t) < 59 || Min(t) < 59 || Hour(t) < 23 then DayOf(t) else DayOf(t) + 1
  {
    hide DayOf, Sec, Min, Hour;
    ClockAddsUp(t);
    var (d, h, m, s) := (DayOf(t), Hour(t), Min(t), Sec(t));
    if s < 59 {
      ClockOf(d, h, m, s + 1);
    } else if m < 59 {
      ClockOf(d, h, m + 1, 0);
    } else if h < 23 {
      ClockOf(d, h + 1, 0, 0);
    } else {
      ClockOf(d + 1, 0, 0, 0);
    }
  }

  /** The epoch is 00:00:00 on Thursday, 1 January 1970, and every second from any time on is one tick. */
  lemma TimeTicks(t: int)
    ensures FromTime(t + 1) == Tick(FromTime(t))
    ensures FromTime(0) == Tm(0, 0, 0, 1, 0, 1970, 4)
  {
    hide YearOf, MonthOf, MdayOf, WdayOf, DayOf, Sec, Min, Hour, LengthOf;
    ClockTicks(t);
    DayAfter(DayOf(t));
    Epoch();
  }

  lemma EpochYear()
    ensures YearStart(1970) == 0
  {
  }

  lemma Epoch()
    ensures FromTime(0) == Tm(0, 0, 0, 1, 0, 1970, 4)
  {
    hide YearOf, MonthOf, MonthStart, YearStart;
    EpochYear();
    NewYear(1970);
    DateUnique(0, 1970, 0);
  }

  /** Fields out of range carry: a month too many is one of the next year, and the others add up to days, minutes and seconds. */
  lemma MkTimeCarries(tm: Tm)
    ensures MkTime(tm.(mon := tm.mon + 12)) == MkTime(tm.(year := tm.year + 1))
    ensures MkTime(tm.(mday := tm.mday + 1)) == MkTime(tm) + 86400
    ensures MkTime(tm.(hour := tm.hour + 1)) == MkTime(tm) + 3600
    ensures MkTime(tm.(min := tm.min + 1)) == MkTime(tm) + 60
    ensures MkTime(tm.(sec := tm.sec + 1)) == MkTime(tm) + 1
  {
    hide FirstOf;
    MonthsCarry(tm.mon);
  }

  lemma MonthsCarry(mon: int)
    ensures (mon + 12) / 12 == mon / 12 + 1 && (mon + 12) % 12 == mon % 12
  {
  }
}
