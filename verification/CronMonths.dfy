/** Where the search goes when it sets the month: to its first day, or past it if the month is too short. */
module CronMonths {
  import opened Calendar
  import opened Cron
  import opened CronSteps

  lemma ClockShift(t: int, k: int)
    ensures Sec(t + DAY * k) == Sec(t) && Min(t + DAY * k) == Min(t) && Hour(t + DAY * k) == Hour(t)
    ensures DayOf(t + DAY * k) == DayOf(t) + k
  {
    hide Sec, Min, Hour, DayOf;
    ClockAddsUp(t);
    ClockOf(DayOf(t) + k, Hour(t), Min(t), Sec(t));
  }

  /** At midnight of a day, but for seconds that are not reset. */
  ghost predicate Midnightly(u: int, day: int, t: int, marked: set<Field>) {
    DayOf(u) == day && Hour(u) == 0 && Min(u) == 0 && Sec(u) == if Second in marked then 0 else Sec(t)
  }

  ghost predicate AllMarked(marked: set<Field>) {
    {Minute, HourOfDay, DayOfMonth} <= marked <= {Second, Minute, HourOfDay, DayOfMonth}
  }

  /** Resetting the clock and the day of the month. */
  lemma ResetToFirst(t: int, marked: set<Field>, y: int, m: nat)
    requires AllMarked(marked) && m < 12 && InMonth(DayOf(t), y, m)
    ensures var r := ResetAll(t, marked, 0); r.At? ==> Midnightly(r.t, FirstOf(y, m), t, marked)
  {
    hide ResetAll, FirstOf, Sec, Min, Hour, DayOf, MkTime, FromTime, YearOf, MonthOf;
    var u := AllCleared(t, marked);
    ResetUpToDay(t, marked);
    AllClearedIs(t, marked - {DayOfMonth}, DayOfMonth);
    SameCleared(t, marked);
    DayIsIndex(t);
    DayIsIndex(u);
    FirstShift(u);
    ClockShift(u, 1 - Mday(u));
    DateUnique(DayOf(u), y, m);
  }

  /** Setting the month goes to its first day, or to that of the next month if it does not have the day of the month. */
  lemma SetMonthLands(t: int, value: nat, found: nat, marked: set<Field>)
    requires found < 12 && found != value && AllMarked(marked)
    ensures var r := ApplyField(t, value, Month, found, marked);
      var m := if Mday(t) <= DaysIn(Year(t), found) then found else found + 1;
      r.Search? ==> r.value == found && Midnightly(r.t, FirstOf(Year(t), m), t, marked)
  {
    hide ResetAll, MkTime, FromTime, FirstOf, YearOf, MonthOf, DayOf, Sec, Min, Hour, DaysIn;
    MonthShift(t, found);
    var k := FirstOf(Year(t), found) - FirstOf(Year(t), Mon(t));
    ClockShift(t, k);
    if Mday(t) <= DaysIn(Year(t), found) {
      ResetToFirst(t + DAY * k, marked, Year(t), found);
    } else {
      MonthFollows(Year(t), found);
      ResetToFirst(t + DAY * k, marked, Year(t), found + 1);
    }
  }

  lemma MonthFollows(y: int, m: nat)
    requires m < 12
    ensures FirstOf(y, m + 1) == FirstOf(y, m) + DaysIn(y, m)
    ensures m == 11 ==> DaysIn(y, m) == 31
  {
    hide YearStart;
  }

  /** The day of the month that the search carries along: a year after a leap day it is a first of March. */
  function CarriedMday(bits: set<nat>, day: int): int {
    if Wraps(bits, MonthOf(day)) && MdayOf(day) > DaysIn(YearOf(day) + 1, MonthOf(day)) then 1 else MdayOf(day)
  }

  lemma YearOnMday(t: int)
    ensures Mday(YearOn(t)) == if Mday(t) > DaysIn(Year(t) + 1, Mon(t)) then 1 else Mday(t)
  {
    hide FirstOf, YearOf, MonthOf, DayOf, DaysIn;
    var (y, m) := (Year(t), Mon(t));
    DayShift(t, FirstOf(y + 1, m) - FirstOf(y, m));
    if Mday(t) <= DaysIn(y + 1, m) {
      DateUnique(DayOf(YearOn(t)), y + 1, m);
    } else {
      LeapDay(y, m, Mday(t));
      DateUnique(DayOf(YearOn(t)), y + 1, 2);
    }
  }

  lemma LeapDay(y: int, m: nat, mday: int)
    requires m < 12 && DaysIn(y + 1, m) < mday <= DaysIn(y, m)
    ensures m == 1 && mday == 29 && FirstOf(y + 1, 1) + 28 == FirstOf(y + 1, 2)
  {
    hide YearStart;
    assert MonthStart(y + 1, 2) == MonthStart(y + 1, 1) + DaysIn(y + 1, 1);
  }

  lemma JanuaryMday(t: int)
    ensures Mday(January(t)) == Mday(t) && Year(January(t)) == Year(t)
  {
    hide FirstOf, YearOf, MonthOf, DayOf;
    DayShift(t, FirstOf(Year(t), 0) - FirstOf(Year(t), Mon(t)));
    DateUnique(DayOf(January(t)), Year(t), 0);
  }

  /** The month that the search goes to: the next of the set, in this year or the next. */
  function NextMonth(bits: set<nat>, day: int): (r: (int, int)) {
    if Wraps(bits, MonthOf(day)) then (YearOf(day) + 1, NextSetBit(bits, 12, 0))
    else (YearOf(day), NextSetBit(bits, 12, MonthOf(day)))
  }

  lemma NextMonthIs(bits: set<nat>, day: int)
    requires Bits(bits, 12) && MonthOf(day) !in bits
    ensures var m := NextMonth(bits, day).1; 0 <= m < 12 && m in bits && m != MonthOf(day)
  {
    hide MonthOf, YearOf;
    LowBits(bits, 12);
    if !Wraps(bits, MonthOf(day)) { var i :| i in bits && i >= MonthOf(day); }
  }

  /** That month is too short for the day of the month. */
  ghost predicate Overshoots(bits: set<nat>, day: int) {
    CarriedMday(bits, day) > DaysIn(NextMonth(bits, day).0, NextMonth(bits, day).1)
  }

  /** The first day of the month that is reached. */
  ghost function ReachedDay(bits: set<nat>, day: int): int
    requires 0 <= NextMonth(bits, day).1
  {
    FirstOf(NextMonth(bits, day).0, NextMonth(bits, day).1 + if Overshoots(bits, day) then 1 else 0)
  }

  lemma MonthLands(bits: set<nat>, t: int, marked: set<Field>)
    requires Bits(bits, 12) && Mon(t) !in bits && AllMarked(marked)
    ensures 0 <= NextMonth(bits, DayOf(t)).1 < 12 && NextMonth(bits, DayOf(t)).1 in bits
    ensures var r := FindField(bits, 12, t, Mon(t), Month, YearField, marked);
      r.Search? ==> r.value == NextMonth(bits, DayOf(t)).1 && Midnightly(r.t, ReachedDay(bits, DayOf(t)), t, marked)
  {
    hide ApplyField, MkTime, FromTime, FirstOf, YearOf, MonthOf, MdayOf, YearOn, January, DayOf, DaysIn, Sec, Min, Hour;
    NextMonthIs(bits, DayOf(t));
    var found := NextMonth(bits, DayOf(t)).1;
    if Wraps(bits, Mon(t)) {
      var (t1, t2) := (YearOn(t), January(YearOn(t)));
      ShiftsAre(t);
      ShiftsAre(t1);
      YearOnIs(t);
      YearOnMday(t);
      JanuaryMday(t1);
      ShiftsKeepClock(t);
      SetMonthLands(t2, Mon(t), found, marked);
    } else {
      SetMonthLands(t, Mon(t), found, marked);
    }
  }

  lemma ShiftsKeepClock(t: int)
    ensures Sec(January(YearOn(t))) == Sec(t)
  {
    hide FirstOf, Year, Mon, Sec, Min, Hour, DayOf;
    var t1 := YearOn(t);
    ClockShift(t, FirstOf(Year(t) + 1, Mon(t)) - FirstOf(Year(t), Mon(t)));
    ClockShift(t1, FirstOf(Year(t1), 0) - FirstOf(Year(t1), Mon(t1)));
  }

  /** The days on the way are in no month of the set. */
  lemma MonthsBetween(bits: set<nat>, from: int, day: int)
    requires Bits(bits, 12) && MonthOf(from) !in bits && 0 <= NextMonth(bits, from).1 < 12
    requires from <= day < FirstOf(NextMonth(bits, from).0, NextMonth(bits, from).1)
    ensures MonthOf(day) !in bits
  {
    hide FirstOf, YearOf, MonthOf, DaysIn;
    var (y, found) := NextMonth(bits, from);
    var (y0, m0) := (YearOf(from), MonthOf(from));
    LowBits(bits, 12);
    FirstsAscend(y, found, 12);
    YearEnds(y);
    YearEnds(y0);
    assert FirstOf(y0, m0) <= from;
    FirstsAscend(y0, 0, m0);
    if day < FirstOf(y0 + 1, 0) {
      YearUnique(day, y0);
      FromMonthOn(day, y0, m0);
      if !Wraps(bits, m0) { BeforeMonth(day, y0, found); }
    } else {
      YearUnique(day, y);
      BeforeMonth(day, y, found);
    }
  }

  /** The month that is gone to lies ahead. */
  lemma NextMonthAhead(bits: set<nat>, from: int)
    requires Bits(bits, 12) && MonthOf(from) !in bits
    ensures 0 <= NextMonth(bits, from).1 < 12
    ensures from < FirstOf(NextMonth(bits, from).0, NextMonth(bits, from).1) <= ReachedDay(bits, from)
  {
    hide FirstOf, YearOf, MonthOf, DaysIn, CarriedMday;
    NextMonthIs(bits, from);
    var (y, found) := NextMonth(bits, from);
    var (y0, m0) := (YearOf(from), MonthOf(from));
    YearEnds(y0);
    FirstsAscend(y, 0, found);
    FirstsAscend(y, found, found + 1);
    FirstsAscend(y0, m0, 12);
    if !Wraps(bits, m0) { FirstsAscend(y0, m0, found); }
  }

  lemma YearEnds(y: int)
    ensures FirstOf(y, 12) == FirstOf(y + 1, 0) == YearStart(y + 1) && FirstOf(y, 0) == YearStart(y)
  {
    YearStep(y);
    YearIsItsMonths(y);
  }

  lemma FromMonthOn(day: int, y: int, m: nat)
    requires YearOf(day) == y && m < 12 && FirstOf(y, m) <= day
    ensures m <= MonthOf(day)
  {
    hide FirstOf, YearOf, MonthOf, DaysIn;
    if MonthOf(day) < m { FirstsAscend(y, MonthOf(day), m); }
  }

  lemma BeforeMonth(day: int, y: int, m: nat)
    requires YearOf(day) == y && m < 12 && day < FirstOf(y, m)
    ensures MonthOf(day) < m
  {
    hide FirstOf, YearOf, MonthOf, DaysIn;
    if m <= MonthOf(day) { FirstsAscend(y, m, MonthOf(day)); }
  }
}
