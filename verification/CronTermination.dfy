/** How deep the search may recurse: a bound made of the years that are left and of what is not matched yet. */
module CronTermination {
  import opened Calendar
  import opened Cron
  import opened CronSteps
  import opened CronDays
  import opened CronTheorems

  /** The first second for which the year budget is used up. */
  function Horizon(dot: int): int {
    YearStart(dot + 5) * 86400
  }

  lemma BudgetEnds(t: int, dot: int)
    ensures PastBudget(t, dot) || t < Horizon(dot)
    ensures t >= Horizon(dot) ==> PastBudget(t, dot)
  {
    var y := Year(t);
    var last := dot + 5;
    if y < last {
      YearsReach(y + 1, last);
      DayBound(t, YearStart(last));
    } else {
      YearsReach(last, y);
      DayBound(t, YearStart(last));
    }
  }

  lemma YearsReach(y: int, z: int)
    requires y <= z
    ensures YearStart(y) <= YearStart(z)
  {
    hide YearStart;
    YearStep(y);
    if y < z { YearsAscend(y, z); }
  }

  lemma DayBound(t: int, day: int)
    ensures DayOf(t) < day <==> t < day * DAY
  {
  }

  /** Some hour and minute of the sets is still to come in the day, at this hour and minute or later. */
  ghost predicate Open(cex: CronExpr, hour: int, min: int) {
    (exists i :: i in cex.hours && hour < i)
    || (hour in cex.hours && exists j :: j in cex.minutes && min <= j)
  }

  function Clock(t: int): (m: int)
    ensures 0 <= m < 1440
  {
    Hour(t) * 60 + Min(t)
  }

  const DAY_MINUTES := 1440
  /** More minutes than there are to the next day that matches. */
  const CLOSED := (MAX_AHEAD + 1) * DAY_MINUTES
  const MAX_NEED := CLOSED + DAY_MINUTES + 2

  /** Days with nothing open come first; else the days to the next match count, and within a day the minutes that are left. */
  ghost function Rank(cex: CronExpr, t: int): (r: nat)
    requires Parsed(cex)
    ensures 1 <= r <= CLOSED + DAY_MINUTES
  {
    (if !Open(cex, Hour(t), Min(t)) then CLOSED else Ahead(cex, DayOf(t)) * DAY_MINUTES) + DAY_MINUTES - Clock(t)
  }

  /** Fuel that is enough for a search from `t`. */
  ghost function Need(cex: CronExpr, t: int, dot: int): (n: nat)
    requires Parsed(cex)
    ensures n >= 2
    ensures t >= Horizon(dot) ==> n <= MAX_NEED
  {
    if t < Horizon(dot) then Horizon(dot) - t + MAX_NEED
    else if Wraps(cex.seconds, Sec(t)) then MAX_NEED
    else Rank(cex, t) + 1
  }

  /** Before the horizon, any step forward needs less. */
  lemma NeedsLess(cex: CronExpr, t: int, u: int, dot: int)
    requires Parsed(cex) && t < u && t < Horizon(dot)
    ensures Need(cex, u, dot) < Need(cex, t, dot)
  {
    hide Rank, Wraps, Horizon;
  }

  lemma SameDay(t: int, u: int)
    requires Index(t, HourOfDay) == Index(u, HourOfDay)
    ensures Hour(t) == Hour(u) && DayOf(t) == DayOf(u)
  {
  }

  lemma NextHour(t: int, u: int)
    requires Index(u, HourOfDay) == Index(t, HourOfDay) + 1
    ensures if Hour(t) < 23 then Hour(u) == Hour(t) + 1 && DayOf(u) == DayOf(t) else Hour(u) == 0
  {
  }

  /** Seconds in the set, and seconds that were reset, do not carry into the next minute. */
  lemma NoCarry(cex: CronExpr, sec: nat)
    requires Parsed(cex) && (sec in cex.seconds || sec == 0)
    ensures !Wraps(cex.seconds, sec)
  {
    if forall i :: i !in cex.seconds { assert false; }
    var i :| i in cex.seconds;
  }

  lemma OpenAtMidnight(cex: CronExpr, min: int)
    requires Parsed(cex) && forall j :: j in cex.minutes ==> min <= j
    ensures Open(cex, 0, min)
  {
    if forall i :: i !in cex.hours { assert false; }
    var i :| i in cex.hours;
    if forall j :: j !in cex.minutes { assert false; }
    var j :| j in cex.minutes;
  }

  lemma MinuteRank(cex: CronExpr, t: int, marked: set<Field>, r: Search)
    requires Parsed(cex) && Min(t) !in cex.minutes && r.Search? && Moved(cex.minutes, t, Minute, marked, r)
    ensures Rank(cex, r.t) < Rank(cex, t)
  {
    hide Index, Hour, Min, Sec, DayOf, DayMatches, Ahead;
    var v := Min(t);
    if Wraps(cex.minutes, v) {
      NextHour(t, r.t);
      if Hour(t) < 23 {
        if Open(cex, Hour(t), v) { OpenNextHour(cex, Hour(t), v, r.value); }
      } else {
        OpenAtMidnight(cex, r.value);
        assert !Open(cex, Hour(t), v);
      }
    } else {
      SameDay(t, r.t);
    }
  }

  lemma OpenNextHour(cex: CronExpr, hour: int, min: int, first: int)
    requires Open(cex, hour, min) && (forall j :: j in cex.minutes ==> j < min)
    requires forall j :: j in cex.minutes ==> first <= j
    requires first in cex.minutes
    ensures Open(cex, hour + 1, first)
  {
  }

  /* Times the search can come to rest on */

  /** A clock field that the search has set is in its set, or was reset since. */
  predicate SetOrZero(bits: set<nat>, v: nat) {
    v in bits || v == 0
  }

  predicate Tidy(cex: CronExpr, t: int) {
    SetOrZero(cex.seconds, Sec(t)) && SetOrZero(cex.minutes, Min(t)) && SetOrZero(cex.hours, Hour(t))
  }

  lemma TidyIsOpen(cex: CronExpr, hour: nat, min: nat)
    requires Parsed(cex) && SetOrZero(cex.hours, hour) && SetOrZero(cex.minutes, min)
    ensures Open(cex, hour, min)
  {
    if forall i :: i !in cex.hours { assert false; }
    var i :| i in cex.hours;
    if forall j :: j !in cex.minutes { assert false; }
    var j :| j in cex.minutes;
  }

  lemma HourRank(cex: CronExpr, t: int, marked: set<Field>, r: Search)
    requires Parsed(cex) && Hour(t) !in cex.hours && SetOrZero(cex.minutes, Min(t))
    requires r.Search? && Moved(cex.hours, t, HourOfDay, marked, r)
    ensures Rank(cex, r.t) < Rank(cex, t)
  {
    hide Index, Hour, Min, Sec, DayOf, DayMatches, Open, Ahead;
    TidyIsOpen(cex, Hour(r.t), Min(r.t));
    if Wraps(cex.hours, Hour(t)) {
      NothingOpen(cex, Hour(t), Min(t));
    } else {
      SameDayOf(t, r.t);
    }
  }

  lemma NothingOpen(cex: CronExpr, hour: nat, min: int)
    requires hour !in cex.hours && Wraps(cex.hours, hour)
    ensures !Open(cex, hour, min)
  {
  }

  lemma SameDayOf(t: int, u: int)
    requires Index(t, DayOfWeek) == Index(u, DayOfWeek)
    ensures DayOf(t) == DayOf(u)
  {
  }

  lemma DayRank(cex: CronExpr, t: int, marked: set<Field>, r: Search)
    requires Parsed(cex) && Tidy(cex, t) && r.Search? && DayMoved(cex, t, marked, MAX_DAYS, r) && DayOf(t) < DayOf(r.t)
    ensures Tidy(cex, r.t) && Rank(cex, r.t) < Rank(cex, t)
  {
    hide Hour, Min, Sec, DayOf, DayMatches, Open, Ahead, MdayOf;
    TidyIsOpen(cex, Hour(t), Min(t));
    TidyIsOpen(cex, Hour(r.t), Min(r.t));
    AheadShrinks(cex, DayOf(t), DayOf(r.t) - DayOf(t));
  }

  lemma SameMinute(cex: CronExpr, t: int, u: int)
    requires Parsed(cex) && Index(t, Minute) == Index(u, Minute)
    ensures Rank(cex, t) == Rank(cex, u)
  {
    hide Open, DayMatches, Index, Ahead;
    UpperIndex(t, u, Minute);
    UpperIndex(t, u, HourOfDay);
    DayIsIndex(t);
    DayIsIndex(u);
    DayIndex(t, u, DayOfMonth);
  }

  lemma SecondNeeds(cex: CronExpr, t: int, dot: int, r: Search)
    requires Parsed(cex) && r.Search? && Sec(t) !in cex.seconds && Moved(cex.seconds, t, Second, {}, r)
    ensures Need(cex, r.t, dot) <= Need(cex, t, dot)
  {
    hide Rank, Sec, Horizon, Parsed;
    if t < Horizon(dot) {
      NeedsLess(cex, t, r.t, dot);
    } else {
      NoCarry(cex, r.value);
      if !Wraps(cex.seconds, Sec(t)) { SameMinute(cex, t, r.t); }
    }
  }

  /** A step that lowers the rank, and does not leave seconds behind that carry, needs less. */
  lemma StepNeeds(cex: CronExpr, t: int, u: int, dot: int)
    requires Parsed(cex) && SetOrZero(cex.seconds, Sec(t)) && SetOrZero(cex.seconds, Sec(u)) && t < u
    requires t >= Horizon(dot) ==> Rank(cex, u) < Rank(cex, t)
    ensures Need(cex, u, dot) < Need(cex, t, dot)
  {
    hide Rank, Sec, Horizon, Parsed;
    if t < Horizon(dot) {
      NeedsLess(cex, t, u, dot);
    } else {
      NoCarry(cex, Sec(t));
      NoCarry(cex, Sec(u));
    }
  }

  /** The day matches, or none of the 366 days before it does: the day search gives up after as many. */
  predicate DayFound(cex: CronExpr, day: int) {
    DayMatches(cex, day) || forall j {:trigger DayMatches(cex, j)} :: day - MAX_DAYS <= j < day ==> !DayMatches(cex, j)
  }

  /** What a search that comes to an end has found: it is tidy, it is in a month of the set, its day was found, and a search
      from there would need no more fuel. */
  ghost predicate Settles(cex: CronExpr, t: int, dot: int, r: Outcome)
    requires Parsed(cex)
  {
    && r != NoFuel
    && (r.Next? ==>
          Tidy(cex, r.t) && Mon(r.t) in cex.months && DayFound(cex, DayOf(r.t)) && Need(cex, r.t, dot) <= Need(cex, t, dot))
  }

  /** Every search of every expression ends: the recursion is no deeper than `Need`. */
  lemma {:induction false} NextSettles(cex: CronExpr, t: int, dot: int, fuel: nat)
    requires Parsed(cex) && fuel >= Need(cex, t, dot)
    ensures Settles(cex, t, dot, FindNext(cex, t, dot, fuel))
    decreases fuel, 5
  {
    hide FromMinute, FindField, Sec, Need, Bits, Moved, Tidy, Mon, DayFound, DayOf;
    ClockSearch(cex.seconds, t, Second, {});
    var s := FindField(cex.seconds, 60, t, Sec(t), Second, Minute, {});
    if s.Search? {
      if Sec(t) !in cex.seconds { SecondNeeds(cex, t, dot, s); }
      MovedValue(cex.seconds, t, Second, {}, s);
      MinuteSettles(cex, s.t, dot, fuel, if s.value == Sec(t) then {Second} else {});
    }
  }

  /** What a search of the clock keeps or sets. */
  lemma MovedValue(bits: set<nat>, t: int, f: Field, marked: set<Field>, r: Search)
    requires IsClock(f) && r.Search?
    requires if Value(t, f) in bits then r == Search(t, Value(t, f)) else Moved(bits, t, f, marked, r)
    ensures Value(r.t, f) in bits && (r.value == Value(t, f) <==> Value(t, f) in bits) && t <= r.t
    ensures Value(t, f) !in bits ==> t < r.t
    ensures !f.Second? ==> Sec(r.t) == 0 || Sec(r.t) == Sec(t)
  {
    hide Value, Sec;
  }

  lemma {:induction false} MinuteSettles(cex: CronExpr, t: int, dot: int, fuel: nat, marked: set<Field>)
    requires Parsed(cex) && marked <= {Second} && Sec(t) in cex.seconds && fuel >= Need(cex, t, dot)
    ensures Settles(cex, t, dot, FromMinute(cex, t, dot, fuel, marked))
    decreases fuel, 4
  {
    hide FromHour, FindNext, FindField, Sec, Min, Hour, Mon, Need, Bits, Moved, DayFound, DayOf, Rank, Horizon;
    ClockSearch(cex.minutes, t, Minute, marked);
    var s := FindField(cex.minutes, 60, t, Min(t), Minute, HourOfDay, marked);
    if s.Search? {
      MovedValue(cex.minutes, t, Minute, marked, s);
      if s.value == Min(t) {
        HourSettles(cex, t, dot, fuel, marked + {Minute});
      } else {
        MinuteRank(cex, t, marked, s);
        StepNeeds(cex, t, s.t, dot);
        NextSettles(cex, s.t, dot, fuel - 1);
        var r := FindNext(cex, s.t, dot, fuel - 1);
        if r.Next? { HourSettles(cex, r.t, dot, fuel, marked); }
      }
    }
  }

  lemma {:induction false} HourSettles(cex: CronExpr, t: int, dot: int, fuel: nat, marked: set<Field>)
    requires Parsed(cex) && marked <= {Second, Minute} && fuel >= Need(cex, t, dot)
    requires SetOrZero(cex.seconds, Sec(t)) && SetOrZero(cex.minutes, Min(t))
    ensures Settles(cex, t, dot, FromHour(cex, t, dot, fuel, marked))
    decreases fuel, 3
  {
    hide FromDay, FindNext, FindField, Sec, Min, Hour, Mon, Need, Bits, Moved, DayFound, DayOf, Rank, Horizon;
    ClockSearch(cex.hours, t, HourOfDay, marked);
    var s := FindField(cex.hours, 24, t, Hour(t), HourOfDay, DayOfWeek, marked);
    if s.Search? {
      MovedValue(cex.hours, t, HourOfDay, marked, s);
      if s.value == Hour(t) {
        DaySettles(cex, t, dot, fuel, marked + {HourOfDay});
      } else {
        HourRank(cex, t, marked, s);
        StepNeeds(cex, t, s.t, dot);
        NextSettles(cex, s.t, dot, fuel - 1);
        var r := FindNext(cex, s.t, dot, fuel - 1);
        if r.Next? { DaySettles(cex, r.t, dot, fuel, marked); }
      }
    }
  }

  lemma {:induction false} DaySettles(cex: CronExpr, t: int, dot: int, fuel: nat, marked: set<Field>)
    requires Parsed(cex) && marked <= {Second, Minute, HourOfDay} && Tidy(cex, t) && fuel >= Need(cex, t, dot)
    ensures Settles(cex, t, dot, FromDay(cex, t, dot, fuel, marked))
    decreases fuel, 2
  {
    hide FromMonth, FindNext, FindDay, MdayOf, WdayOf, DayOf, Sec, Min, Hour, Mon, Need, Bits, DayMoved, DayFound, Rank, Horizon,
         SetOrZero, DayMatches;
    DaySearch(cex, t, marked, 0);
    var s := FindDay(cex, t, Mday(t), Wday(t), marked, 0);
    if s.Search? {
      DayNeeds(cex, t, dot, marked, s);
      if s.value == Mday(t) {
        MonthSettles(cex, s.t, dot, fuel, marked + {DayOfMonth});
      } else {
        NextSettles(cex, s.t, dot, fuel - 1);
        var r := FindNext(cex, s.t, dot, fuel - 1);
        if r.Next? { MonthSettles(cex, r.t, dot, fuel, marked); }
      }
    }
  }

  lemma DayNeeds(cex: CronExpr, t: int, dot: int, marked: set<Field>, r: Search)
    requires Parsed(cex) && Tidy(cex, t) && r.Search? && DayMoved(cex, t, marked, MAX_DAYS, r)
    ensures Tidy(cex, r.t) && DayFound(cex, DayOf(r.t)) && Need(cex, r.t, dot) <= Need(cex, t, dot)
    ensures r.value != Mday(t) ==> Need(cex, r.t, dot) < Need(cex, t, dot)
  {
    hide MdayOf, DayOf, Sec, Min, Hour, Need, Bits, Rank, Horizon, DayMatches, SetOrZero;
    if DayOf(t) < DayOf(r.t) {
      LaterDay(t, r.t);
      DayRank(cex, t, marked, r);
      StepNeeds(cex, t, r.t, dot);
    }
  }

  lemma {:induction false} MonthSettles(cex: CronExpr, t: int, dot: int, fuel: nat, marked: set<Field>)
    requires Parsed(cex) && marked <= {Second, Minute, HourOfDay, DayOfMonth} && fuel >= Need(cex, t, dot)
    requires Tidy(cex, t) && DayFound(cex, DayOf(t))
    ensures Settles(cex, t, dot, FromMonth(cex, t, dot, fuel, marked))
    decreases fuel, 1
  {
    hide FindNext, FindField, DayOf, Mon, Bits, Need, Horizon, PastBudget, DayFound, Tidy;
    MonthSearch(cex.months, t, marked);
    var s := FindField(cex.months, 12, t, Mon(t), Month, YearField, marked);
    if s.Search? && s.value != Mon(t) && !PastBudget(s.t, dot) {
      LaterDay(t, s.t);
      BudgetEnds(s.t, dot);
      NeedsLess(cex, t, s.t, dot);
      NextSettles(cex, s.t, dot, fuel - 1);
    }
  }

  /* More fuel changes nothing */

  lemma {:induction false} NextFuel(cex: CronExpr, t: int, dot: int, fuel: nat, more: nat)
    requires fuel <= more && FindNext(cex, t, dot, fuel) != NoFuel
    ensures FindNext(cex, t, dot, more) == FindNext(cex, t, dot, fuel)
    decreases fuel, 5
  {
    hide FromMinute, FindField, Sec;
    var s := FindField(cex.seconds, 60, t, Sec(t), Second, Minute, {});
    if s.Search? { MinuteFuel(cex, s.t, dot, fuel, more, if s.value == Sec(t) then {Second} else {}); }
  }

  lemma {:induction false} MinuteFuel(cex: CronExpr, t: int, dot: int, fuel: nat, more: nat, marked: set<Field>)
    requires 0 < fuel <= more && FromMinute(cex, t, dot, fuel, marked) != NoFuel
    ensures FromMinute(cex, t, dot, more, marked) == FromMinute(cex, t, dot, fuel, marked)
    decreases fuel, 4
  {
    hide FromHour, FindNext, FindField, Min;
    var s := FindField(cex.minutes, 60, t, Min(t), Minute, HourOfDay, marked);
    if s.Search? {
      if s.value == Min(t) {
        HourFuel(cex, s.t, dot, fuel, more, marked + {Minute});
      } else {
        NextFuel(cex, s.t, dot, fuel - 1, more - 1);
        var r := FindNext(cex, s.t, dot, fuel - 1);
        if r.Next? { HourFuel(cex, r.t, dot, fuel, more, marked); }
      }
    }
  }

  lemma {:induction false} HourFuel(cex: CronExpr, t: int, dot: int, fuel: nat, more: nat, marked: set<Field>)
    requires 0 < fuel <= more && FromHour(cex, t, dot, fuel, marked) != NoFuel
    ensures FromHour(cex, t, dot, more, marked) == FromHour(cex, t, dot, fuel, marked)
    decreases fuel, 3
  {
    hide FromDay, FindNext, FindField, Hour;
    var s := FindField(cex.hours, 24, t, Hour(t), HourOfDay, DayOfWeek, marked);
    if s.Search? {
      if s.value == Hour(t) {
        DayFuel(cex, s.t, dot, fuel, more, marked + {HourOfDay});
      } else {
        NextFuel(cex, s.t, dot, fuel - 1, more - 1);
        var r := FindNext(cex, s.t, dot, fuel - 1);
        if r.Next? { DayFuel(cex, r.t, dot, fuel, more, marked); }
      }
    }
  }

  lemma {:induction false} DayFuel(cex: CronExpr, t: int, dot: int, fuel: nat, more: nat, marked: set<Field>)
    requires 0 < fuel <= more && FromDay(cex, t, dot, fuel, marked) != NoFuel
    ensures FromDay(cex, t, dot, more, marked) == FromDay(cex, t, dot, fuel, marked)
    decreases fuel, 2
  {
    hide FromMonth, FindNext, FindDay, MdayOf, WdayOf, DayOf;
    var s := FindDay(cex, t, Mday(t), Wday(t), marked, 0);
    if s.Search? {
      if s.value == Mday(t) {
        MonthFuel(cex, s.t, dot, fuel, more, marked + {DayOfMonth});
      } else {
        NextFuel(cex, s.t, dot, fuel - 1, more - 1);
        var r := FindNext(cex, s.t, dot, fuel - 1);
        if r.Next? { MonthFuel(cex, r.t, dot, fuel, more, marked); }
      }
    }
  }

  lemma {:induction false} MonthFuel(cex: CronExpr, t: int, dot: int, fuel: nat, more: nat, marked: set<Field>)
    requires 0 < fuel <= more && FromMonth(cex, t, dot, fuel, marked) != NoFuel
    ensures FromMonth(cex, t, dot, more, marked) == FromMonth(cex, t, dot, fuel, marked)
    decreases fuel, 1
  {
    hide FindNext, FindField, Mon, PastBudget;
    var s := FindField(cex.months, 12, t, Mon(t), Month, YearField, marked);
    if s.Search? && s.value != Mon(t) && !PastBudget(s.t, dot) { NextFuel(cex, s.t, dot, fuel - 1, more - 1); }
  }

  ghost function CronNeed(cex: CronExpr, t: int): nat
    requires Parsed(cex)
  {
    var (a, b) := (Need(cex, t, Year(t)), Need(cex, t + 1, Year(t + 1)));
    if a < b then b else a
  }

  /**
   * For every expression `cron_next` ends, and gives INVALID_TIME or a later time: in a month of the set, on a day that was
   * found, with clock fields that are in their sets or zero. From the epoch on it does not throw. How much fuel the search is
   * given makes no difference. Where no recheck that matters is skipped, the expression describes the time; with one day field
   * that does not restrict none is.
   */
  lemma CronNextEnds(cex: CronExpr, t: int, fuel: nat)
    requires Parsed(cex) && fuel >= CronNeed(cex, t)
    ensures var r := CronNext(cex, t, fuel);
      && r != NoFuel
      && (r.Next? ==> t < r.t && Tidy(cex, r.t) && Mon(r.t) in cex.months && DayFound(cex, DayOf(r.t)))
      && (r.Next? && HarmlessFrom(cex, t) ==> Matches(cex, r.t))
      && (t >= 0 ==> !r.Thrown?)
      && r == CronNext(cex, t, CronNeed(cex, t))
    ensures DayFull(cex) ==> HarmlessFrom(cex, t)
  {
    hide FindNext, Need, Matches, MkTime, FromTime, Bits, DayFull, HarmlessFrom, Year, Tidy, DayFound, Mon, DayOf;
    var need := CronNeed(cex, t);
    CronNextIsLater(cex, t, fuel);
    PlusShift(t, Second, 1);
    NextSettles(cex, t, Year(t), need);
    NextSettles(cex, t + 1, Year(t + 1), need);
    NextFuel(cex, t, Year(t), need, fuel);
    NextFuel(cex, t + 1, Year(t + 1), need, fuel);
    if DayFull(cex) { FullNeverSkips(cex, t); }
    if HarmlessFrom(cex, t) {
      HarmlessLater(cex, t, t + 1);
      NextMatches(cex, t, Year(t), fuel);
      NextMatches(cex, t + 1, Year(t + 1), fuel);
    }
  }
}
