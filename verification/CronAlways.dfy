/** Exactly for which expressions `cron_next` is always right, and how it comes to pass a time by. */
module CronAlways {
  import opened Calendar
  import opened Cron
  import opened CronSteps
  import opened CronDays
  import opened CronTheorems
  import opened CronTermination
  import opened CronRecheck
  import opened CronMonths
  import opened CronEarliest

  /* Exactly when it is always right */

  /** Between two seconds of the set there is no second that is not in it. */
  ghost predicate NoGap(cex: CronExpr) {
    forall i, s, j :: i in cex.seconds && j in cex.seconds && i < s < j ==> s in cex.seconds
  }

  /** Every minute before one that matches, but for its seconds, matches too: in effect, no other field restricts. */
  ghost predicate Closed(cex: CronExpr) {
    forall t :: t >= 0 && UpperMatches(cex, t + 60) ==> UpperMatches(cex, t)
  }

  /** However deep the search may go, whatever `cron_next` answers from the epoch on is right. */
  ghost predicate AlwaysRight(cex: CronExpr) {
    forall t, fuel: nat :: t >= 0 ==> Right(cex, t, CronNext(cex, t, fuel))
  }

  lemma NoGapIsFresh(cex: CronExpr, s: nat)
    requires NoGap(cex)
    ensures FreshSecond(cex, s)
  {
    if s !in cex.seconds && !Wraps(cex.seconds, s) {
      var j :| j in cex.seconds && j >= s;
      forall i | i in cex.seconds ensures s < i { assert !(i < s < j); }
    }
  }

  lemma {:induction false} NoneLater(cex: CronExpr, t: int, n: nat)
    requires Closed(cex) && t >= 0 && !UpperMatches(cex, t)
    ensures !UpperMatches(cex, t + 60 * n)
    decreases n
  {
    hide UpperMatches;
    if n > 0 { NoneLater(cex, t + 60, n - 1); }
  }

  /** Where the upper fields never match again there is nothing to be found. */
  lemma ClosedFindsNone(cex: CronExpr, t: int, u: int)
    requires Closed(cex) && t >= 0 && !UpperMatches(cex, t) && t < u
    ensures !Matches(cex, u)
  {
    hide Closed;
    var n := u / 60 - t / 60;
    IndexMonotone(t, u, Minute);
    NoneLater(cex, t, n);
    SixtiesOn(t, n);
    SameUpper(cex, t + 60 * n, u);
    AllMatch(cex, u);
  }

  /** The minute after `t`, with the same second. */
  lemma MinuteOn(t: int)
    ensures Sec(t + 60) == Sec(t) && (t + 60) / 60 == t / 60 + 1
  {
    SixtiesOn(t, 1);
  }

  lemma InMinute(t: int)
    ensures t == t / 60 * 60 + Sec(t)
  {
  }

  lemma ReachMinute(t: int, u: int)
    requires Index(u, Minute) == t / 60 + 1 && Sec(u) == Sec(t)
    ensures u == t + 60
  {
  }

  lemma MinuteStep(cex: CronExpr, t: int, marked: set<Field>, r: Search)
    requires Min(t) !in cex.minutes && r.Search? && Moved(cex.minutes, t, Minute, marked, r) && Second !in marked
    requires Min(t + 60) in cex.minutes
    ensures r.t == t + 60
  {
    hide Min, Sec, Hour;
    MinuteOn(t);
    if Index(t + 60, Minute) < Index(r.t, Minute) { IndexPasses(cex.minutes, t, Minute, marked, r, t + 60); }
    ReachMinute(t, r.t);
  }

  lemma NextHourStarts(t: int)
    requires Hour(t + 60) != Hour(t)
    ensures Index(t + 60, HourOfDay) == Index(t, HourOfDay) + 1 && Min(t + 60) == 0
  {
    hide Hour;
    MinuteOn(t);
    QuotientsOf(t);
    QuotientsOf(t + 60);
    SixtyAt(t / 60);
    SixtyAt(t / 60 + 1);
    if (t + 60) / 3600 == t / 3600 { SameHourIndex(t, t + 60); }
  }

  lemma SameHourIndex(t: int, u: int)
    requires t / 3600 == u / 3600
    ensures Hour(t) == Hour(u)
  {
  }

  lemma HourOnTheHour(t: int, u: int)
    requires Index(t, HourOfDay) == Index(u, HourOfDay) && Min(t) == Min(u) && Sec(t) == Sec(u)
    ensures t == u
  {
    hide Min, Hour, Sec, DayOf;
    ClockAddsUp(t);
    ClockAddsUp(u);
    HourIndex(t);
    HourIndex(u);
  }

  lemma HourStep(cex: CronExpr, t: int, marked: set<Field>, r: Search)
    requires Hour(t) !in cex.hours && r.Search? && Moved(cex.hours, t, HourOfDay, marked, r) && Second !in marked && Minute in marked
    requires Hour(t + 60) in cex.hours
    ensures r.t == t + 60
  {
    hide Hour, Min, Sec;
    MinuteOn(t);
    NextHourStarts(t);
    if Index(t + 60, HourOfDay) < Index(r.t, HourOfDay) { IndexPasses(cex.hours, t, HourOfDay, marked, r, t + 60); }
    HourOnTheHour(r.t, t + 60);
  }

  lemma NextDayStarts(t: int)
    requires DayOf(t + 60) != DayOf(t)
    ensures DayOf(t + 60) == DayOf(t) + 1 && Min(t + 60) == 0 && Hour(t + 60) == 0
  {
    hide DayOf, Sec, Min, Hour;
    ClockAddsUp(t);
    ClockAddsUp(t + 60);
    MinuteOn(t);
  }

  lemma SameClockDay(t: int, u: int)
    requires DayOf(t) == DayOf(u) && Hour(t) == Hour(u) && Min(t) == Min(u) && Sec(t) == Sec(u)
    ensures t == u
  {
    hide DayOf, Sec, Min, Hour;
    ClockAddsUp(t);
    ClockAddsUp(u);
  }

  lemma DayStep(cex: CronExpr, t: int, marked: set<Field>, r: Search)
    requires Parsed(cex) && !DayMatches(cex, DayOf(t)) && DayMatches(cex, DayOf(t + 60))
    requires marked == {Minute, HourOfDay} && r.Search? && DayMoved(cex, t, marked, MAX_DAYS, r)
    ensures r.t == t + 60 && r.value != Mday(t)
  {
    hide DayOf, Sec, Min, Hour, DayMatches, MdayOf;
    NextDayStarts(t);
    MinuteOn(t);
    OtherMday(DayOf(t), 1);
    SameClockDay(r.t, t + 60);
  }

  /** The next day is in the month that is gone to, so that month is not too short: it would be lost. */
  lemma NextDayIsReached(cex: CronExpr, day: int)
    requires Parsed(cex) && MonthOf(day) !in cex.months && MonthOf(day + 1) in cex.months && DayMatches(cex, day + 1)
    requires !PassesMonth(cex, day)
    ensures 0 <= NextMonth(cex.months, day).1 && ReachedDay(cex.months, day) == day + 1
  {
    hide FirstOf, YearOf, MonthOf, DaysIn, DayMatches, NextMonth, Overshoots;
    NextMonthAhead(cex.months, day);
    var (y, m) := NextMonth(cex.months, day);
    if day + 1 < FirstOf(y, m) { MonthsBetween(cex.months, day, day + 1); }
    FirstIsIn(y, m);
  }

  lemma FirstIsIn(y: int, m: nat)
    ensures InMonth(FirstOf(y, m), y, m)
  {
    hide FirstOf;
  }

  lemma MonthStep(cex: CronExpr, t: int, marked: set<Field>, r: Search)
    requires Parsed(cex) && Mon(t) !in cex.months && UpperMatches(cex, t + 60) && !PassesMonth(cex, DayOf(t))
    requires marked == {Minute, HourOfDay, DayOfMonth} && r.Search? && 0 <= NextMonth(cex.months, DayOf(t)).1
    requires Midnightly(r.t, ReachedDay(cex.months, DayOf(t)), t, marked)
    ensures r.t == t + 60
  {
    hide DayOf, Sec, Min, Hour, MonthOf, FirstOf, NextMonth, DayMatches, PassesMonth, ReachedDay;
    NextDayStarts(t);
    MinuteOn(t);
    NextDayIsReached(cex, DayOf(t));
    SameClockDay(r.t, t + 60);
  }

  lemma YearSoon(t: int)
    requires Mon(t) != Mon(t + 60)
    ensures !PastBudget(t + 60, Year(t))
  {
    hide DayOf, MonthOf, YearOf;
    NextDayStarts(t);
    DayYears(DayOf(t));
  }

  lemma DayYears(day: int)
    ensures YearOf(day) <= YearOf(day + 1) <= YearOf(day) + 1
  {
    hide YearOf, YearStart;
    var y := YearOf(day);
    YearStep(y);
    YearStep(y + 1);
    if day + 1 < YearStart(y + 1) { YearUnique(day + 1, y); } else { YearUnique(day + 1, y + 1); }
  }

  /** A second that was set too early is carried into the next minute, if that one matches. */
  lemma CarriesSecond(cex: CronExpr, t: int)
    requires Parsed(cex) && SafeFrom(cex, t) && t >= 0
    requires Sec(t) in cex.seconds && !UpperMatches(cex, t) && UpperMatches(cex, t + 60)
    ensures FromMinute(cex, t, Year(t), 2, {}) == Next(t + 60)
  {
    hide FindField, FindNext, FromHour, Sec, Min, Hour, DayOf, Mon, DayMatches, SafeFrom, Bits, Moved, Year;
    MinuteOn(t);
    MatchStays(cex, t + 60, Year(t), 1);
    ClockSearch(cex.minutes, t, Minute, {});
    var s := FindField(cex.minutes, 60, t, Min(t), Minute, HourOfDay, {});
    if Min(t) in cex.minutes {
      CarriesToHour(cex, t);
      assert {} + {Minute} == {Minute};
    } else {
      MinuteStep(cex, t, {}, s);
      MovedValue(cex.minutes, t, Minute, {}, s);
      SettledHour(cex, t + 60, Year(t), 2, {});
    }
  }

  lemma CarriesToHour(cex: CronExpr, t: int)
    requires Parsed(cex) && SafeFrom(cex, t) && t >= 0
    requires Sec(t) in cex.seconds && Min(t) in cex.minutes && !UpperMatches(cex, t) && UpperMatches(cex, t + 60)
    ensures FromHour(cex, t, Year(t), 2, {Minute}) == Next(t + 60)
  {
    hide FindField, FindNext, FromDay, Sec, Min, Hour, DayOf, Mon, DayMatches, SafeFrom, Bits, Moved, Year;
    MinuteOn(t);
    MatchStays(cex, t + 60, Year(t), 1);
    ClockSearch(cex.hours, t, HourOfDay, {Minute});
    var s := FindField(cex.hours, 24, t, Hour(t), HourOfDay, DayOfWeek, {Minute});
    if Hour(t) in cex.hours {
      CarriesToDay(cex, t);
      assert {Minute} + {HourOfDay} == {Minute, HourOfDay};
    } else {
      HourStep(cex, t, {Minute}, s);
      MovedValue(cex.hours, t, HourOfDay, {Minute}, s);
      SettledDay(cex, t + 60, Year(t), 2, {Minute});
    }
  }

  lemma CarriesToDay(cex: CronExpr, t: int)
    requires Parsed(cex) && SafeFrom(cex, t) && t >= 0 && Sec(t) in cex.seconds
    requires Min(t) in cex.minutes && Hour(t) in cex.hours && !UpperMatches(cex, t) && UpperMatches(cex, t + 60)
    ensures FromDay(cex, t, Year(t), 2, {Minute, HourOfDay}) == Next(t + 60)
  {
    hide FindDay, FindNext, FromMonth, Sec, Min, Hour, DayOf, Mon, MdayOf, WdayOf, DayMatches, SafeFrom, Bits, DayMoved, Year, Landing;
    var marked := {Minute, HourOfDay};
    MinuteOn(t);
    MatchStays(cex, t + 60, Year(t), 1);
    DayLands(cex, t, marked);
    var s := FindDay(cex, t, Mday(t), Wday(t), marked, 0);
    if DayMatches(cex, DayOf(t)) {
      DayStays(cex, t, marked, 0);
      CarriesToMonth(cex, t);
      assert marked + {DayOfMonth} == {Minute, HourOfDay, DayOfMonth};
    } else {
      DayStep(cex, t, marked, s);
      SettledMonth(cex, t + 60, Year(t), 2, marked);
    }
  }

  lemma CarriesToMonth(cex: CronExpr, t: int)
    requires Parsed(cex) && SafeFrom(cex, t) && t >= 0 && Sec(t) in cex.seconds && DayMatches(cex, DayOf(t))
    requires Mon(t) !in cex.months && UpperMatches(cex, t + 60)
    ensures FromMonth(cex, t, Year(t), 2, {Minute, HourOfDay, DayOfMonth}) == Next(t + 60)
  {
    hide FindField, FindNext, Sec, Min, Hour, DayOf, MonthOf, DayMatches, Bits, YearOf, NextMonth, ReachedDay, FirstOf, PastBudget,
         HarmlessFrom, MdayOf, PassesMonth, Landing, Horizon;
    var marked := {Minute, HourOfDay, DayOfMonth};
    MinuteOn(t);
    MatchStays(cex, t + 60, Year(t), 1);
    MonthSearch(cex.months, t, marked);
    MonthLands(cex.months, t, marked);
    LandsOnMatch(cex, DayOf(t));
    assert !LosesMonth(cex, DayOf(t));
    var s := FindField(cex.months, 12, t, Mon(t), Month, YearField, marked);
    MonthStep(cex, t, marked, s);
    YearSoon(t);
  }

  /** In a gap of the seconds, before a minute that matches: the first second of that minute is passed by. */
  lemma GapSkips(cex: CronExpr, t: int, i: nat, j: nat)
    requires Parsed(cex) && SafeFrom(cex, t) && t >= 0 && !UpperMatches(cex, t) && UpperMatches(cex, t + 60)
    requires i in cex.seconds && j in cex.seconds && i < Sec(t) < j && Sec(t) !in cex.seconds
    ensures !Right(cex, t, CronNext(cex, t, 2))
  {
    hide FromMinute, FindField, Sec, UpperMatches, SafeFrom, Year, DayOf, Min, Hour, Mon, Bits;
    ClockSearch(cex.seconds, t, Second, {});
    var s := FindField(cex.seconds, 60, t, Sec(t), Second, Minute, {});
    SameUpper(cex, t, s.t);
    MinuteOn(t);
    MinuteOn(s.t);
    SameUpper(cex, t + 60, s.t + 60);
    SameYear(t, s.t);
    SafeLater(cex, t, s.t);
    CarriesSecond(cex, s.t);
    var first := t + 60 - Sec(t) + i;
    WithSecond(t + 60, i);
    SameUpper(cex, t + 60, first);
    UpperWithSecond(cex, first);
    InMinute(t);
    InMinute(s.t);
  }

  lemma UpperWithSecond(cex: CronExpr, t: int)
    requires UpperMatches(cex, t) && Sec(t) in cex.seconds
    ensures Matches(cex, t)
  {
  }

  lemma WithSecond(t: int, i: nat)
    requires i < 60
    ensures var u := t - Sec(t) + i; Sec(u) == i && Index(u, Minute) == Index(t, Minute)
  {
    SixtyAt(t);
    Sixties(t / 60, i);
  }

  lemma SameYear(t: int, u: int)
    requires Index(t, Minute) == Index(u, Minute)
    ensures Year(t) == Year(u)
  {
    hide Index, YearOf;
    UpperIndex(t, u, Minute);
    UpperIndex(t, u, HourOfDay);
    DayIsIndex(t);
    DayIsIndex(u);
    DayIndex(t, u, DayOfMonth);
  }

  lemma GapExists(cex: CronExpr) returns (i: nat, s: nat, j: nat)
    requires !NoGap(cex)
    ensures i in cex.seconds && j in cex.seconds && i < s < j && s !in cex.seconds
  {
    i, s, j :| i in cex.seconds && j in cex.seconds && i < s < j && s !in cex.seconds;
  }

  /* A month that is lost */

  /** From a time whose clock is right, the search comes to the month without a second look at the day. */
  lemma ComesToMonth(cex: CronExpr, t: int, dot: int, fuel: nat) returns (s: int)
    requires Parsed(cex) && t >= 0 && fuel > 0
    requires Sec(t) in cex.seconds && Min(t) in cex.minutes && Hour(t) in cex.hours
    requires MdayOf(Landing(cex, DayOf(t))) == MdayOf(DayOf(t))
    ensures t <= s && DayOf(s) == Landing(cex, DayOf(t))
    ensures FindNext(cex, t, dot, fuel) == FromMonth(cex, s, dot, fuel, {Second, Minute, HourOfDay, DayOfMonth})
  {
    hide FindField, FindDay, FromMonth, Landing, DayMatches, DayMoved, Bits, DayOf, MdayOf, MonthOf, WdayOf, Sec, Min, Hour;
    FieldHit(cex.seconds, 60, t, Sec(t), Second, Minute, {});
    FieldHit(cex.minutes, 60, t, Min(t), Minute, HourOfDay, {Second});
    FieldHit(cex.hours, 24, t, Hour(t), HourOfDay, DayOfWeek, {Second} + {Minute});
    var marked := {Second} + {Minute} + {HourOfDay};
    DayLands(cex, t, marked);
    var d := FindDay(cex, t, Mday(t), Wday(t), marked, 0);
    s := d.t;
    SameNumber(cex, t, marked, d);
    LaterOrSame(cex, t, marked, d);
    assert marked + {DayOfMonth} == {Second, Minute, HourOfDay, DayOfMonth};
    assert FromDay(cex, t, dot, fuel, marked) == FromMonth(cex, s, dot, fuel, marked + {DayOfMonth});
    assert FromHour(cex, t, dot, fuel, {Second} + {Minute}) == FromDay(cex, t, dot, fuel, marked);
    assert FromMinute(cex, t, dot, fuel, {Second}) == FromHour(cex, t, dot, fuel, {Second} + {Minute});
  }

  lemma SameNumber(cex: CronExpr, t: int, marked: set<Field>, r: Search)
    requires r.Search? && DayMoved(cex, t, marked, MAX_DAYS, r) && MdayOf(DayOf(r.t)) == MdayOf(DayOf(t))
    ensures r.value == Mday(t)
  {
    hide DayMatches, DayOf, MdayOf, Sec, Min, Hour;
  }

  /** A time on a day of the month that is lost: after the day the search comes from, and before the one it goes to. */
  lemma LostTime(cex: CronExpr, day: int) returns (x: int)
    requires Parsed(cex) && day >= 0 && MonthOf(day) !in cex.months && PassesMonth(cex, day)
    ensures Matches(cex, x) && day < DayOf(x) < ReachedDay(cex.months, day)
    ensures YearOf(DayOf(x)) <= YearOf(day) + 1
  {
    hide FirstOf, YearOf, MonthOf, MdayOf, DaysIn, DayMatches, NextMonth, Overshoots, Sec, Min, Hour, DayOf;
    NextMonthAhead(cex.months, day);
    NextMonthIs(cex.months, day);
    var (y, m) := NextMonth(cex.months, day);
    MonthFollows(y, m);
    var d :| InMonth(d, y, m) && DayMatches(cex, d);
    DateUnique(d, y, m);
    NextMonthYear(cex.months, day);
    x := TimeOnDay(cex, d);
  }

  lemma NextMonthYear(bits: set<nat>, day: int)
    ensures NextMonth(bits, day).0 <= YearOf(day) + 1
  {
  }

  /** The day search does not go further than two years on. */
  lemma LandingYear(cex: CronExpr, day: int)
    requires Parsed(cex)
    ensures YearOf(Landing(cex, day)) <= YearOf(day) + 2
  {
    hide YearOf, YearStart, DayMatches;
    var (y, z) := (YearOf(day), YearOf(Landing(cex, day)));
    YearStep(y);
    YearStep(y + 1);
    YearStep(y + 2);
    if z > y + 2 { YearsReach(y + 3, z); }
  }

  lemma BeforeHorizon(x: int, dot: int)
    requires Year(x) <= dot + 4
    ensures x < Horizon(dot)
  {
    hide YearOf, YearStart;
    var last := dot + 5;
    YearsReach(Year(x) + 1, last);
    DayBound(x, YearStart(last));
  }

  /** Asked there, `cron_next` is wrong. */
  lemma LostMonthIsWrong(cex: CronExpr, from: int) returns (t: int, fuel: nat)
    requires Parsed(cex) && from >= 0 && LosesMonth(cex, from)
    ensures t >= 0 && !Right(cex, t, CronNext(cex, t, fuel))
  {
    hide FindNext, FindField, FromMonth, Landing, MonthOf, MdayOf, YearOf, DayOf, Sec, Min, Hour, Matches, ReachedDay, PassesMonth,
         Bits, Horizon, CronNeed, PastBudget, MkTime, FromTime;
    t := TimeOnDay(cex, from);
    fuel := CronNeed(cex, t);
    var day := Landing(cex, from);
    var x := LostTime(cex, day);
    LandingYear(cex, from);
    BeforeHorizon(x, Year(t));
    LaterDay(t, x);
    CronNextEnds(cex, t, fuel);
    NeedIsFuel(cex, t);
    var s := ComesToMonth(cex, t, Year(t), fuel);
    PassesBy(cex, t, s, x, Year(t), fuel);
    LaterDay(t, s);
    WrongAbout(cex, t, x, fuel);
  }

  lemma NeedIsFuel(cex: CronExpr, t: int)
    requires Parsed(cex)
    ensures CronNeed(cex, t) > 0
  {
    hide Need;
  }

  /** What the search comes to from the month on lies behind the lost time. */
  lemma PassesBy(cex: CronExpr, t: int, s: int, x: int, dot: int, fuel: nat)
    requires Parsed(cex) && t >= 0 && t <= s && fuel > 0 && Mon(s) !in cex.months
    requires 0 <= NextMonth(cex.months, DayOf(s)).1 ==> DayOf(x) < ReachedDay(cex.months, DayOf(s))
    ensures var r := FromMonth(cex, s, dot, fuel, {Second, Minute, HourOfDay, DayOfMonth}); r.Next? ==> x < r.t
  {
    hide FindNext, FindField, DayOf, MonthOf, Sec, Min, Hour, ReachedDay, NextMonth, PastBudget;
    var marked := {Second, Minute, HourOfDay, DayOfMonth};
    MonthSearch(cex.months, s, marked);
    MonthLands(cex.months, s, marked);
    var m := FindField(cex.months, 12, s, Mon(s), Month, YearField, marked);
    LaterDay(x, m.t);
    NextIsForward(cex, m.t, dot, fuel - 1);
  }

  lemma WrongAbout(cex: CronExpr, t: int, x: int, fuel: nat)
    requires Parsed(cex) && t >= 0 && t < x < Horizon(Year(t)) && Matches(cex, x) && CronNext(cex, t, fuel) != NoFuel
    requires var r := FindNext(cex, t, Year(t), fuel); r.Next? ==> x < r.t
    ensures !Right(cex, t, CronNext(cex, t, fuel))
  {
    hide FindNext, Matches, Horizon, MkTime, FromTime, Year;
  }

  /* The whole truth */

  /** From no day is a recheck skipped that matters, and from none a month lost. */
  ghost predicate SafeDays(cex: CronExpr)
    requires Parsed(cex)
  {
    forall day :: day >= 0 ==> (Skips(cex, day) ==> Harmless(cex, day)) && !LosesMonth(cex, day)
  }

  lemma SafeDaysAreSafe(cex: CronExpr)
    requires Parsed(cex)
    ensures SafeDays(cex) <==> SafeFrom(cex, 0)
  {
    hide Skips, Harmless, LosesMonth;
    assert DayOf(0) == 0;
  }

  /**
   * `cron_next` is always right if and only if no recheck that matters is skipped from any day, no month is lost from any day,
   * and the seconds of the set are without a gap or no other field restricts.
   */
  lemma RightExactly(cex: CronExpr)
    requires Parsed(cex)
    ensures AlwaysRight(cex) <==> SafeDays(cex) && (NoGap(cex) || Closed(cex))
  {
    hide CronNext, Right, Skips, Harmless, LosesMonth, NoGap, Closed, Bits;
    SafeDaysAreSafe(cex);
    if SafeDays(cex) && (NoGap(cex) || Closed(cex)) {
      forall t, fuel: nat | t >= 0 ensures Right(cex, t, CronNext(cex, t, fuel)) {
        SafeLater(cex, 0, t);
        RightFrom(cex, t, fuel);
      }
    }
    if AlwaysRight(cex) {
      RightIsSafe(cex);
      if !NoGap(cex) { RightIsClosed(cex); }
    }
  }

  lemma RightMatches(cex: CronExpr)
    requires AlwaysRight(cex)
    ensures AlwaysMatches(cex)
  {
    hide CronNext, Matches, NoneIn, Horizon;
    forall t, fuel: nat | t >= 0 && CronNext(cex, t, fuel).Next? ensures Matches(cex, CronNext(cex, t, fuel).t) {
      assert Right(cex, t, CronNext(cex, t, fuel));
    }
  }

  lemma RightIsSafe(cex: CronExpr)
    requires Parsed(cex) && AlwaysRight(cex)
    ensures SafeDays(cex)
  {
    hide CronNext, Right, Skips, Harmless, LosesMonth, Bits, AlwaysMatches;
    RightMatches(cex);
    MatchesUnlessSkipped(cex);
    forall day | day >= 0 ensures !LosesMonth(cex, day) {
      if LosesMonth(cex, day) { var t, fuel := LostMonthIsWrong(cex, day); }
    }
  }

  lemma RightIsClosed(cex: CronExpr)
    requires Parsed(cex) && AlwaysRight(cex) && SafeDays(cex) && !NoGap(cex)
    ensures Closed(cex)
  {
    hide CronNext, Right, UpperMatches, SafeFrom, SafeDays, NoGap, Sec, Bits;
    SafeDaysAreSafe(cex);
    var i, s, j := GapExists(cex);
    SecondsBelow(cex, j);
    forall t | t >= 0 && UpperMatches(cex, t + 60) ensures UpperMatches(cex, t) {
      var u := t - Sec(t) + s;
      WithSecond(t, s);
      SameUpper(cex, t, u);
      MinuteOn(t);
      MinuteOn(u);
      SameUpper(cex, t + 60, u + 60);
      InMinute(t);
      StartsInMinute(t, u);
      SafeLater(cex, 0, u);
      if !UpperMatches(cex, u) { GapSkips(cex, u, i, j); }
    }
  }

  lemma StartsInMinute(t: int, u: int)
    requires t >= 0 && Index(t, Minute) == Index(u, Minute)
    ensures u >= 0
  {
  }

  lemma SecondsBelow(cex: CronExpr, j: nat)
    requires Parsed(cex) && j in cex.seconds
    ensures j < 60
  {
  }

  lemma RightFrom(cex: CronExpr, t: int, fuel: nat)
    requires Parsed(cex) && SafeFrom(cex, t) && t >= 0 && (NoGap(cex) || Closed(cex))
    ensures Right(cex, t, CronNext(cex, t, fuel))
  {
    hide CronNext, Matches, UpperMatches, SafeFrom, FreshSecond, NoGap, Closed, Sec, NoneIn, Horizon, Right;
    if NoGap(cex) { NoGapIsFresh(cex, Sec(t)); }
    if FreshSecond(cex, Sec(t)) || UpperMatches(cex, t) {
      CronNextIsRight(cex, t, fuel);
    } else {
      NothingToFind(cex, t, fuel);
    }
  }

  lemma NothingToFind(cex: CronExpr, t: int, fuel: nat)
    requires Parsed(cex) && SafeFrom(cex, t) && t >= 0 && Closed(cex) && !UpperMatches(cex, t)
    ensures Right(cex, t, CronNext(cex, t, fuel))
  {
    hide CronNext, Matches, UpperMatches, LosesMonth, HarmlessFrom, Closed, Horizon;
    CronNextIsLater(cex, t, fuel);
    var r := CronNext(cex, t, fuel);
    if r.Next? {
      FoundMatches(cex, t, fuel);
      ClosedFindsNone(cex, t, r.t);
    }
    forall x | x > t ensures !Matches(cex, x) { ClosedFindsNone(cex, t, x); }
  }

  /* Times that are passed by */

  function Upto(n: nat): (r: set<nat>)
    ensures forall i: nat :: i in r <==> i < n
  {
    if n == 0 then {} else Upto(n - 1) + {n - 1}
  }

  lemma Always(t: int)
    ensures Hour(t) in Upto(24) && Mon(t) in Upto(12)
  {
  }

  /** Seconds 0 and 30 of minute five of every hour. */
  function TwiceInMinuteFive(): CronExpr {
    CronExpr({0, 30}, {5}, Upto(24), Upto(7), Upto(31), Upto(12))
  }

  lemma EveryDay(cex: CronExpr, day: int)
    requires cex.daysOfWeek == Upto(7) && cex.daysOfMonth == Upto(31)
    ensures DayMatches(cex, day)
  {
    hide YearOf, MonthOf, FirstOf;
  }

  /**
   * Asked ten seconds after midnight of 1970-01-01, the search sets the second before the minute, and does not reset it: it
   * gives 00:05:30 and not 00:05:00.
   */
  lemma StaleSecond()
    ensures Parsed(TwiceInMinuteFive())
    ensures CronNext(TwiceInMinuteFive(), 10, 2) == Next(330) && Matches(TwiceInMinuteFive(), 300)
  {
    hide FindNext, Matches, YearOf;
    TwiceIsParsed();
    TwiceSteps();
    TwiceMatches();
  }

  lemma TwiceIsParsed()
    ensures Parsed(TwiceInMinuteFive())
  {
    assert 0 in Upto(24) && 0 in Upto(7) && 0 in Upto(31) && 0 in Upto(12);
  }

  lemma TwiceSteps()
    ensures FindNext(TwiceInMinuteFive(), 10, Year(10), 2) == Next(330)
  {
    hide FindField, Matches, FindNext, FromHour, Sec, Min, Hour, DayOf, YearOf, Upto;
    var cex, dot := TwiceInMinuteFive(), Year(10);
    SecondThirty(cex);
    MinuteFive(cex);
    TwiceMatches();
    MatchStays(cex, 330, dot, 1);
    SettledHour(cex, 330, dot, 2, {});
    assert FromMinute(cex, 30, dot, 2, {}) == Next(330);
    SearchStarts(cex, 10, dot, 2, 30);
  }

  lemma SearchStarts(cex: CronExpr, t: int, dot: int, fuel: nat, u: int)
    requires fuel > 0 && FindField(cex.seconds, 60, t, Sec(t), Second, Minute, {}) == Search(u, Sec(u)) && Sec(u) != Sec(t)
    ensures FindNext(cex, t, dot, fuel) == FromMinute(cex, u, dot, fuel, {})
  {
    hide FindField, FromMinute, Sec;
  }

  lemma SecondThirty(cex: CronExpr)
    requires cex == TwiceInMinuteFive()
    ensures FindField(cex.seconds, 60, 10, Sec(10), Second, Minute, {}) == Search(30, Sec(30)) && Sec(10) == 10 && Sec(30) == 30
  {
    hide FindField, Upto;
    ClockSearch(cex.seconds, 10, Second, {});
    assert 30 in cex.seconds;
  }

  lemma MinuteFive(cex: CronExpr)
    requires cex == TwiceInMinuteFive()
    ensures FindField(cex.minutes, 60, 30, Min(30), Minute, HourOfDay, {}) == Search(330, 5) && Min(30) == 0
  {
    hide FindField, Upto;
    ClockSearch(cex.minutes, 30, Minute, {});
    assert 5 in cex.minutes;
  }

  lemma TwiceMatches()
    ensures Matches(TwiceInMinuteFive(), 300) && Matches(TwiceInMinuteFive(), 330)
  {
    hide DayMatches, MonthOf, Upto;
    Always(300);
    Always(330);
    EveryDay(TwiceInMinuteFive(), DayOf(300));
    EveryDay(TwiceInMinuteFive(), DayOf(330));
  }

  /** Every day of February, at midnight. */
  function FebruaryMidnights(): CronExpr {
    CronExpr({0}, {0}, {0}, Upto(7), Upto(31), {1})
  }

  lemma AtMidnight(cex: CronExpr, day: int, dot: int, fuel: nat)
    requires cex == FebruaryMidnights() && fuel > 0
    ensures Matches(cex, day * DAY) <==> MonthOf(day) == 1
    ensures FindNext(cex, day * DAY, dot, fuel)
      == FromMonth(cex, day * DAY, dot, fuel, {Second, Minute, HourOfDay, DayOfMonth})
  {
    hide FindField, FindDay, FromMonth, DayMatches, MonthOf, MdayOf, WdayOf, DayOf, Sec, Min, Hour, Upto, DayMoved;
    var t := day * DAY;
    Midnight(day);
    EveryDay(cex, day);
    FieldHit(cex.seconds, 60, t, 0, Second, Minute, {});
    FieldHit(cex.minutes, 60, t, 0, Minute, HourOfDay, {Second});
    FieldHit(cex.hours, 24, t, 0, HourOfDay, DayOfWeek, {Second} + {Minute});
    var marked := {Second} + {Minute} + {HourOfDay};
    DayStays(cex, t, marked, 0);
    assert marked + {DayOfMonth} == {Second, Minute, HourOfDay, DayOfMonth};
    assert FromDay(cex, t, dot, fuel, marked) == FromMonth(cex, t, dot, fuel, marked + {DayOfMonth});
    assert FromHour(cex, t, dot, fuel, {Second} + {Minute}) == FromDay(cex, t, dot, fuel, marked);
    assert FromMinute(cex, t, dot, fuel, {Second}) == FromHour(cex, t, dot, fuel, {Second} + {Minute});
  }

  lemma DatesOf1970()
    ensures FirstOf(1970, 0) == 0 && FirstOf(1970, 1) == 31 && FirstOf(1970, 2) == 59 && FirstOf(1971, 1) == 396
    ensures YearOf(30) == 1970 && MonthOf(30) == 0 && YearOf(31) == 1970 && MonthOf(31) == 1
    ensures YearOf(59) == 1970 && MonthOf(59) == 2 && MdayOf(59) == 1 && InMonth(61, 1970, 2)
    ensures YearOf(396) == 1971 && MonthOf(396) == 1
  {
    hide YearOf, MonthOf;
    MonthStarts(1970);
    MonthStarts(1971);
    YearStep(1970);
    assert MonthStart(1970, 1) == 31 && MonthStart(1971, 1) == 31;
    DateUnique(30, 1970, 0);
    DateUnique(31, 1970, 1);
    DateUnique(59, 1970, 2);
    DateUnique(396, 1971, 1);
  }

  /** The 31st of February. */
  lemma OverflowingMonth(marked: set<Field>)
    requires marked == {Second, Minute, HourOfDay, DayOfMonth}
    ensures FindField({1}, 12, 30 * DAY, 0, Month, YearField, marked) == Search(59 * DAY, 1)
  {
    hide ResetAll, MkTime, FromTime, FirstOf, YearOf, MonthOf, DayOf, Sec, Min, Hour;
    var t := 30 * DAY;
    DatesOf1970();
    Midnight(30);
    Midnight(61);
    MonthShift(t, 1);
    assert NextSetBit({1}, 12, 0) == 1;
    ResetToFirst(61 * DAY, marked, 1970, 2);
    ResetStaysInMonth(61 * DAY, marked, 1970, 2);
    var r := ResetAll(61 * DAY, marked, 0);
    ClockAddsUp(r.t);
  }

  /** From March to the next February. */
  lemma NextFebruary(marked: set<Field>)
    requires marked == {Second, Minute, HourOfDay, DayOfMonth}
    ensures FindField({1}, 12, 59 * DAY, 2, Month, YearField, marked) == Search(396 * DAY, 1)
  {
    hide FindField, FirstOf, YearOf, MonthOf, DayOf, Sec, Min, Hour, DaysIn;
    var t := 59 * DAY;
    DatesOf1970();
    Midnight(59);
    assert NextSetBit({1}, 12, 0) == 1;
    MonthSearch({1}, t, marked);
    MonthLands({1}, t, marked);
    assert NextMonth({1}, 59) == (1971, 1) && !Overshoots({1}, 59);
    var r := FindField({1}, 12, t, 2, Month, YearField, marked);
    ClockAddsUp(r.t);
  }

  /**
   * Asked on 1970-01-31, the search goes to the 31st of February, which is in March: it gives 1971-02-01 and not 1970-02-01.
   */
  lemma ShortMonth()
    ensures Parsed(FebruaryMidnights())
    ensures CronNext(FebruaryMidnights(), 30 * DAY, 3) == Next(396 * DAY) && Matches(FebruaryMidnights(), 31 * DAY)
  {
    hide FindNext, FindField, Matches, YearOf, MonthOf, MdayOf, FirstOf, Upto;
    var cex, marked := FebruaryMidnights(), {Second, Minute, HourOfDay, DayOfMonth};
    assert 0 in Upto(7) && 0 in Upto(31);
    DatesOf1970();
    AtMidnight(cex, 30, 1970, 3);
    AtMidnight(cex, 31, 1970, 3);
    AtMidnight(cex, 59, 1970, 2);
    AtMidnight(cex, 396, 1970, 1);
    OverflowingMonth(marked);
    NextFebruary(marked);
    MatchStays(cex, 396 * DAY, 1970, 1);
    assert FromMonth(cex, 59 * DAY, 1970, 2, marked) == Next(396 * DAY);
    assert FromMonth(cex, 30 * DAY, 1970, 3, marked) == Next(396 * DAY);
  }
}
