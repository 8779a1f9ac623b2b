/** The search passes no time that the expression describes, and `cron_next` gives the earliest. */
module CronEarliest {
  import opened Calendar
  import opened Cron
  import opened CronSteps
  import opened CronDays
  import opened CronTheorems
  import opened CronTermination
  import opened CronRecheck
  import opened CronMonths

  /** No time from `t` on and before `u` is described by the expression. */
  ghost predicate NoneIn(cex: CronExpr, t: int, u: int) {
    forall x {:trigger Matches(cex, x)} :: t <= x < u ==> !Matches(cex, x)
  }

  /** The second is in the set, or no second of the set comes before the one that the search will set. */
  ghost predicate FreshSecond(cex: CronExpr, s: nat) {
    s in cex.seconds || Wraps(cex.seconds, s) || forall i :: i in cex.seconds ==> s < i
  }

  /**
   * From this day the search comes to a month that is too short, without a second look at the day, and passes by a day of that
   * month which matches.
   */
  ghost predicate LosesMonth(cex: CronExpr, from: int)
    requires Parsed(cex)
  {
    var day := Landing(cex, from);
    MdayOf(day) == MdayOf(from) && MonthOf(day) !in cex.months && PassesMonth(cex, day)
  }

  ghost predicate PassesMonth(cex: CronExpr, day: int) {
    var (y, m) := NextMonth(cex.months, day);
    Overshoots(cex.months, day) && 0 <= m && exists x :: InMonth(x, y, m) && DayMatches(cex, x)
  }

  /** From `t` on, no recheck that matters is skipped and no month is lost. */
  ghost predicate SafeFrom(cex: CronExpr, t: int)
    requires Parsed(cex)
  {
    HarmlessFrom(cex, t) && forall from :: DayOf(t) <= from ==> !LosesMonth(cex, from)
  }

  lemma SafeLater(cex: CronExpr, t: int, u: int)
    requires Parsed(cex) && SafeFrom(cex, t) && t <= u
    ensures SafeFrom(cex, u)
  {
    hide HarmlessFrom, LosesMonth;
    HarmlessLater(cex, t, u);
    DaysPass(t, t, u);
  }

  /* One step of the search passes nothing */

  /** No second of the set comes before that of `t`, unless it will be reset. */
  ghost predicate Leading(cex: CronExpr, t: int, marked: set<Field>) {
    Second in marked || forall i :: i in cex.seconds ==> Sec(t) <= i
  }

  /** At the start of a minute of the clock, or later in it by less than any second of the set. */
  ghost predicate Foremost(cex: CronExpr, t: int) {
    Sec(t) == 0 || forall i :: i in cex.seconds ==> Sec(t) <= i
  }

  lemma SameMinuteBefore(t: int, x: int)
    requires x < t && x / 60 == t / 60
    ensures Sec(x) < Sec(t)
  {
  }

  lemma ForemostInMinute(cex: CronExpr, t: int, x: int)
    requires Foremost(cex, t) && x < t && x / 60 == t / 60
    ensures !Matches(cex, x)
  {
    hide DayMatches, MonthOf, DayOf;
    SameMinuteBefore(t, x);
  }

  lemma SecondPasses(cex: CronExpr, t: int, r: Search)
    requires Parsed(cex) && Sec(t) !in cex.seconds && r.Search? && Moved(cex.seconds, t, Second, {}, r)
    ensures NoneIn(cex, t, r.t)
    ensures FreshSecond(cex, Sec(t)) ==> Leading(cex, r.t, {})
  {
    forall x | t <= x < r.t ensures Sec(x) !in cex.seconds { IndexPasses(cex.seconds, t, Second, {}, r, x); }
  }

  /** Between the time that was left and the unit that was reached, the field is not in its set. */
  lemma IndexPasses(bits: set<nat>, t: int, f: Field, marked: set<Field>, r: Search, x: int)
    requires IsClock(f) && Value(t, f) !in bits && r.Search? && Moved(bits, t, f, marked, r)
    requires Index(t, f) <= Index(x, f) < Index(r.t, f)
    ensures Value(x, f) !in bits
  {
    hide Index, Value;
    IndexCarry(t, f);
    IndexCarry(x, f);
    IndexCarry(r.t, f);
    CarryBetween(Index(t, f), Index(x, f), Index(r.t, f), Size(f));
  }

  lemma CarryBetween(a: int, b: int, c: int, n: nat)
    requires a <= b <= c && (n == 60 || n == 24)
    ensures a / n <= b / n <= c / n
  {
  }

  lemma IndexMonotone(t: int, x: int, f: Field)
    requires t <= x
    ensures Index(t, f) <= Index(x, f)
  {
  }

  lemma MinutePasses(cex: CronExpr, t: int, marked: set<Field>, r: Search)
    requires Min(t) !in cex.minutes && r.Search? && Moved(cex.minutes, t, Minute, marked, r) && Leading(cex, t, marked)
    ensures NoneIn(cex, t, r.t)
  {
    hide DayMatches, DayOf, Hour;
    forall x | t <= x < r.t ensures !Matches(cex, x) {
      IndexMonotone(t, x, Minute);
      IndexMonotone(x, r.t, Minute);
      if Index(x, Minute) < Index(r.t, Minute) {
        IndexPasses(cex.minutes, t, Minute, marked, r, x);
      } else {
        ForemostInMinute(cex, r.t, x);
      }
    }
  }

  /** Everything before a foremost time of an hour that has no minute yet. */
  lemma ForemostInHour(cex: CronExpr, t: int, x: int)
    requires Foremost(cex, t) && Min(t) == 0 && x < t && x / 3600 == t / 3600
    ensures !Matches(cex, x)
  {
    HourStarts(t, x);
    ForemostInMinute(cex, t, x);
  }

  lemma HourStarts(t: int, x: int)
    requires Min(t) == 0 && x < t && x / 3600 == t / 3600
    ensures x / 60 == t / 60
  {
    QuotientsOf(t);
    QuotientsOf(x);
    IndexMonotone(x, t, Minute);
    SixtyAt(t / 60);
    SixtyAt(x / 60);
  }

  lemma SixtyAt(i: int)
    ensures i == i / 60 * 60 + i % 60
  {
  }

  lemma HourPasses(cex: CronExpr, t: int, marked: set<Field>, r: Search)
    requires Hour(t) !in cex.hours && r.Search? && Moved(cex.hours, t, HourOfDay, marked, r)
    requires Leading(cex, t, marked) && Minute in marked
    ensures NoneIn(cex, t, r.t)
  {
    hide DayMatches, DayOf;
    forall x | t <= x < r.t ensures !Matches(cex, x) {
      IndexMonotone(t, x, HourOfDay);
      IndexMonotone(x, r.t, HourOfDay);
      if Index(x, HourOfDay) < Index(r.t, HourOfDay) {
        IndexPasses(cex.hours, t, HourOfDay, marked, r, x);
      } else {
        ForemostInHour(cex, r.t, x);
      }
    }
  }

  lemma ForemostInDay(cex: CronExpr, t: int, x: int)
    requires Foremost(cex, t) && Min(t) == 0 && Hour(t) == 0 && x < t && DayOf(x) == DayOf(t)
    ensures !Matches(cex, x)
  {
    DayStarts(t, x);
    ForemostInHour(cex, t, x);
  }

  lemma DayStarts(t: int, x: int)
    requires Hour(t) == 0 && x < t && DayOf(x) == DayOf(t)
    ensures x / 3600 == t / 3600
  {
    hide Hour, DayOf;
    HourIndex(t);
    HourIndex(x);
    IndexMonotone(x, t, HourOfDay);
  }

  lemma DayPasses(cex: CronExpr, t: int, marked: set<Field>, r: Search)
    requires r.Search? && DayMoved(cex, t, marked, MAX_DAYS, r) && Leading(cex, t, marked) && Minute in marked && HourOfDay in marked
    ensures NoneIn(cex, t, r.t)
  {
    hide DayMatches, DayOf, MdayOf, Sec, Min, Hour;
    forall x | t <= x < r.t ensures !Matches(cex, x) {
      DaysPass(t, x, r.t);
      if DayOf(x) == DayOf(r.t) { ForemostInDay(cex, r.t, x); }
    }
  }

  lemma DaysPass(t: int, x: int, u: int)
    requires t <= x <= u
    ensures DayOf(t) <= DayOf(x) <= DayOf(u)
  {
  }

  lemma MonthPasses(cex: CronExpr, t: int, marked: set<Field>, r: Search)
    requires Parsed(cex) && Mon(t) !in cex.months && 0 <= NextMonth(cex.months, DayOf(t)).1 < 12 && r.Search?
    requires Midnightly(r.t, ReachedDay(cex.months, DayOf(t)), t, marked)
    requires Leading(cex, t, marked) && !PassesMonth(cex, DayOf(t))
    ensures NoneIn(cex, t, r.t)
  {
    hide DayMatches, DayOf, MonthOf, FirstOf, Sec, Min, Hour, NextMonth, Overshoots, DaysIn;
    var (y, m) := NextMonth(cex.months, DayOf(t));
    MonthFollows(y, m);
    forall x | t <= x < r.t ensures !Matches(cex, x) {
      DaysPass(t, x, r.t);
      if DayOf(x) < FirstOf(y, m) {
        MonthsBetween(cex.months, DayOf(t), DayOf(x));
      } else if DayOf(x) < DayOf(r.t) {
        assert InMonth(DayOf(x), y, m);
      } else {
        ForemostInDay(cex, r.t, x);
      }
    }
  }

  /* The whole search passes nothing */

  /** What a search from `t` gives: a time before which there is none, or no time because there is none before the horizon. */
  ghost predicate PassesNone(cex: CronExpr, t: int, dot: int, r: Outcome) {
    (r.Next? ==> NoneIn(cex, t, r.t)) && (r.NoNext? ==> NoneIn(cex, t, Horizon(dot)))
  }

  lemma NoneThrough(cex: CronExpr, t: int, u: int, v: int)
    requires NoneIn(cex, t, u) && NoneIn(cex, u, v)
    ensures NoneIn(cex, t, v)
  {
    hide Matches;
  }

  lemma PassesThrough(cex: CronExpr, t: int, u: int, dot: int, r: Outcome)
    requires NoneIn(cex, t, u) && PassesNone(cex, u, dot, r)
    ensures PassesNone(cex, t, dot, r)
  {
    hide NoneIn, Horizon;
    if r.Next? { NoneThrough(cex, t, u, r.t); }
    if r.NoNext? { NoneThrough(cex, t, u, Horizon(dot)); }
  }

  lemma NoneYet(cex: CronExpr, t: int)
    ensures NoneIn(cex, t, t)
  {
    hide Matches;
  }

  lemma YearLater(t: int, u: int)
    requires t <= u
    ensures Year(t) <= Year(u)
  {
    hide YearOf, YearStart;
    DaysPass(t, t, u);
    var (y, z) := (Year(t), Year(u));
    if z < y { YearsReach(z + 1, y); }
  }

  /** Beyond the budget, from the year it began in on, is beyond the horizon. */
  lemma BudgetIsHorizon(t: int, dot: int)
    requires dot <= Year(t) && PastBudget(t, dot)
    ensures Horizon(dot) <= t
  {
    hide YearOf, YearStart;
    var last := dot + 5;
    YearsReach(last, Year(t));
    DayBound(t, YearStart(last));
  }

  /** A search that starts on a fresh second passes no time that the expression describes. */
  lemma {:induction false} NextPasses(cex: CronExpr, t: int, dot: int, fuel: nat)
    requires Parsed(cex) && SafeFrom(cex, t) && FreshSecond(cex, Sec(t)) && dot <= Year(t)
    ensures PassesNone(cex, t, dot, FindNext(cex, t, dot, fuel))
    decreases fuel, 5
  {
    hide FromMinute, FindField, Sec, Year, Matches, SafeFrom, NoneIn, FreshSecond, Horizon;
    if fuel > 0 {
      ClockSearch(cex.seconds, t, Second, {});
      var s := FindField(cex.seconds, 60, t, Sec(t), Second, Minute, {});
      if s.Search? {
        var marked := if s.value == Sec(t) then {Second} else {};
        if s.value == Sec(t) { NoneYet(cex, t); } else { SecondPasses(cex, t, s); }
        SafeLater(cex, t, s.t);
        YearLater(t, s.t);
        MinutePassesOn(cex, s.t, dot, fuel, marked);
        PassesThrough(cex, t, s.t, dot, FromMinute(cex, s.t, dot, fuel, marked));
      }
    }
  }

  /** After a step that resets the seconds or leaves them, the second is fresh. */
  lemma FreshAfter(cex: CronExpr, t: int, u: int)
    requires SetOrZero(cex.seconds, Sec(t)) && (Sec(u) == 0 || Sec(u) == Sec(t))
    ensures FreshSecond(cex, Sec(u))
  {
    hide Sec;
  }

  /** A search from a time that was reached on the way: it passes nothing and finds a time that needs no other look. */
  lemma {:induction false} RecheckPasses(cex: CronExpr, t: int, u: int, dot: int, fuel: nat)
    requires Parsed(cex) && SafeFrom(cex, t) && dot <= Year(t) && fuel > 0
    requires t <= u && NoneIn(cex, t, u) && SetOrZero(cex.seconds, Sec(t)) && (Sec(u) == 0 || Sec(u) == Sec(t))
    ensures var r := FindNext(cex, u, dot, fuel - 1);
      (r.Next? ==> Matches(cex, r.t)) && PassesNone(cex, t, dot, r)
    decreases fuel, 0
  {
    hide FindNext, Sec, Year, Matches, HarmlessFrom, LosesMonth, NoneIn, FreshSecond, Horizon, PassesNone, SetOrZero;
    SafeLater(cex, t, u);
    YearLater(t, u);
    FreshAfter(cex, t, u);
    NextMatches(cex, u, dot, fuel - 1);
    NextPasses(cex, u, dot, fuel - 1);
    PassesThrough(cex, t, u, dot, FindNext(cex, u, dot, fuel - 1));
  }

  lemma {:induction false} MinutePassesOn(cex: CronExpr, t: int, dot: int, fuel: nat, marked: set<Field>)
    requires Parsed(cex) && SafeFrom(cex, t) && dot <= Year(t) && fuel > 0 && marked <= {Second}
    requires Sec(t) in cex.seconds && Leading(cex, t, marked)
    ensures PassesNone(cex, t, dot, FromMinute(cex, t, dot, fuel, marked))
    decreases fuel, 4
  {
    hide FromHour, FindNext, FindField, Min, Sec, Year, Matches, SafeFrom, NoneIn, Leading, Horizon;
    ClockSearch(cex.minutes, t, Minute, marked);
    var s := FindField(cex.minutes, 60, t, Min(t), Minute, HourOfDay, marked);
    if s.Search? {
      if s.value == Min(t) {
        StillLeading(cex, t, marked, Minute);
        HourPassesOn(cex, s.t, dot, fuel, marked + {Minute});
      } else {
        MinutePasses(cex, t, marked, s);
        RecheckPasses(cex, t, s.t, dot, fuel);
        var r := FindNext(cex, s.t, dot, fuel - 1);
        if r.Next? { SettledHour(cex, r.t, dot, fuel, marked); }
      }
    }
  }

  lemma StillLeading(cex: CronExpr, t: int, marked: set<Field>, f: Field)
    requires Leading(cex, t, marked)
    ensures Leading(cex, t, marked + {f})
  {
  }

  lemma {:induction false} HourPassesOn(cex: CronExpr, t: int, dot: int, fuel: nat, marked: set<Field>)
    requires Parsed(cex) && SafeFrom(cex, t) && dot <= Year(t) && fuel > 0 && {Minute} <= marked <= {Second, Minute}
    requires Sec(t) in cex.seconds && Min(t) in cex.minutes && Leading(cex, t, marked)
    ensures PassesNone(cex, t, dot, FromHour(cex, t, dot, fuel, marked))
    decreases fuel, 3
  {
    hide FromDay, FindNext, FindField, Hour, Min, Sec, Year, Matches, SafeFrom, NoneIn, Leading, Horizon;
    ClockSearch(cex.hours, t, HourOfDay, marked);
    var s := FindField(cex.hours, 24, t, Hour(t), HourOfDay, DayOfWeek, marked);
    if s.Search? {
      if s.value == Hour(t) {
        StillLeading(cex, t, marked, HourOfDay);
        DayPassesOn(cex, s.t, dot, fuel, marked + {HourOfDay});
      } else {
        HourPasses(cex, t, marked, s);
        RecheckPasses(cex, t, s.t, dot, fuel);
        var r := FindNext(cex, s.t, dot, fuel - 1);
        if r.Next? { SettledDay(cex, r.t, dot, fuel, marked); }
      }
    }
  }

  lemma {:induction false} DayPassesOn(cex: CronExpr, t: int, dot: int, fuel: nat, marked: set<Field>)
    requires Parsed(cex) && SafeFrom(cex, t) && dot <= Year(t) && fuel > 0
    requires {Minute, HourOfDay} <= marked <= {Second, Minute, HourOfDay}
    requires Sec(t) in cex.seconds && Min(t) in cex.minutes && Hour(t) in cex.hours && Leading(cex, t, marked)
    ensures PassesNone(cex, t, dot, FromDay(cex, t, dot, fuel, marked))
    decreases fuel, 2
  {
    hide FromMonth, FindNext, FindDay, DayOf, MdayOf, MonthOf, WdayOf, Hour, Min, Sec, YearOf, Matches, DayMatches, DayMoved,
         SafeFrom, Landing, NoneIn, Leading, Horizon;
    DayLands(cex, t, marked);
    var s := FindDay(cex, t, Mday(t), Wday(t), marked, 0);
    if s.Search? {
      DayPasses(cex, t, marked, s);
      LaterOrSame(cex, t, marked, s);
      DayMovedSeconds(cex, t, marked, s);
      if s.value == Mday(t) {
        SkippedIsSafe(cex, t, marked, s);
        SafeLater(cex, t, s.t);
        YearLater(t, s.t);
        MonthPassesOn(cex, s.t, dot, fuel, marked + {DayOfMonth});
        PassesThrough(cex, t, s.t, dot, FromMonth(cex, s.t, dot, fuel, marked + {DayOfMonth}));
      } else {
        RecheckPasses(cex, t, s.t, dot, fuel);
        var r := FindNext(cex, s.t, dot, fuel - 1);
        if r.Next? { SettledMonth(cex, r.t, dot, fuel, marked); }
      }
    }
  }

  lemma DayMovedSeconds(cex: CronExpr, t: int, marked: set<Field>, r: Search)
    requires r.Search? && DayMoved(cex, t, marked, MAX_DAYS, r)
    ensures Sec(r.t) == 0 || Sec(r.t) == Sec(t)
    ensures Second !in marked ==> Sec(r.t) == Sec(t)
  {
    hide DayMatches, Min, Hour, DayOf, MdayOf;
  }

  /** What is known where the search goes on with the month. */
  lemma SkippedIsSafe(cex: CronExpr, t: int, marked: set<Field>, r: Search)
    requires Parsed(cex) && SafeFrom(cex, t) && Sec(t) in cex.seconds && Leading(cex, t, marked)
    requires r.Search? && DayMoved(cex, t, marked, MAX_DAYS, r) && DayOf(r.t) == Landing(cex, DayOf(t)) && r.value == Mday(t)
    ensures Mon(r.t) !in cex.months ==> !PassesMonth(cex, DayOf(r.t))
    ensures SetOrZero(cex.seconds, Sec(r.t)) && Leading(cex, r.t, marked + {DayOfMonth})
  {
    hide DayMatches, DayOf, MdayOf, MonthOf, Sec, Min, Hour, Landing, PassesMonth, HarmlessFrom;
    DayMovedSeconds(cex, t, marked, r);
    assert !LosesMonth(cex, DayOf(t));
  }

  lemma {:induction false} MonthPassesOn(cex: CronExpr, t: int, dot: int, fuel: nat, marked: set<Field>)
    requires Parsed(cex) && SafeFrom(cex, t) && dot <= Year(t) && fuel > 0 && AllMarked(marked)
    requires Mon(t) !in cex.months ==> !PassesMonth(cex, DayOf(t))
    requires SetOrZero(cex.seconds, Sec(t)) && Leading(cex, t, marked)
    ensures PassesNone(cex, t, dot, FromMonth(cex, t, dot, fuel, marked))
    decreases fuel, 1
  {
    hide FindNext, FindField, DayOf, MonthOf, MdayOf, DayMatches, Hour, Min, Sec, YearOf, Matches, SafeFrom, NoneIn, SetOrZero,
         Leading, FirstOf, NextMonth, ReachedDay, PassesMonth, Horizon, PastBudget;
    MonthSearch(cex.months, t, marked);
    var s := FindField(cex.months, 12, t, Mon(t), Month, YearField, marked);
    if Mon(t) in cex.months {
      NoneYet(cex, t);
    } else if s.Search? {
      MonthLands(cex.months, t, marked);
      MonthPasses(cex, t, marked, s);
      LaterDay(t, s.t);
      YearLater(t, s.t);
      if PastBudget(s.t, dot) {
        BudgetIsHorizon(s.t, dot);
        NoneBefore(cex, t, s.t, Horizon(dot));
      } else {
        RecheckPasses(cex, t, s.t, dot, fuel);
      }
    }
  }

  lemma NoneBefore(cex: CronExpr, t: int, u: int, v: int)
    requires NoneIn(cex, t, u) && v <= u
    ensures NoneIn(cex, t, v)
  {
    hide Matches;
  }

  /* `cron_next` */

  /** Everything but the second matches. */
  predicate UpperMatches(cex: CronExpr, t: int) {
    Min(t) in cex.minutes && Hour(t) in cex.hours && DayMatches(cex, DayOf(t)) && Mon(t) in cex.months
  }

  /** Within a minute that matches, the search stops at the next second of the set. */
  lemma NextInMinute(cex: CronExpr, t: int, dot: int, fuel: nat)
    requires Parsed(cex) && UpperMatches(cex, t) && !FreshSecond(cex, Sec(t)) && fuel > 0
    ensures PassesNone(cex, t, dot, FindNext(cex, t, dot, fuel))
  {
    hide FromMinute, FindField, Sec, Min, Hour, DayOf, Mon, DayMatches, NoneIn;
    ClockSearch(cex.seconds, t, Second, {});
    var s := FindField(cex.seconds, 60, t, Sec(t), Second, Minute, {});
    if s.Search? {
      SecondPasses(cex, t, s);
      SameUpper(cex, t, s.t);
      StopsHere(cex, s.t, dot, fuel, {});
    }
  }

  lemma SameUpper(cex: CronExpr, t: int, u: int)
    requires Index(t, Minute) == Index(u, Minute)
    ensures UpperMatches(cex, t) <==> UpperMatches(cex, u)
  {
    hide Index, DayMatches, MonthOf;
    UpperIndex(t, u, Minute);
    UpperIndex(t, u, HourOfDay);
    DayIsIndex(t);
    DayIsIndex(u);
    DayIndex(t, u, DayOfMonth);
  }

  lemma StopsHere(cex: CronExpr, t: int, dot: int, fuel: nat, marked: set<Field>)
    requires Matches(cex, t) && fuel > 0
    ensures FromMinute(cex, t, dot, fuel, marked) == Next(t)
  {
    hide FindField, FromHour, Hour, Min, Mon, DayOf, DayMatches, Sec;
    FieldHit(cex.minutes, 60, t, Min(t), Minute, HourOfDay, marked);
    SettledHour(cex, t, dot, fuel, marked + {Minute});
  }

  lemma MatchStays(cex: CronExpr, t: int, dot: int, fuel: nat)
    requires Matches(cex, t) && fuel > 0
    ensures FindNext(cex, t, dot, fuel) == Next(t)
  {
    hide FindField, FromMinute, Hour, Min, Mon, DayOf, DayMatches, Sec;
    FieldHit(cex.seconds, 60, t, Sec(t), Second, Minute, {});
    StopsHere(cex, t, dot, fuel, {Second});
  }

  /** The search from a time whose second is fresh or that matches but for its second. */
  lemma SearchPasses(cex: CronExpr, t: int, dot: int, fuel: nat)
    requires Parsed(cex) && SafeFrom(cex, t) && (FreshSecond(cex, Sec(t)) || UpperMatches(cex, t)) && dot <= Year(t)
    ensures PassesNone(cex, t, dot, FindNext(cex, t, dot, fuel))
  {
    hide FindNext, Sec, UpperMatches, SafeFrom, NoneIn, FreshSecond;
    if FreshSecond(cex, Sec(t)) {
      NextPasses(cex, t, dot, fuel);
    } else if fuel > 0 {
      NextInMinute(cex, t, dot, fuel);
    } else {
      NoFuelNoTime(cex, t, dot);
    }
  }

  lemma NoFuelNoTime(cex: CronExpr, t: int, dot: int)
    ensures FindNext(cex, t, dot, 0) == NoFuel
  {
  }

  /** One second on from a time that matches, the rest still matches or the second starts anew. */
  lemma SecondOn(cex: CronExpr, t: int)
    requires Matches(cex, t)
    ensures FreshSecond(cex, Sec(t + 1)) || UpperMatches(cex, t + 1)
  {
    hide DayMatches, MonthOf, DayOf;
    if Sec(t) == 59 {
      assert Sec(t + 1) == 0;
    } else {
      assert (t + 1) / 60 == t / 60;
      SameUpper(cex, t, t + 1);
    }
  }

  /** The answer is right: the earliest later time that is described, or none because there is none before the horizon. */
  ghost predicate Right(cex: CronExpr, t: int, r: Outcome) {
    match r
    case Next(u) => EarliestAfter(cex, t, u)
    case NoNext => NoneIn(cex, t + 1, Horizon(Year(t)))
    case Thrown => false
    case NoFuel => true
  }

  ghost predicate EarliestAfter(cex: CronExpr, t: int, u: int) {
    t < u && Matches(cex, u) && NoneIn(cex, t + 1, u)
  }

  /**
   * `cron_next` is right where no recheck that matters is skipped, no month is lost, and the second asked about is fresh or
   * the only thing that does not match, as it is for every time that was itself given by `cron_next`.
   */
  lemma CronNextIsRight(cex: CronExpr, t: int, fuel: nat)
    requires Parsed(cex) && SafeFrom(cex, t) && (FreshSecond(cex, Sec(t)) || UpperMatches(cex, t)) && t >= 0
    ensures Right(cex, t, CronNext(cex, t, fuel))
    ensures Matches(cex, t) ==> UpperMatches(cex, t)
  {
    hide FindNext, MkTime, FromTime, Year, Matches, UpperMatches, HarmlessFrom, LosesMonth, FreshSecond, Sec, NoneIn, Horizon;
    CronNextIsLater(cex, t, fuel);
    NextIsForward(cex, t, Year(t), fuel);
    NextMatches(cex, t, Year(t), fuel);
    AllMatch(cex, t);
    SearchPasses(cex, t, Year(t), fuel);
    var first := FindNext(cex, t, Year(t), fuel);
    if first == Next(t) {
      SecondSearch(cex, t, fuel);
    } else {
      if first.Next? { NoneFromNext(cex, t, first.t); }
      if first.NoNext? { NoneFromNext(cex, t, Horizon(Year(t))); }
    }
  }

  lemma NoneFromNext(cex: CronExpr, t: int, u: int)
    requires NoneIn(cex, t, u)
    ensures NoneIn(cex, t + 1, u)
  {
    hide Matches;
  }

  lemma AllMatch(cex: CronExpr, t: int)
    ensures Matches(cex, t) ==> UpperMatches(cex, t)
  {
  }

  lemma HorizonLater(dot: int, later: int)
    requires dot <= later
    ensures Horizon(dot) <= Horizon(later)
  {
    hide YearStart;
    YearsReach(dot + 5, later + 5);
  }

  /** The search one second on, from a time that matches. */
  lemma SecondSearch(cex: CronExpr, t: int, fuel: nat)
    requires Parsed(cex) && SafeFrom(cex, t) && t >= 0 && Matches(cex, t) && FindNext(cex, t, Year(t), fuel) == Next(t)
    ensures Right(cex, t, CronNext(cex, t, fuel))
  {
    hide FindNext, MkTime, FromTime, Year, Matches, UpperMatches, HarmlessFrom, LosesMonth, FreshSecond, Sec, NoneIn, Horizon;
    PlusShift(t, Second, 1);
    SecondOn(cex, t);
    SafeLater(cex, t, t + 1);
    NextIsForward(cex, t + 1, Year(t + 1), fuel);
    NextMatches(cex, t + 1, Year(t + 1), fuel);
    SearchPasses(cex, t + 1, Year(t + 1), fuel);
    YearLater(t, t + 1);
    HorizonLater(Year(t), Year(t + 1));
    if FindNext(cex, t + 1, Year(t + 1), fuel).NoNext? { NoneBefore(cex, t + 1, Horizon(Year(t + 1)), Horizon(Year(t))); }
  }

  /* Expressions of which it is seen that no month is lost */

  predicate AllMonths(cex: CronExpr) {
    forall m :: 0 <= m < 12 ==> m in cex.months
  }

  /** Every day of the set is in every month of the set, in every year: days and months count from zero. */
  ghost predicate DaysFit(cex: CronExpr) {
    forall d, m, y {:trigger d in cex.daysOfMonth, DaysIn(y, m)} ::
      d in cex.daysOfMonth && m in cex.months ==> d < DaysIn(y, m)
  }

  lemma FitLosesNone(cex: CronExpr, from: int)
    requires Parsed(cex) && (AllMonths(cex) || (DayFull(cex) && DaysFit(cex)))
    ensures !LosesMonth(cex, from)
  {
    hide MdayOf, MonthOf, YearOf, WdayOf, DayFull, Landing, DayMatches, DaysIn;
    if LosesMonth(cex, from) {
      var day := Landing(cex, from);
      FullNeverSkipsFrom(cex, from);
      LandsOnMatch(cex, from);
      NextMonthIs(cex.months, day);
      FitsMonth(cex, day);
      assert false;
    }
  }

  lemma LandsOnMatch(cex: CronExpr, day: int)
    requires Parsed(cex) && DayMatches(cex, day)
    ensures Landing(cex, day) == day
  {
    hide DayMatches;
    AheadUnique(cex, day, Ahead(cex, day), 0);
  }

  lemma FitsMonth(cex: CronExpr, day: int)
    requires DaysFit(cex) && DayMatches(cex, day) && NextMonth(cex.months, day).1 in cex.months
    ensures !Overshoots(cex.months, day)
  {
    hide MonthOf, YearOf, WdayOf, MdayOf;
  }
}
