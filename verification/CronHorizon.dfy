/** How far ahead `cron_next` finds a time: up to the end of the fourth year after the one it is asked in, and no further. */
module CronHorizon {
  import opened Calendar
  import opened Cron
  import opened CronSteps
  import opened CronDays
  import opened CronTheorems
  import opened CronTermination
  import opened CronRecheck
  import opened CronMonths
  import opened CronEarliest
  import opened CronAlways

  /**
   * Of an expression that is always answered rightly, the next time is found exactly if there is one before the fifth year
   * after the one that is asked in; and it is then the first there is.
   */
  lemma FindsWithinFourYears(cex: CronExpr, t: int, fuel: nat)
    requires Parsed(cex) && SafeDays(cex) && (NoGap(cex) || Closed(cex)) && t >= 0 && fuel >= CronNeed(cex, t)
    ensures CronNext(cex, t, fuel) == NoNext ==> forall x :: t < x < YearStart(Year(t) + 5) * 86400 ==> !Matches(cex, x)
    ensures CronNext(cex, t, fuel) != NoNext ==>
      CronNext(cex, t, fuel).Next? && EarliestAfter(cex, t, CronNext(cex, t, fuel).t)
  {
    hide CronNext, Matches, SafeDays, NoGap, Closed, Bits, CronNeed, YearStart, YearOf, HarmlessFrom, Tidy, DayFound, DayFull;
    RightExactly(cex);
    CronNextEnds(cex, t, fuel);
    assert Right(cex, t, CronNext(cex, t, fuel));
  }

  /* New Year's Day on a weekday */

  /** Midnight of New Year's Day, if it is weekday `w`. */
  function NewYearOn(w: nat): CronExpr {
    CronExpr({0}, {0}, {0}, {w}, {0}, {0})
  }

  /** Some month of a year begins on any weekday. */
  lemma SomeMonth(y: int, r: int) returns (m: nat)
    requires 0 <= r < 7
    ensures m < 12 && MonthStart(y, m) % 7 == r
  {
    if r == Missed(y) {
      MonthStarts(y);
      MonthFollows(y, 4);
      m := 5;
      assert MonthStart(y, 5) == MonthStart(y, 4) + 31;
    } else {
      m := LongMonth(y, r);
    }
  }

  lemma FirstIsMatch(y: int, m: nat, w: nat)
    requires m < 12 && w < 7 && MonthStart(y, m) % 7 == Offset(y, 0, w)
    ensures DayMatches(NewYearOn(w), FirstOf(y, m))
  {
    hide YearOf, MonthOf, YearStart, MonthStart, DaysIn, Offset;
    OffsetMeans(y, 0, w, MonthStart(y, m));
    DateUnique(FirstOf(y, m), y, m);
  }

  /** From a New Year's Day that is another weekday, the day search comes to a first of a later month of that year. */
  lemma LandsInYear(y: int, w: nat) returns (day: int)
    requires w < 7 && WdayOf(FirstOf(y, 0)) != w
    ensures Parsed(NewYearOn(w)) && day == Landing(NewYearOn(w), FirstOf(y, 0))
    ensures YearOf(day) == y && MonthOf(day) != 0 && MdayOf(day) == 1
  {
    hide YearOf, MonthOf, MdayOf, WdayOf, FirstOf, Ahead, DayMatches;
    var cex := NewYearOn(w);
    var first := FirstOf(y, 0);
    var m := SomeMonth(y, Offset(y, 0, w));
    FirstIsMatch(y, m, w);
    FirstInYear(y, m);
    AheadAtMost(cex, first, FirstOf(y, m) - first);
    day := Landing(cex, first);
    IsFirstOn(w, day);
    InYearUpTo(y, m, day);
    if MonthOf(day) == 0 { FirstOfMonth(day); }
  }

  lemma IsFirstOn(w: nat, day: int)
    requires DayMatches(NewYearOn(w), day)
    ensures MdayOf(day) == 1 && WdayOf(day) == w
  {
    hide MdayOf, WdayOf;
  }

  lemma FirstInYear(y: int, m: nat)
    requires m < 12
    ensures FirstOf(y, 0) == YearStart(y) && YearStart(y) <= FirstOf(y, m) < YearStart(y + 1) && FirstOf(y, m) - FirstOf(y, 0) < 366
  {
    hide YearStart, DaysIn;
    YearStep(y);
    YearIsItsMonths(y);
    MonthsAscend(y, m, 12);
  }

  lemma InYearUpTo(y: int, m: nat, day: int)
    requires m < 12 && FirstOf(y, 0) <= day <= FirstOf(y, m)
    ensures YearOf(day) == y
  {
    hide FirstOf, YearOf, YearStart;
    FirstInYear(y, m);
    YearUnique(day, y);
  }

  lemma FirstOfMonth(day: int)
    requires MdayOf(day) == 1
    ensures day == FirstOf(YearOf(day), MonthOf(day))
  {
    hide FirstOf;
  }

  /** One year of the search: on to the next New Year's Day, unless the budget is used up. */
  lemma YearPasses(y: int, w: nat, dot: int, fuel: nat)
    requires w < 7 && WdayOf(FirstOf(y, 0)) != w && y >= 1970 && fuel > 0 && dot <= y
    ensures FindNext(NewYearOn(w), FirstOf(y, 0) * 86400, dot, fuel) ==
      if y + 1 > dot + 4 then NoNext else FindNext(NewYearOn(w), FirstOf(y + 1, 0) * 86400, dot, fuel - 1)
  {
    hide FindNext, FindField, FromMonth, FirstOf, YearOf, MonthOf, MdayOf, WdayOf, DayOf, Sec, Min, Hour,
         Landing, ReachedDay, NextMonth;
    var cex, t := NewYearOn(w), FirstOf(y, 0) * 86400;
    var day := LandsInYear(y, w);
    EpochOrLater(y);
    Midnight(FirstOf(y, 0));
    FirstHasDate(y);
    var s := ComesToMonth(cex, t, dot, fuel);
    var marked := {Second, Minute, HourOfDay, DayOfMonth};
    MonthSearch(cex.months, s, marked);
    MonthLands(cex.months, s, marked);
    var r := FindField(cex.months, 12, s, Mon(s), Month, YearField, marked);
    NextIsNewYear(day);
    ClockAddsUp(r.t);
    FirstHasDate(y + 1);
    MonthUnfold(cex, s, dot, fuel, marked);
  }

  lemma MonthUnfold(cex: CronExpr, t: int, dot: int, fuel: nat, marked: set<Field>)
    requires fuel > 0
    ensures var r := FindField(cex.months, 12, t, Mon(t), Month, YearField, marked);
      r.Search? && r.value != Mon(t) ==>
      FromMonth(cex, t, dot, fuel, marked) ==
        if Year(r.t) < dot || Year(r.t) > dot + 4 then NoNext else FindNext(cex, r.t, dot, fuel - 1)
  {
    hide FindField, FindNext, Year, Mon;
  }

  lemma EpochOrLater(y: int)
    requires y >= 1970
    ensures FirstOf(y, 0) >= 0
  {
    hide YearStart;
    YearsReach(1970, y);
    EpochYear();
    FirstInYear(y, 0);
  }

  lemma FirstHasDate(y: int)
    ensures YearOf(FirstOf(y, 0)) == y && MdayOf(FirstOf(y, 0)) == 1
  {
    hide YearOf, MonthOf, YearStart, MonthStart;
    DateUnique(FirstOf(y, 0), y, 0);
  }

  lemma NextIsNewYear(day: int)
    requires MonthOf(day) != 0 && MdayOf(day) == 1
    ensures NextMonth({0}, day) == (YearOf(day) + 1, 0) && ReachedDay({0}, day) == FirstOf(YearOf(day) + 1, 0)
  {
    hide FirstOf, YearOf, MonthOf, MdayOf;
    assert NextSetBit({0}, 12, 0) == 0;
  }

  lemma MatchesOnNewYear(y: int, w: nat, dot: int, fuel: nat)
    requires w < 7 && WdayOf(FirstOf(y, 0)) == w && fuel > 0
    ensures FindNext(NewYearOn(w), FirstOf(y, 0) * 86400, dot, fuel) == Next(FirstOf(y, 0) * 86400)
  {
    hide FindNext, YearOf, MonthOf, YearStart, MonthStart, DayOf, Sec, Min, Hour, WdayOf;
    Midnight(FirstOf(y, 0));
    DateUnique(FirstOf(y, 0), y, 0);
    MatchStays(NewYearOn(w), FirstOf(y, 0) * 86400, dot, fuel);
  }

  /** Where the search that begins with year `y` ends. */
  function NewYearFrom(y: int, last: int, w: nat): Outcome
    decreases last - y
  {
    if y > last then NoNext
    else if WdayOf(YearStart(y)) == w then Next(YearStart(y) * 86400)
    else NewYearFrom(y + 1, last, w)
  }

  lemma NewYearUnfold(y: int, last: int, w: nat)
    ensures NewYearFrom(y, last, w) ==
      if y > last then NoNext else if WdayOf(YearStart(y)) == w then Next(YearStart(y) * 86400) else NewYearFrom(y + 1, last, w)
  {
    hide YearStart, WdayOf;
  }

  lemma {:induction false} NewYearSearch(y: int, w: nat, dot: int, fuel: nat)
    requires w < 7 && y >= 1970 && dot <= y <= dot + 4 && fuel > dot + 4 - y
    ensures FindNext(NewYearOn(w), YearStart(y) * 86400, dot, fuel) == NewYearFrom(y, dot + 4, w)
    decreases dot + 4 - y
  {
    hide FindNext, YearStart, WdayOf, MonthStart;
    FirstInYear(y, 0);
    FirstInYear(y + 1, 0);
    if WdayOf(YearStart(y)) == w {
      MatchesOnNewYear(y, w, dot, fuel);
    } else {
      YearPasses(y, w, dot, fuel);
      if y < dot + 4 { NewYearSearch(y + 1, w, dot, fuel - 1); }
    }
  }

  /**
   * Asked at midnight of a New Year's Day on another weekday, `cron_next` gives the first of the next four that is on weekday
   * `w`; if none of them is, it gives none, though there is always one later on.
   */
  lemma NewYears(y: int, w: nat, fuel: nat)
    requires y >= 1970 && w < 7 && WdayOf(YearStart(y)) != w && fuel >= 5
    ensures CronNext(NewYearOn(w), YearStart(y) * 86400, fuel) ==
      if WdayOf(YearStart(y + 1)) == w then Next(YearStart(y + 1) * 86400)
      else if WdayOf(YearStart(y + 2)) == w then Next(YearStart(y + 2) * 86400)
      else if WdayOf(YearStart(y + 3)) == w then Next(YearStart(y + 3) * 86400)
      else if WdayOf(YearStart(y + 4)) == w then Next(YearStart(y + 4) * 86400)
      else NoNext
  {
    hide FindNext, YearStart, WdayOf, YearOf, DayOf, NewYearFrom, MonthStart;
    FirstInYear(y, 0);
    FirstHasDate(y);
    EpochOrLater(y);
    Midnight(YearStart(y));
    NewYearSearch(y, w, y, fuel);
    NewYearsAscend(y);
    NewYearUnfold(y, y + 4, w);
    NewYearUnfold(y + 1, y + 4, w);
    NewYearUnfold(y + 2, y + 4, w);
    NewYearUnfold(y + 3, y + 4, w);
    NewYearUnfold(y + 4, y + 4, w);
    NewYearUnfold(y + 5, y + 4, w);
  }

  lemma NewYearsAscend(y: int)
    ensures YearStart(y) < YearStart(y + 1) < YearStart(y + 2) < YearStart(y + 3) < YearStart(y + 4)
  {
    hide YearStart;
    YearStep(y);
    YearStep(y + 1);
    YearStep(y + 2);
    YearStep(y + 3);
  }

  /* The leap day */

  /** Midnight of every 29th of February. */
  function LeapDays(): CronExpr {
    CronExpr({0}, {0}, {0}, Upto(7), {28}, {1})
  }

  function LeapDayOf(y: int): int {
    YearStart(y) + 59
  }

  lemma LeapDayIsSafe()
    ensures Parsed(LeapDays()) && SafeDays(LeapDays()) && NoGap(LeapDays())
  {
    hide Skips, Harmless, LosesMonth, Upto;
    var cex := LeapDays();
    assert 0 in Upto(7);
    FullNeverSkips(cex, 0);
    forall day | day >= 0 ensures (Skips(cex, day) ==> Harmless(cex, day)) && !LosesMonth(cex, day) {
      DaySignOf(day * DAY);
      LeapDayLosesNone(day);
    }
    assert DayOf(0) == 0;
  }

  lemma LeapDayLosesNone(from: int)
    ensures Parsed(LeapDays()) && !LosesMonth(LeapDays(), from)
  {
    hide Landing, MdayOf, MonthOf, YearOf, WdayOf, DaysIn, NextMonth, Upto;
    var cex := LeapDays();
    assert 0 in Upto(7);
    FullNeverSkipsFrom(cex, from);
    if DayMatches(cex, from) {
      LandsOnMatch(cex, from);
      if LosesMonth(cex, from) {
        NextMonthIs(cex.months, from);
        var x :| InMonth(x, NextMonth(cex.months, from).0, 1) && DayMatches(cex, x);
        DateUnique(x, NextMonth(cex.months, from).0, 1);
      }
    }
  }

  lemma LeapDayDate(y: int)
    requires Leap(y)
    ensures InMonth(LeapDayOf(y), y, 1) && YearOf(LeapDayOf(y)) == y && MonthOf(LeapDayOf(y)) == 1 && MdayOf(LeapDayOf(y)) == 29
  {
    hide YearOf, MonthOf, YearStart;
    assert MonthStart(y, 1) == 31;
    DateUnique(LeapDayOf(y), y, 1);
  }

  /** What is described is midnight of the leap days. */
  lemma LeapDayMatches(t: int)
    ensures Matches(LeapDays(), t) <==> Leap(Year(t)) && t == LeapDayOf(Year(t)) * 86400
  {
    hide YearOf, MonthOf, YearStart, DayOf, Sec, Min, Hour, DaysIn, WdayOf, Upto;
    var y := Year(t);
    ClockAddsUp(t);
    if Leap(y) && t == LeapDayOf(y) * 86400 {
      LeapDayDate(y);
      Midnight(LeapDayOf(y));
    }
    if Matches(LeapDays(), t) {
      FebruaryLength(y);
      assert FirstOf(y, 1) == YearStart(y) + 31;
    }
  }

  lemma FebruaryLength(y: int)
    ensures DaysIn(y, 1) == (if Leap(y) then 29 else 28) && MonthStart(y, 1) == 31
  {
  }

  /** Asked at any time, `cron_next` gives the next leap day if it is in the year of the question or one of the four after it. */
  lemma NextLeapDay(t: int, y: int, fuel: nat)
    requires t >= 0 && y % 4 == 0 && (y % 100 != 0 || y % 400 == 0)
    requires Year(t) <= y <= Year(t) + 4 && t < LeapDayOf(y) * 86400
    requires forall z :: z < y && z % 4 == 0 && (z % 100 != 0 || z % 400 == 0) ==> LeapDayOf(z) * 86400 <= t
    requires Parsed(LeapDays()) && fuel >= CronNeed(LeapDays(), t)
    ensures CronNext(LeapDays(), t, fuel) == Next(LeapDayOf(y) * 86400)
  {
    hide CronNext, SafeDays, NoGap, Closed, Matches, CronNeed, YearStart, YearOf, DayOf, Upto;
    var x := LeapDayOf(y) * 86400;
    LeapDayIsSafe();
    FindsWithinFourYears(LeapDays(), t, fuel);
    LeapDayDate(y);
    Midnight(LeapDayOf(y));
    LeapDayMatches(x);
    LeapDayInYear(y, Year(t) + 4);
    var r := CronNext(LeapDays(), t, fuel);
    assert r != NoNext;
    LeapDayMatches(r.t);
    YearLater(r.t, x);
  }

  lemma LeapDayInYear(y: int, last: int)
    requires y <= last && Leap(y)
    ensures LeapDayOf(y) * 86400 < YearStart(last + 1) * 86400
  {
    hide YearStart;
    YearsAscend(y, last + 1);
    YearStep(y);
  }
}
