/** The search goes forward, ends, and finds a time that the expression describes. */
module CronTheorems {
  import opened Calendar
  import opened Cron
  import opened CronSteps
  import opened CronDays

  /** The time is one that the expression describes. */
  predicate Matches(cex: CronExpr, t: int) {
    && Sec(t) in cex.seconds && Min(t) in cex.minutes && Hour(t) in cex.hours
    && DayMatches(cex, DayOf(t)) && Mon(t) in cex.months
  }

  /** One of the two day fields does not restrict. */
  predicate DayFull(cex: CronExpr) {
    AllWdays(cex) || AllMdays(cex)
  }

  /* Going forward */

  lemma LaterDay(t: int, u: int)
    ensures DayOf(t) < DayOf(u) ==> t < u
  {
  }

  /** No search, of any expression, goes back; and none from the epoch on throws. */
  lemma {:induction false} NextIsForward(cex: CronExpr, t: int, dot: int, fuel: nat)
    requires Parsed(cex)
    ensures var r := FindNext(cex, t, dot, fuel); (r.Next? ==> t <= r.t) && (r.Thrown? ==> t < 0)
    decreases fuel, 5
  {
    hide FromMinute, FindField, Sec;
    if fuel > 0 {
      ClockSearch(cex.seconds, t, Second, {});
      var s := FindField(cex.seconds, 60, t, Sec(t), Second, Minute, {});
      if s.Search? { MinuteIsForward(cex, s.t, dot, fuel, if s.value == Sec(t) then {Second} else {}); }
    }
  }

  lemma {:induction false} MinuteIsForward(cex: CronExpr, t: int, dot: int, fuel: nat, marked: set<Field>)
    requires Parsed(cex) && fuel > 0 && marked <= {Second}
    ensures var r := FromMinute(cex, t, dot, fuel, marked); (r.Next? ==> t <= r.t) && (r.Thrown? ==> t < 0)
    decreases fuel, 4
  {
    hide FromHour, FindNext, FindField, Min;
    ClockSearch(cex.minutes, t, Minute, marked);
    var s := FindField(cex.minutes, 60, t, Min(t), Minute, HourOfDay, marked);
    if s.Search? {
      if s.value == Min(t) {
        HourIsForward(cex, s.t, dot, fuel, marked + {Minute});
      } else {
        NextIsForward(cex, s.t, dot, fuel - 1);
        var r := FindNext(cex, s.t, dot, fuel - 1);
        if r.Next? { HourIsForward(cex, r.t, dot, fuel, marked); }
      }
    }
  }

  lemma {:induction false} HourIsForward(cex: CronExpr, t: int, dot: int, fuel: nat, marked: set<Field>)
    requires Parsed(cex) && fuel > 0 && marked <= {Second, Minute}
    ensures var r := FromHour(cex, t, dot, fuel, marked); (r.Next? ==> t <= r.t) && (r.Thrown? ==> t < 0)
    decreases fuel, 3
  {
    hide FromDay, FindNext, FindField, Hour;
    ClockSearch(cex.hours, t, HourOfDay, marked);
    var s := FindField(cex.hours, 24, t, Hour(t), HourOfDay, DayOfWeek, marked);
    if s.Search? {
      if s.value == Hour(t) {
        DayIsForward(cex, s.t, dot, fuel, marked + {HourOfDay});
      } else {
        NextIsForward(cex, s.t, dot, fuel - 1);
        var r := FindNext(cex, s.t, dot, fuel - 1);
        if r.Next? { DayIsForward(cex, r.t, dot, fuel, marked); }
      }
    }
  }

  lemma {:induction false} DayIsForward(cex: CronExpr, t: int, dot: int, fuel: nat, marked: set<Field>)
    requires Parsed(cex) && fuel > 0 && marked <= {Second, Minute, HourOfDay}
    ensures var r := FromDay(cex, t, dot, fuel, marked); (r.Next? ==> t <= r.t) && (r.Thrown? ==> t < 0)
    decreases fuel, 2
  {
    hide FromMonth, FindNext, FindDay, DayOf, MdayOf, WdayOf;
    DaySearch(cex, t, marked, 0);
    var s := FindDay(cex, t, Mday(t), Wday(t), marked, 0);
    if s.Search? {
      LaterDay(t, s.t);
      if s.value == Mday(t) {
        MonthIsForward(cex, s.t, dot, fuel, marked + {DayOfMonth});
      } else {
        NextIsForward(cex, s.t, dot, fuel - 1);
        var r := FindNext(cex, s.t, dot, fuel - 1);
        if r.Next? { MonthIsForward(cex, r.t, dot, fuel, marked); }
      }
    }
  }

  lemma {:induction false} MonthIsForward(cex: CronExpr, t: int, dot: int, fuel: nat, marked: set<Field>)
    requires Parsed(cex) && fuel > 0 && marked <= {Second, Minute, HourOfDay, DayOfMonth}
    ensures var r := FromMonth(cex, t, dot, fuel, marked); (r.Next? ==> t <= r.t) && (r.Thrown? ==> t < 0)
    decreases fuel, 1
  {
    hide FindNext, FindField, DayOf, Mon;
    MonthSearch(cex.months, t, marked);
    var s := FindField(cex.months, 12, t, Mon(t), Month, YearField, marked);
    if s.Search? {
      LaterDay(t, s.t);
      if s.value != Mon(t) { NextIsForward(cex, s.t, dot, fuel - 1); }
    }
  }

  /** Every time that is returned, for any expression, is later than the time that was asked about. */
  lemma CronNextIsLater(cex: CronExpr, t: int, fuel: nat)
    requires Parsed(cex)
    ensures var r := CronNext(cex, t, fuel); (r.Next? ==> t < r.t) && (r.Thrown? ==> t < 0)
  {
    hide FindNext, MkTime, FromTime;
    NextIsForward(cex, t, Year(t), fuel);
    PlusShift(t, Second, 1);
    NextIsForward(cex, t + 1, Year(t + 1), fuel);
  }

  /* Days that match */

  /** Every day of the month but the rarest comes within a year: December and January have them all. */
  lemma MdayAhead(day: int, d: nat) returns (k: nat)
    requires d < 31
    ensures k <= 366 && MdayOf(day + k) == d + 1
  {
    hide YearOf, MonthOf, YearStart, MonthStart;
    var y := YearOf(day);
    YearStep(y);
    YearIsItsMonths(y);
    MonthStarts(y + 1);
    var december := FirstOf(y, 11) + d;
    var january := FirstOf(y + 1, 0) + d;
    if day <= december {
      k := december - day;
      DateUnique(december, y, 11);
    } else {
      k := january - day;
      DateUnique(january, y + 1, 0);
    }
  }

  lemma WdayAhead(day: int, w: nat) returns (k: nat)
    requires w < 7
    ensures k < 7 && WdayOf(day + k) == w
  {
    k := (w - WdayOf(day)) % 7;
  }

  /** Less than four weeks on, the day of the month is another. */
  lemma OtherMday(day: int, k: nat)
    requires 1 <= k < 28
    ensures MdayOf(day + k) != MdayOf(day)
  {
    hide YearOf, MonthOf, FirstOf;
    var (y, m) := (YearOf(day), MonthOf(day));
    if MdayOf(day + k) == MdayOf(day) {
      var first := FirstOf(YearOf(day + k), MonthOf(day + k));
      assert first == FirstOf(y, m) + k;
      DateUnique(first, y, m);
      DateUnique(first, YearOf(day + k), MonthOf(day + k));
    }
  }

  predicate AllMdays(cex: CronExpr) {
    forall i :: 0 <= i < 31 ==> i in cex.daysOfMonth
  }

  predicate AllWdays(cex: CronExpr) {
    forall i :: 0 <= i < 7 ==> i in cex.daysOfWeek
  }

  lemma DayFieldsFull(cex: CronExpr, day: int)
    ensures AllMdays(cex) ==> (DayMatches(cex, day) <==> WdayOf(day) in cex.daysOfWeek)
    ensures AllWdays(cex) ==> (DayMatches(cex, day) <==> MdayOf(day) - 1 in cex.daysOfMonth)
  {
    hide YearOf, MonthOf, FirstOf;
  }

  lemma MatchAhead(cex: CronExpr, day: int) returns (k: nat)
    requires Parsed(cex) && DayFull(cex) && !DayMatches(cex, day)
    ensures 1 <= k <= 366 && DayMatches(cex, day + k)
    ensures AllMdays(cex) ==> k < 7
  {
    hide MdayOf, WdayOf, DayMatches, AllMdays, AllWdays;
    if AllMdays(cex) {
      if forall w :: w !in cex.daysOfWeek { assert false; }
      var w :| w in cex.daysOfWeek;
      k := WdayAhead(day, w);
    } else {
      if forall d :: d !in cex.daysOfMonth { assert false; }
      var d :| d in cex.daysOfMonth;
      k := MdayAhead(day, d);
    }
    DayFieldsFull(cex, day);
    DayFieldsFull(cex, day + k);
  }

  /** Where the day search ends: on the next day that matches, or 366 days on. */
  ghost function Landing(cex: CronExpr, day: int): (r: int)
    requires Parsed(cex)
    ensures day <= r
  {
    day + if Ahead(cex, day) < 366 then Ahead(cex, day) else 366
  }

  lemma DayLands(cex: CronExpr, t: int, marked: set<Field>)
    requires Parsed(cex) && marked <= {Second, Minute, HourOfDay}
    ensures var r := FindDay(cex, t, Mday(t), Wday(t), marked, 0);
      && (t >= 0 ==> r.Search?)
      && (r.Search? ==> DayMoved(cex, t, marked, MAX_DAYS, r) && DayOf(r.t) == Landing(cex, DayOf(t)))
  {
    hide FindDay, DayOf, MdayOf, WdayOf, Parsed, DayMatches, Ahead, Sec, Min, Hour;
    DaySearch(cex, t, marked, 0);
    var r := FindDay(cex, t, Mday(t), Wday(t), marked, 0);
    if r.Search? {
      AheadShrinks(cex, DayOf(t), DayOf(r.t) - DayOf(t));
      if DayMatches(cex, DayOf(r.t)) { AheadUnique(cex, DayOf(r.t), Ahead(cex, DayOf(r.t)), 0); }
    }
  }

  /**
   * The search takes a day of the same number for the day it came from: it goes on with the month, and if that is in its set
   * it does not look at the clock again, whose marked fields were reset.
   */
  ghost predicate Skips(cex: CronExpr, day: int)
    requires Parsed(cex)
  {
    !DayMatches(cex, day) && MdayOf(Landing(cex, day)) == MdayOf(day) && MonthOf(Landing(cex, day)) in cex.months
  }

  /** Nothing needs to be looked at again: the day that was reached matches, and zero is in the sets of the clock. */
  ghost predicate Harmless(cex: CronExpr, day: int)
    requires Parsed(cex)
  {
    DayMatches(cex, Landing(cex, day)) && 0 in cex.seconds && 0 in cex.minutes && 0 in cex.hours
  }

  ghost predicate HarmlessFrom(cex: CronExpr, t: int)
    requires Parsed(cex)
  {
    forall day :: DayOf(t) <= day && Skips(cex, day) ==> Harmless(cex, day)
  }

  lemma HarmlessLater(cex: CronExpr, t: int, u: int)
    requires Parsed(cex) && HarmlessFrom(cex, t) && t <= u
    ensures HarmlessFrom(cex, u)
  {
    hide Skips, Harmless;
    if DayOf(u) < DayOf(t) { LaterDay(u, t); }
  }

  /** With a day field that does not restrict, the day search ends on a matching day, with another number. */
  lemma FullNeverSkips(cex: CronExpr, t: int)
    requires Parsed(cex) && DayFull(cex)
    ensures HarmlessFrom(cex, t)
  {
    hide Harmless, DayFull, Landing, DayMatches, MdayOf, MonthOf;
    forall day ensures !Skips(cex, day) { FullNeverSkipsFrom(cex, day); }
  }

  lemma FullNeverSkipsFrom(cex: CronExpr, day: int)
    requires Parsed(cex) && DayFull(cex)
    ensures !DayMatches(cex, day) ==> DayMatches(cex, Landing(cex, day)) && MdayOf(Landing(cex, day)) != MdayOf(day)
  {
    hide MdayOf, WdayOf, MonthOf, DayFull, AllMdays, DayMatches, Ahead, Parsed;
    if !DayMatches(cex, day) {
      var k := MatchAhead(cex, day);
      AheadAtMost(cex, day, k);
      NumberDiffers(cex, day, k, Ahead(cex, day));
    }
  }

  lemma AheadAtMost(cex: CronExpr, day: int, k: nat)
    requires Parsed(cex) && DayMatches(cex, day + k)
    ensures Ahead(cex, day) <= k && DayMatches(cex, day + Ahead(cex, day))
  {
    hide DayMatches;
  }

  lemma NumberDiffers(cex: CronExpr, day: int, k: nat, n: int)
    requires DayFull(cex) && !DayMatches(cex, day) && 0 <= n <= k && DayMatches(cex, day + n)
    requires AllMdays(cex) ==> k < 7
    ensures n > 0 && MdayOf(day + n) != MdayOf(day)
  {
    hide MdayOf, WdayOf, DayMatches, AllMdays, AllWdays;
    DayFieldsFull(cex, day);
    DayFieldsFull(cex, day + n);
    if AllMdays(cex) && n > 0 { OtherMday(day, n); }
  }

  /* Soundness */

  /* Where everything matches, nothing moves. */

  lemma SettledMonth(cex: CronExpr, t: int, dot: int, fuel: nat, marked: set<Field>)
    requires Matches(cex, t) && fuel > 0
    ensures FromMonth(cex, t, dot, fuel, marked) == Next(t)
  {
    hide FindField, Mon;
    FieldHit(cex.months, 12, t, Mon(t), Month, YearField, marked);
  }

  lemma SettledDay(cex: CronExpr, t: int, dot: int, fuel: nat, marked: set<Field>)
    requires Matches(cex, t) && fuel > 0
    ensures FromDay(cex, t, dot, fuel, marked) == Next(t)
  {
    hide FindDay, FromMonth, Hour, Mon, MdayOf, WdayOf, DayOf, DayMoved;
    DayStays(cex, t, marked, 0);
    SettledMonth(cex, t, dot, fuel, marked + {DayOfMonth});
  }

  lemma SettledHour(cex: CronExpr, t: int, dot: int, fuel: nat, marked: set<Field>)
    requires Matches(cex, t) && fuel > 0
    ensures FromHour(cex, t, dot, fuel, marked) == Next(t)
  {
    hide FindField, FromDay, Hour, Mon;
    FieldHit(cex.hours, 24, t, Hour(t), HourOfDay, DayOfWeek, marked);
    SettledDay(cex, t, dot, fuel, marked + {HourOfDay});
  }

  /** Where no recheck that matters is skipped, every time that is found is described by the expression. */
  lemma {:induction false} NextMatches(cex: CronExpr, t: int, dot: int, fuel: nat)
    requires Parsed(cex) && HarmlessFrom(cex, t)
    ensures var r := FindNext(cex, t, dot, fuel); r.Next? ==> Matches(cex, r.t)
    decreases fuel, 5
  {
    hide FromMinute, FindField, Sec, Matches, HarmlessFrom;
    if fuel > 0 {
      ClockSearch(cex.seconds, t, Second, {});
      var s := FindField(cex.seconds, 60, t, Sec(t), Second, Minute, {});
      if s.Search? {
        HarmlessLater(cex, t, s.t);
        MinuteMatches(cex, s.t, dot, fuel, if s.value == Sec(t) then {Second} else {});
      }
    }
  }

  lemma {:induction false} MinuteMatches(cex: CronExpr, t: int, dot: int, fuel: nat, marked: set<Field>)
    requires Parsed(cex) && HarmlessFrom(cex, t) && fuel > 0 && marked <= {Second} && Sec(t) in cex.seconds
    ensures var r := FromMinute(cex, t, dot, fuel, marked); r.Next? ==> Matches(cex, r.t)
    decreases fuel, 4
  {
    hide FromHour, FindNext, FindField, Min, Sec, Matches, HarmlessFrom;
    ClockSearch(cex.minutes, t, Minute, marked);
    var s := FindField(cex.minutes, 60, t, Min(t), Minute, HourOfDay, marked);
    if s.Search? {
      HarmlessLater(cex, t, s.t);
      if s.value == Min(t) {
        HourMatches(cex, s.t, dot, fuel, marked + {Minute});
      } else {
        NextMatches(cex, s.t, dot, fuel - 1);
        var r := FindNext(cex, s.t, dot, fuel - 1);
        if r.Next? { SettledHour(cex, r.t, dot, fuel, marked); }
      }
    }
  }

  lemma {:induction false} HourMatches(cex: CronExpr, t: int, dot: int, fuel: nat, marked: set<Field>)
    requires Parsed(cex) && HarmlessFrom(cex, t) && fuel > 0 && marked <= {Second, Minute}
    requires Sec(t) in cex.seconds && Min(t) in cex.minutes
    ensures var r := FromHour(cex, t, dot, fuel, marked); r.Next? ==> Matches(cex, r.t)
    decreases fuel, 3
  {
    hide FromDay, FindNext, FindField, Hour, Min, Sec, Matches, HarmlessFrom;
    ClockSearch(cex.hours, t, HourOfDay, marked);
    var s := FindField(cex.hours, 24, t, Hour(t), HourOfDay, DayOfWeek, marked);
    if s.Search? {
      HarmlessLater(cex, t, s.t);
      if s.value == Hour(t) {
        DayIsMatched(cex, s.t, dot, fuel, marked + {HourOfDay});
      } else {
        NextMatches(cex, s.t, dot, fuel - 1);
        var r := FindNext(cex, s.t, dot, fuel - 1);
        if r.Next? { SettledDay(cex, r.t, dot, fuel, marked); }
      }
    }
  }

  lemma {:induction false} DayIsMatched(cex: CronExpr, t: int, dot: int, fuel: nat, marked: set<Field>)
    requires Parsed(cex) && HarmlessFrom(cex, t) && fuel > 0 && marked <= {Second, Minute, HourOfDay}
    requires Sec(t) in cex.seconds && Min(t) in cex.minutes && Hour(t) in cex.hours
    ensures var r := FromDay(cex, t, dot, fuel, marked); r.Next? ==> Matches(cex, r.t)
    decreases fuel, 2
  {
    hide FromMonth, FindNext, FindDay, DayOf, MdayOf, MonthOf, WdayOf, Hour, Min, Sec, Matches, DayMatches, DayMoved, HarmlessFrom,
         Landing;
    DayLands(cex, t, marked);
    var s := FindDay(cex, t, Mday(t), Wday(t), marked, 0);
    if s.Search? {
      LaterOrSame(cex, t, marked, s);
      HarmlessLater(cex, t, s.t);
      if s.value == Mday(t) {
        SkippedMatches(cex, t, marked, s);
        MonthMatches(cex, s.t, dot, fuel, marked + {DayOfMonth});
      } else {
        NextMatches(cex, s.t, dot, fuel - 1);
        var r := FindNext(cex, s.t, dot, fuel - 1);
        if r.Next? { SettledMonth(cex, r.t, dot, fuel, marked); }
      }
    }
  }

  lemma LaterOrSame(cex: CronExpr, t: int, marked: set<Field>, r: Search)
    requires r.Search? && DayMoved(cex, t, marked, MAX_DAYS, r)
    ensures t <= r.t
  {
    hide DayMatches, DayOf, MdayOf, Sec, Min, Hour;
    LaterDay(t, r.t);
  }

  lemma SkippedMatches(cex: CronExpr, t: int, marked: set<Field>, r: Search)
    requires Parsed(cex) && HarmlessFrom(cex, t)
    requires Sec(t) in cex.seconds && Min(t) in cex.minutes && Hour(t) in cex.hours
    requires r.Search? && DayMoved(cex, t, marked, MAX_DAYS, r) && DayOf(r.t) == Landing(cex, DayOf(t)) && r.value == Mday(t)
    ensures Mon(r.t) in cex.months ==> Matches(cex, r.t)
  {
    hide DayMatches, DayOf, MdayOf, MonthOf, WdayOf, Sec, Min, Hour, Landing;
    if Mon(r.t) in cex.months && !DayMatches(cex, DayOf(t)) {
      assert Skips(cex, DayOf(t));
      assert Harmless(cex, DayOf(t));
    }
  }

  lemma {:induction false} MonthMatches(cex: CronExpr, t: int, dot: int, fuel: nat, marked: set<Field>)
    requires Parsed(cex) && HarmlessFrom(cex, t) && fuel > 0 && marked <= {Second, Minute, HourOfDay, DayOfMonth}
    requires Mon(t) in cex.months ==> Matches(cex, t)
    ensures var r := FromMonth(cex, t, dot, fuel, marked); r.Next? ==> Matches(cex, r.t)
    decreases fuel, 1
  {
    hide FindNext, FindField, DayOf, Mon, DayMatches, Hour, Min, Sec, HarmlessFrom, Matches;
    MonthSearch(cex.months, t, marked);
    var s := FindField(cex.months, 12, t, Mon(t), Month, YearField, marked);
    if s.Search? && s.value != Mon(t) {
      LaterDay(t, s.t);
      HarmlessLater(cex, t, s.t);
      NextMatches(cex, s.t, dot, fuel - 1);
    }
  }
}
