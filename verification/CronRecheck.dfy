/** Exactly for which expressions every time that `cron_next` gives is one that the expression describes. */
module CronRecheck {
  import opened Calendar
  import opened Cron
  import opened CronSteps
  import opened CronDays
  import opened CronTheorems
  import opened CronTermination

  /** Where the clock is right and the search lands on a day of the same number, it ends at midnight of that day. */
  lemma DirectSkip(cex: CronExpr, t: int)
    requires Parsed(cex) && t >= 0 && Skips(cex, DayOf(t))
    requires Sec(t) in cex.seconds && Min(t) in cex.minutes && Hour(t) in cex.hours
    ensures CronNext(cex, t, 1) == Next(Landing(cex, DayOf(t)) * DAY) && t < Landing(cex, DayOf(t)) * DAY
  {
    hide FindField, FindDay, Landing, DayMatches, Skips, Bits, DayOf, MdayOf, MonthOf, WdayOf, Sec, Min, Hour, Mon;
    FieldHit(cex.seconds, 60, t, Sec(t), Second, Minute, {});
    FieldHit(cex.minutes, 60, t, Min(t), Minute, HourOfDay, {Second});
    FieldHit(cex.hours, 24, t, Hour(t), HourOfDay, DayOfWeek, {Second} + {Minute});
    var marked := {Second} + {Minute} + {HourOfDay};
    DayLands(cex, t, marked);
    var s := FindDay(cex, t, Mday(t), Wday(t), marked, 0);
    SkipLands(cex, t, marked, s);
    FieldHit(cex.months, 12, s.t, Mon(s.t), Month, YearField, marked + {DayOfMonth});
    assert FromMonth(cex, s.t, Year(t), 1, marked + {DayOfMonth}) == Next(s.t);
    assert FromDay(cex, t, Year(t), 1, marked) == Next(s.t);
    assert FromHour(cex, t, Year(t), 1, {Second} + {Minute}) == Next(s.t);
    assert FromMinute(cex, t, Year(t), 1, {Second}) == Next(s.t);
    assert FindNext(cex, t, Year(t), 1) == Next(s.t);
  }

  lemma SkipLands(cex: CronExpr, t: int, marked: set<Field>, r: Search)
    requires Parsed(cex) && Skips(cex, DayOf(t)) && marked == {Second, Minute, HourOfDay}
    requires r.Search? && DayMoved(cex, t, marked, MAX_DAYS, r) && DayOf(r.t) == Landing(cex, DayOf(t))
    ensures r.value == Mday(t) && Mon(r.t) in cex.months && r.t == Landing(cex, DayOf(t)) * DAY && t < r.t
  {
    hide DayMatches, DayOf, MdayOf, MonthOf, WdayOf, Sec, Min, Hour, Ahead;
    ClockAddsUp(r.t);
    LandsLater(cex, DayOf(t));
    LaterDay(t, r.t);
  }

  lemma LandsLater(cex: CronExpr, day: int)
    requires Parsed(cex) && !DayMatches(cex, day)
    ensures day < Landing(cex, day)
  {
    hide DayMatches;
  }

  lemma Midnight(day: int)
    ensures DayOf(day * DAY) == day && Sec(day * DAY) == 0 && Min(day * DAY) == 0 && Hour(day * DAY) == 0
  {
    ClockOf(day, 0, 0, 0);
  }

  lemma MidnightMatches(cex: CronExpr, day: int)
    requires Parsed(cex) && Skips(cex, day)
    ensures Matches(cex, Landing(cex, day) * DAY) <==> Harmless(cex, day)
  {
    hide DayMatches, DayOf, Sec, Min, Hour, Landing, MonthOf, MdayOf;
    Midnight(Landing(cex, day));
  }

  lemma TimeOnDay(cex: CronExpr, day: int) returns (t: int)
    requires Parsed(cex) && day >= 0
    ensures t >= 0 && DayOf(t) == day && Sec(t) in cex.seconds && Min(t) in cex.minutes && Hour(t) in cex.hours
  {
    hide DayOf, Sec, Min, Hour;
    if forall i :: i !in cex.seconds { assert false; }
    var s :| s in cex.seconds;
    if forall i :: i !in cex.minutes { assert false; }
    var m :| m in cex.minutes;
    if forall i :: i !in cex.hours { assert false; }
    var h :| h in cex.hours;
    t := day * DAY + h * 3600 + m * 60 + s;
    ClockOf(day, h, m, s);
  }

  /** Whatever `cron_next` gives from the epoch on is described by the expression. */
  ghost predicate AlwaysMatches(cex: CronExpr) {
    forall t, fuel: nat :: t >= 0 && CronNext(cex, t, fuel).Next? ==> Matches(cex, CronNext(cex, t, fuel).t)
  }

  /** It is so if and only if there is no day from which a recheck that matters is skipped. */
  lemma MatchesUnlessSkipped(cex: CronExpr)
    requires Parsed(cex)
    ensures AlwaysMatches(cex) <==> forall day :: day >= 0 && Skips(cex, day) ==> Harmless(cex, day)
  {
    hide CronNext, Matches, Skips, Harmless, Landing, DayOf, Sec, Min, Hour, Bits;
    if AlwaysMatches(cex) {
      forall day | day >= 0 && Skips(cex, day) ensures Harmless(cex, day) {
        var t := TimeOnDay(cex, day);
        DirectSkip(cex, t);
        MidnightMatches(cex, day);
      }
    }
    if forall day :: day >= 0 && Skips(cex, day) ==> Harmless(cex, day) {
      forall t, fuel: nat | t >= 0 && CronNext(cex, t, fuel).Next? ensures Matches(cex, CronNext(cex, t, fuel).t) {
        DaySignOf(t);
        FoundMatches(cex, t, fuel);
      }
    }
  }

  lemma FoundMatches(cex: CronExpr, t: int, fuel: nat)
    requires Parsed(cex) && HarmlessFrom(cex, t) && CronNext(cex, t, fuel).Next?
    ensures Matches(cex, CronNext(cex, t, fuel).t)
  {
    hide FindNext, Matches, MkTime, FromTime, Bits, HarmlessFrom, Year;
    PlusShift(t, Second, 1);
    HarmlessLater(cex, t, t + 1);
    NextMatches(cex, t, Year(t), fuel);
    NextMatches(cex, t + 1, Year(t + 1), fuel);
  }

  /* An expression for which it is not so */

  /** The 30th second of midnight on a first of the month that is a Sunday. */
  function SundayFirst(): CronExpr {
    CronExpr({30}, {0}, {0}, {0}, {0}, {0, 1, 2, 3, 4, 5, 6, 7, 8, 9, 10, 11})
  }

  lemma January1970(day: int)
    requires 0 <= day <= 31
    ensures MonthOf(day) == (if day < 31 then 0 else 1) && MdayOf(day) == (if day < 31 then day + 1 else 1)
  {
    hide YearOf, MonthOf;
    assert FirstOf(1970, 0) == 0 && FirstOf(1970, 1) == 31;
    DateUnique(day, 1970, if day < 31 then 0 else 1);
  }

  lemma FebruaryFirst()
    ensures Parsed(SundayFirst()) && Ahead(SundayFirst(), 0) == 31 && Skips(SundayFirst(), 0)
  {
    hide MonthOf, MdayOf, YearOf;
    var cex := SundayFirst();
    January1970(0);
    January1970(31);
    forall day | 0 <= day < 31 ensures !DayMatches(cex, day) { January1970(day); }
    AheadUnique(cex, 0, Ahead(cex, 0), 31);
  }

  /** Asked at 00:00:30 on 1970-01-01, it gives 00:00:00 on 1970-02-01. */
  lemma SkippedRecheck()
    ensures CronNext(SundayFirst(), 30, 1) == Next(31 * DAY) && !Matches(SundayFirst(), 31 * DAY)
  {
    hide CronNext, Skips, Ahead;
    FebruaryFirst();
    ClockOf(0, 0, 0, 30);
    DirectSkip(SundayFirst(), 30);
    Midnight(31);
  }
}
