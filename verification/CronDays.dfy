/** A day that a cron expression allows is never more than three years away, whatever its two day fields ask for. */
module CronDays {
  import opened Calendar
  import opened Cron
  import opened CronSteps

  const MAX_AHEAD := 1098

  lemma MonthStarts(y: int)
    ensures var d := if Leap(y) then 1 else 0;
      && MonthStart(y, 0) == 0 && MonthStart(y, 2) == 59 + d && MonthStart(y, 4) == 120 + d && MonthStart(y, 6) == 181 + d
      && MonthStart(y, 7) == 212 + d && MonthStart(y, 9) == 273 + d && MonthStart(y, 11) == 334 + d
  {
    assert MonthStart(y, 2) == 31 + DaysIn(y, 1);
    assert MonthStart(y, 4) == MonthStart(y, 2) + 61;
    assert MonthStart(y, 6) == MonthStart(y, 4) + 61;
    assert MonthStart(y, 7) == MonthStart(y, 6) + 31;
    assert MonthStart(y, 9) == MonthStart(y, 7) + 61;
    assert MonthStart(y, 11) == MonthStart(y, 9) + 61;
  }

  /** The weekday, counted from that of New Year's Day, on which no month of 31 days begins. */
  function Missed(y: int): int {
    if Leap(y) then 5 else 4
  }

  /** On every other weekday one does. */
  lemma LongMonth(y: int, r: int) returns (m: nat)
    requires 0 <= r < 7 && r != Missed(y)
    ensures m < 12 && DaysIn(y, m) == 31 && MonthStart(y, m) % 7 == r
  {
    MonthStarts(y);
    if Leap(y) {
      m := if r == 0 then 0 else if r == 1 then 9 else if r == 2 then 4 else if r == 3 then 7 else if r == 4 then 2 else 11;
    } else {
      m := if r == 0 then 0 else if r == 1 then 4 else if r == 2 then 7 else if r == 3 then 2 else if r == 5 then 11 else 6;
    }
  }

  /** How many weekdays after New Year's Day a month has to begin for its day `d` to be weekday `w`. */
  function Offset(y: int, d: int, w: int): (r: int)
    ensures 0 <= r < 7
  {
    (w - YearStart(y) - d - 4) % 7
  }

  lemma OffsetMeans(y: int, d: int, w: int, start: int)
    requires 0 <= w < 7 && start % 7 == Offset(y, d, w)
    ensures WdayOf(YearStart(y) + start + d) == w
  {
    hide YearStart;
    var s := YearStart(y);
    SevensCancel(s + d + 4, w, start);
  }

  lemma SevensCancel(a: int, w: int, start: int)
    requires 0 <= w < 7 && start % 7 == (w - a) % 7
    ensures (a + start) % 7 == w
  {
  }

  /** A weekday that is missed in one year is not in the next. */
  lemma NextOffset(y: int, d: int, w: int)
    requires Offset(y, d, w) == Missed(y)
    ensures Offset(y + 1, d, w) == 3
  {
    hide YearStart;
    YearStep(y);
    SevensShift(w - YearStart(y) - d - 4, YearDays(y));
  }

  lemma SevensShift(a: int, n: int)
    requires (n == 365 && a % 7 == 4) || (n == 366 && a % 7 == 5)
    ensures (a - n) % 7 == 3
  {
  }

  /** Day `d` of a month of 31 days, and weekday `w`, in one of any two years. */
  lemma DateOnWeekday(y: int, d: nat, w: nat) returns (day: int)
    requires d < 31 && w < 7
    ensures YearStart(y) <= day < YearStart(y + 2) && MdayOf(day) == d + 1 && WdayOf(day) == w
  {
    hide YearStart, YearOf, MonthOf, MonthStart, DaysIn, WdayOf, Offset, Missed;
    var z := if Offset(y, d, w) != Missed(y) then y else y + 1;
    if z != y { NextOffset(y, d, w); NotThree(y + 1); }
    var m := LongMonth(z, Offset(z, d, w));
    day := FirstOf(z, m) + d;
    DateUnique(day, z, m);
    OffsetMeans(z, d, w, MonthStart(z, m));
    YearStep(y);
    YearStep(y + 1);
  }

  lemma NotThree(y: int)
    ensures Missed(y) != 3
  {
  }

  lemma DateIsIn(day: int, y: int)
    requires YearOf(day) == y
    ensures YearStart(y + 3) <= day + 1098
  {
    hide YearStart, YearOf;
    YearStep(y);
    YearStep(y + 1);
    YearStep(y + 2);
  }

  lemma DayComes(cex: CronExpr, day: int) returns (k: nat)
    requires Parsed(cex)
    ensures k < MAX_AHEAD && DayMatches(cex, day + k)
  {
    hide YearStart, YearOf, MdayOf, WdayOf;
    if forall i :: i !in cex.daysOfMonth { assert false; }
    var d :| d in cex.daysOfMonth;
    if forall i :: i !in cex.daysOfWeek { assert false; }
    var w :| w in cex.daysOfWeek;
    var y := YearOf(day);
    var next := DateOnWeekday(y + 1, d, w);
    DateIsIn(day, y);
    k := next - day;
  }

  predicate IsAhead(cex: CronExpr, day: int, k: nat) {
    DayMatches(cex, day + k) && forall j {:trigger DayMatches(cex, j)} :: day <= j < day + k ==> !DayMatches(cex, j)
  }

  /** The first of the days up to one that matches. */
  lemma {:induction false} FirstMatch(cex: CronExpr, day: int, k: nat) returns (r: nat)
    requires DayMatches(cex, day + k)
    ensures r <= k && IsAhead(cex, day, r)
    decreases k
  {
    hide DayMatches;
    if DayMatches(cex, day) {
      r := 0;
    } else {
      var rest := FirstMatch(cex, day + 1, k - 1);
      r := rest + 1;
    }
  }

  /** How many days on the next day is that matches. */
  ghost function Ahead(cex: CronExpr, day: int): (k: nat)
    requires Parsed(cex)
    ensures k < MAX_AHEAD && IsAhead(cex, day, k)
  {
    AheadExists(cex, day);
    var k: nat :| k < MAX_AHEAD && IsAhead(cex, day, k);
    k
  }

  lemma AheadExists(cex: CronExpr, day: int)
    requires Parsed(cex)
    ensures exists k: nat :: k < MAX_AHEAD && IsAhead(cex, day, k)
  {
    hide DayMatches;
    var k := DayComes(cex, day);
    var r := FirstMatch(cex, day, k);
  }

  lemma AheadUnique(cex: CronExpr, day: int, a: nat, b: nat)
    requires IsAhead(cex, day, a) && IsAhead(cex, day, b)
    ensures a == b
  {
    hide DayMatches;
  }

  /** Days that do not match bring the next match nearer. */
  lemma AheadShrinks(cex: CronExpr, day: int, k: nat)
    requires Parsed(cex)
    requires forall j {:trigger DayMatches(cex, j)} :: day <= j < day + k ==> !DayMatches(cex, j)
    ensures Ahead(cex, day) == Ahead(cex, day + k) + k
  {
    hide DayMatches;
    assert IsAhead(cex, day, Ahead(cex, day + k) + k);
    AheadUnique(cex, day, Ahead(cex, day), Ahead(cex, day + k) + k);
  }
}
