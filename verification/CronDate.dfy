/** The search of croncpp.h as it runs: one `std::tm` whose fields are changed one at a time and normalised by `mktime`. */
module CronDate {
  import C = Calendar
  import opened Cron
  import opened CronTheorems
  import opened CronTermination

  class Date {
    var sec: int
    var min: int
    var hour: int
    var mday: int
    var mon: int
    var year: int
    var wday: int

    ghost function Fields(): C.Tm
      reads this
    {
      C.Tm(sec, min, hour, mday, mon, year, wday)
    }

    ghost function Time(): int
      reads this
    {
      C.MkTime(Fields())
    }

    /** All fields are in range and belong to one time. */
    ghost predicate Valid()
      reads this
    {
      Fields() == C.FromTime(Time())
    }

    /** `localtime_r`, in UTC. */
    constructor (t: int)
      ensures Valid() && Time() == t
    {
      sec, min, hour, mday := C.Sec(t), C.Min(t), C.Hour(t), C.Mday(t);
      mon, year, wday := C.Mon(t), C.Year(t), C.Wday(t);
      new;
      assert Fields() == C.FromTime(t);
      C.MkTimeFromTime(t);
    }

    /** `mktime`: the time of the fields, which are brought into range. */
    method MkTime() returns (t: int)
      modifies this
      ensures t == old(Time()) && Valid() && Time() == t
    {
      t := C.MkTime(C.Tm(sec, min, hour, mday, mon, year, wday));
      sec, min, hour, mday := C.Sec(t), C.Min(t), C.Hour(t), C.Mday(t);
      mon, year, wday := C.Mon(t), C.Year(t), C.Wday(t);
      assert Fields() == C.FromTime(t);
      C.MkTimeFromTime(t);
    }

    /** False stands for the exception. */
    method Add(field: Field, val: int) returns (ok: bool)
      requires Valid()
      modifies this
      ensures Valid() && ok == AddToField(old(Time()), field, val).At?
      ensures ok ==> AddToField(old(Time()), field, val) == At(Time())
    {
      hide C.FromTime, C.MkTime;
      match field {
        case Second => sec := sec + val;
        case Minute => min := min + val;
        case HourOfDay => hour := hour + val;
        case DayOfWeek => mday := mday + val;
        case DayOfMonth => mday := mday + val;
        case Month => mon := mon + val;
        case YearField => year := year + val;
      }
      assert Fields() == Plus(old(Fields()), field, val);
      var t := MkTime();
      ok := t != INVALID_TIME;
    }

    method Set(field: Field, val: int) returns (ok: bool)
      requires Valid()
      modifies this
      ensures Valid() && ok == SetField(old(Time()), field, val).At?
      ensures ok ==> SetField(old(Time()), field, val) == At(Time())
    {
      hide C.FromTime, C.MkTime;
      match field {
        case Second => sec := val;
        case Minute => min := val;
        case HourOfDay => hour := val;
        case DayOfWeek => wday := val;
        case DayOfMonth => mday := val;
        case Month => mon := val;
        case YearField => year := 1900 + val;
      }
      assert Fields() == With(old(Fields()), field, val);
      var t := MkTime();
      ok := t != INVALID_TIME;
    }

    method Reset(field: Field) returns (ok: bool)
      requires Valid()
      modifies this
      ensures Valid() && ok == ResetField(old(Time()), field).At?
      ensures ok ==> ResetField(old(Time()), field) == At(Time())
    {
      if field == DayOfMonth {
        ok := Set(field, 1);
      } else {
        ok := Set(field, 0);
      }
    }

    method ResetAllFields(marked: set<Field>) returns (ok: bool)
      requires Valid()
      modifies this
      ensures Valid() && ok == ResetAll(old(Time()), marked, 0).At?
      ensures ok ==> ResetAll(old(Time()), marked, 0) == At(Time())
    {
      hide ResetField, C.FromTime, C.MkTime;
      var i := 0;
      while i < 7
        invariant 0 <= i <= 7 && Valid()
        invariant ResetAll(old(Time()), marked, 0) == ResetAll(Time(), marked, i)
      {
        if FIELDS[i] in marked {
          ok := Reset(FIELDS[i]);
          if !ok {
            return;
          }
        }
        i := i + 1;
      }
      ok := true;
    }

    /** `find_next` of one field; `value` is what the caller read from the field. */
    method FindInField(bits: set<nat>, n: nat, value: nat, field: Field, nextField: Field, marked: set<Field>)
      returns (ok: bool, found: int)
      requires Valid()
      modifies this
      ensures Valid() && ok == FindField(bits, n, old(Time()), value, field, nextField, marked).Search?
      ensures ok ==> FindField(bits, n, old(Time()), value, field, nextField, marked) == Search(Time(), found)
    {
      hide AddToField, SetField, ResetField, ResetAll, C.FromTime, C.MkTime;
      found := FirstBit(bits, n, value);
      if found == INVALID_INDEX {
        ok := Add(nextField, 1);
        if !ok { return; }
        ok := Reset(field);
        if !ok { return; }
        found := FirstBit(bits, n, 0);
      }
      if found == INVALID_INDEX || found != value {
        ok := Set(field, found);
        if !ok { return; }
        ok := ResetAllFields(marked);
        if !ok { return; }
      }
      ok := true;
    }

    method FindNextDay(cex: CronExpr, mdayNow: int, wdayNow: int, marked: set<Field>) returns (ok: bool, found: int)
      requires Valid()
      modifies this
      ensures Valid() && ok == FindDay(cex, old(Time()), mdayNow, wdayNow, marked, 0).Search?
      ensures ok ==> FindDay(cex, old(Time()), mdayNow, wdayNow, marked, 0) == Search(Time(), found)
    {
      hide AddToField, ResetAll, C.FromTime, C.MkTime, C.Mday, C.Wday;
      var dayOfMonth, dayOfWeek := mdayNow, wdayNow;
      found := dayOfMonth;
      var count := 0;
      while !(dayOfMonth - 1 in cex.daysOfMonth && dayOfWeek in cex.daysOfWeek) && count < MAX_DAYS
        invariant Valid() && 0 <= count <= MAX_DAYS
        invariant FindDay(cex, old(Time()), mdayNow, wdayNow, marked, 0)
          == FindDay(cex, Time(), dayOfMonth, dayOfWeek, marked, count)
      {
        count := count + 1;
        ok := Add(DayOfMonth, 1);
        if !ok { return; }
        dayOfMonth, dayOfWeek := mday, wday;
        FieldsAre();
        ok := ResetAllFields(marked);
        if !ok { return; }
      }
      return true, dayOfMonth;
    }

    /** `find_next`. The fuel only bounds how deep it calls itself. */
    method FindNextTime(cex: CronExpr, dot: int, ghost fuel: nat) returns (found: bool, threw: bool)
      requires Valid() && FindNext(cex, Time(), dot, fuel) != NoFuel
      modifies this
      ensures Valid() && Agrees(FindNext(cex, old(Time()), dot, fuel), found, threw, Time())
      decreases fuel
    {
      hide FindField, FindDay, FindNext, FromMinute, FromHour, FromDay, FromMonth,
           C.FromTime, C.MkTime, C.Sec, C.Min, C.Hour, C.Mday, C.Wday, C.Mon, C.Year;
      found, threw := false, true;
      var marked: set<Field> := {};
      ghost var t := Time();
      NextUnfold(cex, t, dot, fuel);
      FieldsAre();
      var second := sec;
      var ok, updated := FindInField(cex.seconds, 60, second, Second, Minute, {});
      if !ok { return; }
      if updated == second {
        marked := {Second};
      }

      t := Time();
      MinuteUnfold(cex, t, dot, fuel, marked);
      FieldsAre();
      var minute := min;
      ok, updated := FindInField(cex.minutes, 60, minute, Minute, HourOfDay, marked);
      if !ok { return; }
      if updated == minute {
        marked := marked + {Minute};
      } else {
        found, threw := FindNextTime(cex, dot, fuel - 1);
        if !found { return; }
        found, threw := false, true;
      }

      t := Time();
      HourUnfold(cex, t, dot, fuel, marked);
      FieldsAre();
      var hourNow := hour;
      ok, updated := FindInField(cex.hours, 24, hourNow, HourOfDay, DayOfWeek, marked);
      if !ok { return; }
      if updated == hourNow {
        marked := marked + {HourOfDay};
      } else {
        found, threw := FindNextTime(cex, dot, fuel - 1);
        if !found { return; }
      }
      found, threw := FindFromDay(cex, dot, fuel, marked);
    }

    /** The last part of `find_next`: the day and the month. */
    method FindFromDay(cex: CronExpr, dot: int, ghost fuel: nat, marked: set<Field>) returns (found: bool, threw: bool)
      requires Valid() && fuel > 0 && FromDay(cex, Time(), dot, fuel, marked) != NoFuel
      modifies this
      ensures Valid() && Agrees(FromDay(cex, old(Time()), dot, fuel, marked), found, threw, Time())
      decreases fuel, 0
    {
      hide FindField, FindDay, FindNext, FromDay, FromMonth,
           C.FromTime, C.MkTime, C.Sec, C.Min, C.Hour, C.Mday, C.Wday, C.Mon, C.Year;
      found, threw := false, true;
      var markedNow := marked;
      ghost var t := Time();
      DayUnfold(cex, t, dot, fuel, marked);
      FieldsAre();
      var day := mday;
      var ok, updated := FindNextDay(cex, mday, wday, marked);
      if !ok { return; }
      if updated == day {
        markedNow := marked + {DayOfMonth};
      } else {
        found, threw := FindNextTime(cex, dot, fuel - 1);
        if !found { return; }
        found, threw := false, true;
      }

      t := Time();
      MonthUnfold(cex, t, dot, fuel, markedNow);
      FieldsAre();
      var month := mon;
      ok, updated := FindInField(cex.months, 12, month, Month, YearField, markedNow);
      if !ok { return; }
      if updated == month {
        return true, false;
      }
      FieldsAre();
      if year < dot || year - dot > MAX_YEARS_DIFF {
        return false, false;
      }
      found, threw := FindNextTime(cex, dot, fuel - 1);
    }

    lemma FieldsAre()
      requires Valid()
      ensures sec == C.Sec(Time()) && min == C.Min(Time()) && hour == C.Hour(Time())
      ensures mday == C.Mday(Time()) && wday == C.Wday(Time()) && mon == C.Mon(Time()) && year == C.Year(Time())
    {
    }
  }

  /* One part of the search in terms of the next. */

  lemma NextUnfold(cex: CronExpr, t: int, dot: int, fuel: nat)
    requires FindNext(cex, t, dot, fuel) != NoFuel
    ensures fuel > 0
    ensures var s := FindField(cex.seconds, 60, t, C.Sec(t), Second, Minute, {});
      FindNext(cex, t, dot, fuel) ==
        if s.SearchThrew? then Thrown else FromMinute(cex, s.t, dot, fuel, if s.value == C.Sec(t) then {Second} else {})
  {
    hide FindField, FromMinute, C.Sec;
  }

  lemma MinuteUnfold(cex: CronExpr, t: int, dot: int, fuel: nat, marked: set<Field>)
    requires fuel > 0
    ensures var s := FindField(cex.minutes, 60, t, C.Min(t), Minute, HourOfDay, marked);
      FromMinute(cex, t, dot, fuel, marked) ==
        if s.SearchThrew? then Thrown
        else if s.value == C.Min(t) then FromHour(cex, s.t, dot, fuel, marked + {Minute})
        else
          var r := FindNext(cex, s.t, dot, fuel - 1);
          if r.Next? then FromHour(cex, r.t, dot, fuel, marked) else r
  {
    hide FindField, FindNext, FromHour, C.Min;
  }

  lemma HourUnfold(cex: CronExpr, t: int, dot: int, fuel: nat, marked: set<Field>)
    requires fuel > 0
    ensures var s := FindField(cex.hours, 24, t, C.Hour(t), HourOfDay, DayOfWeek, marked);
      FromHour(cex, t, dot, fuel, marked) ==
        if s.SearchThrew? then Thrown
        else if s.value == C.Hour(t) then FromDay(cex, s.t, dot, fuel, marked + {HourOfDay})
        else
          var r := FindNext(cex, s.t, dot, fuel - 1);
          if r.Next? then FromDay(cex, r.t, dot, fuel, marked) else r
  {
    hide FindField, FindNext, FromDay, C.Hour;
  }

  lemma DayUnfold(cex: CronExpr, t: int, dot: int, fuel: nat, marked: set<Field>)
    requires fuel > 0
    ensures var s := FindDay(cex, t, C.Mday(t), C.Wday(t), marked, 0);
      FromDay(cex, t, dot, fuel, marked) ==
        if s.SearchThrew? then Thrown
        else if s.value == C.Mday(t) then FromMonth(cex, s.t, dot, fuel, marked + {DayOfMonth})
        else
          var r := FindNext(cex, s.t, dot, fuel - 1);
          if r.Next? then FromMonth(cex, r.t, dot, fuel, marked) else r
  {
    hide FindDay, FindNext, FromMonth, C.Mday, C.Wday;
  }

  lemma MonthUnfold(cex: CronExpr, t: int, dot: int, fuel: nat, marked: set<Field>)
    requires fuel > 0
    ensures var s := FindField(cex.months, 12, t, C.Mon(t), Month, YearField, marked);
      FromMonth(cex, t, dot, fuel, marked) ==
        if s.SearchThrew? then Thrown
        else if s.value == C.Mon(t) then Next(s.t)
        else if PastBudget(s.t, dot) then NoNext
        else FindNext(cex, s.t, dot, fuel - 1)
  {
    hide FindField, FindNext, C.Mon, PastBudget;
  }

  /** How the method reports what the search came to. */
  predicate Agrees(outcome: Outcome, found: bool, threw: bool, t: int) {
    match outcome
    case Next(u) => found && !threw && t == u
    case NoNext => !found && !threw
    case Thrown => !found && threw
    case NoFuel => false
  }

  /** The first bit that is set, from `offset` on. */
  method FirstBit(bits: set<nat>, n: nat, offset: nat) returns (r: int)
    ensures r == NextSetBit(bits, n, offset)
  {
    var i := offset;
    while i < n
      invariant offset <= i
      invariant NextSetBit(bits, n, offset) == NextSetBit(bits, n, i)
    {
      if i in bits {
        return i;
      }
      i := i + 1;
    }
    return INVALID_INDEX;
  }

  /** `cron_next` for a time, where the search is known to end. */
  method CronSearch(cex: CronExpr, t: int, ghost fuel: nat) returns (r: Outcome)
    requires CronNext(cex, t, fuel) != NoFuel
    ensures r == CronNext(cex, t, fuel)
  {
    hide FindNext, C.FromTime, C.MkTime, C.Year;
    var date := new Date(t);
    var original := date.MkTime();
    if original == INVALID_TIME {
      return NoNext;
    }
    date.FieldsAre();
    var found, threw := date.FindNextTime(cex, date.year, fuel);
    if !found {
      return if threw then Thrown else NoNext;
    }
    var calculated := date.MkTime();
    if calculated != original {
      return Next(calculated);
    }
    var ok := date.Add(Second, 1);
    if !ok {
      return Thrown;
    }
    date.FieldsAre();
    found, threw := date.FindNextTime(cex, date.year, fuel);
    if !found {
      return if threw then Thrown else NoNext;
    }
    calculated := date.MkTime();
    return Next(calculated);
  }

  /** `cron_next`. */
  method CronNextTime(cex: CronExpr, t: int) returns (r: Outcome)
    requires Parsed(cex)
    ensures r != NoFuel && (t >= 0 ==> !r.Thrown?)
    ensures r.Next? ==> t < r.t && Tidy(cex, r.t) && C.Mon(r.t) in cex.months && DayFound(cex, C.DayOf(r.t))
    ensures r.Next? && HarmlessFrom(cex, t) ==> Matches(cex, r.t)
    ensures DayFull(cex) ==> HarmlessFrom(cex, t)
  {
    hide Tidy, DayFound, Matches, HarmlessFrom, CronNext, DayFull;
    ghost var fuel := CronNeed(cex, t);
    CronNextEnds(cex, t, fuel);
    r := CronSearch(cex, t, fuel);
  }
}
