/** The search of croncpp.h for the next time that a cron expression describes. */
module Cron {
  import opened Calendar

  datatype Field = Second | Minute | HourOfDay | DayOfWeek | DayOfMonth | Month | YearField

  const FIELDS := [Second, Minute, HourOfDay, DayOfWeek, DayOfMonth, Month, YearField]
  const MAX_YEARS_DIFF := 4
  const MAX_DAYS := 366
  const INVALID_TIME := -1
  const INVALID_INDEX := -1

  /** The bits that are set in the six bitsets. The first day of a month and the first month have bit 0. */
  datatype CronExpr = CronExpr(seconds: set<nat>, minutes: set<nat>, hours: set<nat>,
                               daysOfWeek: set<nat>, daysOfMonth: set<nat>, months: set<nat>)

  predicate Bits(bits: set<nat>, n: nat) {
    bits != {} && forall i :: i in bits ==> i < n
  }

  /** What parsing an expression ensures: every field has a bit set, and none beyond its bitset. */
  predicate Parsed(cex: CronExpr) {
    && Bits(cex.seconds, 60) && Bits(cex.minutes, 60) && Bits(cex.hours, 24)
    && Bits(cex.daysOfWeek, 7) && Bits(cex.daysOfMonth, 31) && Bits(cex.months, 12)
  }

  /** The first bit at `offset` or above. */
  function NextSetBit(bits: set<nat>, n: nat, offset: nat): (r: int)
    ensures r == INVALID_INDEX || (offset <= r < n && r in bits)
    ensures r == INVALID_INDEX ==> forall i :: offset <= i < n ==> i !in bits
    ensures r != INVALID_INDEX ==> forall i :: offset <= i < r ==> i !in bits
    decreases n - offset
  {
    if offset >= n then INVALID_INDEX else if offset in bits then offset else NextSetBit(bits, n, offset + 1)
  }

  /* Changing one field; every change is followed by `mktime`, and the time -1 is taken for its failure. */

  function Plus(tm: Tm, field: Field, val: int): Tm {
    match field
    case Second => tm.(sec := tm.sec + val)
    case Minute => tm.(min := tm.min + val)
    case HourOfDay => tm.(hour := tm.hour + val)
    case DayOfWeek => tm.(mday := tm.mday + val)
    case DayOfMonth => tm.(mday := tm.mday + val)
    case Month => tm.(mon := tm.mon + val)
    case YearField => tm.(year := tm.year + val)
  }

  function With(tm: Tm, field: Field, val: int): Tm {
    match field
    case Second => tm.(sec := val)
    case Minute => tm.(min := val)
    case HourOfDay => tm.(hour := val)
    case DayOfWeek => tm.(wday := val)
    case DayOfMonth => tm.(mday := val)
    case Month => tm.(mon := val)
    case YearField => tm.(year := 1900 + val)
  }

  /** `Threw` is bad_cronexpr. */
  datatype Step = At(t: int) | Threw {
    predicate IsFailure() {
      Threw?
    }

    function PropagateFailure(): Search
      requires Threw?
    {
      SearchThrew
    }

    function Extract(): int
      requires At?
    {
      t
    }
  }

  function Normalize(tm: Tm): Step {
    if MkTime(tm) == INVALID_TIME then Threw else At(MkTime(tm))
  }

  function AddToField(t: int, field: Field, val: int): Step {
    Normalize(Plus(FromTime(t), field, val))
  }

  function SetField(t: int, field: Field, val: int): Step {
    Normalize(With(FromTime(t), field, val))
  }

  function ResetField(t: int, field: Field): Step {
    SetField(t, field, if field.DayOfMonth? then 1 else 0)
  }

  /** The marked fields, from the `i`-th on. */
  function ResetAll(t: int, marked: set<Field>, i: nat): Step
    requires i <= 7
    decreases 7 - i
  {
    if i == 7 then At(t)
    else if FIELDS[i] in marked then
      match ResetField(t, FIELDS[i])
      case Threw => Threw
      case At(t1) => ResetAll(t1, marked, i + 1)
    else ResetAll(t, marked, i + 1)
  }

  /* Searching one field */

  /** The time that was reached, and the value that the field was set to. */
  datatype Search = Search(t: int, value: int) | SearchThrew

  function FindField(bits: set<nat>, n: nat, t: int, value: nat, field: Field, nextField: Field, marked: set<Field>): Search {
    var found := NextSetBit(bits, n, value);
    if found != INVALID_INDEX then ApplyField(t, value, field, found, marked)
    else
      var t1 :- AddToField(t, nextField, 1);
      var t2 :- ResetField(t1, field);
      ApplyField(t2, value, field, NextSetBit(bits, n, 0), marked)
  }

  function ApplyField(t: int, value: nat, field: Field, found: int, marked: set<Field>): Search {
    if found == INVALID_INDEX || found != value then
      var t1 :- SetField(t, field, found);
      var t2 :- ResetAll(t1, marked, 0);
      Search(t2, found)
    else Search(t, found)
  }

  /** `count` days were tried already. The day fields are read before the marked fields are reset. */
  function FindDay(cex: CronExpr, t: int, mday: int, wday: int, marked: set<Field>, count: nat): Search
    decreases MAX_DAYS - count
  {
    if (mday - 1 in cex.daysOfMonth && wday in cex.daysOfWeek) || count >= MAX_DAYS then Search(t, mday)
    else
      var t1 :- AddToField(t, DayOfMonth, 1);
      var t2 :- ResetAll(t1, marked, 0);
      FindDay(cex, t2, Mday(t1), Wday(t1), marked, count + 1)
  }

  /* The search */

  /** `NoNext` is the result false; `NoFuel` says nothing: the recursion is deeper than `fuel`. */
  datatype Outcome = Next(t: int) | NoNext | Thrown | NoFuel

  /** `dot` is the year in which the search began. */
  function FindNext(cex: CronExpr, t: int, dot: int, fuel: nat): Outcome
    decreases fuel, 5
  {
    if fuel == 0 then NoFuel else
      match FindField(cex.seconds, 60, t, Sec(t), Second, Minute, {})
      case SearchThrew => Thrown
      case Search(t1, value) => FromMinute(cex, t1, dot, fuel, if value == Sec(t) then {Second} else {})
  }

  function FromMinute(cex: CronExpr, t: int, dot: int, fuel: nat, marked: set<Field>): Outcome
    requires fuel > 0
    decreases fuel, 4
  {
    match FindField(cex.minutes, 60, t, Min(t), Minute, HourOfDay, marked)
    case SearchThrew => Thrown
    case Search(t1, value) =>
      if value == Min(t) then FromHour(cex, t1, dot, fuel, marked + {Minute})
      else
        match FindNext(cex, t1, dot, fuel - 1)
        case Next(t2) => FromHour(cex, t2, dot, fuel, marked)
        case NoNext => NoNext
        case Thrown => Thrown
        case NoFuel => NoFuel
  }

  function FromHour(cex: CronExpr, t: int, dot: int, fuel: nat, marked: set<Field>): Outcome
    requires fuel > 0
    decreases fuel, 3
  {
    match FindField(cex.hours, 24, t, Hour(t), HourOfDay, DayOfWeek, marked)
    case SearchThrew => Thrown
    case Search(t1, value) =>
      if value == Hour(t) then FromDay(cex, t1, dot, fuel, marked + {HourOfDay})
      else
        match FindNext(cex, t1, dot, fuel - 1)
        case Next(t2) => FromDay(cex, t2, dot, fuel, marked)
        case NoNext => NoNext
        case Thrown => Thrown
        case NoFuel => NoFuel
  }

  function FromDay(cex: CronExpr, t: int, dot: int, fuel: nat, marked: set<Field>): Outcome
    requires fuel > 0
    decreases fuel, 2
  {
    match FindDay(cex, t, Mday(t), Wday(t), marked, 0)
    case SearchThrew => Thrown
    case Search(t1, value) =>
      if value == Mday(t) then FromMonth(cex, t1, dot, fuel, marked + {DayOfMonth})
      else
        match FindNext(cex, t1, dot, fuel - 1)
        case Next(t2) => FromMonth(cex, t2, dot, fuel, marked)
        case NoNext => NoNext
        case Thrown => Thrown
        case NoFuel => NoFuel
  }

  /** The years are subtracted as unsigned numbers. */
  predicate PastBudget(t: int, dot: int) {
    Year(t) < dot || Year(t) - dot > MAX_YEARS_DIFF
  }

  function FromMonth(cex: CronExpr, t: int, dot: int, fuel: nat, marked: set<Field>): Outcome
    requires fuel > 0
    decreases fuel, 1
  {
    match FindField(cex.months, 12, t, Mon(t), Month, YearField, marked)
    case SearchThrew => Thrown
    case Search(t1, value) =>
      if value == Mon(t) then Next(t1)
      else if PastBudget(t1, dot) then NoNext
      else FindNext(cex, t1, dot, fuel - 1)
  }

  /** `cron_next`: the time -1 and a search without result both give INVALID_TIME, here `NoNext`. */
  function CronNext(cex: CronExpr, t: int, fuel: nat): Outcome {
    if t == INVALID_TIME then NoNext
    else
      var first := FindNext(cex, t, Year(t), fuel);
      if first != Next(t) then first
      else
        match AddToField(t, Second, 1)
        case Threw => Thrown
        case At(t1) => FindNext(cex, t1, Year(t1), fuel)
  }
}
