/** What each step of the search does to the time: it never goes back, and each changed field gets the value it is to have. */
module CronSteps {
  import opened Calendar
  import opened Cron

  predicate IsClock(f: Field) {
    f.Second? || f.Minute? || f.HourOfDay?
  }

  function Unit(f: Field): int {
    match f
    case Second => 1
    case Minute => 60
    case HourOfDay => 3600
    case _ => DAY
  }

  function Size(f: Field): nat
    requires IsClock(f)
  {
    if f.HourOfDay? then 24 else 60
  }

  function Carry(f: Field): Field
    requires IsClock(f)
  {
    match f
    case Second => Minute
    case Minute => HourOfDay
    case HourOfDay => DayOfWeek
  }

  function Lower(f: Field): set<Field> {
    match f
    case Second => {}
    case Minute => {Second}
    case HourOfDay => {Second, Minute}
    case _ => {Second, Minute, HourOfDay}
  }

  /** How many units of the field have passed since the epoch. */
  function Index(t: int, f: Field): int {
    match f
    case Second => t
    case Minute => t / 60
    case HourOfDay => t / 3600
    case _ => t / DAY
  }

  function Value(t: int, f: Field): (v: nat)
    requires IsClock(f)
    ensures v < Size(f)
  {
    match f
    case Second => Sec(t)
    case Minute => Min(t)
    case HourOfDay => Hour(t)
  }

  lemma IndexShift(t: int, f: Field, k: int)
    ensures Index(t + Unit(f) * k, f) == Index(t, f) + k
  {
  }

  lemma IndexCarry(t: int, f: Field)
    requires IsClock(f)
    ensures Value(t, f) == Index(t, f) % Size(f)
    ensures Index(t, Carry(f)) == Index(t, f) / Size(f)
    ensures Index(t, f) == Index(t, Carry(f)) * Size(f) + Value(t, f)
  {
  }

  lemma IndexOrder(t: int, u: int, f: Field)
    ensures Index(t, f) < Index(u, f) ==> t < u
    ensures t >= 0 ==> Index(t, f) >= 0
    ensures Index(u, f) >= 0 ==> u >= 0
  {
  }

  /* What adding to and setting a field amounts to */

  /** Twelve months more are a year more, a month more is the same day of the month after, and a year set to what it is stays. */
  lemma MonthsAndYears(tm: Tm)
    ensures MkTime(Plus(tm, Month, 12)) == MkTime(Plus(tm, YearField, 1))
    ensures tm.mon == 0 ==>
      MkTime(Plus(tm, Month, 1)) == MkTime(tm) + 86400 * 31 && MkTime(Plus(tm, YearField, 1)) == MkTime(tm) + 86400 * YearDays(tm.year)
    ensures MkTime(With(tm, YearField, tm.year - 1900)) == MkTime(tm)
  {
    hide MonthStart, YearStart;
    MonthsCarry(tm.mon);
    YearStep(tm.year);
    NewYear(tm.year);
    MonthEnds(tm.year, 0);
  }

  lemma PlusShift(t: int, f: Field, v: int)
    requires !f.Month? && !f.YearField?
    ensures MkTime(Plus(FromTime(t), f, v)) == t + Unit(f) * v
  {
    hide FirstOf, Sec, Min, Hour, Mday, Mon, Year, Wday;
    MkTimeFromTime(t);
  }

  lemma WithShift(t: int, f: Field, v: int)
    requires IsClock(f)
    ensures MkTime(With(FromTime(t), f, v)) == t + Unit(f) * (v - Value(t, f))
  {
    hide FirstOf, Sec, Min, Hour, Mday, Mon, Year, Wday;
    MkTimeFromTime(t);
  }

  lemma FirstShift(t: int)
    ensures MkTime(With(FromTime(t), DayOfMonth, 1)) == t + DAY * (1 - Mday(t))
  {
    hide FirstOf, Sec, Min, Hour, Mday, Mon, Year, Wday;
    MkTimeFromTime(t);
  }

  /* Resetting the marked fields */

  function Cleared(t: int, f: Field, marked: set<Field>): int
    requires IsClock(f)
  {
    if f in marked then t - Unit(f) * Value(t, f) else t
  }

  function AllCleared(t: int, marked: set<Field>): int {
    Cleared(Cleared(Cleared(t, Second, marked), Minute, marked), HourOfDay, marked)
  }

  lemma ClearSecond(t: int)
    ensures var u := t - Sec(t); Sec(u) == 0 && u / 60 == t / 60
  {
  }

  lemma ClearMinute(t: int)
    ensures var u := t - 60 * Min(t); Sec(u) == Sec(t) && Min(u) == 0 && u / 3600 == t / 3600
  {
    hide Sec, Min, Hour, DayOf;
    ClockAddsUp(t);
    ClockOf(DayOf(t), Hour(t), 0, Sec(t));
    HourIndex(t);
    HourIndex(t - 60 * Min(t));
  }

  lemma HourIndex(t: int)
    ensures t / 3600 == DayOf(t) * 24 + Hour(t)
  {
    assert t / DAY == t / 3600 / 24;
  }

  lemma ClearHour(t: int)
    ensures var u := t - 3600 * Hour(t); Sec(u) == Sec(t) && Min(u) == Min(t) && Hour(u) == 0 && DayOf(u) == DayOf(t)
  {
    hide Sec, Min, Hour, DayOf;
    ClockAddsUp(t);
    ClockOf(DayOf(t), 0, Min(t), Sec(t));
  }

  lemma ClearedIs(t: int, f: Field, marked: set<Field>)
    requires IsClock(f)
    ensures Index(Cleared(t, f, marked), Carry(f)) == Index(t, Carry(f))
    ensures f.Second? ==> Sec(Cleared(t, f, marked)) == if f in marked then 0 else Sec(t)
    ensures f.Minute? ==> Sec(Cleared(t, f, marked)) == Sec(t)
    ensures f.Minute? ==> Min(Cleared(t, f, marked)) == if f in marked then 0 else Min(t)
    ensures f.HourOfDay? ==> Sec(Cleared(t, f, marked)) == Sec(t) && Min(Cleared(t, f, marked)) == Min(t)
    ensures f.HourOfDay? ==> Hour(Cleared(t, f, marked)) == if f in marked then 0 else Hour(t)
  {
    hide Sec, Min, Hour;
    ClearSecond(t);
    ClearMinute(t);
    ClearHour(t);
  }

  lemma UpperIndex(t: int, u: int, f: Field)
    requires IsClock(f) && Index(t, f) == Index(u, f)
    ensures Index(t, Carry(f)) == Index(u, Carry(f))
    ensures Value(t, f) == Value(u, f)
  {
    IndexCarry(t, f);
    IndexCarry(u, f);
  }

  /** Clearing fields below one leaves that one's index alone. */
  lemma AllClearedIs(t: int, marked: set<Field>, f: Field)
    requires marked <= Lower(f)
    ensures var u := AllCleared(t, marked);
      Index(u, f) == Index(t, f) && (Sec(u) == if Second in marked then 0 else Sec(t))
      && (!f.Second? && !f.Minute? ==> Min(u) == if Minute in marked then 0 else Min(t))
      && (!IsClock(f) ==> Hour(u) == if HourOfDay in marked then 0 else Hour(t))
  {
    hide Sec, Min, Hour, Index;
    var t1 := Cleared(t, Second, marked);
    var t2 := Cleared(t1, Minute, marked);
    var u := Cleared(t2, HourOfDay, marked);
    ClearedIs(t, Second, marked);
    ClearedIs(t1, Minute, marked);
    ClearedIs(t2, HourOfDay, marked);
    UpperIndex(t1, t, Minute);
    UpperIndex(t2, t1, HourOfDay);
    UpperIndex(t1, t, HourOfDay);
    DayIndex(t, u, f);
  }

  /** Every field from the weekday on counts days. */
  lemma DayIndex(t: int, u: int, f: Field)
    ensures !IsClock(f) ==> (Index(t, f) == Index(u, f) <==> Index(t, DayOfWeek) == Index(u, DayOfWeek))
  {
  }

  /** What is left of `ResetAll` after some fields. */
  lemma ResetStep(t: int, marked: set<Field>, i: nat)
    requires i < 3
    ensures ResetAll(t, marked, i) ==
      var u := Cleared(t, FIELDS[i], marked);
      if FIELDS[i] in marked && u == INVALID_TIME then Threw else ResetAll(u, marked, i + 1)
  {
    hide MkTime, FromTime;
    WithShift(t, FIELDS[i], 0);
  }

  lemma ResetNone(t: int, marked: set<Field>)
    requires marked <= {Second, Minute, HourOfDay}
    ensures ResetAll(t, marked, 3) == At(t)
  {
    hide ResetField;
    assert ResetAll(t, marked, 7) == At(t);
    assert ResetAll(t, marked, 6) == At(t);
    assert ResetAll(t, marked, 5) == At(t);
    assert ResetAll(t, marked, 4) == At(t);
  }

  lemma ResetClears(t: int, marked: set<Field>)
    requires marked <= {Second, Minute, HourOfDay}
    ensures var r := ResetAll(t, marked, 0);
      (t >= 0 ==> r.At?) && (r.At? ==> r.t == AllCleared(t, marked))
  {
    hide ResetAll, Sec, Min, Hour, Index;
    var t1 := Cleared(t, Second, marked);
    var t2 := Cleared(t1, Minute, marked);
    ResetStep(t, marked, 0);
    ResetStep(t1, marked, 1);
    ResetStep(t2, marked, 2);
    ResetNone(AllCleared(t, marked), marked);
    ClearedKeepsSign(t, Second, marked);
    ClearedKeepsSign(t1, Minute, marked);
    ClearedKeepsSign(t2, HourOfDay, marked);
  }

  lemma ClearedKeepsSign(t: int, f: Field, marked: set<Field>)
    requires IsClock(f)
    ensures t >= 0 ==> Cleared(t, f, marked) >= 0
  {
    ClearedIs(t, f, marked);
    IndexOrder(t, Cleared(t, f, marked), Carry(f));
  }

  /* Searching seconds, minutes and hours */

  /** No bit is left at `value` or above: the search carries into the next field. */
  predicate Wraps(bits: set<nat>, value: nat) {
    forall i :: i in bits ==> i < value
  }

  /** The search goes forward to the next bit, and no further; what lies below the field is reset or stays. */
  ghost predicate Moved(bits: set<nat>, t: int, f: Field, marked: set<Field>, r: Search)
    requires IsClock(f) && r.Search?
  {
    && r.value in bits && r.value != Value(t, f) && Value(r.t, f) == r.value
    && Index(t, f) < Index(r.t, f) && t < r.t
    && (if Wraps(bits, Value(t, f)) then
          Index(r.t, Carry(f)) == Index(t, Carry(f)) + 1 && forall i :: i in bits ==> r.value <= i
        else
          Index(r.t, Carry(f)) == Index(t, Carry(f)) && Value(t, f) < r.value
          && forall i :: i in bits && Value(t, f) < i ==> r.value <= i)
    && (!f.Second? ==> Sec(r.t) == if Second in marked then 0 else Sec(t))
    && (f.HourOfDay? ==> Min(r.t) == if Minute in marked then 0 else Min(t))
  }

  lemma FieldHit(bits: set<nat>, n: nat, t: int, value: nat, f: Field, next: Field, marked: set<Field>)
    requires value in bits && value < n
    ensures FindField(bits, n, t, value, f, next, marked) == Search(t, value)
  {
  }

  lemma LowBits(bits: set<nat>, n: nat)
    requires Bits(bits, n)
    ensures NextSetBit(bits, n, 0) != INVALID_INDEX
    ensures forall i :: i in bits ==> NextSetBit(bits, n, 0) <= i
  {
    var i :| i in bits;
  }

  lemma ApplyClock(t: int, value: nat, f: Field, found: nat, marked: set<Field>)
    requires IsClock(f) && marked <= Lower(f) && found != value
    ensures var u := t + Unit(f) * (found - Value(t, f));
      var r := ApplyField(t, value, f, found, marked);
      (r.Search? ==> r == Search(AllCleared(u, marked), found)) && (u >= 0 ==> r.Search?)
  {
    hide ResetAll, MkTime, FromTime, AllCleared;
    WithShift(t, f, found);
    ResetClears(t + Unit(f) * (found - Value(t, f)), marked);
  }

  /** Where a search that misses goes, before the fields below are reset. */
  function Target(bits: set<nat>, t: int, f: Field, found: int): int
    requires IsClock(f)
  {
    t + Unit(f) * (found - Value(t, f) + if Wraps(bits, Value(t, f)) then Size(f) else 0)
  }

  function FoundBit(bits: set<nat>, n: nat, value: nat): int {
    NextSetBit(bits, n, if Wraps(bits, value) then 0 else value)
  }

  lemma UnitOfCarry(f: Field, found: int, value: int)
    requires IsClock(f)
    ensures Unit(Carry(f)) - Unit(f) * value + Unit(f) * found == Unit(f) * (found - value + Size(f))
    ensures Unit(f) >= 1 && Unit(Carry(f)) == Unit(f) * Size(f)
  {
  }

  /** Nothing is left at `value` or above: the next field goes on by one, and the search starts again at the first bit. */
  lemma FieldWraps(bits: set<nat>, t: int, f: Field, marked: set<Field>)
    requires IsClock(f) && marked <= Lower(f) && Bits(bits, Size(f))
    requires Value(t, f) !in bits && Wraps(bits, Value(t, f))
    ensures var r := FindField(bits, Size(f), t, Value(t, f), f, Carry(f), marked);
      var found := NextSetBit(bits, Size(f), 0);
      && (r.Search? ==> r == Search(AllCleared(Target(bits, t, f, found), marked), found))
      && (t >= 0 ==> r.Search?)
  {
    hide ApplyField, MkTime, FromTime, AllCleared, Index, Value;
    var value := Value(t, f);
    var found := NextSetBit(bits, Size(f), 0);
    LowBits(bits, Size(f));
    var t1 := t + Unit(Carry(f));
    UnitOfCarry(f, found, value);
    PlusShift(t, Carry(f), 1);
    ValueAfterCarry(t, f);
    WithShift(t1, f, 0);
    ApplyClock(t1 - Unit(f) * value, value, f, found, marked);
  }

  lemma FieldMiss(bits: set<nat>, t: int, f: Field, marked: set<Field>)
    requires IsClock(f) && marked <= Lower(f) && Bits(bits, Size(f)) && Value(t, f) !in bits
    ensures var r := FindField(bits, Size(f), t, Value(t, f), f, Carry(f), marked);
      var found := FoundBit(bits, Size(f), Value(t, f));
      && found >= 0 && found in bits
      && (Wraps(bits, Value(t, f)) ==> forall i :: i in bits ==> found <= i)
      && (!Wraps(bits, Value(t, f)) ==> Value(t, f) < found && forall i :: i in bits && Value(t, f) < i ==> found <= i)
      && (r.Search? ==> r == Search(AllCleared(Target(bits, t, f, found), marked), found))
      && (t >= 0 ==> r.Search?)
  {
    hide ApplyField, MkTime, FromTime, AllCleared, Index, Value;
    var value := Value(t, f);
    LowBits(bits, Size(f));
    if Wraps(bits, value) {
      FieldWraps(bits, t, f, marked);
    } else {
      var i :| i in bits && i >= value;
      ApplyClock(t, value, f, NextSetBit(bits, Size(f), value), marked);
    }
  }

  lemma Remainders(i: int, n: int)
    requires n == 60 || n == 24
    ensures (i + n) % n == i % n && (i + n - i % n) % n == 0
  {
    if n == 60 {
      Sixties(i / 60 + 1, i % 60);
      Sixties(i / 60 + 1, 0);
    } else {
      TwentyFours(i / 24 + 1, i % 24);
      TwentyFours(i / 24 + 1, 0);
    }
  }

  lemma ValueAfterCarry(t: int, f: Field)
    requires IsClock(f)
    ensures var t1 := t + Unit(Carry(f));
      Value(t1, f) == Value(t, f) && Value(t1 - Unit(f) * Value(t, f), f) == 0
      && (t >= 0 ==> t1 - Unit(f) * Value(t, f) >= 0)
  {
    hide Index, Value;
    var (n, v) := (Size(f), Value(t, f));
    var t1 := t + Unit(f) * n;
    var t2 := t + Unit(f) * (n - v);
    assert Unit(Carry(f)) == Unit(f) * n;
    assert t1 - Unit(f) * v == t2;
    IndexShift(t, f, n);
    IndexShift(t, f, n - v);
    IndexCarry(t, f);
    IndexCarry(t1, f);
    IndexCarry(t2, f);
    Remainders(Index(t, f), n);
  }

  /** Where the indices of the target are. */
  lemma TargetIs(bits: set<nat>, t: int, f: Field, found: nat)
    requires IsClock(f) && found < Size(f)
    ensures var u := Target(bits, t, f, found);
      Value(u, f) == found
      && Index(u, Carry(f)) == Index(t, Carry(f)) + (if Wraps(bits, Value(t, f)) then 1 else 0)
      && Index(u, f) == Index(t, f) + found - Value(t, f) + (if Wraps(bits, Value(t, f)) then Size(f) else 0)
  {
    hide Index, Value;
    var (n, v) := (Size(f), Value(t, f));
    var k := found - v + if Wraps(bits, v) then n else 0;
    IndexShift(t, f, k);
    IndexCarry(t, f);
    IndexCarry(t + Unit(f) * k, f);
    Quotients(Index(t, f), v, found, n, if Wraps(bits, v) then 1 else 0);
  }

  lemma Quotients(i: int, v: int, found: int, n: int, w: int)
    requires (n == 60 || n == 24) && v == i % n && 0 <= found < n && (w == 0 || w == 1)
    ensures (i + found - v + w * n) % n == found && (i + found - v + w * n) / n == i / n + w
  {
  }

  lemma TargetKeeps(t: int, f: Field, k: int)
    requires IsClock(f)
    ensures !f.Second? ==> Sec(t + Unit(f) * k) == Sec(t)
    ensures f.HourOfDay? ==> Min(t + Unit(f) * k) == Min(t)
  {
    match f
    case Second =>
    case Minute => SixtiesOn(t, k);
    case HourOfDay =>
      SixtiesOn(t, 60 * k);
      SixtiesOn(t / 60, k);
  }

  lemma SixtiesOn(i: int, k: int)
    ensures (i + 60 * k) % 60 == i % 60 && (i + 60 * k) / 60 == i / 60 + k
  {
    Sixties(i / 60 + k, i % 60);
  }

  /** A clock field that is not in its set moves forward; one that is stays. */
  lemma ClockSearch(bits: set<nat>, t: int, f: Field, marked: set<Field>)
    requires IsClock(f) && marked <= Lower(f) && Bits(bits, Size(f))
    ensures var r := FindField(bits, Size(f), t, Value(t, f), f, Carry(f), marked);
      && (t >= 0 ==> r.Search?)
      && (Value(t, f) in bits ==> r == Search(t, Value(t, f)))
      && (r.Search? && Value(t, f) !in bits ==> Moved(bits, t, f, marked, r))
  {
    hide FindField, Index, Value, AllCleared, Sec, Min;
    if Value(t, f) in bits {
      FieldHit(bits, Size(f), t, Value(t, f), f, Carry(f), marked);
    } else {
      FieldMiss(bits, t, f, marked);
      var found := FoundBit(bits, Size(f), Value(t, f));
      var u := Target(bits, t, f, found);
      TargetIs(bits, t, f, found);
      AllClearedIs(u, marked, f);
      UpperIndex(AllCleared(u, marked), u, f);
      IndexOrder(t, AllCleared(u, marked), f);
      TargetKeeps(t, f, found - Value(t, f) + if Wraps(bits, Value(t, f)) then Size(f) else 0);
    }
  }

  /* Searching the day */

  predicate DayMatches(cex: CronExpr, day: int) {
    MdayOf(day) - 1 in cex.daysOfMonth && WdayOf(day) in cex.daysOfWeek
  }

  lemma NextDay(t: int, marked: set<Field>)
    requires marked <= {Second, Minute, HourOfDay}
    ensures AddToField(t, DayOfMonth, 1) == if t + DAY == INVALID_TIME then Threw else At(t + DAY)
    ensures var r := ResetAll(t + DAY, marked, 0);
      && (t >= 0 ==> r.At? && r.t >= 0)
      && (r.At? ==> DayOf(r.t) == DayOf(t) + 1)
      && (r.At? ==> Sec(r.t) == if Second in marked then 0 else Sec(t))
      && (r.At? ==> Min(r.t) == if Minute in marked then 0 else Min(t))
      && (r.At? ==> Hour(r.t) == if HourOfDay in marked then 0 else Hour(t))
  {
    hide ResetAll, MkTime, FromTime, AllCleared, Sec, Min, Hour;
    PlusShift(t, DayOfMonth, 1);
    ResetClears(t + DAY, marked);
    AllClearedIs(t + DAY, marked, DayOfMonth);
    SameClock(t);
    IndexOrder(t + DAY, t, DayOfMonth);
    IndexOrder(t, AllCleared(t + DAY, marked), DayOfMonth);
  }

  lemma SameClock(t: int)
    ensures Sec(t + DAY) == Sec(t) && Min(t + DAY) == Min(t) && Hour(t + DAY) == Hour(t) && DayOf(t + DAY) == DayOf(t) + 1
  {
    hide Sec, Min, Hour, DayOf;
    ClockAddsUp(t);
    ClockOf(DayOf(t) + 1, Hour(t), Min(t), Sec(t));
  }

  /** Up to `n` days further on, over days that do not match, to one that does; later fields are reset or stay. */
  ghost predicate DayMoved(cex: CronExpr, t: int, marked: set<Field>, n: int, r: Search)
    requires r.Search?
  {
    var k := DayOf(r.t) - DayOf(t);
    && 0 <= k <= n && r.value == Mday(r.t)
    && (forall j {:trigger DayMatches(cex, j)} :: DayOf(t) <= j < DayOf(t) + k ==> !DayMatches(cex, j))
    && (k < n ==> DayMatches(cex, DayOf(r.t)))
    && (k == 0 ==> r.t == t)
    && (k > 0 ==> Sec(r.t) == if Second in marked then 0 else Sec(t))
    && (k > 0 ==> Min(r.t) == if Minute in marked then 0 else Min(t))
    && (k > 0 ==> Hour(r.t) == if HourOfDay in marked then 0 else Hour(t))
  }

  lemma FindDayUnfold(cex: CronExpr, t: int, marked: set<Field>, count: nat)
    requires marked <= {Second, Minute, HourOfDay} && count < MAX_DAYS && !DayMatches(cex, DayOf(t))
    ensures FindDay(cex, t, Mday(t), Wday(t), marked, count) ==
      if AddToField(t, DayOfMonth, 1).Threw? then SearchThrew else
      match ResetAll(t + DAY, marked, 0)
      case Threw => SearchThrew
      case At(u) => FindDay(cex, u, Mday(u), Wday(u), marked, count + 1)
  {
    hide ResetAll, AddToField, Sec, Min, Hour, DayOf, MdayOf, WdayOf;
    NextDay(t, marked);
    SameClock(t);
  }

  lemma DayStays(cex: CronExpr, t: int, marked: set<Field>, count: nat)
    requires count <= MAX_DAYS && (count == MAX_DAYS || DayMatches(cex, DayOf(t)))
    ensures FindDay(cex, t, Mday(t), Wday(t), marked, count) == Search(t, Mday(t))
    ensures DayMoved(cex, t, marked, MAX_DAYS - count, Search(t, Mday(t)))
  {
    hide MdayOf, WdayOf, Sec, Min, Hour, DayOf;
  }

  lemma DayMovedOn(cex: CronExpr, t: int, u: int, marked: set<Field>, n: nat, r: Search)
    requires r.Search? && DayMoved(cex, u, marked, n, r) && !DayMatches(cex, DayOf(t))
    requires DayOf(u) == DayOf(t) + 1
    requires Sec(u) == if Second in marked then 0 else Sec(t)
    requires Min(u) == if Minute in marked then 0 else Min(t)
    requires Hour(u) == if HourOfDay in marked then 0 else Hour(t)
    ensures DayMoved(cex, t, marked, n + 1, r)
  {
    hide DayMatches, Sec, Min, Hour, DayOf;
  }

  lemma {:induction false} DaySearch(cex: CronExpr, t: int, marked: set<Field>, count: nat)
    requires marked <= {Second, Minute, HourOfDay} && count <= MAX_DAYS
    ensures var r := FindDay(cex, t, Mday(t), Wday(t), marked, count);
      (t >= 0 ==> r.Search?) && (r.Search? ==> DayMoved(cex, t, marked, MAX_DAYS - count, r))
    decreases MAX_DAYS - count
  {
    hide FindDay, DayMoved, DayMatches, ResetAll, AddToField, Sec, Min, Hour, DayOf;
    if DayMatches(cex, DayOf(t)) || count == MAX_DAYS {
      DayStays(cex, t, marked, count);
    } else {
      FindDayUnfold(cex, t, marked, count);
      NextDay(t, marked);
      var u := ResetAll(t + DAY, marked, 0);
      if u.At? {
        DaySearch(cex, u.t, marked, count + 1);
        var r := FindDay(cex, u.t, Mday(u.t), Wday(u.t), marked, count + 1);
        if r.Search? { DayMovedOn(cex, t, u.t, marked, MAX_DAYS - count - 1, r); }
      }
    }
  }

  /* Searching the month */

  /** The month that holds a day begins no earlier than any month that begins before that day. */
  lemma MonthFloor(day: int, y: int, m: nat)
    requires m < 12 && FirstOf(y, m) <= day
    ensures FirstOf(y, m) <= FirstOf(YearOf(day), MonthOf(day))
  {
    hide FirstOf, YearOf, MonthOf, DaysIn;
    var (z, n) := (YearOf(day), MonthOf(day));
    if FirstOf(z, n) < FirstOf(y, m) {
      DateUnique(FirstOf(y, m), z, n);
      DateUnique(FirstOf(y, m), y, m);
    }
  }

  lemma MonthShift(t: int, v: nat)
    requires v < 12
    ensures MkTime(With(FromTime(t), Month, v)) == t + DAY * (FirstOf(Year(t), v) - FirstOf(Year(t), Mon(t)))
  {
    hide FirstOf, Sec, Min, Hour, Mday, Mon, Year, Wday;
    MkTimeFromTime(t);
  }

  lemma YearShift(t: int)
    ensures MkTime(Plus(FromTime(t), YearField, 1)) == t + DAY * (FirstOf(Year(t) + 1, Mon(t)) - FirstOf(Year(t), Mon(t)))
  {
    hide FirstOf, Sec, Min, Hour, Mday, Mon, Year, Wday;
    MkTimeFromTime(t);
  }

  lemma DayIsIndex(t: int)
    ensures Index(t, DayOfMonth) == DayOf(t)
  {
  }

  lemma DayShift(t: int, k: int)
    ensures DayOf(t + DAY * k) == DayOf(t) + k
  {
  }

  lemma DaySign(t: int, day: int)
    requires DayOf(t) >= day
    ensures day >= 0 ==> t >= 0
  {
  }

  /** Resetting fields up to the day of the month does not leave a month. */
  lemma ResetStaysInMonth(t: int, marked: set<Field>, y: int, m: nat)
    requires marked <= {Second, Minute, HourOfDay, DayOfMonth} && m < 12 && FirstOf(y, m) <= DayOf(t)
    ensures var r := ResetAll(t, marked, 0);
      (FirstOf(y, m) >= 0 ==> r.At?) && (r.At? ==> FirstOf(y, m) <= DayOf(r.t))
  {
    hide ResetAll, FirstOf, Sec, Min, Hour, DayOf, MkTime, FromTime, YearOf, MonthOf;
    var clock := marked - {DayOfMonth};
    var u := AllCleared(t, marked);
    ResetUpToDay(t, marked);
    AllClearedIs(t, clock, DayOfMonth);
    SameCleared(t, marked);
    DayIsIndex(t);
    DayIsIndex(u);
    FirstShift(u);
    DayShift(u, 1 - Mday(u));
    MonthFloor(DayOf(u), y, m);
    DaySign(t, FirstOf(y, m));
    DaySign(u, FirstOf(y, m));
    if DayOf(u + DAY * (1 - Mday(u))) >= FirstOf(y, m) { DaySign(u + DAY * (1 - Mday(u)), FirstOf(y, m)); }
  }

  lemma SameCleared(t: int, marked: set<Field>)
    ensures AllCleared(t, marked - {DayOfMonth}) == AllCleared(t, marked)
  {
  }

  /** The day of the month is reset after the clock. */
  lemma ResetUpToDay(t: int, marked: set<Field>)
    requires marked <= {Second, Minute, HourOfDay, DayOfMonth}
    ensures var r := ResetAll(t, marked, 0);
      var u := AllCleared(t, marked);
      (t >= 0 && DayOfMonth !in marked ==> r.At?)
      && (t >= 0 && DayOfMonth in marked ==> r == ResetField(u, DayOfMonth))
      && (r.At? ==> if DayOfMonth in marked then ResetField(u, DayOfMonth) == r else r.t == u)
  {
    hide ResetAll, ResetField, Sec, Min, Hour, Index;
    var t1 := Cleared(t, Second, marked);
    var t2 := Cleared(t1, Minute, marked);
    ResetStep(t, marked, 0);
    ResetStep(t1, marked, 1);
    ResetStep(t2, marked, 2);
    ResetLast(AllCleared(t, marked), marked);
    ClearedKeepsSign(t, Second, marked);
    ClearedKeepsSign(t1, Minute, marked);
    ClearedKeepsSign(t2, HourOfDay, marked);
  }

  lemma ResetLast(t: int, marked: set<Field>)
    requires marked <= {Second, Minute, HourOfDay, DayOfMonth}
    ensures ResetAll(t, marked, 3) == if DayOfMonth in marked then ResetField(t, DayOfMonth) else At(t)
  {
    hide ResetField;
    assert forall u :: ResetAll(u, marked, 7) == At(u);
    assert forall u :: ResetAll(u, marked, 6) == At(u);
    assert forall u :: ResetAll(u, marked, 5) == At(u);
    assert ResetAll(t, marked, 4) == if DayOfMonth in marked then ResetField(t, DayOfMonth) else At(t);
  }

  /** A day of a month, moved into the same month of the next year, is in that year. */
  lemma NextYear(day: int)
    ensures var (y, m) := (YearOf(day), MonthOf(day));
      YearOf(FirstOf(y + 1, m) + MdayOf(day) - 1) == y + 1
  {
    hide YearStart, YearOf, MonthOf;
    var (y, m) := (YearOf(day), MonthOf(day));
    var next := FirstOf(y + 1, m) + MdayOf(day) - 1;
    YearStep(y + 1);
    YearIsItsMonths(y + 1);
    if m == 11 {
      assert next < YearStart(y + 2);
    } else {
      assert MonthStart(y + 1, m) <= 31 * m <= 310;
    }
    YearUnique(next, y + 1);
  }

  lemma FirstsAscend(y: int, m: nat, n: nat)
    requires m <= n
    ensures FirstOf(y, m) <= FirstOf(y, n)
    ensures m < n ==> FirstOf(y, m) + DaysIn(y, m) <= FirstOf(y, n)
  {
    if m < n { MonthsAscend(y, m, n); }
  }

  /** Setting the month, from a day of that year, goes to a day in or after that month. */
  lemma SetMonth(t: int, value: nat, found: nat, marked: set<Field>)
    requires found < 12 && found != value && marked <= {Second, Minute, HourOfDay, DayOfMonth}
    ensures var r := ApplyField(t, value, Month, found, marked);
      var first := FirstOf(Year(t), found);
      (first >= 0 ==> r.Search?) && (r.Search? ==> r.value == found && first <= DayOf(r.t))
  {
    hide ResetAll, MkTime, FromTime, FirstOf, YearOf, MonthOf, DayOf;
    MonthShift(t, found);
    var k := FirstOf(Year(t), found) - FirstOf(Year(t), Mon(t));
    DayShift(t, k);
    assert FirstOf(Year(t), Mon(t)) <= DayOf(t);
    ResetStaysInMonth(t + DAY * k, marked, Year(t), found);
    DaySign(t + DAY * k, FirstOf(Year(t), found));
  }

  /** Where adding a year goes. */
  function YearOn(t: int): int {
    t + DAY * (FirstOf(Year(t) + 1, Mon(t)) - FirstOf(Year(t), Mon(t)))
  }

  lemma YearOnIs(t: int)
    ensures Year(YearOn(t)) == Year(t) + 1 && DayOf(t) < FirstOf(Year(t) + 1, 0) <= DayOf(YearOn(t))
  {
    hide FirstOf, YearOf, MonthOf, DayOf;
    DayShift(t, FirstOf(Year(t) + 1, Mon(t)) - FirstOf(Year(t), Mon(t)));
    NextYear(DayOf(t));
    NewYear(DayOf(t));
    FirstsAscend(Year(t) + 1, 0, Mon(t));
  }

  lemma NewYear(day: int)
    ensures day < FirstOf(YearOf(day) + 1, 0)
  {
  }

  /** Where setting the month to January goes. */
  function January(t: int): int {
    t + DAY * (FirstOf(Year(t), 0) - FirstOf(Year(t), Mon(t)))
  }

  lemma JanuaryIs(t: int)
    ensures Year(January(t)) == Year(t) && FirstOf(Year(t), 0) <= DayOf(January(t))
  {
    hide FirstOf, YearOf, MonthOf, DayOf;
    DayShift(t, FirstOf(Year(t), 0) - FirstOf(Year(t), Mon(t)));
    DateUnique(DayOf(January(t)), Year(t), 0);
  }

  /** No month is left in this year. */
  lemma MonthWraps(bits: set<nat>, t: int, marked: set<Field>)
    requires Bits(bits, 12) && Wraps(bits, Mon(t)) && marked <= {Second, Minute, HourOfDay, DayOfMonth}
    ensures var r := FindField(bits, 12, t, Mon(t), Month, YearField, marked);
      && (t >= 0 ==> r.Search?)
      && (r.Search? ==> r.value != Mon(t) && DayOf(t) < DayOf(r.t))
  {
    hide ApplyField, MkTime, FromTime, FirstOf, Year, Mon, YearOn, January, DayOf;
    LowBits(bits, 12);
    var (t1, t2, found) := (YearOn(t), January(YearOn(t)), NextSetBit(bits, 12, 0));
    ShiftsAre(t);
    ShiftsAre(t1);
    YearOnIs(t);
    JanuaryIs(t1);
    FirstsAscend(Year(t2), 0, found);
    SetMonth(t2, Mon(t), found, marked);
    if t >= 0 {
      DaySignOf(t);
      DaySign(t1, FirstOf(Year(t1), 0));
      DaySign(t2, FirstOf(Year(t1), 0));
    }
  }

  lemma ShiftsAre(t: int)
    ensures MkTime(Plus(FromTime(t), YearField, 1)) == YearOn(t) && MkTime(With(FromTime(t), Month, 0)) == January(t)
  {
    YearShift(t);
    MonthShift(t, 0);
  }

  /** A month that is not in the set moves to a later day; one that is stays. */
  lemma MonthSearch(bits: set<nat>, t: int, marked: set<Field>)
    requires Bits(bits, 12) && marked <= {Second, Minute, HourOfDay, DayOfMonth}
    ensures var r := FindField(bits, 12, t, Mon(t), Month, YearField, marked);
      && (t >= 0 ==> r.Search?)
      && (Mon(t) in bits ==> r == Search(t, Mon(t)))
      && (r.Search? && Mon(t) !in bits ==> r.value != Mon(t) && DayOf(t) < DayOf(r.t))
  {
    hide ApplyField, MkTime, FromTime, FirstOf, Year, Mon, DayOf;
    if Mon(t) in bits {
      FieldHit(bits, 12, t, Mon(t), Month, YearField, marked);
    } else if Wraps(bits, Mon(t)) {
      MonthWraps(bits, t, marked);
    } else {
      var i :| i in bits && i >= Mon(t);
      var found := NextSetBit(bits, 12, Mon(t));
      FirstsAscend(Year(t), Mon(t), found);
      InItsMonth(t);
      SetMonth(t, Mon(t), found, marked);
      if t >= 0 { DaySignOf(t); }
    }
  }

  lemma DaySignOf(t: int)
    requires t >= 0
    ensures DayOf(t) >= 0
  {
  }

  lemma InItsMonth(t: int)
    ensures FirstOf(Year(t), Mon(t)) <= DayOf(t) < FirstOf(Year(t), Mon(t)) + DaysIn(Year(t), Mon(t))
  {
  }
}
