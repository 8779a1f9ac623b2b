/** ISO 8601 durations as DurationParse.cpp reads and writes them, in 32-bit seconds. */
module Duration {
  import opened Results
  import opened OrderedKeys
  import opened Decimal

  const MAX_INT := 0x7FFF_FFFF
  const MIN_INT := -0x8000_0000
  const MINUTE := 60
  const HOUR := 3600
  const DAY := 86400
  const WEEK := 604800
  const YEAR := 31536000

  /** `Overflow` is a signed overflow, which C++ leaves undefined; the others are exceptions. */
  datatype Error = Invalid | OutOfRange | MonthsUnsupported | Ambiguous | Overflow

  type Outcome<+T> = Result<T, Error>

  datatype Mode = Date | Time | Week

  /* Reading */

  /** Digits and one letter, if the text begins with them; and what follows. */
  function TakePart(s: string, letter: char): (r: (string, string))
    ensures r.0 + r.1 == s
  {
    var n := |Digits(s)|;
    if 0 < n < |s| && s[n] == letter then (s[..n + 1], s[n + 1..]) else ("", s)
  }

  datatype Part = Part(mode: Mode, text: string)

  /** What the two regular expressions capture. */
  datatype Groups = Parts(parts: seq<Part>) | NoMatch

  function Match(s: string): Groups {
    if s == "" || s[0] != 'P' then NoMatch
    else
      var (week, afterWeek) := TakePart(s[1..], 'W');
      if week != "" && afterWeek == "" then Parts([Part(Week, week)])
      else
        var (years, s1) := TakePart(s[1..], 'Y');
        var (months, s2) := TakePart(s1, 'M');
        var (days, s3) := TakePart(s2, 'D');
        if s3 == "" then Parts([Part(Date, years), Part(Date, months), Part(Date, days)])
        else if s3[0] != 'T' then NoMatch
        else
          var (hours, s4) := TakePart(s3[1..], 'H');
          var (minutes, s5) := TakePart(s4, 'M');
          var (seconds, s6) := TakePart(s5, 'S');
          if s6 != "" then NoMatch
          else
            Parts([Part(Date, years), Part(Date, months), Part(Date, days),
                   Part(Time, hours), Part(Time, minutes), Part(Time, seconds)])
  }

  /** Multiplied, or added, as an `int`. */
  function Checked(n: int): Outcome<int> {
    if MIN_INT <= n <= MAX_INT then Ok(n) else Err(Overflow)
  }

  /** `std::stoi`. */
  function ToInt(s: string): Outcome<int> {
    var i := ReadInt(s);
    if i.NotInt? then Err(Invalid) else if MIN_INT <= i.i <= MAX_INT then Ok(i.i) else Err(OutOfRange)
  }

  /** The seconds of one part. A part of zero is nothing, whatever its letter. */
  function ParsePart(mode: Mode, part: string): Outcome<int> {
    if part == "" then Ok(0)
    else
      var n :- ToInt(part[..|part| - 1]);
      if n == 0 then Ok(0)
      else
        match (mode, part[|part| - 1])
        case (Time, 'S') => Ok(n)
        case (Time, 'M') => Checked(n * MINUTE)
        case (Time, 'H') => Checked(n * HOUR)
        case (Date, 'D') => Checked(n * DAY)
        case (Date, 'M') => Err(MonthsUnsupported)
        case (Date, 'Y') => Checked(n * YEAR)
        case (Week, 'W') => Checked(n * WEEK)
        case _ => Err(Ambiguous)
  }

  /** The parts added up, one after another. */
  function ParseParts(parts: seq<Part>, total: int): Outcome<int>
    decreases |parts|
  {
    if parts == [] then Ok(total)
    else
      var part :- ParsePart(parts[0].mode, parts[0].text);
      var sum :- Checked(total + part);
      ParseParts(parts[1..], sum)
  }

  predicate IsNumber(s: string) {
    var digits := if s != "" && s[0] == '-' then s[1..] else s;
    digits != "" && AllDigits(digits)
  }

  function Parse(s: string): Outcome<int> {
    if s == "" then Ok(0)
    else if IsNumber(s) then ToInt(s)
    else
      match Match(s)
      case Parts(parts) => ParseParts(parts, 0)
      case NoMatch => Err(Invalid)
  }

  /** `parse`, with its loop over the captured groups. */
  method ParseDuration(duration: string) returns (r: Outcome<int>)
    ensures r == Parse(duration)
  {
    hide ParsePart, ParseParts, Match, IsNumber, ToInt;
    if duration == "" {
      return Ok(0);
    }
    if IsNumber(duration) {
      return ToInt(duration);
    }
    var what := Match(duration);
    if what.NoMatch? {
      return Err(Invalid);
    }
    var total := 0;
    var i := 0;
    TakeAll(what.parts);
    while i < |what.parts|
      invariant 0 <= i <= |what.parts|
      invariant ParseParts(what.parts, 0) == ParseParts(what.parts[i..], total)
    {
      PartsUnfold(what.parts, i, total);
      var part := ParsePart(what.parts[i].mode, what.parts[i].text);
      if !part.Ok? {
        return part;
      }
      var sum := Checked(total + part.value);
      if !sum.Ok? {
        return sum;
      }
      total := sum.value;
      i := i + 1;
    }
    PartsEnd(what.parts[i..], total);
    return Ok(total);
  }

  lemma PartsEnd(parts: seq<Part>, total: int)
    requires parts == []
    ensures ParseParts(parts, total) == Ok(total)
  {
  }

  lemma PartsUnfold(parts: seq<Part>, i: nat, total: int)
    requires i < |parts|
    ensures ParseParts(parts[i..], total) ==
      var part := ParsePart(parts[i].mode, parts[i].text);
      if !part.Ok? then part
      else if !Checked(total + part.value).Ok? then Checked(total + part.value)
      else ParseParts(parts[i + 1..], total + part.value)
  {
    hide ParsePart;
    assert parts[i..][1..] == parts[i + 1..];
  }

  /* Writing */

  /** The quotient of C++ integers, at least zero. */
  function Count(total: int, unit: int): (n: nat)
    requires unit > 0
    ensures total >= 0 ==> n == total / unit
    ensures total < 0 ==> n == 0
  {
    if total < 0 then 0 else total / unit
  }

  function Amount(n: nat, letter: char): string {
    if n > 0 then Text(n) + [letter] else ""
  }

  /** Days, and after a `T`, if there is any time, hours, minutes and seconds. */
  function Compose(total: int): string {
    var days := Count(total, DAY);
    var rest := total - days * DAY;
    var hours := Count(rest, HOUR);
    var rest1 := rest - hours * HOUR;
    var minutes := Count(rest1, MINUTE);
    var seconds := Count(rest1 - minutes * MINUTE, 1);
    var time := Amount(hours, 'H') + Amount(minutes, 'M') + Amount(seconds, 'S');
    "P" + Amount(days, 'D') + if time == "" then "" else "T" + time
  }

  function ComposeWeeks(total: int): string {
    "P" + Text(Count(total, WEEK)) + "W"
  }

  /** The text before a part, with the separator if the part is the first of the time. */
  function Separated(before: string, part: string): string {
    before + (if 'T' !in before && part != "" then "T" else "") + part
  }

  /** What `composePart` changes by reference. */
  class Composition {
    var totalTime: int
    var composed: string

    constructor (time: int)
      ensures totalTime == time && composed == "P"
    {
      totalTime, composed := time, "P";
    }

    /** Takes as many units as fit, and writes them with the letter of the unit. */
    method ComposePart(unit: int, letter: char, isTime: bool, always: bool)
      requires unit > 0
      modifies this
      ensures totalTime == old(totalTime) - Count(old(totalTime), unit) * unit
      ensures var n := Count(old(totalTime), unit);
        var result := if always then Text(n) + [letter] else Amount(n, letter);
        composed == if isTime then Separated(old(composed), result) else old(composed) + result
    {
      hide Text, Count;
      var value := Count(totalTime, unit);
      totalTime := totalTime - value * unit;
      var result := if always || value > 0 then Text(value) + [letter] else "";
      if isTime && 'T' !in composed && |result| > 0 {
        composed := composed + "T";
      } else {
        AppendNothing(composed);
      }
      composed := composed + result;
    }
  }

  method ComposeDuration(time: int, weekMode: bool) returns (r: string)
    ensures r == if weekMode then ComposeWeeks(time) else Compose(time)
  {
    hide Text, Count, Amount, Separated, Compose;
    var c := new Composition(time);
    if weekMode {
      c.ComposePart(WEEK, 'W', false, true);
      WeekText(Count(time, WEEK));
    } else {
      c.ComposePart(DAY, 'D', false, false);
      ghost var t0 := c.totalTime;
      c.ComposePart(HOUR, 'H', true, false);
      ghost var t1 := c.totalTime;
      c.ComposePart(MINUTE, 'M', true, false);
      ghost var t2 := c.totalTime;
      c.ComposePart(1, 'S', true, false);
      ComposedOf(time, t0, t1, t2);
    }
    r := c.composed;
  }

  /** The four parts, one after another, are the whole. */
  lemma ComposedOf(time: int, t0: int, t1: int, t2: int)
    requires t0 == time - Count(time, DAY) * DAY
    requires t1 == t0 - Count(t0, HOUR) * HOUR
    requires t2 == t1 - Count(t1, MINUTE) * MINUTE
    ensures Compose(time) ==
      Separated(Separated(Separated("P" + Amount(Count(time, DAY), 'D'), Amount(Count(t0, HOUR), 'H')),
                          Amount(Count(t1, MINUTE), 'M')),
                Amount(Count(t2, 1), 'S'))
  {
    hide Text, Count, Amount, Separated;
    NoT(Count(time, DAY));
    OneT("P" + Amount(Count(time, DAY), 'D'), Count(t0, HOUR), Count(t1, MINUTE), Count(t2, 1));
  }

  lemma WeekText(n: nat)
    ensures "P" + (Text(n) + ['W']) == "P" + Text(n) + "W"
  {
  }

  lemma NoT(n: nat)
    ensures 'T' !in Amount(n, 'D') && 'T' !in "P" + Amount(n, 'D')
  {
    assert AllDigits(Text(n));
  }

  lemma OneT(days: string, hours: nat, minutes: nat, seconds: nat)
    requires 'T' !in days
    ensures var h := Amount(hours, 'H');
      var m := Amount(minutes, 'M');
      var s := Amount(seconds, 'S');
      Separated(Separated(Separated(days, h), m), s) == days + if h + m + s == "" then "" else "T" + (h + m + s)
  {
    hide Text;
    var (h, m, s) := (Amount(hours, 'H'), Amount(minutes, 'M'), Amount(seconds, 'S'));
    var d1 := Separated(days, h);
    var d2 := Separated(d1, m);
    assert h == "" ==> d1 == days;
    assert h != "" ==> d1 == days + ("T" + h) && d1[|days|] == 'T';
    assert h + m == "" ==> d2 == days;
    assert h + m != "" ==> d2 == days + ("T" + (h + m)) && d2[|days|] == 'T';
  }

  /* Reading what was written */

  /** What a group of the regular expressions captures: nothing, or digits and its letter. */
  predicate IsPart(part: string, letter: char) {
    part == "" || (|part| >= 2 && AllDigits(part[..|part| - 1]) && part[|part| - 1] == letter)
  }

  lemma TakeNone(s: string, letter: char)
    requires s == "" || !IsDigit(s[0])
    ensures TakePart(s, letter) == ("", s)
  {
  }

  /** A part is taken with its own letter, and left with any other. */
  lemma TakeAPart(part: string, own: char, letter: char, rest: string)
    requires IsPart(part, own) && !IsDigit(own) && TakePart(rest, letter) == ("", rest)
    ensures TakePart(part + rest, letter) == if own == letter then (part, rest) else ("", part + rest)
  {
    hide Digits;
    if part == "" {
      assert "" + rest == rest;
    } else {
      var digits := part[..|part| - 1];
      assert part + rest == digits + ([own] + rest);
      DigitsEnd(digits, [own] + rest);
      assert (part + rest)[..|part|] == part && (part + rest)[|part|..] == rest;
    }
  }

  lemma TakenIsPart(s: string, letter: char)
    ensures IsPart(TakePart(s, letter).0, letter)
  {
    var n := |Digits(s)|;
    if 0 < n < |s| && s[n] == letter { assert s[..n + 1][..n] == Digits(s); }
  }

  lemma AmountIsPart(n: nat, letter: char)
    ensures IsPart(Amount(n, letter), letter)
  {
    hide Text;
    assert (Text(n) + [letter])[..|Text(n)|] == Text(n);
  }

  /** The text of a date and, behind `T`, a time: all of DURATION_DATE_TIME. */
  function DateTimeText(date: seq<string>, timed: bool, time: seq<string>): string
    requires |date| == 3 && |time| == 3
  {
    "P" + (date[0] + (date[1] + (date[2] + if timed then "T" + (time[0] + (time[1] + time[2])) else "")))
  }

  predicate AreParts(parts: seq<string>, letters: string)
    requires |parts| == |letters| == 3
  {
    IsPart(parts[0], letters[0]) && IsPart(parts[1], letters[1]) && IsPart(parts[2], letters[2])
  }

  function Labelled(mode: Mode, parts: seq<string>): seq<Part>
    requires |parts| == 3
  {
    [Part(mode, parts[0]), Part(mode, parts[1]), Part(mode, parts[2])]
  }

  /** Every text of the grammar is matched, and captured as it is made up. */
  lemma MatchesDateTime(date: seq<string>, timed: bool, time: seq<string>)
    requires |date| == 3 && |time| == 3 && AreParts(date, "YMD") && AreParts(time, "HMS")
    ensures Match(DateTimeText(date, timed, time)) ==
      Parts(Labelled(Date, date) + if timed then Labelled(Time, time) else [])
  {
    hide TakePart, IsPart;
    var tail := if timed then "T" + (time[0] + (time[1] + time[2])) else "";
    var rest := date[0] + (date[1] + (date[2] + tail));
    assert DateTimeText(date, timed, time)[1..] == rest;
    TakeThree(date, "YMD", tail, 'W');
    TakeThree(date, "YMD", tail, 'Y');
    if timed {
      assert tail[1..] == time[0] + (time[1] + (time[2] + "")) by { assert time[2] + "" == time[2]; }
      TakeThree(time, "HMS", "", 'H');
      assert Labelled(Date, date) + Labelled(Time, time) ==
        [Part(Date, date[0]), Part(Date, date[1]), Part(Date, date[2]), Part(Time, time[0]), Part(Time, time[1]), Part(Time, time[2])];
    } else {
      assert Labelled(Date, date) + [] == Labelled(Date, date);
    }
  }

  /** Three parts in a row, each taken with its letter; and none of them with a letter that is not theirs. */
  lemma TakeThree(parts: seq<string>, letters: string, tail: string, other: char)
    requires |parts| == |letters| == 3 && AreParts(parts, letters) && (tail == "" || !IsDigit(tail[0]))
    requires letters == "YMD" || letters == "HMS"
    ensures var rest := parts[0] + (parts[1] + (parts[2] + tail));
      && TakePart(rest, letters[0]) == (parts[0], parts[1] + (parts[2] + tail))
      && TakePart(parts[1] + (parts[2] + tail), letters[1]) == (parts[1], parts[2] + tail)
      && TakePart(parts[2] + tail, letters[2]) == (parts[2], tail)
      && (other !in letters ==> TakePart(rest, other) == ("", rest))
  {
    hide TakePart, IsPart;
    TakeNone(tail, letters[0]);
    TakeNone(tail, letters[1]);
    TakeNone(tail, letters[2]);
    TakeNone(tail, other);
    TakeAPart(parts[2], letters[2], letters[0], tail);
    TakeAPart(parts[2], letters[2], letters[1], tail);
    TakeAPart(parts[2], letters[2], letters[2], tail);
    TakeAPart(parts[1], letters[1], letters[0], parts[2] + tail);
    TakeAPart(parts[1], letters[1], letters[1], parts[2] + tail);
    TakeAPart(parts[0], letters[0], letters[0], parts[1] + (parts[2] + tail));
    if other !in letters {
      TakeAPart(parts[2], letters[2], other, tail);
      TakeAPart(parts[1], letters[1], other, parts[2] + tail);
      TakeAPart(parts[0], letters[0], other, parts[1] + (parts[2] + tail));
    }
  }

  lemma MatchesWeek(week: string)
    requires week != "" && IsPart(week, 'W')
    ensures Match("P" + week) == Parts([Part(Week, week)])
  {
    hide TakePart;
    assert ("P" + week)[1..] == week && week + "" == week;
    TakeNone("", 'W');
    TakeAPart(week, 'W', 'W', "");
  }

  /** Only texts of the two grammars are matched. */
  lemma MatchIsSound(s: string)
    requires Match(s).Parts?
    ensures (exists week :: week != "" && IsPart(week, 'W') && s == "P" + week && Match(s) == Parts([Part(Week, week)]))
      || exists date: seq<string>, timed: bool, time: seq<string> ::
           |date| == 3 && |time| == 3 && AreParts(date, "YMD") && AreParts(time, "HMS") && s == DateTimeText(date, timed, time)
  {
    hide TakePart, IsPart, Labelled, AreParts;
    var rest := s[1..];
    assert s == "P" + rest;
    TakenIsPart(rest, 'W');
    var week := TakePart(rest, 'W');
    if week.0 != "" && week.1 == "" {
      assert week.0 + "" == week.0;
    } else {
      var (y, s1) := TakePart(rest, 'Y');
      var (mo, s2) := TakePart(s1, 'M');
      var (d, s3) := TakePart(s2, 'D');
      TakenAreParts(rest, "YMD");
      if s3 == "" {
        NoParts();
        assert s == DateTimeText([y, mo, d], false, ["", "", ""]);
      } else {
        var (h, s4) := TakePart(s3[1..], 'H');
        var (mi, s5) := TakePart(s4, 'M');
        var (sec, s6) := TakePart(s5, 'S');
        TakenAreParts(s3[1..], "HMS");
        assert s3 == "T" + s3[1..] && sec + "" == sec;
        assert s == DateTimeText([y, mo, d], true, [h, mi, sec]);
      }
    }
  }

  lemma TakenAreParts(s: string, letters: string)
    requires |letters| == 3
    ensures var (a, s1) := TakePart(s, letters[0]);
      var (b, s2) := TakePart(s1, letters[1]);
      var (c, s3) := TakePart(s2, letters[2]);
      s == a + (b + (c + s3)) && AreParts([a, b, c], letters)
  {
    hide TakePart, IsPart;
    var (a, s1) := TakePart(s, letters[0]);
    var (b, s2) := TakePart(s1, letters[1]);
    TakenIsPart(s, letters[0]);
    TakenIsPart(s1, letters[1]);
    TakenIsPart(s2, letters[2]);
  }

  lemma NoParts()
    ensures AreParts(["", "", ""], "HMS")
  {
    hide IsPart;
    Untaken();
  }

  lemma Untaken()
    ensures forall letter :: IsPart("", letter)
  {
  }

  lemma SmallParts(mode: Mode, n: nat, letter: char)
    requires n <= MAX_INT
    ensures var part := Amount(n, letter);
      ParsePart(mode, part) == if n == 0 then Ok(0) else ParsePart(mode, Text(n) + [letter])
    ensures ParsePart(mode, Text(n) + [letter]) ==
      if n == 0 then Ok(0)
      else
        match (mode, letter)
        case (Time, 'S') => Ok(n)
        case (Time, 'M') => Checked(n * MINUTE)
        case (Time, 'H') => Checked(n * HOUR)
        case (Date, 'D') => Checked(n * DAY)
        case (Date, 'M') => Err(MonthsUnsupported)
        case (Date, 'Y') => Checked(n * YEAR)
        case (Week, 'W') => Checked(n * WEEK)
        case _ => Err(Ambiguous)
  {
    hide Text;
    var part := Text(n) + [letter];
    assert part[..|part| - 1] == Text(n);
    ReadNat(n);
  }

  lemma ReadNat(n: nat)
    ensures ReadInt(Text(n)) == AnInt(n)
  {
    assert IntText(n) == Text(n);
    ReadIntText(n);
  }

  /** What the grammar finds in the text of a duration. */
  lemma MatchComposed(days: nat, hours: nat, minutes: nat, seconds: nat)
    ensures var (d, h, m, s) := (Amount(days, 'D'), Amount(hours, 'H'), Amount(minutes, 'M'), Amount(seconds, 'S'));
      var time := h + m + s;
      Match("P" + d + (if time == "" then "" else "T" + time)) ==
        if time == "" then Parts([Part(Date, ""), Part(Date, ""), Part(Date, d)])
        else Parts([Part(Date, ""), Part(Date, ""), Part(Date, d), Part(Time, h), Part(Time, m), Part(Time, s)])
  {
    hide Text, Match, Amount, IsPart;
    var (d, h, m, s) := (Amount(days, 'D'), Amount(hours, 'H'), Amount(minutes, 'M'), Amount(seconds, 'S'));
    var timed := h + m + s != "";
    AmountIsPart(days, 'D');
    AmountIsPart(hours, 'H');
    AmountIsPart(minutes, 'M');
    AmountIsPart(seconds, 'S');
    Untaken();
    MatchesDateTime(["", "", d], timed, [h, m, s]);
    AppendAppend(h, m, s);
    AppendAppend("P", d, if timed then "T" + (h + m + s) else "");
    OnlyDays(d + if timed then "T" + (h + m + s) else "");
    assert Labelled(Date, ["", "", d]) + Labelled(Time, [h, m, s]) ==
      [Part(Date, ""), Part(Date, ""), Part(Date, d), Part(Time, h), Part(Time, m), Part(Time, s)];
    assert Labelled(Date, ["", "", d]) + [] == [Part(Date, ""), Part(Date, ""), Part(Date, d)];
  }

  lemma OnlyDays(rest: string)
    ensures "" + ("" + rest) == rest
  {
  }

  lemma SumOfDates(days: nat)
    requires days * DAY <= MAX_INT
    ensures ParseParts([Part(Date, ""), Part(Date, ""), Part(Date, Amount(days, 'D'))], 0) == Ok(days * DAY)
  {
    hide Text, Amount, ParsePart, ParseParts;
    var d := Amount(days, 'D');
    SmallParts(Date, days, 'D');
    NoPart(Date);
    var dates := [Part(Date, ""), Part(Date, ""), Part(Date, d)];
    assert dates[0..] == dates;
    PartsUnfold(dates, 0, 0);
    PartsUnfold(dates, 1, 0);
    PartsUnfold(dates, 2, 0);
    PartsEnd(dates[3..], days * DAY);
  }

  /** Adding up the parts of a duration that fits an `int` overflows nowhere. */
  lemma SumOfParts(days: nat, hours: nat, minutes: nat, seconds: nat)
    requires days * DAY + hours * HOUR + minutes * MINUTE + seconds <= MAX_INT
    ensures var (d, h, m, s) := (Amount(days, 'D'), Amount(hours, 'H'), Amount(minutes, 'M'), Amount(seconds, 'S'));
      && ParseParts([Part(Date, ""), Part(Date, ""), Part(Date, d), Part(Time, h), Part(Time, m), Part(Time, s)], 0)
        == Ok(days * DAY + hours * HOUR + minutes * MINUTE + seconds)
      && ParseParts([Part(Date, ""), Part(Date, ""), Part(Date, d)], 0) == Ok(days * DAY)
  {
    hide Text, Amount, ParsePart, ParseParts;
    SumOfDates(days);
    var (d, h, m, s) := (Amount(days, 'D'), Amount(hours, 'H'), Amount(minutes, 'M'), Amount(seconds, 'S'));
    SmallParts(Date, days, 'D');
    SmallParts(Time, hours, 'H');
    SmallParts(Time, minutes, 'M');
    SmallParts(Time, seconds, 'S');
    NoPart(Date);
    var parts := [Part(Date, ""), Part(Date, ""), Part(Date, d), Part(Time, h), Part(Time, m), Part(Time, s)];
    var (t3, t4, t5) := (days * DAY, days * DAY + hours * HOUR, days * DAY + hours * HOUR + minutes * MINUTE);
    assert parts[0..] == parts;
    PartsUnfold(parts, 0, 0);
    PartsUnfold(parts, 1, 0);
    PartsUnfold(parts, 2, 0);
    PartsUnfold(parts, 3, t3);
    PartsUnfold(parts, 4, t4);
    PartsUnfold(parts, 5, t5);
    PartsEnd(parts[6..], t5 + seconds);
  }

  lemma NoPart(mode: Mode)
    ensures ParsePart(mode, "") == Ok(0)
  {
  }

  /** What is written adds up to the whole. */
  lemma UnitsAddUp(total: nat)
    ensures var days := Count(total, DAY);
      var rest := total - days * DAY;
      var hours := Count(rest, HOUR);
      var rest1 := rest - hours * HOUR;
      var minutes := Count(rest1, MINUTE);
      rest >= 0 && rest1 >= 0 && rest1 - minutes * MINUTE >= 0
      && days * DAY + hours * HOUR + minutes * MINUTE + Count(rest1 - minutes * MINUTE, 1) == total
  {
  }

  /** A duration that was written is read back, with no overflow; negative ones are written as nothing. */
  lemma ParseCompose(total: int)
    requires MIN_INT <= total <= MAX_INT
    ensures Parse(Compose(total)) == Ok(if total < 0 then 0 else total)
  {
    hide Text, Amount, Match, ParseParts, ToInt;
    var amount := if total < 0 then 0 else total;
    if total < 0 { NegativeIsNothing(total); }
    UnitsAddUp(amount);
    var days := Count(amount, DAY);
    var rest := amount - days * DAY;
    var hours := Count(rest, HOUR);
    var rest1 := rest - hours * HOUR;
    var minutes := Count(rest1, MINUTE);
    var seconds := Count(rest1 - minutes * MINUTE, 1);
    MatchComposed(days, hours, minutes, seconds);
    SumOfParts(days, hours, minutes, seconds);
    NoTime(hours, minutes, seconds);
    assert Compose(amount)[0] == 'P';
    assert !IsDigit('P');
  }

  lemma NegativeIsNothing(total: int)
    requires total < 0
    ensures Compose(total) == Compose(0)
  {
    assert Amount(0, 'D') == "" && Amount(0, 'H') == "" && Amount(0, 'M') == "" && Amount(0, 'S') == "";
  }

  lemma NoTime(hours: nat, minutes: nat, seconds: nat)
    ensures Amount(hours, 'H') + Amount(minutes, 'M') + Amount(seconds, 'S') == "" <==> hours == minutes == seconds == 0
  {
    hide Text;
    assert |Amount(hours, 'H') + Amount(minutes, 'M') + Amount(seconds, 'S')|
        == |Amount(hours, 'H')| + |Amount(minutes, 'M')| + |Amount(seconds, 'S')|;
  }

  /** In weeks, what is read back is rounded down to whole weeks. */
  lemma ParseComposeWeeks(total: int)
    requires MIN_INT <= total <= MAX_INT
    ensures Parse(ComposeWeeks(total)) == Ok(if total < 0 then 0 else total - total % WEEK)
  {
    hide Text, Match, ParsePart, ParseParts, ToInt;
    var n := Count(total, WEEK);
    var text := ComposeWeeks(total);
    var week := Text(n) + ['W'];
    assert text == "P" + week;
    WeekIsPart(n);
    MatchesWeek(week);
    SmallParts(Week, n, 'W');
    var parts := [Part(Week, week)];
    assert parts[0..] == parts;
    PartsUnfold(parts, 0, 0);
    PartsEnd(parts[1..], n * WEEK);
    assert text[0] == 'P' && !IsDigit('P');
  }

  lemma WeekIsPart(n: nat)
    ensures IsPart(Text(n) + ['W'], 'W')
  {
    hide Text;
    assert (Text(n) + ['W'])[..|Text(n)|] == Text(n);
  }

  /** Minutes are never read as months: every `M` that is written stands after a `T`. */
  lemma MinutesAfterT(total: int, i: nat)
    requires i < |Compose(total)| && Compose(total)[i] == 'M'
    ensures exists j :: 0 <= j < i && Compose(total)[j] == 'T'
  {
    hide Text, Count;
    var days := Count(total, DAY);
    var front := "P" + Amount(days, 'D');
    NoM(days);
    assert |front| <= i && Compose(total)[|front|] == 'T';
  }

  lemma NoM(n: nat)
    ensures 'M' !in "P" + Amount(n, 'D')
  {
    assert AllDigits(Text(n));
  }

  /* What the letters are worth */

  /** A number before a letter, or neither. */
  datatype Given = Given(n: nat) | Absent {
    function Value(): nat {
      if Given? then n else 0
    }

    function Spelled(letter: char): string {
      if Given? then Text(n) + [letter] else ""
    }

    predicate FitsInt() {
      Value() <= 0x7FFF_FFFF
    }
  }

  /** A date and, if `timed`, a time, each with any of its parts. */
  datatype Spec = Spec(years: Given, months: Given, days: Given, timed: bool, hours: Given, minutes: Given, seconds: Given) {
    function Spelled(): string {
      DateTimeText([years.Spelled('Y'), months.Spelled('M'), days.Spelled('D')], timed,
                   [hours.Spelled('H'), minutes.Spelled('M'), seconds.Spelled('S')])
    }

    function Seconds(): nat {
      31536000 * years.Value() + 86400 * days.Value()
      + if timed then 3600 * hours.Value() + 60 * minutes.Value() + seconds.Value() else 0
    }

    predicate FitInts() {
      years.FitsInt() && months.FitsInt() && days.FitsInt() && hours.FitsInt() && minutes.FitsInt() && seconds.FitsInt()
    }
  }

  lemma SpelledIsPart(g: Given, letter: char)
    ensures IsPart(g.Spelled(letter), letter)
  {
    hide Text;
    if g.Given? { assert (Text(g.n) + [letter])[..|Text(g.n)|] == Text(g.n); }
  }

  /** What a number is worth with its letter. */
  lemma PartIsWorth(g: Given)
    requires g.FitsInt()
    ensures ParsePart(Date, g.Spelled('Y')) == Checked(31536000 * g.Value())
    ensures ParsePart(Date, g.Spelled('D')) == Checked(86400 * g.Value())
    ensures ParsePart(Time, g.Spelled('H')) == Checked(3600 * g.Value())
    ensures ParsePart(Time, g.Spelled('M')) == Checked(60 * g.Value())
    ensures ParsePart(Time, g.Spelled('S')) == Ok(g.Value())
    ensures ParsePart(Week, g.Spelled('W')) == Checked(604800 * g.Value())
    ensures ParsePart(Date, g.Spelled('M')) == if g.Value() == 0 then Ok(0) else Err(MonthsUnsupported)
  {
    hide Text, ParsePart;
    if g.Given? {
      SmallParts(Date, g.n, 'Y');
      SmallParts(Date, g.n, 'M');
      SmallParts(Date, g.n, 'D');
      SmallParts(Time, g.n, 'H');
      SmallParts(Time, g.n, 'M');
      SmallParts(Time, g.n, 'S');
      SmallParts(Week, g.n, 'W');
    } else {
      NoPart(Date);
      NoPart(Time);
      NoPart(Week);
    }
  }

  /** One more part that is at least zero: the sum so far, or an overflow from then on. */
  lemma AddPart(parts: seq<Part>, i: nat, total: nat, worth: nat)
    requires i < |parts| && total <= MAX_INT
    requires ParsePart(parts[i].mode, parts[i].text) == Checked(worth)
    ensures ParseParts(parts[i..], total) ==
      if total + worth > MAX_INT then Err(Overflow) else ParseParts(parts[i + 1..], total + worth)
  {
    hide ParsePart, ParseParts;
    PartsUnfold(parts, i, total);
  }

  /**
   * What a text of the date and time grammar is worth: a year is 365 days, a day 86400 seconds, an hour 3600 and a minute 60.
   * It is read as the sum if that fits an `int`; months are refused, and the rest overflows.
   */
  lemma ParseSpec(spec: Spec)
    requires spec.FitInts()
    ensures spec.months.Value() == 0 ==>
      Parse(spec.Spelled()) == if spec.Seconds() <= 0x7FFF_FFFF then Ok(spec.Seconds()) else Err(Overflow)
    ensures spec.months.Value() != 0 && 31536000 * spec.years.Value() <= 0x7FFF_FFFF ==>
      Parse(spec.Spelled()) == Err(MonthsUnsupported)
  {
    hide Text, IsPart, ParsePart, ParseParts, Match;
    var date := [spec.years.Spelled('Y'), spec.months.Spelled('M'), spec.days.Spelled('D')];
    var time := [spec.hours.Spelled('H'), spec.minutes.Spelled('M'), spec.seconds.Spelled('S')];
    SpelledIsPart(spec.years, 'Y');
    SpelledIsPart(spec.months, 'M');
    SpelledIsPart(spec.days, 'D');
    SpelledIsPart(spec.hours, 'H');
    SpelledIsPart(spec.minutes, 'M');
    SpelledIsPart(spec.seconds, 'S');
    MatchesDateTime(date, spec.timed, time);
    assert spec.Spelled()[0] == 'P' && !IsDigit('P');
    AddDates(spec, Labelled(Date, date) + if spec.timed then Labelled(Time, time) else []);
  }

  lemma AddDates(spec: Spec, parts: seq<Part>)
    requires spec.FitInts()
    requires parts == Labelled(Date, [spec.years.Spelled('Y'), spec.months.Spelled('M'), spec.days.Spelled('D')])
      + if spec.timed then Labelled(Time, [spec.hours.Spelled('H'), spec.minutes.Spelled('M'), spec.seconds.Spelled('S')]) else []
    ensures spec.months.Value() == 0 ==>
      ParseParts(parts, 0) == if spec.Seconds() <= MAX_INT then Ok(spec.Seconds()) else Err(Overflow)
    ensures spec.months.Value() != 0 && 31536000 * spec.years.Value() <= MAX_INT ==>
      ParseParts(parts, 0) == Err(MonthsUnsupported)
  {
    hide Text, ParsePart, ParseParts;
    PartIsWorth(spec.years);
    PartIsWorth(spec.months);
    PartIsWorth(spec.days);
    var y := 31536000 * spec.years.Value();
    assert parts[0..] == parts;
    AddPart(parts, 0, 0, y);
    if y <= MAX_INT {
      PartsUnfold(parts, 1, y);
      if spec.months.Value() == 0 {
        AddPart(parts, 2, y, 86400 * spec.days.Value());
        if y + 86400 * spec.days.Value() <= MAX_INT { AddTimes(spec, parts, y + 86400 * spec.days.Value()); }
      }
    }
  }

  lemma AddTimes(spec: Spec, parts: seq<Part>, total: nat)
    requires spec.FitInts() && total <= MAX_INT && |parts| == if spec.timed then 6 else 3
    requires spec.timed ==>
      parts[3..] == Labelled(Time, [spec.hours.Spelled('H'), spec.minutes.Spelled('M'), spec.seconds.Spelled('S')])
    ensures var sum := total + if spec.timed then 3600 * spec.hours.Value() + 60 * spec.minutes.Value() + spec.seconds.Value() else 0;
      ParseParts(parts[3..], total) == if sum <= MAX_INT then Ok(sum) else Err(Overflow)
  {
    hide Text, ParsePart, ParseParts;
    if spec.timed {
      PartIsWorth(spec.hours);
      PartIsWorth(spec.minutes);
      PartIsWorth(spec.seconds);
      var (h, m) := (3600 * spec.hours.Value(), 60 * spec.minutes.Value());
      assert parts[3] == parts[3..][0] && parts[4] == parts[3..][1] && parts[5] == parts[3..][2];
      AddPart(parts, 3, total, h);
      if total + h <= MAX_INT { AddPart(parts, 4, total + h, m); }
      if total + h + m <= MAX_INT {
        AddPart(parts, 5, total + h + m, spec.seconds.Value());
        if total + h + m + spec.seconds.Value() <= MAX_INT { PartsEnd(parts[6..], total + h + m + spec.seconds.Value()); }
      }
    } else {
      PartsEnd(parts[3..], total);
    }
  }

  /** A week is 604800 seconds. */
  lemma ParseWeeks(n: nat)
    requires n <= 0x7FFF_FFFF
    ensures Parse("P" + (Text(n) + "W")) == if 604800 * n <= 0x7FFF_FFFF then Ok(604800 * n) else Err(Overflow)
  {
    hide Text, Match, ParsePart, ParseParts;
    var week := Given(n).Spelled('W');
    assert Text(n) + "W" == week;
    SpelledIsPart(Given(n), 'W');
    MatchesWeek(week);
    PartIsWorth(Given(n));
    var parts := [Part(Week, week)];
    assert parts[0..] == parts;
    AddPart(parts, 0, 0, 604800 * n);
    if 604800 * n <= MAX_INT { PartsEnd(parts[1..], 604800 * n); }
    assert ("P" + week)[0] == 'P' && !IsDigit('P');
  }

  /** A plain number is seconds, and must fit an `int`; no text at all is none. */
  lemma ParseNumber(i: int)
    ensures Parse("") == Ok(0)
    ensures Parse(IntText(i)) == if -0x8000_0000 <= i <= 0x7FFF_FFFF then Ok(i) else Err(OutOfRange)
  {
    hide Text, Match;
    ReadIntText(i);
    if i < 0 { assert IntText(i)[1..] == Text(-i); }
  }

  function NonZero(n: nat): Given {
    if n == 0 then Absent else Given(n)
  }

  /** How a time is written: its days, and the hours, minutes and seconds of the day, each if it is not zero. */
  function Canonical(total: nat): Spec {
    Spec(Absent, Absent, NonZero(total / 86400), total % 86400 != 0,
         NonZero(total / 3600 % 24), NonZero(total / 60 % 60), NonZero(total % 60))
  }

  lemma AmountIsNonZero(n: nat, letter: char)
    ensures Amount(n, letter) == NonZero(n).Spelled(letter)
  {
  }

  lemma DayUnits(q: nat, r: nat)
    requires r < 86400
    ensures (86400 * q + r) / 86400 == q && (86400 * q + r) % 86400 == r
  {
  }

  lemma HourUnits(q: nat, r: nat)
    requires r < 3600
    ensures (3600 * q + r) / 3600 == q
  {
  }

  lemma MinuteUnits(q: nat, r: nat)
    requires r < 60
    ensures (60 * q + r) / 60 == q && (60 * q + r) % 60 == r
  {
  }

  lemma HoursOfDay(q: nat, r: nat)
    requires r < 24
    ensures (24 * q + r) / 24 == q && (24 * q + r) % 24 == r
  {
  }

  /** The quotients of a time that is given in its units. */
  lemma UnitsOf(d: nat, h: nat, m: nat, s: nat)
    requires h < 24 && m < 60 && s < 60
    ensures var total := 86400 * d + 3600 * h + 60 * m + s;
      && total / 86400 == d && total / 3600 % 24 == h && total / 60 % 60 == m && total % 60 == s
      && total % 86400 == 3600 * h + 60 * m + s
      && Count(total, 86400) == d && Count(3600 * h + 60 * m + s, 3600) == h && Count(60 * m + s, 60) == m && Count(s, 1) == s
  {
    var total := 86400 * d + 3600 * h + 60 * m + s;
    DayUnits(d, 3600 * h + 60 * m + s);
    HourUnits(24 * d + h, 60 * m + s);
    HourUnits(h, 60 * m + s);
    HoursOfDay(d, h);
    assert total == 3600 * (24 * d + h) + (60 * m + s);
    MinuteUnits(1440 * d + 60 * h + m, s);
    MinuteUnits(m, s);
    MinuteUnits(24 * d + h, m);
    assert total == 60 * (1440 * d + 60 * h + m) + s;
    assert 1440 * d + 60 * h + m == 60 * (24 * d + h) + m;
  }

  lemma UnitsExist(total: nat) returns (d: nat, h: nat, m: nat, s: nat)
    ensures h < 24 && m < 60 && s < 60 && total == 86400 * d + 3600 * h + 60 * m + s
  {
    var minutes := total / 60;
    var hours := minutes / 60;
    d, h, m, s := hours / 24, hours % 24, minutes % 60, total % 60;
  }

  lemma ComposeUnits(d: nat, h: nat, m: nat, s: nat)
    requires h < 24 && m < 60 && s < 60
    ensures var time := Amount(h, 'H') + Amount(m, 'M') + Amount(s, 'S');
      Compose(86400 * d + 3600 * h + 60 * m + s) == "P" + Amount(d, 'D') + if time == "" then "" else "T" + time
  {
    hide Text, Count, Amount;
    UnitsOf(d, h, m, s);
  }

  /** The parts that are there, as they are written. */
  function Units(d: nat, h: nat, m: nat, s: nat): Spec {
    Spec(Absent, Absent, NonZero(d), 3600 * h + 60 * m + s != 0, NonZero(h), NonZero(m), NonZero(s))
  }

  lemma SpelledUnits(d: nat, h: nat, m: nat, s: nat)
    ensures var time := Amount(h, 'H') + Amount(m, 'M') + Amount(s, 'S');
      Units(d, h, m, s).Spelled() == "P" + Amount(d, 'D') + if time == "" then "" else "T" + time
  {
    hide Text, Amount, NonZero;
    AmountIsNonZero(d, 'D');
    AmountIsNonZero(h, 'H');
    AmountIsNonZero(m, 'M');
    AmountIsNonZero(s, 'S');
    NoTime(h, m, s);
    var time := Amount(h, 'H') + Amount(m, 'M') + Amount(s, 'S');
    AppendAppend(Amount(h, 'H'), Amount(m, 'M'), Amount(s, 'S'));
    AppendAppend("P", Amount(d, 'D'), if time == "" then "" else "T" + time);
    OnlyDays(Amount(d, 'D') + if time == "" then "" else "T" + time);
  }

  lemma ComposeIsCanonical(total: nat)
    ensures Compose(total) == Canonical(total).Spelled() && Canonical(total).Seconds() == total
  {
    hide Text, Compose, Amount;
    var d, h, m, s := UnitsExist(total);
    UnitsOf(d, h, m, s);
    ComposeUnits(d, h, m, s);
    SpelledUnits(d, h, m, s);
    assert Canonical(total) == Units(d, h, m, s);
  }

  /** A time is written in its units, and a time of weeks in the weeks that are full. */
  lemma ComposeMeans(total: nat)
    ensures Compose(total) == Canonical(total).Spelled() && Canonical(total).Seconds() == total
    ensures var spec := Canonical(total); spec.hours.Value() < 24 && spec.minutes.Value() < 60 && spec.seconds.Value() < 60
    ensures ComposeWeeks(total) == "P" + (Text(total / 604800) + "W")
  {
    hide Text, Compose;
    ComposeIsCanonical(total);
  }
}
