/** How croncpp.h reads the six fields of an expression into bitsets, with 8-bit numbers. */
module CronFields {
  import opened Results
  import opened OrderedKeys
  import opened Decimal
  import opened Cron

  const BYTE := 256
  const ULONG := 0x1_0000_0000_0000_0000

  /** `None` is the exception bad_cronexpr. */
  type Accepted<+T> = Option<T>

  /* Text */

  /** The text before the first delimiter. */
  function Until(text: string, delimiter: char): (r: string)
    ensures r <= text && delimiter !in r
    ensures |r| < |text| ==> text[|r|] == delimiter
  {
    if text == [] || text[0] == delimiter then "" else [text[0]] + Until(text[1..], delimiter)
  }

  /** The pieces that `getline` gives: a delimiter at the end adds no empty piece. */
  function Split(text: string, delimiter: char): (r: seq<string>)
    ensures text == [] <==> r == []
    decreases |text|
  {
    if text == [] then []
    else
      var piece := Until(text, delimiter);
      if |piece| == |text| then [piece] else [piece] + Split(text[|piece| + 1..], delimiter)
  }

  predicate IsBlank(c: char) {
    c == ' ' || 9 <= c as int <= 13
  }

  function SkipBlanks(s: string): string {
    if s != [] && IsBlank(s[0]) then SkipBlanks(s[1..]) else s
  }

  /** `to_cron_int`: `std::stoul`, cut down to eight bits. What follows the digits is ignored. */
  function ToCronInt(text: string): (r: Accepted<nat>)
    ensures r.Some? ==> r.value < BYTE
  {
    var s := SkipBlanks(text);
    var negative := s != [] && s[0] == '-';
    var digits := Digits(if s != [] && (s[0] == '-' || s[0] == '+') then s[1..] else s);
    if digits == "" || ValueOf(digits) >= ULONG then None
    else Some((if negative then ULONG - ValueOf(digits) else ValueOf(digits)) % BYTE)
  }

  /* One part of a field */

  function MakeRange(field: string, minval: nat, maxval: nat): (r: Accepted<(nat, nat)>)
    requires minval <= maxval
    ensures r.Some? ==> minval <= r.value.0 <= r.value.1 <= maxval
  {
    var range :- Ends(field, minval, maxval);
    if range.0 > maxval || range.1 > maxval || range.0 < minval || range.1 < minval || range.0 > range.1 then None
    else Some(range)
  }

  function Ends(field: string, minval: nat, maxval: nat): Accepted<(nat, nat)> {
    if field == "*" then Some((minval, maxval))
    else if '-' !in field then
      var first :- ToCronInt(field);
      Some((first, first))
    else
      var parts := Split(field, '-');
      if |parts| != 2 then None
      else
        var first :- ToCronInt(parts[0]);
        var last :- ToCronInt(parts[1]);
        Some((first, last))
  }

  /** From `first` to `last` in steps. */
  datatype Part = Part(first: nat, last: nat, step: nat)

  function MakePart(field: string, minval: nat, maxval: nat): (r: Accepted<Part>)
    requires minval <= maxval
    ensures r.Some? ==> minval <= r.value.first <= r.value.last <= maxval && 1 <= r.value.step < BYTE
  {
    if '/' !in field then
      var range :- MakeRange(field, minval, maxval);
      Some(Part(range.0, range.1, 1))
    else
      var parts := Split(field, '/');
      if |parts| != 2 then None
      else
        var range :- MakeRange(parts[0], minval, maxval);
        var step :- ToCronInt(parts[1]);
        if step == 0 then None
        else Some(Part(range.0, if '-' in parts[0] then range.1 else maxval, step))
  }

  /** `x` is reached from `first` in whole steps. */
  predicate OnStep(x: int, first: int, step: nat)
    requires step > 0
  {
    first <= x && (x - first) % step == 0
  }

  /** The numbers that a part describes. */
  function Described(part: Part): set<nat>
    requires part.step > 0
  {
    set x: nat | x <= part.last && OnStep(x, part.first, part.step)
  }

  /* The loop that sets the bits: its counter is an 8-bit number */

  /** The bits that are set from `i` on. */
  function Visited8(i: nat, last: nat, step: nat): (r: set<nat>)
    requires i < BYTE && last < 60 && 1 <= step < BYTE
    ensures forall x :: x in r ==> x <= last
    ensures i <= last ==> i in r
    decreases if i > last then 0 else if step <= 196 then last + 1 - i else i + 1
  {
    if i > last then {} else {i} + Visited8((i + step) % BYTE, last, step)
  }

  lemma NextStep(x: int, i: int, step: nat)
    requires step > 0
    ensures OnStep(x, i, step) <==> x == i || OnStep(x, i + step, step)
  {
    var d := x - i;
    if d >= step {
      Remainder(d - step, step);
    } else if 0 < d {
      Unique(d, 0, d, step);
    }
  }

  lemma Remainder(a: int, m: int)
    requires m > 0
    ensures (a + m) % m == a % m
  {
    Unique(a + m, a / m + 1, a % m, m);
  }

  lemma Unique(x: int, q: int, r: int, m: int)
    requires m > 0 && x == q * m + r && 0 <= r < m
    ensures x % m == r
  {
    var p := x / m;
    assert (p - q) * m == r - x % m;
    if p > q { LeastMultiple(p - q, m); } else if p < q { LeastMultiple(q - p, m); }
  }

  lemma LeastMultiple(k: int, m: int)
    requires k >= 1 && m > 0
    ensures k * m >= m && (-k) * m <= -m
  {
  }

  /** While the counter does not wrap, the bits are those of the progression. */
  lemma {:induction false} VisitedSteps(i: nat, last: nat, step: nat)
    requires i < BYTE && last < 60 && 1 <= step < BYTE && (i + step < BYTE || step <= 196)
    ensures Visited8(i, last, step) == set x: nat | x <= last && OnStep(x, i, step)
    decreases if i > last then 0 else last + 1 - i
  {
    hide OnStep, Visited8;
    VisitedUnfold(i, last, step);
    if i <= last {
      assert (i + step) % BYTE == i + step;
      if i + step <= last {
        VisitedSteps(i + step, last, step);
      } else {
        VisitedUnfold(i + step, last, step);
      }
      forall x: nat | x <= last ensures OnStep(x, i, step) <==> x == i || OnStep(x, i + step, step) {
        NextStep(x, i, step);
      }
      StepsAhead(i + step, last, step);
    }
    StepsAhead(i, last, step);
  }

  lemma StepsAhead(i: int, last: nat, step: nat)
    requires step > 0
    ensures i > last ==> forall x :: x <= last ==> !OnStep(x, i, step)
  {
  }

  /**
   * The bits of a part are exactly those it describes if and only if its first step does not reach 256. For steps up to
   * 196 it never does.
   */
  lemma VisitedExactly(i: nat, last: nat, step: nat)
    requires i <= last < 60 && 1 <= step < BYTE
    ensures Visited8(i, last, step) == (set x: nat | x <= last && OnStep(x, i, step)) <==> i + step < BYTE
    ensures step <= 196 ==> i + step < BYTE
  {
    hide Visited8;
    if i + step < BYTE {
      VisitedSteps(i, last, step);
    } else {
      var back := i + step - BYTE;
      assert (i + step) % BYTE == back;
      VisitedUnfold(i, last, step);
      VisitedUnfold(back, last, step);
      assert !OnStep(back, i, step);
    }
  }

  /* Whole fields */

  /** The parts between the commas, in order, up to the first that is bad. */
  function MakeParts(fields: seq<string>, minval: nat, maxval: nat): (r: Accepted<seq<Part>>)
    requires minval <= maxval
    ensures r.Some? ==> |r.value| == |fields| && AreParts(r.value, minval, maxval)
  {
    if fields == [] then Some([])
    else
      var part :- MakePart(fields[0], minval, maxval);
      var more :- MakeParts(fields[1..], minval, maxval);
      Some([part] + more)
  }

  predicate IsPart(part: Part, minval: nat, maxval: nat) {
    minval <= part.first <= part.last <= maxval && 1 <= part.step < BYTE
  }

  predicate AreParts(parts: seq<Part>, minval: nat, maxval: nat) {
    forall i :: 0 <= i < |parts| ==> IsPart(parts[i], minval, maxval)
  }

  /** The parts of a field. It must not be empty, nor end with a comma. */
  function FieldParts(value: string, minval: nat, maxval: nat): (r: Accepted<seq<Part>>)
    requires minval <= maxval
    ensures r.Some? ==> r.value != [] && AreParts(r.value, minval, maxval)
  {
    if value == "" || value[|value| - 1] == ',' then None else MakeParts(Split(value, ','), minval, maxval)
  }

  /** The bits that the loops set for the parts. */
  function PartsBits(parts: seq<Part>, minval: nat, maxval: nat): set<nat>
    requires minval <= maxval < minval + 60 && AreParts(parts, minval, maxval)
  {
    if parts == [] then {}
    else
      assert IsPart(parts[0], minval, maxval);
      Visited8(parts[0].first - minval, parts[0].last - minval, parts[0].step) + PartsBits(parts[1..], minval, maxval)
  }

  /** A field has a bit set, and none outside its range, whatever the increments. */
  lemma {:induction false} BitsInField(parts: seq<Part>, minval: nat, maxval: nat)
    requires minval <= maxval < minval + 60 && AreParts(parts, minval, maxval)
    ensures forall x :: x in PartsBits(parts, minval, maxval) ==> x <= maxval - minval
    ensures parts != [] ==> PartsBits(parts, minval, maxval) != {}
  {
    if parts != [] {
      BitsInField(parts[1..], minval, maxval);
      assert parts[0].first - minval in PartsBits(parts, minval, maxval);
    }
  }

  /** The part's first step stays below 256 when counted from the field's minimum. */
  predicate StepsFit(part: Part, minval: nat) {
    part.first + part.step < minval + BYTE
  }

  lemma PartDescribed(part: Part, minval: nat, maxval: nat, x: nat)
    requires IsPart(part, minval, maxval) && maxval < minval + 60 && StepsFit(part, minval)
    ensures x in Visited8(part.first - minval, part.last - minval, part.step) <==> x + minval in Described(part)
  {
    hide OnStep, Visited8;
    VisitedSteps(part.first - minval, part.last - minval, part.step);
    StepShifted(x, part.first, part.step, minval);
  }

  lemma StepShifted(x: int, first: int, step: nat, minval: int)
    requires step > 0
    ensures OnStep(x + minval, first, step) <==> OnStep(x, first - minval, step)
  {
    assert (x + minval) - first == x - (first - minval);
  }

  /** The bits of a field are exactly the union of what its parts describe. */
  lemma {:induction false} FieldIsUnion(parts: seq<Part>, minval: nat, maxval: nat, x: nat)
    requires minval <= maxval < minval + 60
    requires AreParts(parts, minval, maxval) && forall i :: 0 <= i < |parts| ==> StepsFit(parts[i], minval)
    ensures x in PartsBits(parts, minval, maxval) <==>
      exists i :: 0 <= i < |parts| && x + minval in Described(parts[i])
  {
    hide Described, Visited8, StepsFit;
    if parts != [] {
      PartDescribed(parts[0], minval, maxval, x);
      FieldIsUnion(parts[1..], minval, maxval, x);
      if i :| 0 <= i < |parts| && x + minval in Described(parts[i]) {
        if i > 0 { assert parts[1..][i - 1] == parts[i]; }
      }
      if x in PartsBits(parts[1..], minval, maxval) {
        var i :| 0 <= i < |parts| - 1 && x + minval in Described(parts[1..][i]);
        assert parts[i + 1] == parts[1..][i];
      }
    }
  }

  lemma ModerateStepsFit(part: Part, minval: nat, maxval: nat)
    requires IsPart(part, minval, maxval) && maxval < minval + 60 && part.step <= 196
    ensures StepsFit(part, minval)
  {
  }

  /** `set_cron_field`: the bits of a field. */
  function FieldBits(value: string, minval: nat, maxval: nat): (r: Accepted<set<nat>>)
    requires minval <= maxval < minval + 60
    ensures r.Some? ==> Bits(r.value, maxval - minval + 1)
  {
    var parts :- FieldParts(value, minval, maxval);
    BitsInField(parts, minval, maxval);
    Some(PartsBits(parts, minval, maxval))
  }

  /** For increments up to 196, the bits of a field are the union of what stands between its commas. */
  lemma FieldBitsAreUnion(value: string, minval: nat, maxval: nat, x: nat)
    requires minval <= maxval < minval + 60 && FieldParts(value, minval, maxval).Some?
    requires forall i :: 0 <= i < |FieldParts(value, minval, maxval).value| ==>
      FieldParts(value, minval, maxval).value[i].step <= 196
    ensures FieldBits(value, minval, maxval).Some?
    ensures x in FieldBits(value, minval, maxval).value <==>
      exists i :: 0 <= i < |FieldParts(value, minval, maxval).value|
        && x + minval in Described(FieldParts(value, minval, maxval).value[i])
  {
    hide FieldParts, PartsBits, Described;
    var parts := FieldParts(value, minval, maxval).value;
    forall i | 0 <= i < |parts| ensures StepsFit(parts[i], minval) { ModerateStepsFit(parts[i], minval, maxval); }
    FieldIsUnion(parts, minval, maxval, x);
  }

  /** The loops over the parts and over the bits of each, with an 8-bit counter. */
  method SetCronField(value: string, minval: nat, maxval: nat) returns (r: Accepted<set<nat>>)
    requires minval <= maxval < minval + 60
    ensures r == FieldBits(value, minval, maxval)
  {
    hide MakePart, Split, Visited8, MakeParts, Joined;
    if |value| > 0 && value[|value| - 1] == ',' {
      return None;
    }
    var fields := Split(value, ',');
    if fields == [] {
      return None;
    }
    var target: set<nat> := {};
    var k := 0;
    TakeAll(fields);
    JoinedNothing(MakeParts(fields, minval, maxval), minval, maxval);
    while k < |fields|
      invariant 0 <= k <= |fields|
      invariant FieldBits(value, minval, maxval) == Joined(target, MakeParts(fields[k..], minval, maxval), minval, maxval)
    {
      PartsUnfold(fields, k, minval, maxval);
      var part := MakePart(fields[k], minval, maxval);
      if part.None? {
        JoinedBad(target, minval, maxval);
        return None;
      }
      var i := part.value.first - minval;
      ghost var before := target;
      ghost var start := i;
      while i <= part.value.last - minval
        invariant 0 <= i < BYTE
        invariant before + Visited8(start, part.value.last - minval, part.value.step)
          == target + Visited8(i, part.value.last - minval, part.value.step)
        decreases if i > part.value.last - minval then 0
                  else if part.value.step <= 196 then part.value.last - minval + 1 - i else i + 1
      {
        VisitedUnfold(i, part.value.last - minval, part.value.step);
        target := target + {i};
        i := (i + part.value.step) % BYTE;
      }
      VisitedUnfold(i, part.value.last - minval, part.value.step);
      assert target == before + Visited8(start, part.value.last - minval, part.value.step);
      JoinedBad(before, minval, maxval);
      JoinedBad(target, minval, maxval);
      JoinedMore(before, part.value, MakeParts(fields[k + 1..], minval, maxval), minval, maxval);
      k := k + 1;
    }
    JoinedEnd(target, minval, maxval);
    return Some(target);
  }

  /** The bits that are set once the remaining parts are added to those set before. */
  function Joined(before: set<nat>, parts: Accepted<seq<Part>>, minval: nat, maxval: nat): Accepted<set<nat>>
    requires minval <= maxval < minval + 60
    requires parts.Some? ==> AreParts(parts.value, minval, maxval)
  {
    if parts.Some? then Some(before + PartsBits(parts.value, minval, maxval)) else None
  }

  lemma JoinedNothing(parts: Accepted<seq<Part>>, minval: nat, maxval: nat)
    requires minval <= maxval < minval + 60
    requires parts.Some? ==> AreParts(parts.value, minval, maxval)
    ensures Joined({}, parts, minval, maxval) == if parts.Some? then Some(PartsBits(parts.value, minval, maxval)) else None
  {
    if parts.Some? { assert {} + PartsBits(parts.value, minval, maxval) == PartsBits(parts.value, minval, maxval); }
  }

  lemma JoinedEnd(target: set<nat>, minval: nat, maxval: nat)
    requires minval <= maxval < minval + 60
    ensures MakeParts([], minval, maxval) == Some([]) && Joined(target, Some([]), minval, maxval) == Some(target)
  {
    assert target + {} == target;
  }

  lemma JoinedBad(target: set<nat>, minval: nat, maxval: nat)
    requires minval <= maxval < minval + 60
    ensures Joined(target, None, minval, maxval) == None
  {
  }

  lemma VisitedUnfold(i: nat, last: nat, step: nat)
    requires i < BYTE && last < 60 && 1 <= step < BYTE
    ensures Visited8(i, last, step) == if i > last then {} else {i} + Visited8((i + step) % BYTE, last, step)
  {
  }

  lemma PartsUnfold(fields: seq<string>, k: nat, minval: nat, maxval: nat)
    requires k < |fields| && minval <= maxval
    ensures MakeParts(fields[k..], minval, maxval) ==
      var part := MakePart(fields[k], minval, maxval);
      var more := MakeParts(fields[k + 1..], minval, maxval);
      if part.Some? && more.Some? then Some([part.value] + more.value) else None
  {
    hide MakePart;
    assert fields[k..][1..] == fields[k + 1..];
  }

  lemma JoinedMore(before: set<nat>, part: Part, more: Accepted<seq<Part>>, minval: nat, maxval: nat)
    requires minval <= maxval < minval + 60 && IsPart(part, minval, maxval)
    requires more.Some? ==> AreParts(more.value, minval, maxval)
    ensures more.Some? ==>
      Joined(before, Some([part] + more.value), minval, maxval) ==
      Joined(before + Visited8(part.first - minval, part.last - minval, part.step), more, minval, maxval)
  {
    hide Visited8;
    if more.Some? {
      assert ([part] + more.value)[1..] == more.value;
      var bits := Visited8(part.first - minval, part.last - minval, part.step);
      assert before + (bits + PartsBits(more.value, minval, maxval)) == before + bits + PartsBits(more.value, minval, maxval);
    }
  }
}
