/** What the text of an expression means: which numbers each of its six fields describes. */
module CronMeaning {
  import opened Results
  import opened OrderedKeys
  import opened Decimal
  import opened Cron
  import opened CronFields

  /* Pieces of text */

  lemma {:induction false} UntilIs(s: string, delimiter: char, rest: string)
    requires delimiter !in s && (rest == "" || rest[0] == delimiter)
    ensures Until(s + rest, delimiter) == s
  {
    if s == "" {
      assert s + rest == rest;
    } else {
      assert (s + rest)[1..] == s[1..] + rest;
      UntilIs(s[1..], delimiter, rest);
    }
  }

  lemma SplitOne(s: string, delimiter: char)
    requires s != "" && delimiter !in s
    ensures Split(s, delimiter) == [s]
  {
    UntilIs(s, delimiter, "");
    assert s + "" == s;
  }

  lemma SplitMore(s: string, delimiter: char, rest: string)
    requires delimiter !in s
    ensures Split(s + ([delimiter] + rest), delimiter) == [s] + Split(rest, delimiter)
  {
    UntilIs(s, delimiter, [delimiter] + rest);
    assert (s + ([delimiter] + rest))[|s| + 1..] == rest;
  }

  /** Pieces with a delimiter between them. */
  function JoinedBy(pieces: seq<string>, delimiter: char): string {
    if pieces == [] then ""
    else if |pieces| == 1 then pieces[0]
    else pieces[0] + ([delimiter] + JoinedBy(pieces[1..], delimiter))
  }

  lemma {:induction false} SplitJoined(pieces: seq<string>, delimiter: char)
    requires forall i :: 0 <= i < |pieces| ==> pieces[i] != "" && delimiter !in pieces[i]
    ensures Split(JoinedBy(pieces, delimiter), delimiter) == pieces
  {
    hide Split;
    if pieces == [] {
      NoText(delimiter);
    } else if |pieces| == 1 {
      SplitOne(pieces[0], delimiter);
    } else {
      SplitMore(pieces[0], delimiter, JoinedBy(pieces[1..], delimiter));
      SplitJoined(pieces[1..], delimiter);
      assert pieces == [pieces[0]] + pieces[1..];
    }
  }

  lemma NoText(delimiter: char)
    ensures Split("", delimiter) == []
  {
  }

  /** A numeral is taken modulo 256, and refused from 2^64 on. */
  lemma CronIntOfText(n: nat)
    ensures ToCronInt(Text(n)) == if n < 0x1_0000_0000_0000_0000 then Some(n % 256) else None
  {
    hide Text, Digits;
    var s := Text(n);
    assert IsDigit(s[0]);
    assert s + "" == s;
    DigitsEnd(s, "");
    ValueOfText(n);
  }

  predicate BlankCharacter(c: char) {
    c == ' ' || c == '\t' || c == '\n' || c == '\r' || c as int == 11 || c as int == 12
  }

  lemma {:induction false} SkipsBlanks(blanks: string, s: string)
    requires (forall i :: 0 <= i < |blanks| ==> BlankCharacter(blanks[i])) && (s == "" || !BlankCharacter(s[0]))
    ensures SkipBlanks(blanks + s) == s
  {
    if blanks == "" {
      assert blanks + s == s;
    } else {
      assert (blanks + s)[1..] == blanks[1..] + s;
      SkipsBlanks(blanks[1..], s);
    }
  }

  /**
   * What is read of any text: behind white space and a sign, the digits up to the first other character, as a 64-bit number of
   * which the last eight bits count. Text without digits, and numbers from 2^64 on, are refused.
   */
  lemma CronIntReads(blanks: string, sign: string, digits: string, rest: string)
    requires forall i :: 0 <= i < |blanks| ==> BlankCharacter(blanks[i])
    requires (sign == "" || sign == "+" || sign == "-") && AllDigits(digits) && (rest == "" || !IsDigit(rest[0]))
    requires sign == "" && digits == "" && rest != "" ==> rest[0] != '+' && rest[0] != '-' && !BlankCharacter(rest[0])
    ensures ToCronInt(blanks + (sign + (digits + rest))) ==
      if digits == "" || ValueOf(digits) >= 0x1_0000_0000_0000_0000 then None
      else if sign == "-" then Some((0x1_0000_0000_0000_0000 - ValueOf(digits)) % 256)
      else Some(ValueOf(digits) % 256)
  {
    hide Digits, ValueOf, SkipBlanks, AllDigits;
    var s := sign + (digits + rest);
    SignedBegins(sign, digits, rest);
    SkipsBlanks(blanks, s);
    DigitsEnd(digits, rest);
  }

  lemma SignedBegins(sign: string, digits: string, rest: string)
    requires (sign == "" || sign == "+" || sign == "-") && AllDigits(digits)
    requires sign == "" && digits == "" && rest != "" ==> rest[0] != '+' && rest[0] != '-' && !BlankCharacter(rest[0])
    ensures var s := sign + (digits + rest);
      && (s == "" || !BlankCharacter(s[0]))
      && (sign == "" ==> s == digits + rest && (s == "" || (s[0] != '+' && s[0] != '-')))
      && (sign != "" ==> s != "" && s[0] == sign[0] && s[1..] == digits + rest)
  {
    assert "" + (digits + rest) == digits + rest;
    if digits != "" { assert (digits + rest)[0] == digits[0]; } else { assert digits + rest == rest; }
  }

  /* One item */

  /** What may stand between the commas of a field. */
  datatype Item =
    | Star
    | One(a: nat)
    | Range(a: nat, b: nat)
    | StarStep(k: nat)
    | OneStep(a: nat, k: nat)
    | RangeStep(a: nat, b: nat, k: nat)

  function ItemText(item: Item): (s: string)
    ensures s != ""
  {
    match item
    case Star => "*"
    case One(a) => Text(a)
    case Range(a, b) => Text(a) + ("-" + Text(b))
    case StarStep(k) => "*" + ("/" + Text(k))
    case OneStep(a, k) => Text(a) + ("/" + Text(k))
    case RangeStep(a, b, k) => (Text(a) + ("-" + Text(b))) + ("/" + Text(k))
  }

  /** The numbers from `a` to `b` in steps of `k`. */
  ghost predicate InSteps(x: int, a: int, b: int, k: int) {
    a <= x <= b && (k != 0 ==> (x - a) % k == 0)
  }

  /** Whether the item describes `x`, in a field from `lo` to `hi`. */
  ghost predicate Describes(item: Item, lo: nat, hi: nat, x: int) {
    match item
    case Star => lo <= x <= hi
    case One(a) => x == a
    case Range(a, b) => a <= x <= b
    case StarStep(k) => InSteps(x, lo, hi, k)
    case OneStep(a, k) => InSteps(x, a, hi, k)
    case RangeStep(a, b, k) => InSteps(x, a, b, k)
  }

  /** Its numbers are in the field and ascend, and its step is not zero. */
  predicate Valid(item: Item, lo: nat, hi: nat) {
    match item
    case Star => true
    case One(a) => lo <= a <= hi
    case Range(a, b) => lo <= a <= b <= hi
    case StarStep(k) => k != 0
    case OneStep(a, k) => lo <= a <= hi && k != 0
    case RangeStep(a, b, k) => lo <= a <= b <= hi && k != 0
  }

  /** The item with its numbers as they are read. */
  function Read(item: Item): Item {
    match item
    case Star => Star
    case One(a) => One(a % 256)
    case Range(a, b) => Range(a % 256, b % 256)
    case StarStep(k) => StarStep(k % 256)
    case OneStep(a, k) => OneStep(a % 256, k % 256)
    case RangeStep(a, b, k) => RangeStep(a % 256, b % 256, k % 256)
  }

  predicate Readable(item: Item) {
    match item
    case Star => true
    case One(a) => a < 0x1_0000_0000_0000_0000
    case Range(a, b) => a < 0x1_0000_0000_0000_0000 && b < 0x1_0000_0000_0000_0000
    case StarStep(k) => k < 0x1_0000_0000_0000_0000
    case OneStep(a, k) => a < 0x1_0000_0000_0000_0000 && k < 0x1_0000_0000_0000_0000
    case RangeStep(a, b, k) => a < 0x1_0000_0000_0000_0000 && b < 0x1_0000_0000_0000_0000 && k < 0x1_0000_0000_0000_0000
  }

  /** The first step does not reach 256, counted from the field's minimum; from there on the 8-bit counter starts again. */
  predicate StepFits(item: Item, lo: nat) {
    match item
    case StarStep(k) => k < 256
    case OneStep(a, k) => a + k < lo + 256
    case RangeStep(a, b, k) => a + k < lo + 256
    case _ => true
  }

  function PartOf(item: Item, lo: nat, hi: nat): Part {
    match item
    case Star => Part(lo, hi, 1)
    case One(a) => Part(a, a, 1)
    case Range(a, b) => Part(a, b, 1)
    case StarStep(k) => Part(lo, hi, k)
    case OneStep(a, k) => Part(a, hi, k)
    case RangeStep(a, b, k) => Part(a, b, k)
  }

  lemma NoMark(n: nat, mark: char)
    requires !IsDigit(mark)
    ensures mark !in Text(n)
  {
    assert AllDigits(Text(n));
  }

  lemma Pair(s: string, mark: char, t: string)
    requires mark !in s && mark !in t && t != ""
    ensures Split(s + ([mark] + t), mark) == [s, t] && mark in s + ([mark] + t)
  {
    hide Split;
    SplitMore(s, mark, t);
    SplitOne(t, mark);
    assert (s + ([mark] + t))[|s|] == mark;
  }

  lemma RangeOfOne(a: nat, lo: nat, hi: nat)
    requires lo <= hi && a < 0x1_0000_0000_0000_0000
    ensures MakeRange(Text(a), lo, hi) == if lo <= a % 256 <= hi then Some((a % 256, a % 256)) else None
  {
    hide Text, ToCronInt;
    NoMark(a, '-');
    assert IsDigit(Text(a)[0]) && "*"[0] == '*';
    CronIntOfText(a);
  }

  lemma RangeOfTwo(a: nat, b: nat, lo: nat, hi: nat)
    requires lo <= hi && a < 0x1_0000_0000_0000_0000 && b < 0x1_0000_0000_0000_0000
    ensures MakeRange(Text(a) + ("-" + Text(b)), lo, hi) ==
      if lo <= a % 256 <= b % 256 <= hi then Some((a % 256, b % 256)) else None
    ensures '-' in Text(a) + ("-" + Text(b)) && '/' !in Text(a) + ("-" + Text(b))
  {
    hide Text, ToCronInt, Split;
    NoMark(a, '-');
    NoMark(b, '-');
    NoMark(a, '/');
    NoMark(b, '/');
    Pair(Text(a), '-', Text(b));
    assert IsDigit((Text(a) + ("-" + Text(b)))[0]);
    CronIntOfText(a);
    CronIntOfText(b);
  }

  lemma StarRange(lo: nat, hi: nat)
    requires lo <= hi
    ensures MakeRange("*", lo, hi) == Some((lo, hi)) && '-' !in "*" && '/' !in "*"
  {
  }

  lemma PartWithStep(range: string, k: nat, lo: nat, hi: nat)
    requires lo <= hi && '/' !in range && k < 0x1_0000_0000_0000_0000
    ensures MakePart(range + ("/" + Text(k)), lo, hi) ==
      if MakeRange(range, lo, hi).Some? && k % 256 != 0 then
        Some(Part(MakeRange(range, lo, hi).value.0, if '-' in range then MakeRange(range, lo, hi).value.1 else hi, k % 256))
      else None
  {
    hide Text, ToCronInt, Split, MakeRange;
    NoMark(k, '/');
    Pair(range, '/', Text(k));
    CronIntOfText(k);
  }

  lemma PartPlain(range: string, lo: nat, hi: nat)
    requires lo <= hi && '/' !in range
    ensures MakePart(range, lo, hi) ==
      var ends := MakeRange(range, lo, hi);
      if ends.Some? then Some(Part(ends.value.0, ends.value.1, 1)) else None
  {
    hide MakeRange;
  }

  /** An item is accepted exactly if it is valid as it is read. */
  lemma PartOfItem(item: Item, lo: nat, hi: nat)
    requires lo <= hi && Readable(item)
    ensures MakePart(ItemText(item), lo, hi) == if Valid(Read(item), lo, hi) then Some(PartOf(Read(item), lo, hi)) else None
  {
    hide Text, MakePart, MakeRange;
    match item
    case Star =>
      StarRange(lo, hi);
      PartPlain("*", lo, hi);
    case One(a) =>
      RangeOfOne(a, lo, hi);
      NoMark(a, '/');
      PartPlain(Text(a), lo, hi);
    case Range(a, b) =>
      RangeOfTwo(a, b, lo, hi);
      PartPlain(Text(a) + ("-" + Text(b)), lo, hi);
    case StarStep(k) =>
      StarRange(lo, hi);
      PartWithStep("*", k, lo, hi);
    case OneStep(a, k) =>
      RangeOfOne(a, lo, hi);
      NoMark(a, '/');
      NoMark(a, '-');
      PartWithStep(Text(a), k, lo, hi);
    case RangeStep(a, b, k) =>
      RangeOfTwo(a, b, lo, hi);
      PartWithStep(Text(a) + ("-" + Text(b)), k, lo, hi);
  }

  lemma PartMeans(item: Item, lo: nat, hi: nat, x: nat)
    requires lo <= hi < lo + 60 && Valid(item, lo, hi)
    ensures x in Described(PartOf(item, lo, hi)) <==> Describes(item, lo, hi, x)
  {
  }

  /* Fields */

  /** Items with commas between them. */
  function FieldText(items: seq<Item>): string {
    JoinedBy(ItemTexts(items), ',')
  }

  function ItemTexts(items: seq<Item>): (r: seq<string>)
    ensures |r| == |items| && forall i :: 0 <= i < |r| ==> r[i] == ItemText(items[i])
  {
    seq(|items|, i requires 0 <= i < |items| => ItemText(items[i]))
  }

  predicate AllReadable(items: seq<Item>) {
    forall i :: 0 <= i < |items| ==> Readable(items[i])
  }

  predicate AllValid(items: seq<Item>, lo: nat, hi: nat) {
    forall i :: 0 <= i < |items| ==> Valid(Read(items[i]), lo, hi)
  }

  predicate AllStepsFit(items: seq<Item>, lo: nat) {
    forall i :: 0 <= i < |items| ==> StepFits(Read(items[i]), lo)
  }

  /** Whether one of the items describes `x`. */
  ghost predicate Means(items: seq<Item>, lo: nat, hi: nat, x: int) {
    exists i :: 0 <= i < |items| && Describes(Read(items[i]), lo, hi, x)
  }

  lemma NoComma(item: Item)
    ensures ',' !in ItemText(item)
  {
    hide Text;
    match item
    case Star =>
    case One(a) => NoMark(a, ',');
    case Range(a, b) => NoMark(a, ','); NoMark(b, ',');
    case StarStep(k) => NoMark(k, ',');
    case OneStep(a, k) => NoMark(a, ','); NoMark(k, ',');
    case RangeStep(a, b, k) => NoMark(a, ','); NoMark(b, ','); NoMark(k, ',');
  }

  lemma {:induction false} JoinedEndsWell(pieces: seq<string>, mark: char)
    requires pieces != [] && forall i :: 0 <= i < |pieces| ==> pieces[i] != "" && mark !in pieces[i]
    ensures var s := JoinedBy(pieces, mark); s != "" && s[|s| - 1] != mark
  {
    if |pieces| > 1 { JoinedEndsWell(pieces[1..], mark); }
  }

  lemma {:induction false} PartsOfItems(items: seq<Item>, lo: nat, hi: nat)
    requires lo <= hi && AllReadable(items)
    ensures MakeParts(ItemTexts(items), lo, hi) ==
      if AllValid(items, lo, hi) then Some(PartsAre(items, lo, hi)) else None
  {
    hide Valid, Readable, Read, MakePart, PartOf;
    if items != [] {
      PartOfItem(items[0], lo, hi);
      PartsOfItems(items[1..], lo, hi);
      assert ItemTexts(items)[1..] == ItemTexts(items[1..]);
      assert PartsAre(items, lo, hi) == [PartOf(Read(items[0]), lo, hi)] + PartsAre(items[1..], lo, hi);
      assert AllValid(items, lo, hi) <==> Valid(Read(items[0]), lo, hi) && AllValid(items[1..], lo, hi) by {
        assert forall i :: 1 <= i < |items| ==> items[i] == items[1..][i - 1];
      }
    }
  }

  function PartsAre(items: seq<Item>, lo: nat, hi: nat): (r: seq<Part>)
    ensures |r| == |items| && forall i :: 0 <= i < |r| ==> r[i] == PartOf(Read(items[i]), lo, hi)
  {
    seq(|items|, i requires 0 <= i < |items| => PartOf(Read(items[i]), lo, hi))
  }

  /** A field is accepted exactly if all its items are valid, and its bits are then the numbers that an item describes. */
  lemma FieldMeans(items: seq<Item>, lo: nat, hi: nat)
    requires lo <= hi < lo + 60 && items != [] && AllReadable(items)
    ensures FieldBits(FieldText(items), lo, hi).Some? <==> AllValid(items, lo, hi)
    ensures AllValid(items, lo, hi) && AllStepsFit(items, lo) ==>
      forall x: nat :: x in FieldBits(FieldText(items), lo, hi).value <==> Means(items, lo, hi, x + lo)
  {
    hide Split, MakeParts, PartsBits, AllReadable, Describes, StepFits, Valid, Read, PartOf, ItemText, Described;
    var pieces := ItemTexts(items);
    forall i | 0 <= i < |pieces| ensures pieces[i] != "" && ',' !in pieces[i] { NoComma(items[i]); }
    JoinedEndsWell(pieces, ',');
    SplitJoined(pieces, ',');
    PartsOfItems(items, lo, hi);
    if AllValid(items, lo, hi) && AllStepsFit(items, lo) {
      forall x: nat ensures x in PartsBits(PartsAre(items, lo, hi), lo, hi) <==> Means(items, lo, hi, x + lo) {
        BitsMean(items, lo, hi, x);
      }
    }
  }

  lemma BitsMean(items: seq<Item>, lo: nat, hi: nat, x: nat)
    requires lo <= hi < lo + 60 && AllValid(items, lo, hi) && AllStepsFit(items, lo)
    requires CronFields.AreParts(PartsAre(items, lo, hi), lo, hi)
    ensures x in PartsBits(PartsAre(items, lo, hi), lo, hi) <==> Means(items, lo, hi, x + lo)
  {
    hide PartsBits, Describes, Read, Described;
    var parts := PartsAre(items, lo, hi);
    forall i | 0 <= i < |parts| ensures StepsFit(parts[i], lo) { FitsPart(Read(items[i]), lo, hi); }
    forall i | 0 <= i < |parts| ensures x + lo in Described(parts[i]) <==> Describes(Read(items[i]), lo, hi, x + lo) {
      PartMeans(Read(items[i]), lo, hi, x + lo);
    }
    FieldIsUnion(parts, lo, hi, x);
  }

  lemma FitsPart(item: Item, lo: nat, hi: nat)
    requires lo <= hi < lo + 60 && Valid(item, lo, hi) && StepFits(item, lo)
    ensures StepsFit(PartOf(item, lo, hi), lo)
  {
  }
}
