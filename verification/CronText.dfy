/** What a whole expression means, with its blanks, and with weekdays and months that are named. */
module CronText {
  import opened Results
  import opened OrderedKeys
  import opened Decimal
  import opened Cron
  import opened CronFields
  import opened CronExpression
  import opened CronMeaning
  import opened Calendar
  import opened CronSteps
  import opened CronTheorems

  /* Blanks between the fields */

  function Blanks(n: nat): string {
    if n == 0 then "" else " " + Blanks(n - 1)
  }

  /** The fields with one blank or more between them, and any number before the first and after the last. */
  function Laid(fields: seq<string>, gaps: seq<nat>): string
    requires |gaps| == |fields| + 1
  {
    Blanks(gaps[0]) +
    if fields == [] then "" else fields[0] + if |fields| == 1 then Blanks(gaps[1]) else " " + Laid(fields[1..], gaps[1..])
  }

  predicate IsField(s: string) {
    s != "" && ' ' !in s
  }

  lemma {:induction false} BlanksBefore(n: nat, s: string)
    ensures NonEmpty(Split(Blanks(n) + s, ' ')) == NonEmpty(Split(s, ' '))
  {
    hide Split;
    if n == 0 {
      assert Blanks(0) + s == s;
    } else {
      var t := Blanks(n - 1) + s;
      assert Blanks(n) + s == "" + ([' '] + t);
      SplitMore("", ' ', t);
      BlanksBefore(n - 1, s);
      DropsEmpty(Split(t, ' '));
    }
  }

  lemma DropsEmpty(pieces: seq<string>)
    ensures NonEmpty([""] + pieces) == NonEmpty(pieces)
  {
    assert ([""] + pieces)[1..] == pieces;
  }

  lemma KeepsField(s: string, pieces: seq<string>)
    requires s != ""
    ensures NonEmpty([s] + pieces) == [s] + NonEmpty(pieces)
  {
    assert ([s] + pieces)[1..] == pieces;
  }

  lemma FieldBefore(s: string, rest: string)
    requires IsField(s)
    ensures NonEmpty(Split(s + (" " + rest), ' ')) == [s] + NonEmpty(Split(rest, ' '))
  {
    hide Split, NonEmpty;
    SplitMore(s, ' ', rest);
    KeepsField(s, Split(rest, ' '));
  }

  lemma LastField(s: string, n: nat)
    requires IsField(s)
    ensures NonEmpty(Split(s + Blanks(n), ' ')) == [s]
  {
    hide Split, NonEmpty;
    if n == 0 {
      assert s + Blanks(0) == s;
      SplitOne(s, ' ');
      KeepsField(s, []);
      assert [s] + [] == [s] && NonEmpty([]) == [] by { NoFields(); }
    } else {
      FieldBefore(s, Blanks(n - 1));
      BlanksBefore(n - 1, "");
      assert Blanks(n - 1) + "" == Blanks(n - 1);
      NoText(' ');
      NoFields();
    }
  }

  lemma NoFields()
    ensures NonEmpty([]) == []
  {
  }

  lemma {:induction false} FieldsOfLaid(fields: seq<string>, gaps: seq<nat>)
    requires |gaps| == |fields| + 1 && fields != [] && forall i :: 0 <= i < |fields| ==> IsField(fields[i])
    ensures NonEmpty(Split(Laid(fields, gaps), ' ')) == fields && Laid(fields, gaps) != ""
    decreases |fields|
  {
    hide Split, NonEmpty, Blanks;
    if |fields| == 1 {
      LastField(fields[0], gaps[1]);
      BlanksBefore(gaps[0], fields[0] + Blanks(gaps[1]));
    } else {
      FieldsOfLaid(fields[1..], gaps[1..]);
      FieldBefore(fields[0], Laid(fields[1..], gaps[1..]));
      BlanksBefore(gaps[0], fields[0] + (" " + Laid(fields[1..], gaps[1..])));
      assert fields == [fields[0]] + fields[1..];
    }
  }

  /* Names */

  /** The weekdays from Sunday on, and the months from January on. */
  function WeekdayName(day: nat): string
    requires day < 7
  {
    match day
    case 0 => "SUN"
    case 1 => "MON"
    case 2 => "TUE"
    case 3 => "WED"
    case 4 => "THU"
    case 5 => "FRI"
    case _ => "SAT"
  }

  function MonthName(month: nat): string
    requires 1 <= month <= 12
  {
    match month
    case 1 => "JAN"
    case 2 => "FEB"
    case 3 => "MAR"
    case 4 => "APR"
    case 5 => "MAY"
    case 6 => "JUN"
    case 7 => "JUL"
    case 8 => "AUG"
    case 9 => "SEP"
    case 10 => "OCT"
    case 11 => "NOV"
    case _ => "DEC"
  }

  predicate IsUpper(c: char) {
    'A' <= c <= 'Z'
  }

  /** Names of three letters, all different. */
  ghost predicate AreNames(names: seq<string>) {
    && (forall i :: 0 <= i < |names| ==> |names[i]| == 3 && IsUpper(names[i][0]) && IsUpper(names[i][1]) && IsUpper(names[i][2]))
    && (forall i, j :: 0 <= i < j < |names| ==> names[i] != names[j])
  }

  lemma DaysAreNames()
    ensures |DAYS| == 7 && AreNames(DAYS) && forall i :: 0 <= i < 7 ==> DAYS[i] == WeekdayName(i)
  {
  }

  lemma MonthsAreNames()
    ensures |MONTHS| == 13 && AreNames(MONTHS) && forall i :: 1 <= i < 13 ==> MONTHS[i] == MonthName(i)
  {
  }

  /** A name, by its number, or a character that is no capital letter. */
  datatype Token = Char(c: char) | Name(i: nat)

  /** Names stand apart from each other, and none is there twice. */
  ghost predicate Apart(tokens: seq<Token>, names: seq<string>) {
    && (forall k :: 0 <= k < |tokens| ==> if tokens[k].Char? then !IsUpper(tokens[k].c) else tokens[k].i < |names|)
    && (forall k :: 0 <= k < |tokens| - 1 ==> tokens[k].Char? || tokens[k + 1].Char?)
    && (forall k, l :: 0 <= k < l < |tokens| ==> tokens[k].Char? || tokens[k] != tokens[l])
  }

  /** The text of a token: the names before the `n`-th are already numbers. */
  function TokenText(token: Token, names: seq<string>, n: nat): string {
    match token
    case Char(c) => [c]
    case Name(i) => if i < n then Text(i) else if i < |names| then names[i] else ""
  }

  function TokensText(tokens: seq<Token>, names: seq<string>, n: nat): string {
    if tokens == [] then "" else TokenText(tokens[0], names, n) + TokensText(tokens[1..], names, n)
  }

  /** The text with the names, and the text with their numbers. */
  function Spelled(tokens: seq<Token>, names: seq<string>): string {
    TokensText(tokens, names, 0)
  }

  function Numbered(tokens: seq<Token>, names: seq<string>): string {
    TokensText(tokens, names, |names|)
  }

  function ReplaceFirst(text: string, word: string, number: string): string {
    var pos := Find(text, word);
    if pos < |text| then text[..pos] + number + Drop(text, pos + 3) else text
  }

  lemma ReplaceUnfold(text: string, names: seq<string>, i: nat)
    requires i < |names|
    ensures ReplaceOrdinals(text, names, i) == ReplaceOrdinals(ReplaceFirst(text, names[i], Text(i)), names, i + 1)
  {
    hide Find, Drop, Text;
  }

  lemma FindSkips(c: char, rest: string, word: string)
    requires !(word <= [c] + rest)
    ensures Find([c] + rest, word) == 1 + Find(rest, word)
  {
    assert ([c] + rest)[1..] == rest;
  }

  lemma CutSkips(c: char, rest: string, pos: nat)
    requires pos < |rest|
    ensures ([c] + rest)[..1 + pos] == [c] + rest[..pos] && Drop([c] + rest, 1 + pos + 3) == Drop(rest, pos + 3)
  {
  }

  lemma ReplaceSkips(c: char, rest: string, word: string, number: string)
    requires !(word <= [c] + rest)
    ensures ReplaceFirst([c] + rest, word, number) == [c] + ReplaceFirst(rest, word, number)
  {
    hide Find, Drop;
    FindSkips(c, rest, word);
    var pos := Find(rest, word);
    if pos < |rest| {
      CutSkips(c, rest, pos);
      AppendAppend([c], rest[..pos], number);
      AppendAppend([c], rest[..pos] + number, Drop(rest, pos + 3));
    }
  }

  lemma PrefixCharacters(word: string, s: string)
    ensures word <= s ==> |word| <= |s| && forall i :: 0 <= i < |word| ==> word[i] == s[i]
  {
  }

  lemma NotHere(c: char, rest: string, word: string)
    requires word != "" && word[0] != c
    ensures !(word <= [c] + rest)
  {
    PrefixCharacters(word, [c] + rest);
  }

  lemma {:induction false} ReplaceSkipsDigits(s: string, rest: string, word: string, number: string)
    requires AllDigits(s) && word != "" && IsUpper(word[0])
    ensures ReplaceFirst(s + rest, word, number) == s + ReplaceFirst(rest, word, number)
  {
    hide ReplaceFirst;
    if s == "" {
      assert s + rest == rest && "" + ReplaceFirst(rest, word, number) == ReplaceFirst(rest, word, number);
    } else {
      ReplaceSkipsDigits(s[1..], rest, word, number);
      assert s == [s[0]] + s[1..];
      AppendAppend([s[0]], s[1..], rest);
      AppendAppend([s[0]], s[1..], ReplaceFirst(rest, word, number));
      NotHere(s[0], s[1..] + rest, word);
      ReplaceSkips(s[0], s[1..] + rest, word, number);
    }
  }

  /** Another name, before something that is no letter, holds no letter at which the word could begin. */
  lemma ReplaceSkipsName(name: string, rest: string, word: string, number: string)
    requires |name| == |word| == 3 && name != word && (rest == "" || !IsUpper(rest[0]))
    requires IsUpper(word[0]) && IsUpper(word[1]) && IsUpper(word[2])
    ensures ReplaceFirst(name + rest, word, number) == name + ReplaceFirst(rest, word, number)
  {
    hide ReplaceFirst;
    var (a, b, c) := (name[0], name[1], name[2]);
    var r := ReplaceFirst(rest, word, number);
    assert name + rest == [a] + ([b] + ([c] + rest)) && name + r == [a] + ([b] + ([c] + r));
    WordElsewhere(name, rest, word);
    ReplaceSkips(a, [b] + ([c] + rest), word, number);
    ReplaceSkips(b, [c] + rest, word, number);
    ReplaceSkips(c, rest, word, number);
  }

  lemma WordElsewhere(name: string, rest: string, word: string)
    requires |name| == |word| == 3 && name != word && (rest == "" || !IsUpper(rest[0]))
    requires IsUpper(word[0]) && IsUpper(word[1]) && IsUpper(word[2])
    ensures !(word <= [name[0]] + ([name[1]] + ([name[2]] + rest)))
    ensures !(word <= [name[1]] + ([name[2]] + rest))
    ensures !(word <= [name[2]] + rest)
  {
    var s1 := [name[2]] + rest;
    var s2 := [name[1]] + s1;
    var s3 := [name[0]] + s2;
    assert s3[0] == name[0] && s3[1] == name[1] && s3[2] == name[2];
    assert |rest| > 0 ==> s2[2] == rest[0] && s1[1] == rest[0];
    PrefixCharacters(word, s3);
    PrefixCharacters(word, s2);
    PrefixCharacters(word, s1);
  }

  lemma ReplaceHere(name: string, rest: string, number: string)
    requires |name| == 3
    ensures ReplaceFirst(name + rest, name, number) == number + rest
  {
    var text := name + rest;
    assert Find(text, name) == 0 && text[..0] == "" && Drop(text, 3) == rest;
    assert "" + number + rest == number + rest;
  }

  lemma ApartRest(tokens: seq<Token>, names: seq<string>)
    requires Apart(tokens, names) && tokens != []
    ensures Apart(tokens[1..], names)
    ensures if tokens[0].Char? then !IsUpper(tokens[0].c) else tokens[0].i < |names| && tokens[0] !in tokens[1..]
    ensures tokens[0].Name? && |tokens| > 1 ==> tokens[1].Char? && !IsUpper(tokens[1].c)
  {
    forall k | 0 <= k < |tokens| - 1 ensures tokens[1..][k] == tokens[k + 1] {}
  }

  /** Where a name is not there, nothing changes. */
  lemma {:induction false} NumbersSame(tokens: seq<Token>, names: seq<string>, n: nat)
    requires Name(n) !in tokens
    ensures TokensText(tokens, names, n) == TokensText(tokens, names, n + 1)
  {
    hide Text;
    if tokens != [] { NumbersSame(tokens[1..], names, n); }
  }

  lemma HeadAfterName(tokens: seq<Token>, names: seq<string>, n: nat)
    requires |tokens| > 0 ==> tokens[0].Char? && !IsUpper(tokens[0].c)
    ensures var s := TokensText(tokens, names, n); s == "" || !IsUpper(s[0])
  {
  }

  lemma {:induction false} ReplaceName(tokens: seq<Token>, names: seq<string>, n: nat)
    requires Apart(tokens, names) && AreNames(names) && n < |names|
    ensures ReplaceFirst(TokensText(tokens, names, n), names[n], Text(n)) == TokensText(tokens, names, n + 1)
  {
    hide ReplaceFirst, Text, Apart;
    if tokens == [] {
      NothingToReplace(names[n], Text(n));
    } else {
      var token, rest := tokens[0], tokens[1..];
      var text := TokensText(rest, names, n);
      ApartRest(tokens, names);
      ReplaceName(rest, names, n);
      match token {
        case Char(c) =>
          NotHere(c, text, names[n]);
          ReplaceSkips(c, text, names[n], Text(n));
        case Name(i) =>
          if i < n {
            ReplaceSkipsDigits(Text(i), text, names[n], Text(n));
          } else if i == n {
            ReplaceHere(names[n], text, Text(n));
            NumbersSame(rest, names, n);
          } else {
            HeadAfterName(rest, names, n);
            ReplaceSkipsName(names[i], text, names[n], Text(n));
          }
      }
    }
  }

  lemma NothingToReplace(word: string, number: string)
    ensures ReplaceFirst("", word, number) == ""
  {
  }

  lemma {:induction false} ReplaceAll(tokens: seq<Token>, names: seq<string>, n: nat)
    requires Apart(tokens, names) && AreNames(names) && n <= |names|
    ensures ReplaceOrdinals(TokensText(tokens, names, n), names, n) == Numbered(tokens, names)
    decreases |names| - n
  {
    hide TokensText, ReplaceFirst, Apart, AreNames;
    if n < |names| {
      ReplaceUnfold(TokensText(tokens, names, n), names, n);
      ReplaceName(tokens, names, n);
      ReplaceAll(tokens, names, n + 1);
    }
  }

  /** The same text, but for the case of its letters. */
  predicate AnyCase(s: string, upper: string) {
    && |s| == |upper|
    && forall i :: 0 <= i < |s| ==>
         (s[i] == upper[i] && !('a' <= s[i] <= 'z')) || (IsUpper(upper[i]) && s[i] as int == upper[i] as int + 32)
  }

  lemma {:induction false} ToUpperIs(s: string, upper: string)
    requires AnyCase(s, upper)
    ensures ToUpper(s) == upper
  {
    if s != "" {
      assert forall i :: 1 <= i < |s| ==> s[i] == s[1..][i - 1] && upper[i] == upper[1..][i - 1];
      ToUpperIs(s[1..], upper[1..]);
      assert upper == [upper[0]] + upper[1..];
    }
  }

  /** The field is the text of the items, but for names in any case that stand for their numbers. */
  ghost predicate Spells(s: string, names: seq<string>, items: seq<Item>) {
    exists tokens :: Apart(tokens, names) && AnyCase(s, Spelled(tokens, names)) && Numbered(tokens, names) == FieldText(items)
  }

  lemma NamedIsNumbered(s: string, names: seq<string>, items: seq<Item>)
    requires AreNames(names) && Spells(s, names, items)
    ensures Named(s, names) == FieldText(items)
  {
    hide Apart, AreNames, AnyCase, TokensText, ReplaceOrdinals, FieldText;
    var tokens :| Apart(tokens, names) && AnyCase(s, Spelled(tokens, names)) && Numbered(tokens, names) == FieldText(items);
    ToUpperIs(s, Spelled(tokens, names));
    ReplaceAll(tokens, names, 0);
  }

  /* Whole expressions */

  /** The items of the six fields. */
  datatype Meaning = Meaning(seconds: seq<Item>, minutes: seq<Item>, hours: seq<Item>,
                             days: seq<Item>, months: seq<Item>, weekdays: seq<Item>)

  /** A field of days may be a question mark, which is a star. */
  predicate IsMark(s: string, items: seq<Item>) {
    s == "?" && items == [Star]
  }

  /** What the six fields of an expression spell, from the seconds to the weekdays. */
  ghost predicate SpellsAll(fields: seq<string>, m: Meaning)
    requires |fields| == 6
  {
    && fields[0] == FieldText(m.seconds) && fields[1] == FieldText(m.minutes) && fields[2] == FieldText(m.hours)
    && (fields[3] == FieldText(m.days) || IsMark(fields[3], m.days))
    && Spells(fields[4], MONTHS, m.months)
    && (Spells(fields[5], DAYS, m.weekdays) || IsMark(fields[5], m.weekdays))
  }

  predicate SomeItems(items: seq<Item>) {
    items != [] && AllReadable(items)
  }

  predicate AllGiven(m: Meaning) {
    && SomeItems(m.seconds) && SomeItems(m.minutes) && SomeItems(m.hours)
    && SomeItems(m.days) && SomeItems(m.months) && SomeItems(m.weekdays)
  }

  /** Every item is valid in its field. */
  predicate AllInRange(m: Meaning) {
    && AllValid(m.seconds, 0, 59) && AllValid(m.minutes, 0, 59) && AllValid(m.hours, 0, 23)
    && AllValid(m.days, 1, 31) && AllValid(m.months, 1, 12) && AllValid(m.weekdays, 0, 6)
  }

  predicate AllFit(m: Meaning) {
    && AllStepsFit(m.seconds, 0) && AllStepsFit(m.minutes, 0) && AllStepsFit(m.hours, 0)
    && AllStepsFit(m.days, 1) && AllStepsFit(m.months, 1) && AllStepsFit(m.weekdays, 0)
  }

  /** The seconds, minutes, hours, days, months and weekdays (from Sunday on) of a time are ones that the fields describe. */
  ghost predicate MeansTime(m: Meaning, t: int) {
    var tm := FromTime(t);
    && Means(m.seconds, 0, 59, tm.sec) && Means(m.minutes, 0, 59, tm.min) && Means(m.hours, 0, 23, tm.hour)
    && Means(m.days, 1, 31, tm.mday) && Means(m.months, 1, 12, tm.mon + 1) && Means(m.weekdays, 0, 6, tm.wday)
  }

  /** How the bits of an expression follow from its items. */
  ghost predicate BitsOf(cex: CronExpr, m: Meaning) {
    && (forall x: nat :: x in cex.seconds <==> Means(m.seconds, 0, 59, x))
    && (forall x: nat :: x in cex.minutes <==> Means(m.minutes, 0, 59, x))
    && (forall x: nat :: x in cex.hours <==> Means(m.hours, 0, 23, x))
    && (forall x: nat :: x in cex.daysOfMonth <==> Means(m.days, 1, 31, x + 1))
    && (forall x: nat :: x in cex.months <==> Means(m.months, 1, 12, x + 1))
    && (forall x: nat :: x in cex.daysOfWeek <==> Means(m.weekdays, 0, 6, x))
  }

  lemma StarText()
    ensures FieldText([Star]) == "*"
  {
    assert ItemTexts([Star])[0] == "*";
  }

  lemma MarkIsStar(s: string, items: seq<Item>)
    requires IsMark(s, items)
    ensures QuestionMark(s) == FieldText(items) && QuestionMark(Named(s, DAYS)) == FieldText(items)
  {
    hide Named, FieldText;
    StarText();
    Unnamed("?");
  }

  lemma {:induction false} FieldIsNoMark(items: seq<Item>)
    requires items != []
    ensures FieldText(items) != "?"
  {
    hide Text;
    var pieces := ItemTexts(items);
    assert pieces[0] == ItemText(items[0]);
    StartsWell(items[0]);
  }

  lemma StartsWell(item: Item)
    ensures ItemText(item)[0] != '?'
  {
    hide Text;
    assert forall n :: IsDigit(Text(n)[0]);
  }

  /** What is made of the six fields. */
  lemma FieldsAreRead(fields: seq<string>, m: Meaning)
    requires |fields| == 6 && SpellsAll(fields, m) && AllGiven(m)
    ensures fields[0] == FieldText(m.seconds) && fields[1] == FieldText(m.minutes) && fields[2] == FieldText(m.hours)
    ensures QuestionMark(fields[3]) == FieldText(m.days)
    ensures Named(fields[4], MONTHS) == FieldText(m.months)
    ensures QuestionMark(Named(fields[5], DAYS)) == FieldText(m.weekdays)
  {
    hide Named, FieldText, Spells, AreNames, AllReadable;
    DaysAreNames();
    MonthsAreNames();
    NamedIsNumbered(fields[4], MONTHS, m.months);
    if IsMark(fields[3], m.days) { MarkIsStar(fields[3], m.days); } else { FieldIsNoMark(m.days); }
    if IsMark(fields[5], m.weekdays) {
      MarkIsStar(fields[5], m.weekdays);
    } else {
      NamedIsNumbered(fields[5], DAYS, m.weekdays);
      FieldIsNoMark(m.weekdays);
    }
  }

  /**
   * The text of an expression, with any blanks between its fields, is accepted exactly if every item is valid in its field:
   * seconds and minutes up to 59, hours up to 23, days from 1 to 31, months from 1 to 12, weekdays from 0 to 6.
   */
  lemma ExpressionMeans(fields: seq<string>, gaps: seq<nat>, m: Meaning)
    requires |fields| == 6 && |gaps| == 7 && SpellsAll(fields, m) && AllGiven(m)
    requires forall i :: 0 <= i < 6 ==> IsField(fields[i])
    ensures MakeCron(Laid(fields, gaps)).Some? <==> AllInRange(m)
    ensures AllInRange(m) && AllFit(m) ==> BitsOf(MakeCron(Laid(fields, gaps)).value, m)
  {
    hide Split, NonEmpty, Laid, FieldBits, FieldText, Named, QuestionMark, SpellsAll, AllReadable, AllValid, AllStepsFit, Means, Bits;
    FieldsOfLaid(fields, gaps);
    FieldsAreRead(fields, m);
    FieldMeans(m.seconds, 0, 59);
    FieldMeans(m.minutes, 0, 59);
    FieldMeans(m.hours, 0, 23);
    FieldMeans(m.days, 1, 31);
    FieldMeans(m.months, 1, 12);
    FieldMeans(m.weekdays, 0, 6);
  }

  /** The times that the search looks for are those that the text means. */
  lemma DescribedMeans(cex: CronExpr, m: Meaning, t: int)
    requires BitsOf(cex, m)
    ensures Matches(cex, t) <==> MeansTime(m, t)
  {
    hide Means, MdayOf, MonthOf, WdayOf, DayOf, Sec, Min, Hour, YearOf;
    assert Mday(t) - 1 >= 0;
  }
}
