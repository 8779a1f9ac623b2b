/** `make_cron`: an expression of six fields, in which weekdays and months may be named. */
module CronExpression {
  import opened Results
  import opened Decimal
  import opened Cron
  import opened CronFields
  import opened CronTheorems

  const DAYS := ["SUN", "MON", "TUE", "WED", "THU", "FRI", "SAT"]
  const MONTHS := ["NIL", "JAN", "FEB", "MAR", "APR", "MAY", "JUN", "JUL", "AUG", "SEP", "OCT", "NOV", "DEC"]

  function ToUpper(text: string): string {
    if text == [] then [] else [if 'a' <= text[0] <= 'z' then text[0] - 32 as char else text[0]] + ToUpper(text[1..])
  }

  /** The first place of a word; the length of the text if there is none. */
  function Find(text: string, word: string): (i: nat)
    ensures i <= |text| && (i < |text| && word != "" ==> word <= text[i..])
  {
    if text == [] || word <= text then 0 else 1 + Find(text[1..], word)
  }

  /** Each name is replaced once, in the order of the names, by its number. */
  function ReplaceOrdinals(text: string, names: seq<string>, i: nat): string
    requires i <= |names|
    decreases |names| - i
  {
    if i == |names| then text
    else
      var pos := Find(text, names[i]);
      var text := if pos < |text| then text[..pos] + Text(i) + Drop(text, pos + 3) else text;
      ReplaceOrdinals(text, names, i + 1)
  }

  function Drop(text: string, n: nat): string {
    if n <= |text| then text[n..] else ""
  }

  function Named(field: string, names: seq<string>): string {
    ReplaceOrdinals(ToUpper(field), names, 0)
  }

  function QuestionMark(field: string): string {
    if field == "?" then "*" else field
  }

  function NonEmpty(pieces: seq<string>): seq<string> {
    if pieces == [] then []
    else if pieces[0] == "" then NonEmpty(pieces[1..])
    else [pieces[0]] + NonEmpty(pieces[1..])
  }

  function MakeCron(expr: string): (r: Accepted<CronExpr>)
    ensures r.Some? ==> Parsed(r.value)
  {
    var fields := NonEmpty(Split(expr, ' '));
    if expr == "" || |fields| != 6 then None
    else
      var seconds :- FieldBits(fields[0], 0, 59);
      var minutes :- FieldBits(fields[1], 0, 59);
      var hours :- FieldBits(fields[2], 0, 23);
      var daysOfWeek :- FieldBits(QuestionMark(Named(fields[5], DAYS)), 0, 6);
      var daysOfMonth :- FieldBits(QuestionMark(fields[3]), 1, 31);
      var months :- FieldBits(Named(fields[4], MONTHS), 1, 12);
      Some(CronExpr(seconds, minutes, hours, daysOfWeek, daysOfMonth, months))
  }

  /** A star sets every bit of its field. */
  lemma StarIsFull(minval: nat, maxval: nat)
    requires minval <= maxval < minval + 60
    ensures FieldBits("*", minval, maxval).Some?
    ensures forall x :: 0 <= x <= maxval - minval ==> x in FieldBits("*", minval, maxval).value
  {
    var parts := [Part(minval, maxval, 1)];
    StarParts(minval, maxval);
    forall x | 0 <= x <= maxval - minval ensures x in PartsBits(parts, minval, maxval) {
      FieldIsUnion(parts, minval, maxval, x);
      assert x + minval in Described(parts[0]);
    }
  }

  lemma StarParts(minval: nat, maxval: nat)
    requires minval <= maxval < minval + 60
    ensures FieldParts("*", minval, maxval) == Some([Part(minval, maxval, 1)])
  {
    assert Until("*", ',') == "*";
    assert Split("*", ',') == ["*"];
    assert ["*"][1..] == [] && ["*"][0..] == ["*"];
    PartsUnfold(["*"], 0, minval, maxval);
    assert MakeParts(["*"][1..], minval, maxval) == Some([]);
    assert MakePart("*", minval, maxval) == Some(Part(minval, maxval, 1));
    assert MakeParts(["*"], minval, maxval) == Some([Part(minval, maxval, 1)] + []);
    assert [Part(minval, maxval, 1)] + [] == [Part(minval, maxval, 1)];
  }

  /** An expression whose day of the month or day of the week is a star or a question mark leaves that field free. */
  lemma OpenDayField(expr: string)
    requires MakeCron(expr).Some?
    ensures var fields := NonEmpty(Split(expr, ' '));
      fields[3] == "*" || fields[3] == "?" || fields[5] == "*" || fields[5] == "?" ==> DayFull(MakeCron(expr).value)
  {
    hide Split, FieldBits, NonEmpty, Named, Bits;
    StarIsFull(1, 31);
    StarIsFull(0, 6);
    Unnamed("*");
    Unnamed("?");
  }

  lemma Unnamed(mark: string)
    requires mark == "*" || mark == "?"
    ensures Named(mark, DAYS) == mark
  {
    hide ReplaceOrdinals;
    NoName(mark, 0);
    MarkIsUpper(mark);
  }

  lemma MarkIsUpper(mark: string)
    requires mark == "*" || mark == "?"
    ensures ToUpper(mark) == mark
  {
    assert mark[1..] == [];
  }

  lemma {:induction false} NoName(mark: string, i: nat)
    requires |mark| == 1 && i <= 7
    ensures ReplaceOrdinals(mark, DAYS, i) == mark
    decreases 7 - i
  {
    hide Find, Text, Drop;
    if i < 7 {
      assert |DAYS[i]| == 3;
      FindInOne(mark, DAYS[i]);
      NoName(mark, i + 1);
    }
  }

  lemma FindInOne(mark: string, word: string)
    requires |mark| == 1 && |word| == 3
    ensures Find(mark, word) == 1
  {
    assert mark[1..] == [];
  }
}
