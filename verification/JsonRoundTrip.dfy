/** Reading back what was printed gives the value again, as long as the reader's depth limit allows it. */
module JsonRoundTrip {
  import opened OrderedKeys
  import opened Decimal
  import opened Json

  /** Every array and every object inside `v` has fewer than `n` arrays around it. */
  predicate Fits(v: Value, n: nat)
    decreases v
  {
    match v
    case Arr(items) => n > 0 && forall i :: 0 <= i < |items| ==> Fits(items[i], n - 1)
    case Obj(fields) => n > 0 && forall i :: 0 <= i < |fields| ==> Fits(fields[i].val, n)
    case _ => true
  }

  predicate AllFit(items: seq<Value>, n: nat) {
    forall i :: 0 <= i < |items| ==> Fits(items[i], n)
  }

  predicate FieldsFit(fields: seq<Field>, n: nat) {
    forall i :: 0 <= i < |fields| ==> Fits(fields[i].val, n)
  }

  ghost predicate AllProper(items: seq<Value>) {
    forall i :: 0 <= i < |items| ==> Proper(items[i])
  }

  ghost predicate FieldsProper(fields: seq<Field>) {
    forall i :: 0 <= i < |fields| ==> Proper(fields[i].val)
  }

  /** What may follow a printed value: nothing that would make a numeral longer. */
  predicate Ends(rest: string) {
    rest == [] || !IsNumeral(rest[0])
  }

  /* White space */

  lemma {:induction false} SkipSpaces(n: nat, t: string)
    ensures SkipWs(Spaces(n) + t) == SkipWs(t)
  {
    if n == 0 {
      assert Spaces(0) + t == t;
    } else {
      assert Spaces(n) + t == [' '] + (Spaces(n - 1) + t);
      SkipSpaces(n - 1, t);
    }
  }

  lemma SkipIndent(indent: int, t: string)
    requires indent >= -1
    ensures SkipWs(Indent(indent) + t) == SkipWs(t)
    ensures Ends(t) ==> Ends(Indent(indent) + t)
  {
    if indent == -1 {
      assert Indent(indent) + t == t;
    } else {
      assert Indent(indent) + t == ['\n'] + (Spaces(indent * INDENT_WIDTH) + t);
      SkipSpaces(indent * INDENT_WIDTH, t);
    }
  }

  lemma {:induction false} SkipTwice(s: string)
    ensures SkipWs(SkipWs(s)) == SkipWs(s)
  {
    if s != [] && IsSpace(s[0]) { SkipTwice(s[1..]); }
  }

  lemma ParseSkips(s: string, t: string, depths: nat)
    requires SkipWs(s) == SkipWs(t)
    ensures Parse(s, depths) == Parse(t, depths)
  {
  }

  /* Strings */

  lemma EscapedHex(c: char, t: string)
    requires c as int < 0x80
    ensures Codepoint("00" + [HexDigit(c as int / 16), HexDigit(c as int % 16)] + t) == Done([c], t)
  {
    var s := "00" + [HexDigit(c as int / 16), HexDigit(c as int % 16)] + t;
    assert HexValue(s[0]) == 0 && HexValue(s[1]) == 0;
    assert HexValue(s[2]) == c as int / 16 && HexValue(s[3]) == c as int % 16;
    assert s[4..] == t;
    assert QuadHex(s) == Done(c as nat, t);
  }

  lemma LiteralPlain(c: char, t: string)
    requires c as int >= 0x20 && c != '"' && c != '\\'
    ensures Literal([c] + t) == Prepend([c], Literal(t))
  {
    hide Codepoint, Unescaped;
    assert ([c] + t)[1..] == t;
  }

  lemma LiteralShort(e: char, t: string)
    requires e != 'u' && Unescaped(e) != []
    ensures Literal(['\\', e] + t) == Prepend(Unescaped(e), Literal(t))
  {
    hide Codepoint, Unescaped;
    assert (['\\', e] + t)[2..] == t;
  }

  lemma LiteralHex(c: char, t: string)
    requires c as int < 0x80
    ensures Literal("\\u00" + [HexDigit(c as int / 16), HexDigit(c as int % 16)] + t) == Prepend([c], Literal(t))
  {
    hide Codepoint, Unescaped, HexDigit;
    var hex := "00" + [HexDigit(c as int / 16), HexDigit(c as int % 16)];
    var s := "\\u00" + [HexDigit(c as int / 16), HexDigit(c as int % 16)] + t;
    assert s[2..] == hex + t;
    EscapedHex(c, t);
  }

  /** One escaped character reads as that character. */
  lemma LiteralStep(c: char, t: string)
    ensures Literal(EscapedChar(c) + t) == Prepend([c], Literal(t))
  {
    hide Literal, HexDigit, Prepend;
    if |EscapedChar(c)| == 1 {
      LiteralPlain(c, t);
    } else if |EscapedChar(c)| == 2 {
      LiteralShort(EscapedChar(c)[1], t);
      assert EscapedChar(c) == ['\\', EscapedChar(c)[1]];
    } else {
      LiteralHex(c, t);
    }
  }

  lemma {:induction false} LiteralEscaped(s: string, rest: string)
    ensures Literal(Escaped(s) + ("\"" + rest)) == Done(s, rest)
  {
    var close := "\"" + rest;
    if s == [] {
      assert Escaped(s) + close == close;
      assert close[1..] == rest;
    } else {
      AppendAppend(EscapedChar(s[0]), Escaped(s[1..]), close);
      LiteralStep(s[0], Escaped(s[1..]) + close);
      LiteralEscaped(s[1..], rest);
      assert [s[0]] + s[1..] == s;
    }
  }

  /* Numbers */

  lemma {:induction false} NumeralOfDigits(s: string, rest: string)
    requires AllDigits(s) && Ends(rest)
    ensures Numeral(s + rest) == s
  {
    if s == [] {
      assert s + rest == rest;
    } else {
      assert s + rest == [s[0]] + (s[1..] + rest);
      NumeralOfDigits(s[1..], rest);
    }
  }

  lemma NumeralOfInt(i: int, rest: string)
    requires Ends(rest)
    ensures Numeral(IntText(i) + rest) == IntText(i)
  {
    hide Text;
    if i < 0 {
      assert IntText(i) + rest == ['-'] + (Text(-i) + rest);
      NumeralOfDigits(Text(-i), rest);
    } else {
      NumeralOfDigits(Text(i), rest);
    }
  }

  lemma ParseNumeral(numeral: string, rest: string, depths: nat)
    requires numeral != [] && (IsDigit(numeral[0]) || numeral[0] == '-')
    requires Numeral(numeral + rest) == numeral && NumberOf(numeral).Done?
    ensures Parse(numeral + rest, depths) == Done(NumberOf(numeral).value, rest)
  {
    hide NumberOf, Literal, Word, ArrayValue, ObjectValue;
    assert (numeral + rest)[|numeral|..] == rest;
    assert SkipWs(numeral + rest) == numeral + rest;
  }

  lemma ParseIntText(i: int, rest: string, depths: nat)
    requires MIN_INT64 <= i <= MAX_INT64 && Ends(rest)
    ensures Parse(IntText(i) + rest, depths) == Done(Int(i), rest)
  {
    hide Parse, IntText, Numeral, IsDouble;
    ReadIntText(i);
    NumeralOfInt(i, rest);
    ParseNumeral(IntText(i), rest, depths);
  }

  /* Values */

  lemma ParseWords(rest: string, depths: nat)
    ensures Parse("null" + rest, depths) == Done(Null, rest)
    ensures Parse("true" + rest, depths) == Done(Bool(true), rest)
    ensures Parse("false" + rest, depths) == Done(Bool(false), rest)
  {
    hide Literal, NumberOf, ArrayValue, ObjectValue;
    assert ("null" + rest)[1..] == "ull" + rest && ("ull" + rest)[3..] == rest;
    assert ("true" + rest)[1..] == "rue" + rest && ("rue" + rest)[3..] == rest;
    assert ("false" + rest)[1..] == "alse" + rest && ("alse" + rest)[4..] == rest;
  }

  lemma ParseQuoted(s: string, rest: string, depths: nat)
    ensures Parse(Quoted(s) + rest, depths) == Done(Str(s), rest)
  {
    hide Literal, Escaped, NumberOf, ArrayValue, ObjectValue, Word;
    assert Quoted(s) + rest == ['"'] + (Escaped(s) + ("\"" + rest));
    LiteralEscaped(s, rest);
  }

  /** A printed value starts with a character that neither separates nor closes. */
  lemma FirstCharacter(v: Value, indent: int, rest: string)
    requires Proper(v) && indent >= -1
    ensures PrintBare(v, indent) != []
    ensures SkipWs(PrintBare(v, indent) + rest) == PrintBare(v, indent) + rest
    ensures !Next(PrintBare(v, indent) + rest, ']')
  {
  }

  lemma NextAfter(c: char, t: string)
    requires !IsSpace(c)
    ensures Next([c] + t, c) && After([c] + t, c) == t
    ensures forall x :: x != c ==> !Next([c] + t, x)
  {
    assert ([c] + t)[1..] == t;
  }

  lemma NextSkips(s: string, t: string, c: char)
    requires SkipWs(s) == SkipWs(t)
    ensures Next(s, c) == Next(t, c) && After(s, c) == After(t, c)
  {
  }

  /** What is printed after the last item: white space and the closing bracket. */
  lemma Closes(indent: int, c: char, rest: string, other: char)
    requires indent >= -1 && !IsSpace(c) && !IsNumeral(c) && other != c
    ensures Ends(Indent(indent) + ([c] + rest))
    ensures !Next(Indent(indent) + ([c] + rest), other)
    ensures Next(After(Indent(indent) + ([c] + rest), other), c)
    ensures After(After(Indent(indent) + ([c] + rest), other), c) == rest
  {
    hide Indent;
    var s := Indent(indent) + ([c] + rest);
    SkipIndent(indent, [c] + rest);
    assert SkipWs(s) == [c] + rest;
    assert ([c] + rest)[1..] == rest;
  }

  lemma Regroup3(a: string, b: string, c: string, t: string)
    ensures a + b + c + t == a + (b + (c + t))
  {
  }

  lemma RegroupField(a: string, key: string, gap: string, b: string, c: string, t: string)
    ensures a + ("\"" + key + "\"") + ":" + gap + b + c + t
      == a + (['"'] + (key + ("\"" + ([':'] + (gap + (b + (c + t)))))))
  {
    var q := "\"" + key + "\"";
    Regroup3(a + q + ":", gap, b, c + t);
    AppendAppend(a + q + ":" + gap + b, c, t);
    Regroup3(a, q, ":", gap + (b + (c + t)));
    Regroup3("\"", key, "\"", ":" + (gap + (b + (c + t))));
  }

  /** The text of a non-empty list of items splits after its first item. */
  lemma SplitItems(items: seq<Value>, indent: int, tail: string)
    requires indent >= -1 && indent != 0 && items != []
    ensures PrintItems(items, indent) + tail ==
      Indent(indent) + (PrintBare(items[0], indent)
                        + if |items| == 1 then tail else [','] + (PrintItems(items[1..], indent) + tail))
  {
    hide PrintBare, Indent, Spaces;
    var bare := PrintBare(items[0], indent);
    var more := if |items| == 1 then "" else "," + PrintItems(items[1..], indent);
    AppendNothing(bare);
    Regroup3(Indent(indent), bare, more, tail);
    if |items| > 1 { AppendAppend(",", PrintItems(items[1..], indent), tail); }
  }

  lemma SplitFields(fields: seq<Field>, indent: int, tail: string)
    requires indent >= -1 && indent != 0 && fields != []
    ensures PrintFields(fields, indent) + tail ==
      Indent(indent) + (['"'] + (Escaped(fields[0].key) + ("\"" + ([':'] + ((if indent == -1 then "" else " ")
        + (PrintBare(fields[0].val, indent)
           + if |fields| == 1 then tail else [','] + (PrintFields(fields[1..], indent) + tail)))))))
  {
    hide PrintBare, Indent, Spaces, Escaped, SkipWs;
    var bare := PrintBare(fields[0].val, indent);
    var gap := if indent == -1 then "" else " ";
    var more := if |fields| == 1 then "" else "," + PrintFields(fields[1..], indent);
    AppendNothing(bare);
    RegroupField(Indent(indent), Escaped(fields[0].key), gap, bare, more, tail);
    if |fields| > 1 { AppendAppend(",", PrintFields(fields[1..], indent), tail); }
  }

  /* Arrays and objects, one step of the reader at a time */

  lemma ParseFieldsSkips(s: string, t: string, depths: nat, before: seq<Field>)
    requires SkipWs(s) == SkipWs(t)
    ensures ParseFields(s, depths, before) == ParseFields(t, depths, before)
  {
    hide Parse, Literal, SkipWs, Insert;
    NextSkips(s, t, '"');
  }

  lemma ParseItemsSkips(s: string, t: string, depths: nat)
    requires SkipWs(s) == SkipWs(t)
    ensures ParseItems(s, depths) == ParseItems(t, depths)
  {
    hide Parse, Next, After, SkipWs;
    ParseSkips(s, t, depths);
  }

  lemma ParseArrayStep(t: string, depths: nat)
    requires !Next(t, ']')
    ensures Parse(['['] + t, depths) ==
      if depths == 0 then Fail
      else if ParseItems(t, depths - 1).Done? then
        Done(Arr(ParseItems(t, depths - 1).value), ParseItems(t, depths - 1).rest)
      else Fail
  {
    hide Literal, NumberOf, ObjectValue, Word, ParseItems;
    assert (['['] + t)[1..] == t;
    if depths > 0 {
      SkipTwice(t);
      ParseItemsSkips(SkipWs(t), t, depths - 1);
    }
  }

  lemma ParseObjectStep(t: string, depths: nat)
    requires !Next(t, '}')
    ensures Parse(['{'] + t, depths) ==
      if depths == 0 then Fail
      else if ParseFields(t, depths, []).Done? then
        Done(Obj(ParseFields(t, depths, []).value), ParseFields(t, depths, []).rest)
      else Fail
  {
    hide Literal, NumberOf, ArrayValue, Word, ParseFields;
    assert (['{'] + t)[1..] == t;
    if depths > 0 {
      SkipTwice(t);
      ParseFieldsSkips(SkipWs(t), t, depths, []);
    }
  }

  lemma ParseEmpty(rest: string, depths: nat)
    ensures Parse("[]" + rest, depths) == if depths == 0 then Fail else Done(Arr([]), rest)
    ensures Parse("{}" + rest, depths) == if depths == 0 then Fail else Done(Obj([]), rest)
  {
    hide Literal, NumberOf, ParseItems, ParseFields, Word;
    assert ("[]" + rest)[1..] == [']'] + rest;
    assert ("{}" + rest)[1..] == ['}'] + rest;
    NextAfter(']', rest);
    NextAfter('}', rest);
  }

  /** An item that was read, followed by a comma and the rest of the items. */
  lemma ParseItemsComma(s: string, v: Value, more: string, depths: nat)
    requires Parse(s, depths) == Done(v, [','] + more)
    ensures ParseItems(s, depths) ==
      if ParseItems(more, depths).Done? then
        Done([v] + ParseItems(more, depths).value, ParseItems(more, depths).rest)
      else Fail
  {
    hide Parse, Next, After;
    NextAfter(',', more);
  }

  /** An item that was read, followed by the bracket. */
  lemma ParseItemsEnd(s: string, v: Value, tail: string, depths: nat)
    requires Parse(s, depths) == Done(v, tail) && !Next(tail, ',') && Next(After(tail, ','), ']')
    ensures ParseItems(s, depths) == Done([v], After(After(tail, ','), ']'))
  {
    hide Parse, Next, After;
  }

  lemma ParseItemsFail(s: string, depths: nat)
    requires Parse(s, depths).Fail?
    ensures ParseItems(s, depths).Fail?
  {
    hide Parse, Next, After;
  }

  lemma NoneFit(depths: nat)
    ensures AllFit([], depths)
  {
  }

  lemma FirstFits(items: seq<Value>, depths: nat)
    requires items != []
    ensures AllFit(items, depths) <==> Fits(items[0], depths) && AllFit(items[1..], depths)
    ensures items == [items[0]] + items[1..]
  {
    hide Fits;
    if Fits(items[0], depths) && AllFit(items[1..], depths) {
      forall i | 0 <= i < |items| ensures Fits(items[i], depths) {
        if i > 0 { assert Fits(items[1..][i - 1], depths); }
      }
    }
    if AllFit(items, depths) {
      forall i | 0 <= i < |items| - 1 ensures Fits(items[1..][i], depths) { assert Fits(items[i + 1], depths); }
    }
  }

  lemma ParseFieldsStep(key: string, space: string, s: string, depths: nat, before: seq<Field>, v: Value, rest: string)
    requires SkipWs(space + s) == SkipWs(s)
    requires Parse(s, depths) == Done(v, rest)
    ensures ParseFields(['"'] + (Escaped(key) + ("\"" + ([':'] + (space + s)))), depths, before) ==
      if Next(rest, ',') then ParseFields(After(rest, ','), depths, Insert(before, key, v))
      else if Next(After(rest, ','), '}') then Done(Insert(before, key, v), After(After(rest, ','), '}'))
      else Fail
  {
    hide Parse, Next, After, Literal, Escaped, SkipWs, Insert;
    NextAfter('"', Escaped(key) + ("\"" + ([':'] + (space + s))));
    LiteralEscaped(key, [':'] + (space + s));
    NextAfter(':', space + s);
    ParseSkips(space + s, s, depths);
  }

  lemma ParseFieldsFail(key: string, space: string, s: string, depths: nat, before: seq<Field>)
    requires SkipWs(space + s) == SkipWs(s)
    requires Parse(s, depths).Fail?
    ensures ParseFields(['"'] + (Escaped(key) + ("\"" + ([':'] + (space + s)))), depths, before).Fail?
  {
    hide Parse, Next, After, Literal, Escaped, SkipWs, Insert;
    NextAfter('"', Escaped(key) + ("\"" + ([':'] + (space + s))));
    LiteralEscaped(key, [':'] + (space + s));
    NextAfter(':', space + s);
    ParseSkips(space + s, s, depths);
  }

  /** Fields that come in the map's order are inserted at its end. */
  lemma {:induction false} InsertLast(fields: seq<Field>, key: string, v: Value)
    requires forall i :: 0 <= i < |fields| ==> Less(fields[i].key, key)
    ensures Insert(fields, key, v) == fields + [Field(key, v)]
  {
    if fields != [] { InsertLast(fields[1..], key, v); }
  }

  /* The round trip */

  function Outcome<T>(ok: bool, value: T, rest: string): Parsed<T> {
    if ok then Done(value, rest) else Fail
  }

  /** A printed value, followed by anything that does not lengthen a numeral, reads as that value. */
  lemma {:induction false} ParsePrinted(v: Value, indent: int, rest: string, depths: nat)
    requires Proper(v) && indent >= -1 && Ends(rest)
    ensures Parse(PrintBare(v, indent) + rest, depths) == Outcome(Fits(v, depths), v, rest)
    decreases v, 1
  {
    hide Parse, PrintItems, PrintFields, IntText, Quoted, Indent;
    match v
    case Null => ParseWords(rest, depths);
    case Bool(b) => ParseWords(rest, depths);
    case Int(i) => ParseIntText(i, rest, depths);
    case Str(s) => ParseQuoted(s, rest, depths);
    case Arr(items) => ParseArrayPrinted(items, indent, rest, depths);
    case Obj(fields) => ParseObjectPrinted(fields, indent, rest, depths);
  }

  lemma {:induction false} ParseArrayPrinted(items: seq<Value>, indent: int, rest: string, depths: nat)
    requires AllProper(items) && indent >= -1 && Ends(rest)
    ensures Parse(PrintBare(Arr(items), indent) + rest, depths)
      == Outcome(depths > 0 && AllFit(items, depths - 1), Arr(items), rest)
    decreases items, 3
  {
    hide Parse, ParseItems, PrintItems, Indent, Ends;
    if items == [] {
      ParseEmpty(rest, depths);
    } else {
      var t := PrintItems(items, Inner(indent)) + (Indent(indent) + ([']'] + rest));
      RegroupBrackets("[", PrintItems(items, Inner(indent)), Indent(indent), "]", rest);
      ItemsStart(items, Inner(indent), Indent(indent) + ([']'] + rest));
      ParseArrayStep(t, depths);
      if depths > 0 { ParseItemsPrinted(items, Inner(indent), indent, rest, depths - 1); }
    }
  }

  lemma {:induction false} ParseItemsPrinted(items: seq<Value>, indent: int, outer: int, rest: string, depths: nat)
    requires AllProper(items) && items != [] && indent >= -1 && indent != 0 && outer >= -1
    ensures ParseItems(PrintItems(items, indent) + (Indent(outer) + ([']'] + rest)), depths)
      == Outcome(AllFit(items, depths), items, rest)
    decreases items, 2
  {
    hide Parse, ParseItems, Next, After, PrintItems, PrintBare, Indent, Fits, AllFit, Proper;
    var tail := Indent(outer) + ([']'] + rest);
    var s := PrintItems(items, indent) + tail;
    var others := PrintItems(items[1..], indent) + tail;
    var more := if |items| == 1 then tail else [','] + others;
    SplitItems(items, indent, tail);
    SkipIndent(indent, PrintBare(items[0], indent) + more);
    ParseSkips(s, PrintBare(items[0], indent) + more, depths);
    Closes(outer, ']', rest, ',');
    ParsePrinted(items[0], indent, more, depths);
    FirstFits(items, depths);
    if !Fits(items[0], depths) {
      ParseItemsFail(s, depths);
    } else if |items| == 1 {
      NoneFit(depths);
      assert items[1..] == [] && items == [items[0]];
      ParseItemsEnd(s, items[0], tail, depths);
    } else {
      ParseItemsComma(s, items[0], others, depths);
      ParseItemsPrinted(items[1..], indent, outer, rest, depths);
    }
  }

  lemma {:induction false} ParseObjectPrinted(fields: seq<Field>, indent: int, rest: string, depths: nat)
    requires FieldsProper(fields) && Ascending(Keys(fields)) && indent >= -1 && Ends(rest)
    ensures Parse(PrintBare(Obj(fields), indent) + rest, depths)
      == Outcome(depths > 0 && FieldsFit(fields, depths), Obj(fields), rest)
    decreases fields, 3
  {
    hide Parse, ParseFields, PrintFields, Indent, Ends;
    if fields == [] {
      ParseEmpty(rest, depths);
    } else {
      var t := PrintFields(fields, Inner(indent)) + (Indent(indent) + (['}'] + rest));
      RegroupBrackets("{", PrintFields(fields, Inner(indent)), Indent(indent), "}", rest);
      FieldsStart(fields, Inner(indent), Indent(indent) + (['}'] + rest));
      ParseObjectStep(t, depths);
      if depths > 0 {
        ParseFieldsPrinted([], fields, Inner(indent), indent, rest, depths);
        assert [] + fields == fields;
      }
    }
  }

  /** `before` are the fields that were read already. */
  lemma {:induction false} ParseFieldsPrinted(before: seq<Field>, fields: seq<Field>, indent: int, outer: int,
                                              rest: string, depths: nat)
    requires FieldsProper(fields) && Ascending(Keys(before + fields))
    requires fields != [] && indent >= -1 && indent != 0 && outer >= -1
    ensures ParseFields(PrintFields(fields, indent) + (Indent(outer) + (['}'] + rest)), depths, before)
      == Outcome(FieldsFit(fields, depths), before + fields, rest)
    decreases fields, 2
  {
    hide ParseFields, Parse, Next, After, PrintFields, PrintBare, Indent, Fits, Proper, Escaped;
    var tail := Indent(outer) + (['}'] + rest);
    var others := PrintFields(fields[1..], indent) + tail;
    var more := if |fields| == 1 then tail else [','] + others;
    var gap := if indent == -1 then "" else " ";
    var (key, v) := (fields[0].key, fields[0].val);
    var bare := PrintBare(v, indent);
    var s := ['"'] + (Escaped(key) + ("\"" + ([':'] + (gap + (bare + more)))));
    SplitFields(fields, indent, tail);
    SkipIndent(indent, s);
    ParseFieldsSkips(PrintFields(fields, indent) + tail, s, depths, before);
    SkipGap(indent, bare + more);
    Closes(outer, '}', rest, ',');
    ParsePrinted(v, indent, more, depths);
    if !Fits(v, depths) {
      ParseFieldsFail(key, gap, bare + more, depths, before);
    } else {
      ParseFieldsStep(key, gap, bare + more, depths, before, v, more);
      InsertNext(before, fields);
      if |fields| > 1 {
        NextAfter(',', others);
        ParseFieldsPrinted(before + [fields[0]], fields[1..], indent, outer, rest, depths);
        assert FieldsFit(fields, depths) == FieldsFit(fields[1..], depths);
      } else {
        assert fields == [fields[0]];
      }
    }
  }

  lemma RegroupBrackets(open: string, inside: string, indent: string, close: string, rest: string)
    ensures open + inside + indent + close + rest == open + (inside + (indent + (close + rest)))
  {
    Regroup3(open + inside, indent, close, rest);
    AppendAppend(open, inside, indent + (close + rest));
  }

  lemma SkipGap(indent: int, t: string)
    ensures SkipWs((if indent == -1 then "" else " ") + t) == SkipWs(t)
  {
    assert "" + t == t;
    assert (" " + t)[1..] == t;
  }

  lemma ItemsStart(items: seq<Value>, indent: int, tail: string)
    requires AllProper(items) && items != [] && indent >= -1 && indent != 0
    ensures !Next(PrintItems(items, indent) + tail, ']')
  {
    hide PrintItems, PrintBare, Indent, Proper, SkipWs;
    SplitItems(items, indent, tail);
    var more := if |items| == 1 then tail else [','] + (PrintItems(items[1..], indent) + tail);
    SkipIndent(indent, PrintBare(items[0], indent) + more);
    FirstCharacter(items[0], indent, more);
  }

  lemma FieldsStart(fields: seq<Field>, indent: int, tail: string)
    requires fields != [] && indent >= -1 && indent != 0
    ensures !Next(PrintFields(fields, indent) + tail, '}')
  {
    hide PrintFields, PrintBare, Indent, Escaped;
    SplitFields(fields, indent, tail);
    var more := if |fields| == 1 then tail else [','] + (PrintFields(fields[1..], indent) + tail);
    SkipIndent(indent, ['"'] + (Escaped(fields[0].key) + ("\"" + ([':'] + ((if indent == -1 then "" else " ")
                       + (PrintBare(fields[0].val, indent) + more))))));
  }

  lemma InsertNext(before: seq<Field>, fields: seq<Field>)
    requires fields != [] && Ascending(Keys(before + fields))
    ensures Insert(before, fields[0].key, fields[0].val) == before + [fields[0]]
    ensures before + [fields[0]] + fields[1..] == before + fields
  {
    var keys := Keys(before + fields);
    forall i | 0 <= i < |before| ensures Less(before[i].key, fields[0].key) {
      assert Less(keys[i], keys[|before|]);
    }
    InsertLast(before, fields[0].key, fields[0].val);
  }

  /**
   * Text that was printed, compact or prettified, is read back as the same value if and only if every array and every
   * object in it has fewer than 100 arrays around it.
   */
  lemma ReadSerialized(v: Value, prettify: bool)
    requires Proper(v)
    ensures Fits(v, 100) ==> Read(Serialize(v, prettify)) == Done(v, if prettify then "\n" else "")
    ensures !Fits(v, 100) ==> Read(Serialize(v, prettify)) == Fail
  {
    ParsePrinted(v, if prettify then 0 else -1, Newline(if prettify then 0 else -1), DEFAULT_MAX_DEPTHS);
  }
}
