/** Nothing but texts of the grammar is read. */
module JsonExactly {
  import opened OrderedKeys
  import opened Decimal
  import opened Json
  import opened JsonRoundTrip
  import opened JsonUnicode
  import opened JsonGrammar

  lemma {:induction false} SpacesBefore(s: string) returns (blank: string)
    ensures Blank(blank) && s == blank + SkipWs(s)
  {
    if s != "" && IsSpace(s[0]) {
      var more := SpacesBefore(s[1..]);
      blank := [s[0]] + more;
      assert s == [s[0]] + s[1..];
      AppendAppend([s[0]], more, SkipWs(s));
      OneMoreBlank(s[0], more);
    } else {
      blank := "";
      assert s == "" + s;
    }
  }

  lemma OneMoreBlank(c: char, blank: string)
    requires IsSpace(c) && Blank(blank)
    ensures Blank([c] + blank)
  {
  }

  /** A mark that is next, and the white space before it. */
  lemma MarkBefore(s: string, mark: char) returns (blank: string)
    requires Next(s, mark)
    ensures Blank(blank) && s == blank + ([mark] + After(s, mark))
  {
    blank := SpacesBefore(s);
    assert SkipWs(s) == [mark] + After(s, mark);
  }

  lemma SoundHex(s: string)
    requires QuadHex(s).Done?
    ensures |s| >= 4 && IsHex(s[..4]) && HexNumber(s[..4]) == QuadHex(s).value && s == s[..4] + QuadHex(s).rest
  {
    hide HexValue, HexPlace;
    HexPlaceIs(s[0]);
    HexPlaceIs(s[1]);
    HexPlaceIs(s[2]);
    HexPlaceIs(s[3]);
  }

  lemma SoundCode(s: string) returns (p: Piece)
    requires Codepoint(s).Done?
    ensures ValidPiece(p) && PieceBytes(p) == Codepoint(s).value && "\\u" + s == PieceText(p) + Codepoint(s).rest
  {
    hide QuadHex, IsHex, HexNumber, Utf8;
    SoundHex(s);
    var (h, rest) := (s[..4], QuadHex(s).rest);
    AppendAppend("\\u", h, rest);
    if 0xd800 <= QuadHex(s).value <= 0xdfff {
      SoundHex(rest[2..]);
      var l := rest[2..][..4];
      p := Pair(h, l);
      assert rest == "\\u" + rest[2..];
      AppendAppend("\\u", l, QuadHex(rest[2..]).rest);
      AppendAppend("\\u" + h, "\\u" + l, QuadHex(rest[2..]).rest);
    } else {
      p := Unit(h);
    }
  }

  /** What is read of a string literal, up to its quote, is made of pieces. */
  lemma {:induction false} SoundLiteral(s: string) returns (pieces: seq<Piece>)
    requires Literal(s).Done?
    ensures ValidPieces(pieces) && PiecesBytes(pieces) == Literal(s).value && s == PiecesText(pieces, "\"" + Literal(s).rest)
    decreases |s|
  {
    hide Codepoint, ValidPiece, PieceBytes, PieceText, Unescaped;
    if s[0] == '"' {
      pieces := [];
      assert s == "\"" + s[1..];
    } else {
      var p, next := SoundPiece(s);
      var more := SoundLiteral(next);
      pieces := [p] + more;
      assert pieces[1..] == more;
    }
  }

  /** The first piece of a literal that is read. */
  lemma SoundPiece(s: string) returns (p: Piece, next: string)
    requires Literal(s).Done? && s[0] != '"'
    ensures ValidPiece(p) && s == PieceText(p) + next && |next| < |s|
    ensures Literal(next).Done? && Literal(s) == Prepend(PieceBytes(p), Literal(next))
  {
    hide Codepoint, Utf8, HexNumber, IsHex;
    if s[0] == '\\' && s[1] == 'u' {
      p := SoundCode(s[2..]);
      next := Codepoint(s[2..]).rest;
      assert s == "\\u" + s[2..];
    } else if s[0] == '\\' {
      p, next := Short(s[1]), s[2..];
      assert s == ['\\', s[1]] + next;
    } else {
      p, next := Plain(s[0]), s[1..];
      assert s == [s[0]] + next;
    }
  }

  lemma {:induction false} DigitsBefore(s: string) returns (digits: string)
    ensures AllDigits(digits) && s == digits + DropDigits(s) && (DropDigits(s) == "" || !IsDigit(DropDigits(s)[0]))
  {
    if s != "" && IsDigit(s[0]) {
      var more := DigitsBefore(s[1..]);
      digits := [s[0]] + more;
      assert s == [s[0]] + s[1..];
      AppendAppend([s[0]], more, DropDigits(s));
    } else {
      digits := "";
      assert s == "" + s;
    }
  }

  lemma SignBefore(s: string) returns (sign: string)
    ensures (sign == "" || sign == "+" || sign == "-") && s == sign + DropSign(s)
  {
    sign := if DropSign(s) == s then "" else [s[0]];
    assert "" + s == s;
  }

  lemma SoundExponent(s: string) returns (x: Exponent)
    requires s == "" || ((s[0] == 'e' || s[0] == 'E') && DropSign(s[1..]) != "" && DropDigits(DropSign(s[1..])) == "")
    ensures s == ExponentText(x)
    ensures x.Exponent? ==>
      (x.e == 'e' || x.e == 'E') && (x.sign == "" || x.sign == "+" || x.sign == "-") && x.digits != "" && AllDigits(x.digits)
  {
    hide DropSign, DropDigits, AllDigits;
    if s == "" {
      x := NoExponent;
    } else {
      var sign := SignBefore(s[1..]);
      var digits := DigitsBefore(DropSign(s[1..]));
      assert digits + "" == digits;
      x := Exponent(s[0], sign, digits);
      assert s == [s[0]] + s[1..];
    }
  }

  lemma SoundInt(s: string) returns (n: Num)
    requires s != "" && (IsDigit(s[0]) || s[0] == '-') && ReadInt(s).AnInt?
    ensures ValidNum(n) && NumText(n) == s
  {
    hide ValueOf;
    n := if s[0] == '-' then Num(true, s[1..], NoFraction, NoExponent) else Num(false, s, NoFraction, NoExponent);
    assert n.digits + ("" + "") == n.digits && "" + n.digits == n.digits;
    assert s[0] == '-' ==> s == "-" + s[1..];
  }

  /** What follows the digits: a point and digits, or nothing; and an exponent, or nothing. */
  lemma SoundTail(tail: string) returns (f: Fraction, x: Exponent)
    requires var rest := if tail != "" && tail[0] == '.' then DropDigits(tail[1..]) else tail;
      rest == "" || ((rest[0] == 'e' || rest[0] == 'E') && DropSign(rest[1..]) != "" && DropDigits(DropSign(rest[1..])) == "")
    ensures tail == FractionText(f) + ExponentText(x) && (f.Point? ==> AllDigits(f.digits))
    ensures f.Point? <==> tail != "" && tail[0] == '.'
    ensures f.Point? ==> |f.digits| == |tail| - 1 - |DropDigits(tail[1..])|
    ensures x.Exponent? ==>
      (x.e == 'e' || x.e == 'E') && (x.sign == "" || x.sign == "+" || x.sign == "-") && x.digits != "" && AllDigits(x.digits)
  {
    hide DropDigits, DropSign;
    if tail != "" && tail[0] == '.' {
      var digits := DigitsBefore(tail[1..]);
      x := SoundExponent(DropDigits(tail[1..]));
      f := Point(digits);
      assert tail == "." + tail[1..];
      AppendAppend(".", digits, ExponentText(x));
    } else {
      x := SoundExponent(tail);
      f := NoFraction;
      assert "" + ExponentText(x) == ExponentText(x);
    }
  }

  lemma SoundDouble(s: string) returns (n: Num)
    requires s != "" && (IsDigit(s[0]) || s[0] == '-') && IsDouble(s)
    ensures ValidNum(n) && NumText(n) == s
  {
    hide DropDigits;
    var mantissa := DropSign(s);
    var digits := DigitsBefore(mantissa);
    var f, x := SoundTail(DropDigits(mantissa));
    n := Num(s[0] == '-', digits, f, x);
    SignAnd(s);
    if digits == "" { assert mantissa == DropDigits(mantissa); }
  }

  lemma SignAnd(s: string)
    requires s != "" && (IsDigit(s[0]) || s[0] == '-')
    ensures s == (if s[0] == '-' then "-" else "") + DropSign(s)
    ensures s[0] != '-' ==> DropDigits(DropSign(s)) != DropSign(s)
  {
    if s[0] == '-' {
      assert s == "-" + s[1..];
    } else {
      assert s == "" + s;
    }
  }

  /** A numeral that is read is a number of the grammar. */
  lemma SoundNumber(s: string) returns (n: Num)
    requires s != "" && (IsDigit(s[0]) || s[0] == '-') && NumberOf(s).Done?
    ensures ValidNum(n) && NumText(n) == s
  {
    hide IsDouble, ReadInt, ValidNum, NumText;
    if ReadInt(s).AnInt? && !IsDouble(s) {
      n := SoundInt(s);
    } else {
      n := SoundDouble(s);
    }
  }

  lemma {:induction false} NumeralIsAll(s: string)
    ensures s == Json.Numeral(s) + s[|Json.Numeral(s)|..] && Ends(s[|Json.Numeral(s)|..])
  {
    if s != "" && IsNumeral(s[0]) {
      NumeralIsAll(s[1..]);
      assert s[1..][|Json.Numeral(s[1..])|..] == s[|Json.Numeral(s)|..];
    } else {
      assert s[0..] == s;
    }
  }

  lemma WordIs(s: string, word: string, v: Value)
    requires Word(s, word, v).Done?
    ensures s == word + Word(s, word, v).rest && Word(s, word, v).value == v
  {
  }

  lemma SoundWord(t: string, depths: nat) returns (doc: Doc)
    requires Parse(t, depths).Done? && t != "" && (t[0] == 'n' || t[0] == 'f' || t[0] == 't')
    ensures !doc.DNumber? && Valid(doc) && DocFits(doc, depths)
    ensures DocValue(doc) == Parse(t, depths).value && t == DocText(doc, Parse(t, depths).rest)
  {
    hide Literal, NumberOf, ArrayValue, ObjectValue, Word, Json.Numeral;
    var rest := Parse(t, depths).rest;
    assert t == [t[0]] + t[1..];
    if t[0] == 'n' {
      WordIs(t[1..], "ull", Null);
      doc := DNull;
      AppendAppend("n", "ull", rest);
      assert "n" + "ull" == "null";
    } else if t[0] == 'f' {
      WordIs(t[1..], "alse", Bool(false));
      doc := DFalse;
      AppendAppend("f", "alse", rest);
      assert "f" + "alse" == "false";
    } else {
      WordIs(t[1..], "rue", Bool(true));
      doc := DTrue;
      AppendAppend("t", "rue", rest);
      assert "t" + "rue" == "true";
    }
  }

  /** Whatever is read is white space and a text of the grammar that spells it. */
  lemma {:induction false} SoundDoc(s: string, depths: nat) returns (before: string, doc: Doc)
    requires Parse(s, depths).Done?
    ensures var r := Parse(s, depths);
      && Blank(before) && Valid(doc) && DocFits(doc, depths) && DocValue(doc) == r.value
      && s == before + DocText(doc, r.rest) && (doc.DNumber? ==> Ends(r.rest))
    decreases |s|, 1
  {
    hide Literal, NumberOf, ArrayValue, ObjectValue, Word, Json.Numeral, ValidNum, NumText, NumValue, PiecesText, PiecesBytes,
         ValidPieces, Ends;
    before := SpacesBefore(s);
    var t := SkipWs(s);
    var r := Parse(s, depths);
    if t[0] == 'n' || t[0] == 'f' || t[0] == 't' {
      SkipTwice(s);
      ParseSkips(s, t, depths);
      doc := SoundWord(t, depths);
    } else if t[0] == '"' {
      var pieces := SoundLiteral(t[1..]);
      doc := DString(pieces);
      assert t == "\"" + t[1..];
    } else if t[0] == '[' {
      doc := SoundArray(t[1..], depths);
      assert t == "[" + t[1..];
    } else if t[0] == '{' {
      doc := SoundObject(t[1..], depths);
      assert t == "{" + t[1..];
    } else {
      var n := SoundNumber(Json.Numeral(t));
      NumReads(n);
      NumeralIsAll(t);
      doc := DNumber(n);
    }
  }

  lemma {:induction false} SoundArray(s: string, depths: nat) returns (doc: Doc)
    requires ArrayValue(s, depths).Done?
    ensures var r := ArrayValue(s, depths);
      && doc.DArray? && Valid(doc) && DocFits(doc, depths) && DocValue(doc) == r.value && "[" + s == DocText(doc, r.rest)
    decreases |s|, 3
  {
    hide ParseItems, Next, After, ItemsText, ItemsValue;
    if Next(s, ']') {
      var gap := MarkBefore(s, ']');
      doc := DArray(gap, []);
      NoItems();
    } else {
      var items := SoundItems(After(s, ']'), depths - 1);
      var blank := NotNextBefore(s, ']');
      var first := items[0];
      var all := [first.(before := blank + first.before)] + items[1..];
      MoreBefore(items, blank, "]" + ParseItems(After(s, ']'), depths - 1).rest);
      doc := DArray("", all);
      NoBlank();
    }
  }

  lemma NotNextBefore(s: string, mark: char) returns (blank: string)
    requires !Next(s, mark)
    ensures Blank(blank) && s == blank + After(s, mark)
  {
    blank := SpacesBefore(s);
  }

  lemma BlankAppend(s: string, t: string)
    requires Blank(s) && Blank(t)
    ensures Blank(s + t)
  {
  }

  /** White space before the first item belongs to it. */
  lemma MoreBefore(items: seq<Item>, blank: string, rest: string)
    requires items != [] && Blank(blank) && Blank(items[0].before)
    requires forall i :: 0 <= i < |items| ==> Valid(items[i].doc)
    ensures var all := [items[0].(before := blank + items[0].before)] + items[1..];
      && |all| == |items| && ItemsText(all, rest) == blank + ItemsText(items, rest) && Blank(all[0].before)
      && (forall i :: 0 <= i < |all| ==> all[i].doc == items[i].doc && all[i].after == items[i].after)
      && (forall i :: 1 <= i < |all| ==> all[i] == items[i])
      && ItemsValue(all) == ItemsValue(items)
  {
    hide Valid, DocText, DocValue;
    var first := items[0];
    var all := [first.(before := blank + first.before)] + items[1..];
    BlankAppend(blank, first.before);
    assert all[1..] == items[1..];
    var more := if |items| == 1 then rest else "," + ItemsText(items[1..], rest);
    AppendAppend(blank, first.before, DocText(first.doc, first.after + more));
  }

  ghost predicate ReadItems(items: seq<Item>, depths: nat) {
    forall i :: 0 <= i < |items| ==>
      Blank(items[i].before) && Valid(items[i].doc) && Blank(items[i].after) && DocFits(items[i].doc, depths)
  }

  lemma {:induction false} SoundItems(s: string, depths: nat) returns (items: seq<Item>)
    requires ParseItems(s, depths).Done?
    ensures var r := ParseItems(s, depths);
      && items != [] && ReadItems(items, depths) && ItemsValue(items) == r.value && s == ItemsText(items, "]" + r.rest)
    decreases |s|, 2
  {
    hide Parse, Next, After, DocText, Valid, DocFits, DocValue, Blank, Ends;
    var r := ParseItems(s, depths);
    var before, doc := SoundDoc(s, depths);
    var rest := Parse(s, depths).rest;
    if Next(rest, ',') {
      var after := MarkBefore(rest, ',');
      var more := SoundItems(After(rest, ','), depths);
      items := [Item(before, doc, after)] + more;
      assert items[1..] == more;
    } else {
      var blank := NotNextBefore(rest, ',');
      var gap := MarkBefore(After(rest, ','), ']');
      items := [Item(before, doc, blank + gap)];
      BlankAppend(blank, gap);
      AppendAppend(blank, gap, "]" + r.rest);
      assert items[1..] == [];
      NoItems();
    }
  }

  lemma {:induction false} SoundObject(s: string, depths: nat) returns (doc: Doc)
    requires ObjectValue(s, depths).Done?
    ensures var r := ObjectValue(s, depths);
      && doc.DObject? && Valid(doc) && DocFits(doc, depths) && DocValue(doc) == r.value && "{" + s == DocText(doc, r.rest)
    decreases |s|, 3
  {
    hide ParseFields, Next, After, MembersText, MembersValue;
    NoBlank();
    NoMembers();
    if Next(s, '}') {
      var gap := MarkBefore(s, '}');
      doc := DObject(gap, []);
    } else {
      var members := SoundMembers(After(s, '}'), depths, []);
      var blank := NotNextBefore(s, '}');
      var all := [members[0].(before := blank + members[0].before)] + members[1..];
      MoreBeforeMember(members, blank, "}" + ParseFields(After(s, '}'), depths, []).rest, []);
      doc := DObject("", all);
    }
  }

  ghost predicate ReadMembers(members: seq<Member>, depths: nat) {
    forall i :: 0 <= i < |members| ==> ValidMember(members[i]) && DocFits(members[i].doc, depths)
  }

  lemma MoreBeforeMember(members: seq<Member>, blank: string, rest: string, fields: seq<Field>)
    requires members != [] && Blank(blank) && forall i :: 0 <= i < |members| ==> ValidMember(members[i])
    ensures var all := [members[0].(before := blank + members[0].before)] + members[1..];
      && |all| == |members| && MembersText(all, rest) == blank + MembersText(members, rest)
      && (forall i :: 0 <= i < |all| ==> ValidMember(all[i]) && all[i].doc == members[i].doc)
      && MembersValue(all, fields) == MembersValue(members, fields)
  {
    hide Valid, DocText, DocValue, Insert, PiecesText, PiecesBytes, ValidPieces, Blank;
    var m := members[0];
    var all := [m.(before := blank + m.before)] + members[1..];
    assert ValidMember(m);
    BlankAppend(blank, m.before);
    assert all[1..] == members[1..];
    AppendAppend(blank, m.before, "\"" + PiecesText(m.key, "\"" + (m.afterKey + (":" + (m.beforeValue
      + DocText(m.doc, m.after + if |members| == 1 then rest else "," + MembersText(members[1..], rest)))))));
  }

  lemma {:induction false} SoundMembers(s: string, depths: nat, fields: seq<Field>) returns (members: seq<Member>)
    requires ParseFields(s, depths, fields).Done?
    ensures var r := ParseFields(s, depths, fields);
      && members != [] && ReadMembers(members, depths) && MembersValue(members, fields) == r.value
      && s == MembersText(members, "}" + r.rest)
    decreases |s|, 2
  {
    hide Parse, Next, After, Literal, DocText, Valid, DocFits, DocValue, Blank, Ends, PiecesText, PiecesBytes, ValidPieces,
         Insert;
    var r := ParseFields(s, depths, fields);
    var before := MarkBefore(s, '"');
    var key := SoundLiteral(After(s, '"'));
    var tail := Literal(After(s, '"')).rest;
    var afterKey := MarkBefore(tail, ':');
    var beforeValue, doc := SoundDoc(After(tail, ':'), depths);
    var rest := Parse(After(tail, ':'), depths).rest;
    if Next(rest, ',') {
      var after := MarkBefore(rest, ',');
      var now := Insert(fields, Literal(After(s, '"')).value, Parse(After(tail, ':'), depths).value);
      var more := SoundMembers(After(rest, ','), depths, now);
      members := [Member(before, key, afterKey, beforeValue, doc, after)] + more;
      assert members[1..] == more;
    } else {
      var blank := NotNextBefore(rest, ',');
      var gap := MarkBefore(After(rest, ','), '}');
      members := [Member(before, key, afterKey, beforeValue, doc, blank + gap)];
      BlankAppend(blank, gap);
      AppendAppend(blank, gap, "}" + r.rest);
      assert members[1..] == [];
      assert MembersValue([], r.value) == r.value;
    }
  }

  /** A text of the grammar that spells `v`, after white space; a number ends with its numeral. */
  ghost predicate IsReadAs(s: string, before: string, doc: Doc, v: Value, rest: string) {
    && Blank(before) && Valid(doc) && DocFits(doc, 100) && DocValue(doc) == v
    && s == before + DocText(doc, rest) && (doc.DNumber? ==> Ends(rest))
  }

  /**
   * Exactly the texts of the grammar are read, and as the values they spell, if every array and every object in them has
   * fewer than 100 arrays around it.
   */
  lemma ReadsExactly(s: string, v: Value, rest: string)
    ensures Read(s) == Done(v, rest) <==> exists before, doc :: IsReadAs(s, before, doc, v, rest)
  {
    hide Parse, DocText, DocFits, DocValue, Valid, Blank, Ends;
    if Read(s) == Done(v, rest) {
      var before, doc := SoundDoc(s, 100);
      assert IsReadAs(s, before, doc, v, rest);
    }
    if before, doc :| IsReadAs(s, before, doc, v, rest) {
      SkipBlank(before, DocText(doc, rest));
      ParseSkips(s, DocText(doc, rest), 100);
      ParseDoc(doc, rest, 100);
    }
  }
}
