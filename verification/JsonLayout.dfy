/** What is printed is a text of the grammar that spells the value, laid out by its levels. */
module JsonLayout {
  import opened OrderedKeys
  import opened Decimal
  import opened Json
  import opened JsonRoundTrip
  import opened JsonUnicode
  import opened JsonGrammar

  /** A line break and two blanks for each level; nothing in compact text, whose level is -1. */
  function LineBreak(level: int): string {
    if level < 0 then "" else "\n" + Blanks(level)
  }

  function Blanks(level: nat): string {
    if level == 0 then "" else "  " + Blanks(level - 1)
  }

  function PieceOf(c: char): Piece {
    if c == '"' || c == '\\' || c == '/' then Short(c)
    else if c as int == 8 then Short('b')
    else if c as int == 12 then Short('f')
    else if c as int == 10 then Short('n')
    else if c as int == 13 then Short('r')
    else if c as int == 9 then Short('t')
    else if c as int < 0x20 || c as int == 0x7f then
      Unit("00" + [if c as int / 16 == 0 then '0' else if c as int / 16 == 1 then '1' else '7', HexDigit(c as int % 16)])
    else Plain(c)
  }

  function PiecesOf(s: string): seq<Piece> {
    if s == "" then [] else [PieceOf(s[0])] + PiecesOf(s[1..])
  }

  function DigitsOf(i: int): Num {
    Num(i < 0, Text(if i < 0 then -i else i), NoFraction, NoExponent)
  }

  /** How a value is laid out, from a level on. */
  function DocOf(v: Value, level: int): Doc
    requires level >= -1
    decreases v, 1
  {
    match v
    case Null => DNull
    case Bool(b) => if b then DTrue else DFalse
    case Int(i) => DNumber(DigitsOf(i))
    case Number(_) => DNull
    case Str(s) => DString(PiecesOf(s))
    case Arr(items) => DArray("", ItemsOf(items, level))
    case Obj(fields) => DObject("", MembersOf(fields, level))
  }

  /** The level inside an array or an object. */
  function Deeper(level: int): int {
    if level < 0 then -1 else level + 1
  }

  function ItemsOf(items: seq<Value>, level: int): (r: seq<Item>)
    requires level >= -1
    ensures |r| == |items|
    decreases items, 2
  {
    if items == [] then []
    else
      [Item(LineBreak(Deeper(level)), DocOf(items[0], Deeper(level)), if |items| == 1 then LineBreak(level) else "")]
      + ItemsOf(items[1..], level)
  }

  function MembersOf(fields: seq<Field>, level: int): (r: seq<Member>)
    requires level >= -1
    ensures |r| == |fields|
    decreases fields, 2
  {
    if fields == [] then []
    else
      [Member(LineBreak(Deeper(level)), PiecesOf(fields[0].key), "", if level < 0 then "" else " ",
              DocOf(fields[0].val, Deeper(level)), if |fields| == 1 then LineBreak(level) else "")]
      + MembersOf(fields[1..], level)
  }

  lemma {:induction false} BlanksAreSpaces(level: nat)
    ensures Blanks(level) == Spaces(2 * level) && Blank(Blanks(level))
  {
    if level > 0 {
      BlanksAreSpaces(level - 1);
      assert Spaces(2 * level) == " " + (" " + Spaces(2 * (level - 1)));
      AppendAppend(" ", " ", Spaces(2 * (level - 1)));
      assert " " + " " == "  ";
    }
  }

  lemma BreakIsIndent(level: int)
    requires level >= -1
    ensures LineBreak(level) == Indent(level) && Blank(LineBreak(level)) && Deeper(level) == Inner(level)
    ensures Newline(Deeper(level)) == ""
  {
    if level >= 0 { BlanksAreSpaces(level); }
  }

  lemma HexOf(c: char)
    requires c as int < 0x20 || c as int == 0x7f
    ensures PieceText(PieceOf(c)) == EscapedChar(c) && ValidPiece(PieceOf(c)) && PieceBytes(PieceOf(c)) == [c]
  {
    if PieceOf(c).Unit? {
      var h := PieceOf(c).h;
      var (x, y) := (h[2], h[3]);
      assert h == ['0', '0', x, y];
      assert HexPlace(x) == c as int / 16 && HexPlace(y) == c as int % 16;
      assert HexDigit(c as int / 16) == x;
      assert "\\u" + h == "\\u00" + [x, y];
    }
  }

  lemma PieceOfMeans(c: char)
    ensures PieceText(PieceOf(c)) == EscapedChar(c) && ValidPiece(PieceOf(c)) && PieceBytes(PieceOf(c)) == [c]
  {
    if c as int < 0x20 || c as int == 0x7f { HexOf(c); }
  }

  lemma {:induction false} PiecesOfMean(s: string, rest: string)
    ensures ValidPieces(PiecesOf(s)) && PiecesBytes(PiecesOf(s)) == s
    ensures Escaped(s) + rest == PiecesText(PiecesOf(s), rest)
  {
    hide ValidPiece, PieceBytes, PieceText, PieceOf, EscapedChar;
    if s == "" {
      assert Escaped(s) + rest == rest;
    } else {
      PieceOfMeans(s[0]);
      PiecesOfMean(s[1..], rest);
      assert PiecesOf(s)[1..] == PiecesOf(s[1..]);
      AppendAppend(EscapedChar(s[0]), Escaped(s[1..]), rest);
      assert s == [s[0]] + s[1..];
    }
  }

  lemma QuotedMeans(s: string, rest: string)
    ensures ValidPieces(PiecesOf(s)) && PiecesBytes(PiecesOf(s)) == s
    ensures Quoted(s) + rest == "\"" + PiecesText(PiecesOf(s), "\"" + rest)
  {
    hide ValidPieces, PiecesBytes, PiecesOf, Escaped, PiecesText;
    PiecesOfMean(s, "\"" + rest);
    AppendAppend("\"", Escaped(s), "\"");
    AppendAppend("\"", Escaped(s) + "\"", rest);
    AppendAppend(Escaped(s), "\"", rest);
  }

  lemma IntMeans(i: int, rest: string)
    requires -0x8000_0000_0000_0000 <= i <= 0x7FFF_FFFF_FFFF_FFFF
    ensures ValidNum(DigitsOf(i)) && NumValue(DigitsOf(i)) == Int(i)
    ensures IntText(i) == NumText(DigitsOf(i))
  {
    hide Text, ValueOf;
    ValueOfText(if i < 0 then -i else i);
    var t := Text(if i < 0 then -i else i);
    assert t + ("" + "") == t && "" + t == t;
  }

  /** The text that is printed is one of the grammar: it spells the value, with the line breaks of its levels. */
  lemma {:induction false} PrintSpells(v: Value, level: int, rest: string)
    requires Proper(v) && level >= -1
    ensures Valid(DocOf(v, level)) && DocValue(DocOf(v, level)) == v
    ensures PrintBare(v, level) + rest == DocText(DocOf(v, level), rest)
    decreases v, 1
  {
    hide PrintItems, PrintFields, ItemsText, MembersText, ItemsOf, MembersOf, ItemsValue, MembersValue, NumText,
         PiecesText, PiecesBytes, NumValue, ValidNum, ValidPieces, ValidMember, Blank, Quoted, IntText, LineBreak, Indent, Inner, DigitsOf, PiecesOf;
    match v
    case Null =>
    case Bool(b) =>
    case Number(_) =>
    case Int(i) => IntMeans(i, rest);
    case Str(s) => QuotedMeans(s, rest);
    case Arr(items) => ArraySpells(items, level, rest);
    case Obj(fields) => ObjectSpells(fields, level, rest);
  }

  lemma {:induction false} ArraySpells(items: seq<Value>, level: int, rest: string)
    requires level >= -1 && AllProper(items)
    ensures Valid(DocOf(Arr(items), level)) && DocValue(DocOf(Arr(items), level)) == Arr(items)
    ensures PrintBare(Arr(items), level) + rest == DocText(DocOf(Arr(items), level), rest)
    decreases items, 3
  {
    hide PrintItems, ItemsText, LineBreak, Indent, Proper;
    var its := ItemsOf(items, level);
    NoBlank();
    if items == [] {
      assert "" + ("]" + rest) == "]" + rest;
      assert "[]" + rest == "[" + ("]" + rest);
    } else {
      ItemsSpell(items, level, "]" + rest);
      BreakIsIndent(level);
      RegroupBrackets("[", PrintItems(items, Inner(level)), Indent(level), "]", rest);
    }
  }

  lemma {:induction false} ItemsSpell(items: seq<Value>, level: int, rest: string)
    requires level >= -1 && items != [] && AllProper(items)
    ensures var its := ItemsOf(items, level);
      && (forall i :: 0 <= i < |its| ==> Blank(its[i].before) && Valid(its[i].doc) && Blank(its[i].after))
      && ItemsValue(its) == items
      && PrintItems(items, Deeper(level)) + (LineBreak(level) + rest) == ItemsText(its, rest)
    decreases items, 2
  {
    hide PrintBare, DocText, DocOf, LineBreak, Indent, Valid, DocValue, Blank, Spaces, Proper, Deeper, Inner;
    var (v, others) := (items[0], items[1..]);
    var inner := Deeper(level);
    var its := ItemsOf(items, level);
    DeeperLevels(level);
    BreakIsIndent(level);
    BreakIsIndent(inner);
    NoBlank();
    var after := its[0].after + if |items| == 1 then rest else "," + ItemsText(its[1..], rest);
    PrintSpells(v, inner, after);
    SplitItems(items, inner, LineBreak(level) + rest);
    assert its[1..] == ItemsOf(others, level);
    if |items| == 1 {
      assert its[1..] == [] && items == [v];
    } else {
      ItemsSpell(others, level, rest);
      assert "" + ("," + ItemsText(its[1..], rest)) == "," + ItemsText(its[1..], rest);
      assert items == [v] + others;
    }
  }

  lemma DeeperLevels(level: int)
    requires level >= -1
    ensures Deeper(level) >= -1 && Deeper(level) != 0
  {
  }

  lemma {:induction false} ObjectSpells(fields: seq<Field>, level: int, rest: string)
    requires level >= -1 && FieldsProper(fields) && Ascending(Keys(fields))
    ensures Valid(DocOf(Obj(fields), level)) && DocValue(DocOf(Obj(fields), level)) == Obj(fields)
    ensures PrintBare(Obj(fields), level) + rest == DocText(DocOf(Obj(fields), level), rest)
    decreases fields, 3
  {
    hide PrintFields, MembersText, LineBreak, Indent, Proper, ValidMember, MembersValue;
    var ms := MembersOf(fields, level);
    NoBlank();
    assert [] + fields == fields;
    if fields == [] {
      NoMembers();
      assert "" + ("}" + rest) == "}" + rest;
      assert "{}" + rest == "{" + ("}" + rest);
    } else {
      FieldsSpell([], fields, level, "}" + rest);
      BreakIsIndent(level);
      RegroupBrackets("{", PrintFields(fields, Inner(level)), Indent(level), "}", rest);
    }
  }

  lemma {:induction false} FieldsSpell(before: seq<Field>, fields: seq<Field>, level: int, rest: string)
    requires level >= -1 && fields != [] && FieldsProper(fields) && Ascending(Keys(before + fields))
    ensures var ms := MembersOf(fields, level);
      && (forall i :: 0 <= i < |ms| ==> ValidMember(ms[i]))
      && MembersValue(ms, before) == before + fields
      && PrintFields(fields, Deeper(level)) + (LineBreak(level) + rest) == MembersText(ms, rest)
    decreases fields, 2
  {
    hide PrintBare, DocText, DocOf, LineBreak, Indent, Valid, DocValue, Blank, Spaces, Proper, Deeper, Inner, PiecesOf, PiecesBytes,
         PiecesText, ValidPieces, Insert, Escaped;
    var (f, others) := (fields[0], fields[1..]);
    var inner := Deeper(level);
    var ms := MembersOf(fields, level);
    DeeperLevels(level);
    BreakIsIndent(level);
    BreakIsIndent(inner);
    GapIsBlank(level);
    var after := ms[0].after + if |fields| == 1 then rest else "," + MembersText(ms[1..], rest);
    PrintSpells(f.val, inner, after);
    var tail := ":" + (ms[0].beforeValue + DocText(ms[0].doc, after));
    PiecesOfMean(f.key, "\"" + ("" + tail));
    assert "" + tail == tail;
    SplitFields(fields, inner, LineBreak(level) + rest);
    InsertNext(before, fields);
    assert ms[1..] == MembersOf(others, level);
    MemberOf(f, level, |fields| == 1);
    if |fields| == 1 {
      assert ms[1..] == [] && fields == [f];
      assert MembersValue(ms, before) == MembersValue([], Insert(before, f.key, f.val));
    } else {
      FieldsSpell(before + [f], others, level, rest);
      assert "" + ("," + MembersText(ms[1..], rest)) == "," + MembersText(ms[1..], rest);
    }
  }

  lemma GapIsBlank(level: int)
    requires level >= -1
    ensures Blank("") && Blank(" ") && (level < 0 <==> Deeper(level) == -1)
  {
  }

  lemma MemberOf(f: Field, level: int, last: bool)
    requires level >= -1 && Valid(DocOf(f.val, Deeper(level)))
    ensures ValidMember(Member(LineBreak(Deeper(level)), PiecesOf(f.key), "", if level < 0 then "" else " ",
                               DocOf(f.val, Deeper(level)), if last then LineBreak(level) else ""))
    ensures PiecesBytes(PiecesOf(f.key)) == f.key
  {
    hide DocOf, LineBreak, Valid, Blank, PiecesOf, PiecesBytes, ValidPieces, Deeper;
    DeeperLevels(level);
    BreakIsIndent(level);
    BreakIsIndent(Deeper(level));
    GapIsBlank(level);
    PiecesOfMean(f.key, "");
  }
}
