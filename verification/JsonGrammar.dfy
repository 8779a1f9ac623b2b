/** The texts of JSON (RFC 8259) and what they spell. Every one of them is read as its value. */
module JsonGrammar {
  import opened OrderedKeys
  import opened Decimal
  import opened Json
  import opened JsonRoundTrip
  import opened JsonUnicode

  /* Texts */

  /** One character of a string: itself, an escape of two characters, a code unit in hexadecimal, or a surrogate pair. */
  datatype Piece = Plain(c: char) | Short(e: char) | Unit(h: string) | Pair(h: string, l: string)

  /** A number with its fraction and its exponent, as they are written. */
  datatype Num = Num(negative: bool, digits: string, fraction: Fraction, exponent: Exponent)

  datatype Fraction = NoFraction | Point(digits: string)

  datatype Exponent = NoExponent | Exponent(e: char, sign: string, digits: string)

  /** A value as it is written, with the white space that is in it; `gap` is that of an empty array or object. */
  datatype Doc =
    | DNull
    | DTrue
    | DFalse
    | DNumber(n: Num)
    | DString(pieces: seq<Piece>)
    | DArray(gap: string, items: seq<Item>)
    | DObject(gap: string, members: seq<Member>)

  datatype Item = Item(before: string, doc: Doc, after: string)

  datatype Member = Member(before: string, key: seq<Piece>, afterKey: string, beforeValue: string, doc: Doc, after: string)

  function PieceText(p: Piece): (s: string)
    ensures s != ""
  {
    match p
    case Plain(c) => [c]
    case Short(e) => ['\\', e]
    case Unit(h) => "\\u" + h
    case Pair(h, l) => ("\\u" + h) + ("\\u" + l)
  }

  function FractionText(f: Fraction): string {
    match f
    case NoFraction => ""
    case Point(digits) => "." + digits
  }

  function ExponentText(x: Exponent): string {
    match x
    case NoExponent => ""
    case Exponent(e, sign, digits) => [e] + (sign + digits)
  }

  function NumText(n: Num): string {
    (if n.negative then "-" else "") + (n.digits + (FractionText(n.fraction) + ExponentText(n.exponent)))
  }

  /** The text, before what follows it. */
  function PiecesText(pieces: seq<Piece>, rest: string): string {
    if pieces == [] then rest else PieceText(pieces[0]) + PiecesText(pieces[1..], rest)
  }

  function DocText(doc: Doc, rest: string): string
    decreases doc, 1
  {
    match doc
    case DNull => "null" + rest
    case DTrue => "true" + rest
    case DFalse => "false" + rest
    case DNumber(n) => NumText(n) + rest
    case DString(pieces) => "\"" + PiecesText(pieces, "\"" + rest)
    case DArray(gap, items) => "[" + if items == [] then gap + ("]" + rest) else ItemsText(items, "]" + rest)
    case DObject(gap, members) => "{" + if members == [] then gap + ("}" + rest) else MembersText(members, "}" + rest)
  }

  function ItemsText(items: seq<Item>, rest: string): string
    requires items != []
    decreases items, 2
  {
    items[0].before
    + DocText(items[0].doc, items[0].after + if |items| == 1 then rest else "," + ItemsText(items[1..], rest))
  }

  function MembersText(members: seq<Member>, rest: string): string
    requires members != []
    decreases members, 2
  {
    var m := members[0];
    m.before + ("\"" + PiecesText(m.key, "\"" + (m.afterKey + (":" + (m.beforeValue
      + DocText(m.doc, m.after + if |members| == 1 then rest else "," + MembersText(members[1..], rest)))))))
  }

  /* Which of them are JSON */

  predicate Blank(s: string) {
    forall i :: 0 <= i < |s| ==> s[i] in " \t\n\r"
  }

  /** The value of four hexadecimal digits, in either case. */
  function HexPlace(c: char): (d: int)
    ensures -1 <= d < 16
  {
    if '0' <= c <= '9' then c as int - '0' as int
    else if 'a' <= c <= 'f' then c as int - 'a' as int + 10
    else if 'A' <= c <= 'F' then c as int - 'A' as int + 10
    else -1
  }

  predicate IsHex(h: string) {
    |h| == 4 && HexPlace(h[0]) >= 0 && HexPlace(h[1]) >= 0 && HexPlace(h[2]) >= 0 && HexPlace(h[3]) >= 0
  }

  function HexNumber(h: string): (n: nat)
    requires IsHex(h)
    ensures n < 0x10000
  {
    4096 * HexPlace(h[0]) + 256 * HexPlace(h[1]) + 16 * HexPlace(h[2]) + HexPlace(h[3])
  }

  predicate ValidPiece(p: Piece) {
    match p
    case Plain(c) => c as int >= 0x20 && c != '"' && c != '\\'
    case Short(e) => e in "\"\\/bfnrt"
    case Unit(h) => IsHex(h) && !(0xd800 <= HexNumber(h) <= 0xdfff)
    case Pair(h, l) => IsHex(h) && IsHex(l) && 0xd800 <= HexNumber(h) <= 0xdbff && 0xdc00 <= HexNumber(l) <= 0xdfff
  }

  predicate ValidPieces(pieces: seq<Piece>) {
    forall i :: 0 <= i < |pieces| ==> ValidPiece(pieces[i])
  }

  /** Digits, with a fraction or an exponent or both. Beyond the standard, the digits may begin with zeros, and those on one side
      of the point may be missing; they are missing before it only behind a minus sign. */
  predicate ValidNum(n: Num) {
    && AllDigits(n.digits) && (n.fraction.Point? ==> AllDigits(n.fraction.digits))
    && (n.digits != "" || (n.negative && n.fraction.Point? && n.fraction.digits != ""))
    && (n.exponent.Exponent? ==>
          (n.exponent.e == 'e' || n.exponent.e == 'E') && (n.exponent.sign == "" || n.exponent.sign == "+" || n.exponent.sign == "-")
          && n.exponent.digits != "" && AllDigits(n.exponent.digits))
  }

  predicate Valid(doc: Doc)
    decreases doc
  {
    match doc
    case DNumber(n) => ValidNum(n)
    case DString(pieces) => ValidPieces(pieces)
    case DArray(gap, items) =>
      Blank(gap) && forall i :: 0 <= i < |items| ==> Blank(items[i].before) && Valid(items[i].doc) && Blank(items[i].after)
    case DObject(gap, members) => Blank(gap) && forall i :: 0 <= i < |members| ==> ValidMember(members[i])
    case _ => true
  }

  predicate ValidMember(m: Member)
    decreases m
  {
    Blank(m.before) && ValidPieces(m.key) && Blank(m.afterKey) && Blank(m.beforeValue) && Valid(m.doc) && Blank(m.after)
  }

  /* What they spell */

  /** The bytes of a piece. */
  function PieceBytes(p: Piece): string
    requires ValidPiece(p)
  {
    match p
    case Plain(c) => [c]
    case Short(e) =>
      [if e == 'b' then 8 as char
       else if e == 'f' then 12 as char
       else if e == 'n' then 10 as char
       else if e == 'r' then 13 as char
       else if e == 't' then 9 as char
       else e]
    case Unit(h) => Utf8(HexNumber(h))
    case Pair(h, l) => Utf8(0x10000 + (HexNumber(h) - 0xd800) * 0x400 + (HexNumber(l) - 0xdc00))
  }

  function PiecesBytes(pieces: seq<Piece>): string
    requires ValidPieces(pieces)
  {
    if pieces == [] then "" else PieceBytes(pieces[0]) + PiecesBytes(pieces[1..])
  }

  /** An integer that fits 64 bits, or a double that is known by its text. */
  function NumValue(n: Num): Value
    requires ValidNum(n)
  {
    var v: int := ValueOf(n.digits);
    var i := if n.negative then -v else v;
    if n.fraction.NoFraction? && n.exponent.NoExponent? && -0x8000_0000_0000_0000 <= i <= 0x7FFF_FFFF_FFFF_FFFF then Int(i)
    else Number(NumText(n))
  }

  function DocValue(doc: Doc): Value
    requires Valid(doc)
    decreases doc, 1
  {
    match doc
    case DNull => Null
    case DTrue => Bool(true)
    case DFalse => Bool(false)
    case DNumber(n) => NumValue(n)
    case DString(pieces) => Str(PiecesBytes(pieces))
    case DArray(_, items) => Arr(ItemsValue(items))
    case DObject(_, members) => Obj(MembersValue(members, []))
  }

  function ItemsValue(items: seq<Item>): seq<Value>
    requires forall i :: 0 <= i < |items| ==> Valid(items[i].doc)
    decreases items, 2
  {
    if items == [] then [] else [DocValue(items[0].doc)] + ItemsValue(items[1..])
  }

  /** The members, in their order, set in those before. */
  function MembersValue(members: seq<Member>, fields: seq<Field>): seq<Field>
    requires forall i :: 0 <= i < |members| ==> ValidMember(members[i])
    decreases members, 2
  {
    if members == [] then fields
    else
      assert ValidMember(members[0]);
      MembersValue(members[1..], Insert(fields, PiecesBytes(members[0].key), DocValue(members[0].doc)))
  }

  /** Every array and every object of the text has fewer than `n` arrays around it. */
  predicate DocFits(doc: Doc, n: nat)
    decreases doc
  {
    match doc
    case DArray(_, items) => n > 0 && forall i :: 0 <= i < |items| ==> DocFits(items[i].doc, n - 1)
    case DObject(_, members) => n > 0 && forall i :: 0 <= i < |members| ==> DocFits(members[i].doc, n)
    case _ => true
  }

  lemma NoMembers()
    ensures MembersValue([], []) == []
  {
  }

  lemma NoItems()
    ensures ItemsValue([]) == []
  {
  }

  /* White space */

  lemma {:induction false} SkipBlank(blank: string, s: string)
    requires Blank(blank)
    ensures SkipWs(blank + s) == SkipWs(s)
  {
    if blank == "" {
      assert blank + s == s;
    } else {
      assert (blank + s)[1..] == blank[1..] + s;
      SkipBlank(blank[1..], s);
    }
  }

  lemma NoBlank()
    ensures Blank("")
  {
  }

  lemma EndsAfterBlank(blank: string, s: string)
    requires Blank(blank) && Ends(s)
    ensures Ends(blank + s)
  {
    if blank == "" { assert blank + s == s; }
  }

  /** White space and a mark. */
  lemma NextMark(blank: string, mark: char, rest: string)
    requires Blank(blank) && !IsSpace(mark)
    ensures Next(blank + ([mark] + rest), mark) && After(blank + ([mark] + rest), mark) == rest
    ensures forall x :: x != mark ==>
      !Next(blank + ([mark] + rest), x) && After(blank + ([mark] + rest), x) == [mark] + rest
  {
    SkipBlank(blank, [mark] + rest);
    assert ([mark] + rest)[1..] == rest;
  }

  /* Strings */

  lemma HexPlaceIs(c: char)
    ensures HexValue(c) == HexPlace(c)
  {
  }

  lemma QuadHexIs(h: string, rest: string)
    requires IsHex(h)
    ensures QuadHex(h + rest) == Done(HexNumber(h), rest)
  {
    hide HexValue, HexPlace;
    HexPlaceIs(h[0]);
    HexPlaceIs(h[1]);
    HexPlaceIs(h[2]);
    HexPlaceIs(h[3]);
    assert (h + rest)[4..] == rest;
  }

  lemma CodepointIs(p: Piece, rest: string)
    requires ValidPiece(p) && (p.Unit? || p.Pair?)
    ensures Codepoint((if p.Unit? then p.h else p.h + ("\\u" + p.l)) + rest) == Done(PieceBytes(p), rest)
  {
    hide QuadHex, IsHex, HexNumber, Utf8;
    if p.Unit? {
      QuadHexIs(p.h, rest);
    } else {
      var tail := "\\u" + (p.l + rest);
      AppendAppend(p.h, "\\u" + p.l, rest);
      AppendAppend("\\u", p.l, rest);
      QuadHexIs(p.h, tail);
      QuadHexIs(p.l, rest);
      assert tail[2..] == p.l + rest;
    }
  }

  lemma LiteralPiece(p: Piece, rest: string)
    requires ValidPiece(p)
    ensures Literal(PieceText(p) + rest) == Prepend(PieceBytes(p), Literal(rest))
  {
    hide Codepoint, Literal, IsHex, HexNumber, Utf8;
    match p
    case Plain(c) => LiteralPlain(c, rest);
    case Short(e) => LiteralShort(e, rest);
    case Unit(h) =>
      AppendAppend("\\u", h, rest);
      CodepointIs(p, rest);
      LiteralCode(h + rest, PieceBytes(p), rest);
    case Pair(h, l) =>
      AppendAppend("\\u" + h, "\\u" + l, rest);
      AppendAppend("\\u", h, ("\\u" + l) + rest);
      AppendAppend(h, "\\u" + l, rest);
      CodepointIs(p, rest);
      LiteralCode(h + (("\\u" + l) + rest), PieceBytes(p), rest);
  }

  lemma LiteralCode(s: string, bytes: string, rest: string)
    requires Codepoint(s) == Done(bytes, rest)
    ensures Literal("\\u" + s) == Prepend(bytes, Literal(rest))
  {
    hide Codepoint;
    assert ("\\u" + s)[2..] == s;
  }

  lemma {:induction false} LiteralPieces(pieces: seq<Piece>, rest: string)
    requires ValidPieces(pieces)
    ensures Literal(PiecesText(pieces, "\"" + rest)) == Done(PiecesBytes(pieces), rest)
  {
    hide ValidPiece, PieceBytes, PieceText;
    if pieces == [] {
      assert ("\"" + rest)[1..] == rest;
    } else {
      LiteralPiece(pieces[0], PiecesText(pieces[1..], "\"" + rest));
      LiteralPieces(pieces[1..], rest);
    }
  }

  /* Numbers */

  predicate Numerals(s: string) {
    forall i :: 0 <= i < |s| ==> IsNumeral(s[i])
  }

  lemma {:induction false} NumeralOf(s: string, rest: string)
    requires Numerals(s) && Ends(rest)
    ensures Json.Numeral(s + rest) == s
  {
    if s == "" {
      assert s + rest == rest;
    } else {
      assert (s + rest)[1..] == s[1..] + rest;
      NumeralOf(s[1..], rest);
    }
  }

  lemma NumeralsAppend(s: string, t: string)
    requires Numerals(s) && Numerals(t)
    ensures Numerals(s + t)
  {
  }

  lemma NumIsNumeral(n: Num)
    requires ValidNum(n)
    ensures Numerals(NumText(n)) && NumText(n) != "" && (IsDigit(NumText(n)[0]) || NumText(n)[0] == '-')
  {
    NumeralsAppend(FractionText(n.fraction), ExponentText(n.exponent));
    NumeralsAppend(n.digits, FractionText(n.fraction) + ExponentText(n.exponent));
    NumeralsAppend(if n.negative then "-" else "", n.digits + (FractionText(n.fraction) + ExponentText(n.exponent)));
  }

  lemma {:induction false} DropsDigits(digits: string, rest: string)
    requires AllDigits(digits) && (rest == "" || !IsDigit(rest[0]))
    ensures DropDigits(digits + rest) == rest
  {
    if digits == "" {
      assert digits + rest == rest;
    } else {
      assert (digits + rest)[1..] == digits[1..] + rest;
      DropsDigits(digits[1..], rest);
    }
  }

  lemma DropsSign(negative: bool, rest: string)
    requires negative || (rest != "" && IsDigit(rest[0]))
    ensures DropSign((if negative then "-" else "") + rest) == rest
  {
    assert "" + rest == rest;
  }

  lemma ExponentReads(x: Exponent)
    requires x.Exponent? ==> x.digits != "" && AllDigits(x.digits) && (x.sign == "" || x.sign == "+" || x.sign == "-")
    ensures x.Exponent? ==>
      var rest := ExponentText(x); rest[1..] == x.sign + x.digits && DropSign(rest[1..]) == x.digits && DropDigits(x.digits) == ""
  {
    if x.Exponent? {
      assert "" + x.digits == x.digits && x.digits + "" == x.digits;
      DropsDigits(x.digits, "");
    }
  }

  lemma NumIsDouble(n: Num)
    requires ValidNum(n)
    ensures IsDouble(NumText(n))
  {
    hide DropDigits, DropSign, AllDigits;
    var (f, x) := (FractionText(n.fraction), ExponentText(n.exponent));
    if n.digits != "" { DigitsAre(n.digits); }
    DropsSign(n.negative, n.digits + (f + x));
    DropsDigits(n.digits, f + x);
    ExponentReads(n.exponent);
    if n.fraction.Point? {
      AppendAppend(".", n.fraction.digits, x);
      assert (f + x)[1..] == n.fraction.digits + x;
      DropsDigits(n.fraction.digits, x);
    } else {
      assert f + x == x;
    }
  }

  lemma DigitsAre(s: string)
    requires s != "" && AllDigits(s)
    ensures IsDigit(s[0])
  {
  }

  lemma NumReads(n: Num)
    requires ValidNum(n)
    ensures NumberOf(NumText(n)) == Done(NumValue(n), "")
  {
    hide IsDouble, ValueOf;
    NumIsDouble(n);
    PlainOrNot(n);
  }

  lemma NotAllDigits(s: string, i: nat)
    requires i < |s| && !IsDigit(s[i])
    ensures !AllDigits(s)
  {
  }

  lemma SignedText(n: Num)
    requires ValidNum(n)
    ensures var body := n.digits + (FractionText(n.fraction) + ExponentText(n.exponent));
      && (n.negative ==> NumText(n) == "-" + body && NumText(n)[1..] == body && |body| > 0)
      && (!n.negative ==> NumText(n) == body && |body| > 0 && IsDigit(body[0]))
  {
    var body := n.digits + (FractionText(n.fraction) + ExponentText(n.exponent));
    assert "" + body == body;
    if n.digits != "" { DigitsAre(n.digits); }
  }

  /** Only a number without fraction and exponent reads as an integer. */
  lemma PlainOrNot(n: Num)
    requires ValidNum(n)
    ensures n.fraction.NoFraction? && n.exponent.NoExponent? ==>
      var i: int := ValueOf(n.digits); ReadInt(NumText(n)) == AnInt(if n.negative then -i else i)
    ensures !(n.fraction.NoFraction? && n.exponent.NoExponent?) ==> ReadInt(NumText(n)).NotInt?
  {
    hide ValueOf, NumText, AllDigits, FractionText, ExponentText;
    var tail := FractionText(n.fraction) + ExponentText(n.exponent);
    var body := n.digits + tail;
    SignedText(n);
    TailBegins(n);
    if n.fraction.NoFraction? && n.exponent.NoExponent? {
      assert body == n.digits;
    } else {
      assert body[|n.digits|] == tail[0];
      NotAllDigits(body, |n.digits|);
    }
  }

  lemma TailBegins(n: Num)
    requires ValidNum(n)
    ensures var tail := FractionText(n.fraction) + ExponentText(n.exponent);
      if n.fraction.NoFraction? && n.exponent.NoExponent? then tail == "" else tail != "" && !IsDigit(tail[0])
  {
  }

  lemma ParseNumber(n: Num, rest: string, depths: nat)
    requires ValidNum(n) && Ends(rest)
    ensures Parse(NumText(n) + rest, depths) == Done(NumValue(n), rest)
  {
    hide Parse, NumText, NumberOf, ValidNum, NumValue;
    NumIsNumeral(n);
    NumeralOf(NumText(n), rest);
    NumReads(n);
    ParseNumeral(NumText(n), rest, depths);
  }

  /* Values */

  /** A value begins with a character that is no white space and neither separates nor closes. */
  lemma DocBegins(doc: Doc, rest: string)
    requires Valid(doc)
    ensures DocText(doc, rest) != "" && !IsSpace(DocText(doc, rest)[0])
    ensures DocText(doc, rest)[0] != ']' && DocText(doc, rest)[0] != '}'
  {
    hide ItemsText, MembersText, PiecesText, NumText, ValidPieces, ValidNum, Blank, ValidMember;
    if doc.DNumber? { NumIsNumeral(doc.n); }
  }

  lemma ItemsBegin(items: seq<Item>, rest: string)
    requires items != [] && Blank(items[0].before) && Valid(items[0].doc)
    ensures !Next(ItemsText(items, rest), ']')
  {
    hide Valid, DocText;
    var more := items[0].after + if |items| == 1 then rest else "," + ItemsText(items[1..], rest);
    SkipBlank(items[0].before, DocText(items[0].doc, more));
    DocBegins(items[0].doc, more);
  }

  lemma MembersBegin(members: seq<Member>, rest: string)
    requires members != [] && Blank(members[0].before)
    ensures !Next(MembersText(members, rest), '}')
  {
    hide DocText, PiecesText;
    var m := members[0];
    NextMark(m.before, '"', PiecesText(m.key, "\"" + (m.afterKey + (":" + (m.beforeValue
      + DocText(m.doc, m.after + if |members| == 1 then rest else "," + MembersText(members[1..], rest)))))));
  }

  lemma ParseEmptyDoc(open: char, gap: string, close: char, rest: string, depths: nat)
    requires Blank(gap) && ((open == '[' && close == ']') || (open == '{' && close == '}'))
    ensures Parse([open] + (gap + ([close] + rest)), depths) ==
      if depths == 0 then Fail else Done(if open == '[' then Arr([]) else Obj([]), rest)
  {
    hide Literal, NumberOf, ParseItems, ParseFields, Word, Next, After, Json.Numeral;
    assert ([open] + (gap + ([close] + rest)))[1..] == gap + ([close] + rest);
    NextMark(gap, close, rest);
  }

  /** An item that was read, and what follows it. */
  lemma ItemsStep(s: string, v: Value, after: string, t: string, depths: nat)
    requires Parse(s, depths) == Done(v, after + t) && Blank(after)
    ensures t != "" && t[0] == ']' ==> ParseItems(s, depths) == Done([v], t[1..])
    ensures t != "" && t[0] == ',' ==>
      ParseItems(s, depths) ==
        if ParseItems(t[1..], depths).Done? then Done([v] + ParseItems(t[1..], depths).value, ParseItems(t[1..], depths).rest)
        else Fail
  {
    hide Parse, Next, After;
    if t != "" && (t[0] == ']' || t[0] == ',') {
      assert t == [t[0]] + t[1..];
      NextMark(after, t[0], t[1..]);
      NextMark("", t[0], t[1..]);
      assert "" + t == t;
    }
  }

  /** A key and a value that were read, and what follows them. */
  lemma FieldsStep(m: Member, value: string, v: Value, t: string, depths: nat, fields: seq<Field>)
    requires ValidMember(m) && Parse(value, depths) == Done(v, m.after + t)
    ensures var s := m.before + ("\"" + PiecesText(m.key, "\"" + (m.afterKey + (":" + (m.beforeValue + value)))));
      var now := Insert(fields, PiecesBytes(m.key), v);
      && (t != "" && t[0] == '}' ==> ParseFields(s, depths, fields) == Done(now, t[1..]))
      && (t != "" && t[0] == ',' ==> ParseFields(s, depths, fields) == ParseFields(t[1..], depths, now))
  {
    hide Parse, Next, After, Literal, PiecesText, PiecesBytes, Insert, ValidPieces, SkipWs;
    MemberBegins(m, value);
    SkipBlank(m.beforeValue, value);
    ParseSkips(m.beforeValue + value, value, depths);
    if t != "" && (t[0] == '}' || t[0] == ',') {
      assert t == [t[0]] + t[1..];
      NextMark(m.after, t[0], t[1..]);
      NextMark("", t[0], t[1..]);
      assert "" + t == t;
    }
  }

  lemma MemberBegins(m: Member, value: string)
    requires ValidMember(m)
    ensures var tail := m.afterKey + (":" + (m.beforeValue + value));
      var s := m.before + ("\"" + PiecesText(m.key, "\"" + tail));
      && Next(s, '"') && Literal(After(s, '"')) == Done(PiecesBytes(m.key), tail)
      && Next(tail, ':') && After(tail, ':') == m.beforeValue + value
  {
    hide Next, After, Literal, PiecesText, PiecesBytes, ValidPieces;
    var tail := m.afterKey + (":" + (m.beforeValue + value));
    NextMark(m.before, '"', PiecesText(m.key, "\"" + tail));
    LiteralPieces(m.key, tail);
    NextMark(m.afterKey, ':', m.beforeValue + value);
  }

  lemma FieldsStepFails(m: Member, value: string, depths: nat, fields: seq<Field>)
    requires ValidMember(m) && Parse(value, depths).Fail?
    ensures var s := m.before + ("\"" + PiecesText(m.key, "\"" + (m.afterKey + (":" + (m.beforeValue + value)))));
      ParseFields(s, depths, fields).Fail?
  {
    hide Parse, Next, After, Literal, PiecesText, PiecesBytes, Insert, ValidPieces, SkipWs;
    MemberBegins(m, value);
    SkipBlank(m.beforeValue, value);
    ParseSkips(m.beforeValue + value, value, depths);
  }

  /** Every text of the grammar is read as what it spells, whatever follows it; only a numeral must not go on. */
  lemma {:induction false} ParseDoc(doc: Doc, rest: string, depths: nat)
    requires Valid(doc) && (doc.DNumber? ==> Ends(rest))
    ensures Parse(DocText(doc, rest), depths) == Outcome(DocFits(doc, depths), DocValue(doc), rest)
    decreases doc, 1
  {
    hide Parse, ItemsText, MembersText, NumText, PiecesText, PiecesBytes, NumValue, ValidNum, ValidPieces, ValidMember, Blank;
    match doc
    case DNull => ParseWords(rest, depths);
    case DTrue => ParseWords(rest, depths);
    case DFalse => ParseWords(rest, depths);
    case DNumber(n) => ParseNumber(n, rest, depths);
    case DString(pieces) => ParseString(pieces, rest, depths);
    case DArray(gap, items) =>
      if items == [] {
        ParseEmptyDoc('[', gap, ']', rest, depths);
      } else {
        ItemsBegin(items, "]" + rest);
        ParseArrayStep(ItemsText(items, "]" + rest), depths);
        if depths > 0 { ParseItemsDoc(items, rest, depths - 1); }
      }
    case DObject(gap, members) =>
      if members == [] {
        ParseEmptyDoc('{', gap, '}', rest, depths);
      } else {
        assert ValidMember(members[0]);
        MembersBeginValid(members, "}" + rest);
        ParseObjectStep(MembersText(members, "}" + rest), depths);
        if depths > 0 { ParseMembersDoc(members, rest, depths, []); }
      }
  }

  lemma MembersBeginValid(members: seq<Member>, rest: string)
    requires members != [] && ValidMember(members[0])
    ensures !Next(MembersText(members, rest), '}')
  {
    hide MembersText, Valid, ValidPieces, Blank;
    MembersBegin(members, rest);
  }

  lemma ParseString(pieces: seq<Piece>, rest: string, depths: nat)
    requires ValidPieces(pieces)
    ensures Parse("\"" + PiecesText(pieces, "\"" + rest), depths) == Done(Str(PiecesBytes(pieces)), rest)
  {
    hide Literal, NumberOf, ArrayValue, ObjectValue, Word, PiecesText, PiecesBytes, ValidPieces;
    assert ("\"" + PiecesText(pieces, "\"" + rest))[1..] == PiecesText(pieces, "\"" + rest);
    LiteralPieces(pieces, rest);
  }

  lemma {:induction false} ParseItemsDoc(items: seq<Item>, rest: string, depths: nat)
    requires items != []
    requires forall i :: 0 <= i < |items| ==> Blank(items[i].before) && Valid(items[i].doc) && Blank(items[i].after)
    ensures ParseItems(ItemsText(items, "]" + rest), depths) ==
      Outcome(forall i :: 0 <= i < |items| ==> DocFits(items[i].doc, depths), ItemsValue(items), rest)
    decreases items, 2
  {
    hide Parse, ParseItems, DocText, Blank, Valid, DocFits, DocValue, Ends;
    var (item, others) := (items[0], items[1..]);
    var t := if |items| == 1 then "]" + rest else "," + ItemsText(others, "]" + rest);
    var s := ItemsText(items, "]" + rest);
    SkipBlank(item.before, DocText(item.doc, item.after + t));
    ParseSkips(s, DocText(item.doc, item.after + t), depths);
    MarkEnds(t);
    EndsAfterBlank(item.after, t);
    ParseDoc(item.doc, item.after + t, depths);
    if !DocFits(item.doc, depths) {
      ParseItemsFail(s, depths);
    } else {
      ItemsStep(s, DocValue(item.doc), item.after, t, depths);
      if |items| == 1 {
        assert t[1..] == rest;
        assert ItemsValue(others) == [] && ItemsValue(items) == [DocValue(item.doc)];
      } else {
        assert t[1..] == ItemsText(others, "]" + rest);
        ParseItemsDoc(others, rest, depths);
        assert forall i :: 1 <= i < |items| ==> items[i] == others[i - 1];
      }
    }
  }

  lemma MarkEnds(t: string)
    requires t != "" && (t[0] == ']' || t[0] == ',' || t[0] == '}')
    ensures Ends(t)
  {
  }

  lemma {:induction false} ParseMembersDoc(members: seq<Member>, rest: string, depths: nat, fields: seq<Field>)
    requires members != [] && forall i :: 0 <= i < |members| ==> ValidMember(members[i])
    ensures ParseFields(MembersText(members, "}" + rest), depths, fields) ==
      Outcome(forall i :: 0 <= i < |members| ==> DocFits(members[i].doc, depths), MembersValue(members, fields), rest)
    decreases members, 2
  {
    hide Parse, ParseFields, DocText, PiecesText, PiecesBytes, Blank, ValidPieces, Valid, DocFits, DocValue, Insert, Ends;
    var (m, others) := (members[0], members[1..]);
    var t := if |members| == 1 then "}" + rest else "," + MembersText(others, "}" + rest);
    assert ValidMember(m);
    MarkEnds(t);
    EndsAfterBlank(m.after, t);
    ParseDoc(m.doc, m.after + t, depths);
    if !DocFits(m.doc, depths) {
      FieldsStepFails(m, DocText(m.doc, m.after + t), depths, fields);
    } else {
      FieldsStep(m, DocText(m.doc, m.after + t), DocValue(m.doc), t, depths, fields);
      if |members| == 1 {
        assert t[1..] == rest;
        assert others == [];
      } else {
        assert t[1..] == MembersText(others, "}" + rest);
        ParseMembersDoc(others, rest, depths, Insert(fields, PiecesBytes(m.key), DocValue(m.doc)));
        assert forall i :: 1 <= i < |members| ==> members[i] == others[i - 1];
      }
    }
  }
}
