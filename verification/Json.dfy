/** JSON values, their text as picojson prints it, and the value that picojson reads from a text. Strings hold the
    bytes of a `std::string`, one character each. */
module Json {
  import opened OrderedKeys
  import opened Decimal

  /** `fields` are those of a `std::map`, in its order. `Number` is a double, known by its numeral only. */
  datatype Value =
    | Null
    | Bool(b: bool)
    | Int(i: int)
    | Number(numeral: string)
    | Str(s: string)
    | Arr(items: seq<Value>)
    | Obj(fields: seq<Field>)

  datatype Field = Field(key: string, val: Value)

  const MIN_INT64 := -0x8000_0000_0000_0000
  const MAX_INT64 := 0x7FFF_FFFF_FFFF_FFFF
  const DEFAULT_MAX_DEPTHS := 100
  const INDENT_WIDTH := 2

  function Keys(fields: seq<Field>): (r: seq<string>)
    ensures |r| == |fields| && forall i :: 0 <= i < |r| ==> r[i] == fields[i].key
  {
    seq(|fields|, i requires 0 <= i < |fields| => fields[i].key)
  }

  /** Values built from null, booleans, 64-bit integers, strings, arrays and objects. */
  ghost predicate Proper(v: Value)
    decreases v
  {
    match v
    case Int(i) => -0x8000_0000_0000_0000 <= i <= 0x7FFF_FFFF_FFFF_FFFF
    case Number(_) => false
    case Arr(items) => forall i :: 0 <= i < |items| ==> Proper(items[i])
    case Obj(fields) => Ascending(Keys(fields)) && forall i :: 0 <= i < |fields| ==> Proper(fields[i].val)
    case _ => true
  }

  /* Printing */

  function HexDigit(d: nat): char
    requires d < 16
  {
    if d < 10 then DigitChar(d) else ('a' as int + d - 10) as char
  }

  /** One character of a string literal. */
  function EscapedChar(c: char): string {
    if c == '"' then "\\\""
    else if c == '\\' then "\\\\"
    else if c == '/' then "\\/"
    else if c == 8 as char then "\\b"
    else if c == 12 as char then "\\f"
    else if c == '\n' then "\\n"
    else if c == '\r' then "\\r"
    else if c == '\t' then "\\t"
    else if c as int < 0x20 || c as int == 0x7f then "\\u00" + [HexDigit(c as int / 16), HexDigit(c as int % 16)]
    else [c]
  }

  function Escaped(s: string): string {
    if s == [] then [] else EscapedChar(s[0]) + Escaped(s[1..])
  }

  function Quoted(s: string): string {
    "\"" + Escaped(s) + "\""
  }

  function Spaces(n: nat): string {
    if n == 0 then "" else " " + Spaces(n - 1)
  }

  /** `indent` is -1 in compact text. */
  function Indent(indent: int): string
    requires indent >= -1
  {
    if indent == -1 then "" else "\n" + Spaces(indent * INDENT_WIDTH)
  }

  function Inner(indent: int): int {
    if indent == -1 then -1 else indent + 1
  }

  function Newline(indent: int): string {
    if indent == 0 then "\n" else ""
  }

  function Print(v: Value, indent: int): string
    requires indent >= -1
    decreases v, 1
  {
    PrintBare(v, indent) + Newline(indent)
  }

  function PrintBare(v: Value, indent: int): string
    requires indent >= -1
    decreases v, 0
  {
    match v
    case Null => "null"
    case Bool(b) => if b then "true" else "false"
    case Int(i) => IntText(i)
    case Number(numeral) => numeral
    case Str(s) => Quoted(s)
    case Arr(items) =>
      if items == [] then "[]" else "[" + PrintItems(items, Inner(indent)) + Indent(indent) + "]"
    case Obj(fields) =>
      if fields == [] then "{}" else "{" + PrintFields(fields, Inner(indent)) + Indent(indent) + "}"
  }

  function PrintItems(items: seq<Value>, indent: int): string
    requires indent >= -1
    decreases items, 2
  {
    if items == [] then "" else
      Indent(indent) + Print(items[0], indent) + if |items| == 1 then "" else "," + PrintItems(items[1..], indent)
  }

  function PrintFields(fields: seq<Field>, indent: int): string
    requires indent >= -1
    decreases fields, 2
  {
    if fields == [] then "" else
      Indent(indent) + Quoted(fields[0].key) + ":" + (if indent == -1 then "" else " ") + Print(fields[0].val, indent)
      + if |fields| == 1 then "" else "," + PrintFields(fields[1..], indent)
  }

  /** `value::serialize(prettify)`. */
  function Serialize(v: Value, prettify: bool): string {
    Print(v, if prettify then 0 else -1)
  }

  /* Reading: each function takes the text that is left and returns what is left after it. */

  datatype Parsed<+T> = Done(value: T, rest: string) | Fail {
    predicate IsFailure() {
      Fail?
    }

    function PropagateFailure<U>(): Parsed<U>
      requires Fail?
    {
      Fail
    }

    function Extract(): (T, string)
      requires Done?
    {
      (value, rest)
    }
  }

  predicate IsSpace(c: char) {
    c == ' ' || c == '\t' || c == '\n' || c == '\r'
  }

  function SkipWs(s: string): (r: string)
    ensures |r| <= |s| && (r != [] ==> !IsSpace(r[0]))
  {
    if s != [] && IsSpace(s[0]) then SkipWs(s[1..]) else s
  }

  /** Whether the next character after white space is `c`; it is then consumed. */
  predicate Next(s: string, c: char) {
    SkipWs(s) != [] && SkipWs(s)[0] == c
  }

  function After(s: string, c: char): (r: string)
    ensures |r| <= |s| && (Next(s, c) ==> |r| < |s|)
  {
    if Next(s, c) then SkipWs(s)[1..] else SkipWs(s)
  }

  function HexValue(c: char): int {
    if '0' <= c <= '9' then c as int - '0' as int
    else if 'A' <= c <= 'F' then c as int - 'A' as int + 10
    else if 'a' <= c <= 'f' then c as int - 'a' as int + 10
    else -1
  }

  function QuadHex(s: string): (r: Parsed<nat>)
    ensures r.Done? ==> |r.rest| < |s| && r.value < 0x10000
  {
    if |s| < 4 || HexValue(s[0]) < 0 || HexValue(s[1]) < 0 || HexValue(s[2]) < 0 || HexValue(s[3]) < 0 then Fail
    else Done(((HexValue(s[0]) * 16 + HexValue(s[1])) * 16 + HexValue(s[2])) * 16 + HexValue(s[3]), s[4..])
  }

  /** The bytes of a code point, as UTF-8. */
  function Utf8(u: nat): string
    requires u < 0x110000
  {
    if u < 0x80 then [u as char]
    else if u < 0x800 then [(0xc0 + u / 0x40) as char, (0x80 + u % 0x40) as char]
    else if u < 0x10000 then [(0xe0 + u / 0x1000) as char, (0x80 + u / 0x40 % 0x40) as char, (0x80 + u % 0x40) as char]
    else [(0xf0 + u / 0x40000) as char, (0x80 + u / 0x1000 % 0x40) as char, (0x80 + u / 0x40 % 0x40) as char, (0x80 + u % 0x40) as char]
  }

  /** What `\u` stands for: a code unit, or a surrogate pair. */
  function Codepoint(s: string): (r: Parsed<string>)
    ensures r.Done? ==> |r.rest| < |s|
  {
    var (unit, rest) :- QuadHex(s);
    if 0xd800 <= unit <= 0xdfff then
      if 0xdc00 <= unit || |rest| < 2 || rest[0] != '\\' || rest[1] != 'u' then Fail
      else
        var (second, rest) :- QuadHex(rest[2..]);
        if !(0xdc00 <= second <= 0xdfff) then Fail
        else Done(Utf8((unit - 0xd800) * 0x400 + (second - 0xdc00) + 0x10000), rest)
    else Done(Utf8(unit), rest)
  }

  /** The inside of a string literal, up to its closing quote. */
  function Literal(s: string): (r: Parsed<string>)
    ensures r.Done? ==> |r.rest| < |s|
    decreases |s|
  {
    if s == [] || s[0] as int < 0x20 then Fail
    else if s[0] == '"' then Done("", s[1..])
    else if s[0] == '\\' then
      if |s| < 2 then Fail
      else if s[1] == 'u' then
        var (text, rest) :- Codepoint(s[2..]);
        var (more, rest) :- Literal(rest);
        Done(text + more, rest)
      else
        var c := Unescaped(s[1]);
        if c == [] then Fail else
          var (more, rest) :- Literal(s[2..]);
          Done(c + more, rest)
    else
      var (more, rest) :- Literal(s[1..]);
      Done([s[0]] + more, rest)
  }

  /** `text` before what was read. */
  function Prepend(text: string, p: Parsed<string>): Parsed<string> {
    if p.Done? then Done(text + p.value, p.rest) else Fail
  }

  /** What a backslash and `c` stand for; nothing if they stand for nothing. */
  function Unescaped(c: char): string {
    if c == '"' || c == '\\' || c == '/' then [c]
    else if c == 'b' then [8 as char]
    else if c == 'f' then [12 as char]
    else if c == 'n' then "\n"
    else if c == 'r' then "\r"
    else if c == 't' then "\t"
    else ""
  }

  predicate IsNumeral(c: char) {
    IsDigit(c) || c == '+' || c == '-' || c == 'e' || c == 'E' || c == '.'
  }

  /** The longest prefix of numeral characters. */
  function Numeral(s: string): (r: string)
    ensures |r| <= |s| && s[..|r|] == r
    ensures s != [] && IsNumeral(s[0]) ==> r != []
  {
    if s != [] && IsNumeral(s[0]) then [s[0]] + Numeral(s[1..]) else ""
  }

  function DropDigits(s: string): (r: string)
    ensures |r| <= |s|
  {
    if s != [] && IsDigit(s[0]) then DropDigits(s[1..]) else s
  }

  function DropSign(s: string): (r: string)
    ensures |r| <= |s|
  {
    if s != [] && (s[0] == '+' || s[0] == '-') then s[1..] else s
  }

  /** Whether `strtod` reads all of the numeral. */
  predicate IsDouble(s: string) {
    var mantissa := DropSign(s);
    var fraction := DropDigits(mantissa);
    var digits := |mantissa| - |fraction|;
    var rest := if fraction != [] && fraction[0] == '.' then DropDigits(fraction[1..]) else fraction;
    var moreDigits := if fraction != [] && fraction[0] == '.' then |fraction| - 1 - |rest| else 0;
    digits + moreDigits > 0 &&
    (rest == [] ||
     ((rest[0] == 'e' || rest[0] == 'E') && DropSign(rest[1..]) != [] && DropDigits(DropSign(rest[1..])) == []))
  }

  /** A numeral is an integer if it spells one that fits 64 bits, else a double. */
  function NumberOf(numeral: string): Parsed<Value> {
    var i := ReadInt(numeral);
    if i.AnInt? && MIN_INT64 <= i.i <= MAX_INT64 then Done(Int(i.i), "")
    else if IsDouble(numeral) then Done(Number(numeral), "")
    else Fail
  }

  function Word(s: string, word: string, v: Value): (r: Parsed<Value>)
    ensures r.Done? ==> |r.rest| <= |s|
  {
    if word <= s then Done(v, s[|word|..]) else Fail
  }

  /** `o[key] = v` in a `std::map`. */
  function Insert(fields: seq<Field>, key: string, v: Value): seq<Field> {
    if fields == [] then [Field(key, v)]
    else if Less(fields[0].key, key) then [fields[0]] + Insert(fields[1..], key, v)
    else if fields[0].key == key then [Field(key, v)] + fields[1..]
    else [Field(key, v)] + fields
  }

  /** `depths` more arrays may be opened. */
  function Parse(s: string, depths: nat): (r: Parsed<Value>)
    ensures r.Done? ==> |r.rest| < |s|
    decreases |s|, 1
  {
    var s := SkipWs(s);
    if s == [] then Fail
    else if s[0] == 'n' then Word(s[1..], "ull", Null)
    else if s[0] == 'f' then Word(s[1..], "alse", Bool(false))
    else if s[0] == 't' then Word(s[1..], "rue", Bool(true))
    else if s[0] == '"' then
      var (text, rest) :- Literal(s[1..]);
      Done(Str(text), rest)
    else if s[0] == '[' then ArrayValue(s[1..], depths)
    else if s[0] == '{' then ObjectValue(s[1..], depths)
    else if IsDigit(s[0]) || s[0] == '-' then
      var (v, _) :- NumberOf(Numeral(s));
      Done(v, s[|Numeral(s)|..])
    else Fail
  }

  /** After an opening bracket. */
  function ArrayValue(s: string, depths: nat): (r: Parsed<Value>)
    ensures r.Done? ==> |r.rest| < |s|
    decreases |s|, 3
  {
    if depths == 0 then Fail
    else if Next(s, ']') then Done(Arr([]), After(s, ']'))
    else
      var (items, rest) :- ParseItems(After(s, ']'), depths - 1);
      Done(Arr(items), rest)
  }

  /** After an opening brace. */
  function ObjectValue(s: string, depths: nat): (r: Parsed<Value>)
    ensures r.Done? ==> |r.rest| < |s|
    decreases |s|, 3
  {
    if depths == 0 then Fail
    else if Next(s, '}') then Done(Obj([]), After(s, '}'))
    else
      var (fields, rest) :- ParseFields(After(s, '}'), depths, []);
      Done(Obj(fields), rest)
  }

  /** The items up to the closing bracket. */
  function ParseItems(s: string, depths: nat): (r: Parsed<seq<Value>>)
    ensures r.Done? ==> |r.rest| < |s|
    decreases |s|, 2
  {
    var (v, rest) :- Parse(s, depths);
    if Next(rest, ',') then
      var (more, rest) :- ParseItems(After(rest, ','), depths);
      Done([v] + more, rest)
    else
      var rest := After(rest, ',');
      if Next(rest, ']') then Done([v], After(rest, ']')) else Fail
  }

  /** The fields up to the closing brace, added to those read before. */
  function ParseFields(s: string, depths: nat, fields: seq<Field>): (r: Parsed<seq<Field>>)
    ensures r.Done? ==> |r.rest| < |s|
    decreases |s|, 2
  {
    if !Next(s, '"') then Fail else
      var (key, rest) :- Literal(After(s, '"'));
      if !Next(rest, ':') then Fail else
        var (v, rest) :- Parse(After(rest, ':'), depths);
        var fields := Insert(fields, key, v);
        if Next(rest, ',') then ParseFields(After(rest, ','), depths, fields)
        else
          var rest := After(rest, ',');
          if Next(rest, '}') then Done(fields, After(rest, '}')) else Fail
  }

  /** `picojson::parse(value, text)`: what follows the value is not looked at. */
  function Read(text: string): Parsed<Value> {
    Parse(text, DEFAULT_MAX_DEPTHS)
  }
}
