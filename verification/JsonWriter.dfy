/** The serializer of picojson.h, which appends to an output as it walks over the value. */
module JsonWriter {
  import opened OrderedKeys
  import opened Decimal
  import J = Json

  class Writer {
    var out: string

    constructor ()
      ensures out == ""
    {
      out := "";
    }

    method SerializeStr(s: string)
      modifies this
      ensures out == old(out) + J.Quoted(s)
    {
      ghost var start := out + "\"";
      out := out + "\"";
      var i := 0;
      while i < |s|
        invariant 0 <= i <= |s|
        invariant out + J.Escaped(s[i..]) == start + J.Escaped(s)
      {
        EscapedStep(out, s, i);
        SerializeChar(s[i]);
        i := i + 1;
      }
      AppendNothing(out);
      AppendNothing(start + J.Escaped(s));
      out := out + "\"";
      AppendAppend(old(out), "\"", J.Escaped(s));
      AppendAppend(old(out), "\"" + J.Escaped(s), "\"");
    }

    method SerializeChar(c: char)
      modifies this
      ensures out == old(out) + J.EscapedChar(c)
    {
      match c
      case '"' => out := out + "\\\"";
      case '\\' => out := out + "\\\\";
      case '/' => out := out + "\\/";
      case '\n' => out := out + "\\n";
      case '\r' => out := out + "\\r";
      case '\t' => out := out + "\\t";
      case _ =>
        if c as int == 8 {
          out := out + "\\b";
        } else if c as int == 12 {
          out := out + "\\f";
        } else if c as int < 0x20 || c as int == 0x7f {
          out := out + ("\\u00" + [J.HexDigit(c as int / 16), J.HexDigit(c as int % 16)]);
        } else {
          out := out + [c];
        }
    }

    method Indent(indent: nat)
      modifies this
      ensures out == old(out) + J.Indent(indent)
    {
      out := out + "\n";
      var i := 0;
      ghost var start := out;
      var n := indent * J.INDENT_WIDTH;
      while i < n
        invariant 0 <= i <= n
        invariant out + J.Spaces(n - i) == start + J.Spaces(n)
      {
        AppendAppend(out, " ", J.Spaces(n - i - 1));
        out := out + " ";
        i := i + 1;
      }
      AppendNothing(out);
      AppendAppend(old(out), "\n", J.Spaces(n));
    }

    method Serialize(v: J.Value, indent: int)
      requires indent >= -1
      modifies this
      ensures out == old(out) + J.Print(v, indent)
      decreases v, 1
    {
      hide J.PrintBare, J.Quoted, Decimal.IntText;
      match v {
        case Str(s) =>
          SerializeStr(s);
          BareStr(s, indent);
        case Arr(items) => SerializeArray(items, indent);
        case Obj(fields) => SerializeObject(fields, indent);
        case Null =>
          BareScalar(v, indent);
          out := out + "null";
        case Bool(b) =>
          BareScalar(v, indent);
          out := out + if b then "true" else "false";
        case Int(i) =>
          BareScalar(v, indent);
          out := out + IntText(i);
        case Number(numeral) =>
          BareScalar(v, indent);
          out := out + numeral;
      }
      ghost var bare := out;
      assert bare == old(out) + J.PrintBare(v, indent);
      if indent == 0 {
        out := out + "\n";
      }
      AppendAppend(old(out), J.PrintBare(v, indent), J.Newline(indent));
      AppendNothing(bare);
    }

    method SerializeArray(items: seq<J.Value>, indent: int)
      requires indent >= -1
      modifies this
      ensures out == old(out) + J.PrintBare(J.Arr(items), indent)
      decreases items, 2
    {
      hide J.PrintItems, J.Print, J.Indent, J.Spaces;
      out := out + "[";
      var inner := indent;
      if inner != -1 {
        inner := inner + 1;
      }
      ghost var start := out;
      var i := 0;
      while i < |items|
        invariant 0 <= i <= |items|
        invariant out + ItemsLeft(items, i, inner) == start + ItemsLeft(items, 0, inner)
      {
        ItemStep(out, items, i, inner);
        if i != 0 {
          out := out + ",";
        }
        if inner != -1 {
          Indent(inner);
        }
        Serialize(items[i], inner);
        i := i + 1;
      }
      AppendNothing(out);
      ghost var body := out;
      if inner != -1 {
        inner := inner - 1;
        if items != [] {
          Indent(inner);
        }
      }
      BareArray(items, indent, old(out));
      out := out + "]";
    }

    method SerializeObject(fields: seq<J.Field>, indent: int)
      requires indent >= -1
      modifies this
      ensures out == old(out) + J.PrintBare(J.Obj(fields), indent)
      decreases fields, 2
    {
      hide J.PrintFields, J.Print, J.Indent, J.Spaces, J.Quoted;
      out := out + "{";
      var inner := indent;
      if inner != -1 {
        inner := inner + 1;
      }
      ghost var start := out;
      var i := 0;
      while i < |fields|
        invariant 0 <= i <= |fields|
        invariant out + FieldsLeft(fields, i, inner) == start + FieldsLeft(fields, 0, inner)
      {
        FieldStep(out, fields, i, inner);
        if i != 0 {
          out := out + ",";
        }
        if inner != -1 {
          Indent(inner);
        }
        SerializeStr(fields[i].key);
        out := out + ":";
        if inner != -1 {
          out := out + " ";
        }
        Serialize(fields[i].val, inner);
        i := i + 1;
      }
      AppendNothing(out);
      if inner != -1 {
        inner := inner - 1;
        if fields != [] {
          Indent(inner);
        }
      }
      BareObject(fields, indent, old(out));
      out := out + "}";
    }
  }

  lemma EscapedStep(out: string, s: string, i: nat)
    requires i < |s|
    ensures out + J.EscapedChar(s[i]) + J.Escaped(s[i + 1..]) == out + J.Escaped(s[i..])
  {
    hide J.EscapedChar;
    assert s[i..][1..] == s[i + 1..];
    AppendAppend(out, J.EscapedChar(s[i]), J.Escaped(s[i + 1..]));
  }

  lemma BareStr(s: string, indent: int)
    requires indent >= -1
    ensures J.PrintBare(J.Str(s), indent) == J.Quoted(s)
  {
  }

  lemma BareScalar(v: J.Value, indent: int)
    requires indent >= -1
    ensures v.Null? ==> J.PrintBare(v, indent) == "null"
    ensures v.Bool? ==> J.PrintBare(v, indent) == if v.b then "true" else "false"
    ensures v.Int? ==> J.PrintBare(v, indent) == IntText(v.i)
    ensures v.Number? ==> J.PrintBare(v, indent) == v.numeral
  {
  }

  /** What is still to be printed before item `i`. */
  ghost function ItemsLeft(items: seq<J.Value>, i: nat, indent: int): string
    requires i <= |items| && indent >= -1
  {
    if i == |items| then "" else if i == 0 then J.PrintItems(items, indent) else "," + J.PrintItems(items[i..], indent)
  }

  ghost function FieldsLeft(fields: seq<J.Field>, i: nat, indent: int): string
    requires i <= |fields| && indent >= -1
  {
    if i == |fields| then "" else if i == 0 then J.PrintFields(fields, indent) else "," + J.PrintFields(fields[i..], indent)
  }

  ghost function Comma(i: nat): string {
    if i != 0 then "," else ""
  }

  ghost function Gap(indent: int): string {
    if indent == -1 then "" else " "
  }

  lemma ItemStep(out: string, items: seq<J.Value>, i: nat, indent: int)
    requires i < |items| && indent >= -1
    ensures out + Comma(i) + J.Indent(indent) + J.Print(items[i], indent) + ItemsLeft(items, i + 1, indent)
      == out + ItemsLeft(items, i, indent)
    ensures indent == -1 ==> out + Comma(i) + J.Indent(indent) == out + Comma(i)
    ensures i == 0 ==> out + Comma(i) == out
  {
    hide J.Print, J.Spaces;
    var rest := items[i..];
    assert items[0..] == items;
    assert rest[1..] == items[i + 1..];
    var more := ItemsLeft(items, i + 1, indent);
    assert J.PrintItems(rest, indent) == J.Indent(indent) + J.Print(items[i], indent) + more;
    Regroup(out, Comma(i), J.Indent(indent), J.Print(items[i], indent), more);
    AppendNothing(out);
    AppendNothing(out + Comma(i));
    assert "" + J.PrintItems(rest, indent) == J.PrintItems(rest, indent);
  }

  lemma FieldStep(out: string, fields: seq<J.Field>, i: nat, indent: int)
    requires i < |fields| && indent >= -1
    ensures out + Comma(i) + J.Indent(indent) + J.Quoted(fields[i].key) + ":" + Gap(indent) + J.Print(fields[i].val, indent)
      + FieldsLeft(fields, i + 1, indent) == out + FieldsLeft(fields, i, indent)
    ensures indent == -1 ==> out + Comma(i) + J.Indent(indent) == out + Comma(i)
    ensures i == 0 ==> out + Comma(i) == out
    ensures indent == -1 ==> forall s: string :: s + Gap(indent) == s
  {
    hide J.Print, J.Spaces, J.Quoted;
    var rest := fields[i..];
    assert fields[0..] == fields;
    assert rest[1..] == fields[i + 1..];
    var more := FieldsLeft(fields, i + 1, indent);
    var head := J.Indent(indent) + J.Quoted(fields[i].key) + ":" + Gap(indent) + J.Print(fields[i].val, indent);
    assert J.PrintFields(rest, indent) == head + more;
    RegroupMore(out, Comma(i), J.Indent(indent), J.Quoted(fields[i].key), ":", Gap(indent), J.Print(fields[i].val, indent), more);
    AppendNothing(out);
    AppendNothing(out + Comma(i));
    assert "" + J.PrintFields(rest, indent) == J.PrintFields(rest, indent);
  }

  lemma Regroup(a: string, b: string, c: string, d: string, e: string)
    ensures a + b + c + d + e == a + (b + (c + d + e))
  {
  }

  lemma RegroupMore(a: string, b: string, c: string, d: string, e: string, f: string, g: string, h: string)
    ensures a + b + c + d + e + f + g + h == a + (b + (c + d + e + f + g + h))
  {
    Regroup(a, b, c, d, e);
    Regroup(a, b, c + d + e, f, g);
    AppendAppend(a, b + (c + d + e + f + g), h);
    AppendAppend(b, c + d + e + f + g, h);
  }

  lemma BareArray(items: seq<J.Value>, indent: int, before: string)
    requires indent >= -1
    ensures before + J.PrintBare(J.Arr(items), indent) ==
      before + "[" + ItemsLeft(items, 0, J.Inner(indent)) + (if items == [] then "" else J.Indent(indent)) + "]"
    ensures J.Indent(-1) == ""
  {
    hide J.PrintItems, J.Spaces;
    var inside := ItemsLeft(items, 0, J.Inner(indent));
    if items == [] {
      assert "[" + "" + "" + "]" == "[]";
    }
    Regroup(before, "[", inside, if items == [] then "" else J.Indent(indent), "]");
    Regroup("", "[", inside, if items == [] then "" else J.Indent(indent), "]");
  }

  lemma BareObject(fields: seq<J.Field>, indent: int, before: string)
    requires indent >= -1
    ensures before + J.PrintBare(J.Obj(fields), indent) ==
      before + "{" + FieldsLeft(fields, 0, J.Inner(indent)) + (if fields == [] then "" else J.Indent(indent)) + "}"
    ensures J.Indent(-1) == ""
  {
    hide J.PrintFields, J.Spaces;
    var inside := FieldsLeft(fields, 0, J.Inner(indent));
    if fields == [] {
      assert "{" + "" + "" + "}" == "{}";
    }
    Regroup(before, "{", inside, if fields == [] then "" else J.Indent(indent), "}");
    Regroup("", "{", inside, if fields == [] then "" else J.Indent(indent), "}");
  }

  /** `value::serialize(prettify)`. */
  method SerializeValue(v: J.Value, prettify: bool) returns (text: string)
    ensures text == J.Serialize(v, prettify)
  {
    var w := new Writer();
    w.Serialize(v, if prettify then 0 else -1);
    text := w.out;
    assert "" + J.Serialize(v, prettify) == J.Serialize(v, prettify);
  }
}
