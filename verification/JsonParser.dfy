/** `_parse`, `_parse_array` and `_parse_object` of picojson.h, as the default context drives them. */
module JsonParser {
  import opened OrderedKeys
  import opened Decimal
  import opened Json
  import opened JsonInput

  /** `depths` more arrays may be opened: what `default_parse_context` starts with. */
  method ParseValue(input: Input, depths: nat) returns (ok: bool, v: Value)
    requires input.Valid()
    modifies input
    ensures input.Valid()
    ensures ok == Parse(old(input.Rest()), depths).Done?
    ensures ok ==> Parse(old(input.Rest()), depths) == Done(v, input.Rest())
    decreases |input.Rest()|, 1
  {
    hide Parse, Literal, Numeral, NumberOf, ArrayValue, ObjectValue, SkipWs;
    v := Null;
    ghost var whole := input.Rest();
    input.SkipWs();
    ghost var s := input.Rest();
    ParseUnfold(whole, depths);
    var ch := input.GetC();
    if ch == 'n' as int {
      ok := input.Match("ull");
      v := Null;
    } else if ch == 'f' as int {
      ok := input.Match("alse");
      v := Bool(false);
    } else if ch == 't' as int {
      ok := input.Match("rue");
      v := Bool(true);
    } else if ch == '"' as int {
      var text;
      ok, text := ParseString(input);
      v := Str(text);
    } else if ch == '[' as int {
      ok, v := ParseArray(input, depths);
    } else if ch == '{' as int {
      ok, v := ParseObject(input, depths);
    } else if '0' as int <= ch <= '9' as int || ch == '-' as int {
      input.UngetC();
      var numeral := ParseNumber(input);
      var number := NumberOf(numeral);
      ok := number.Done?;
      if ok {
        v := number.value;
      }
    } else {
      input.UngetC();
      ok := false;
    }
  }

  method ParseArray(input: Input, depths: nat) returns (ok: bool, v: Value)
    requires input.Valid()
    modifies input
    ensures input.Valid()
    ensures ok == ArrayValue(old(input.Rest()), depths).Done?
    ensures ok ==> ArrayValue(old(input.Rest()), depths) == Done(v, input.Rest())
    decreases |input.Rest()|, 3
  {
    hide Parse, Next, After, ParseItems, PrependItems;
    v := Null;
    if depths == 0 {
      return false, v;
    }
    var left := depths - 1;
    var items: seq<Value> := [];
    v := Arr(items);
    var found := input.Expect(']');
    if found {
      return true, v;
    }
    ghost var s := input.Rest();
    PrependNoItems(ParseItems(s, left));
    while true
      invariant input.Valid() && |input.Rest()| <= |old(input.Rest())|
      invariant ParseItems(s, left) == PrependItems(items, ParseItems(input.Rest(), left))
      decreases |input.Rest()|
    {
      ghost var t := input.Rest();
      ParseItemsUnfold(t, left);
      var item;
      ok, item := ParseValue(input, left);
      if !ok {
        PrependItemsTwice(items, [], Fail);
        return;
      }
      PrependItemsTwice(items, [item], ParseItems(After(input.Rest(), ','), left));
      items := items + [item];
      found := input.Expect(',');
      if !found {
        break;
      }
    }
    v := Arr(items);
    ok := input.Expect(']');
  }

  method ParseObject(input: Input, depths: nat) returns (ok: bool, v: Value)
    requires input.Valid()
    modifies input
    ensures input.Valid()
    ensures ok == ObjectValue(old(input.Rest()), depths).Done?
    ensures ok ==> ObjectValue(old(input.Rest()), depths) == Done(v, input.Rest())
    decreases |input.Rest()|, 3
  {
    v := Null;
    if depths == 0 {
      return false, v;
    }
    var fields: seq<Field> := [];
    v := Obj(fields);
    var found := input.Expect('}');
    if found {
      return true, v;
    }
    ghost var s := input.Rest();
    while true
      invariant input.Valid() && |input.Rest()| <= |old(input.Rest())|
      invariant ParseFields(s, depths, []) == ParseFields(input.Rest(), depths, fields)
      decreases |input.Rest()|
    {
      ok := input.Expect('"');
      if !ok {
        return;
      }
      var key;
      ok, key := ParseString(input);
      if !ok {
        return;
      }
      ok := input.Expect(':');
      if !ok {
        return;
      }
      var item;
      ok, item := ParseValue(input, depths);
      if !ok {
        return;
      }
      fields := Insert(fields, key, item);
      found := input.Expect(',');
      if !found {
        break;
      }
    }
    v := Obj(fields);
    ok := input.Expect('}');
  }

  /** `picojson::parse(value, text)`. */
  method ParseText(text: string) returns (ok: bool, v: Value)
    ensures ok == Read(text).Done? && (ok ==> v == Read(text).value)
  {
    var input := new Input(text);
    ok, v := ParseValue(input, DEFAULT_MAX_DEPTHS);
  }

  function PrependItems(before: seq<Value>, p: Parsed<seq<Value>>): Parsed<seq<Value>> {
    if p.Done? then Done(before + p.value, p.rest) else Fail
  }

  lemma PrependNoItems(p: Parsed<seq<Value>>)
    ensures PrependItems([], p) == p
  {
    if p.Done? { assert [] + p.value == p.value; }
  }

  lemma PrependItemsTwice(a: seq<Value>, b: seq<Value>, p: Parsed<seq<Value>>)
    ensures PrependItems(a, PrependItems(b, p)) == PrependItems(a + b, p)
    ensures PrependItems(a, Fail).Fail? && forall rest :: PrependItems(a, Done(b, rest)) == Done(a + b, rest)
  {
    if p.Done? { AppendAppend(a, b, p.value); }
  }

  lemma ParseItemsUnfold(s: string, depths: nat)
    ensures Parse(s, depths).Fail? ==> ParseItems(s, depths).Fail?
    ensures Parse(s, depths).Done? ==>
      var p := Parse(s, depths);
      ParseItems(s, depths) ==
        if Next(p.rest, ',') then PrependItems([p.value], ParseItems(After(p.rest, ','), depths))
        else if Next(After(p.rest, ','), ']') then Done([p.value], After(After(p.rest, ','), ']'))
        else Fail
  {
    hide Parse, Next, After;
  }

  lemma ParseUnfold(whole: string, depths: nat)
    ensures SkipWs(whole) == [] ==> Parse(whole, depths) == Fail
    ensures SkipWs(whole) != [] ==>
      var s := SkipWs(whole);
      var numeral := Numeral(s);
      Parse(whole, depths) ==
        if s[0] == 'n' then Word(s[1..], "ull", Null)
        else if s[0] == 'f' then Word(s[1..], "alse", Bool(false))
        else if s[0] == 't' then Word(s[1..], "rue", Bool(true))
        else if s[0] == '"' then
          (var p := Literal(s[1..]); if p.Done? then Done(Str(p.value), p.rest) else Fail)
        else if s[0] == '[' then ArrayValue(s[1..], depths)
        else if s[0] == '{' then ObjectValue(s[1..], depths)
        else if (IsDigit(s[0]) || s[0] == '-') && NumberOf(numeral).Done? then
          Done(NumberOf(numeral).value, s[|numeral|..])
        else Fail
  {
    hide Literal, Numeral, NumberOf, Word, ArrayValue, ObjectValue;
  }
}
