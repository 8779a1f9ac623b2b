/** The parser of picojson.h: a cursor that can step back by one character, and the functions that read from it. */
module JsonInput {
  import opened OrderedKeys
  import opened Decimal
  import opened Json

  const END := -1

  function Newlines(s: string): nat {
    if s == [] then 0 else Newlines(s[..|s| - 1]) + if s[|s| - 1] == '\n' then 1 else 0
  }

  class Input {
    const text: string
    var cur: nat
    /** The character at `cur` was already given out. */
    var consumed: bool
    var line: nat

    /** `line` is the line of `cur`, which is what a parse error reports. */
    ghost predicate Valid()
      reads this
    {
      cur <= |text| && (consumed ==> cur < |text|) && line == 1 + Newlines(text[..cur])
    }

    /** The text that was not given out yet. */
    ghost function Rest(): string
      requires Valid()
      reads this
    {
      text[if consumed then cur + 1 else cur..]
    }

    constructor (text: string)
      ensures Valid() && Rest() == text
    {
      this.text := text;
      cur, consumed, line := 0, false, 1;
    }

    method GetC() returns (ch: int)
      requires Valid()
      modifies this
      ensures Valid()
      ensures old(Rest()) == [] ==> ch == END && Rest() == []
      ensures old(Rest()) != [] ==> ch == old(Rest())[0] as int && Rest() == old(Rest())[1..]
      ensures text[cur..] == old(Rest())
    {
      if consumed {
        if text[cur] == '\n' {
          line := line + 1;
        }
        assert text[..cur + 1][..cur] == text[..cur];
        cur := cur + 1;
      }
      if cur == |text| {
        consumed := false;
        return END;
      }
      consumed := true;
      return text[cur] as int;
    }

    method UngetC()
      requires Valid()
      modifies this`consumed
      ensures Valid() && Rest() == text[cur..]
    {
      consumed := false;
    }

    method SkipWs()
      requires Valid()
      modifies this
      ensures Valid() && Rest() == Json.SkipWs(old(Rest()))
    {
      while true
        invariant Valid()
        invariant Json.SkipWs(Rest()) == Json.SkipWs(old(Rest()))
        decreases |Rest()|
      {
        var ch := GetC();
        if !(ch == ' ' as int || ch == '\t' as int || ch == '\n' as int || ch == '\r' as int) {
          UngetC();
          break;
        }
      }
    }

    method Expect(expected: char) returns (found: bool)
      requires Valid()
      modifies this
      ensures Valid()
      ensures found == Next(old(Rest()), expected) && Rest() == After(old(Rest()), expected)
    {
      SkipWs();
      var ch := GetC();
      if ch != expected as int {
        UngetC();
        return false;
      }
      return true;
    }

    method Match(pattern: string) returns (found: bool)
      requires Valid()
      modifies this
      ensures Valid()
      ensures found == (pattern <= old(Rest()))
      ensures found ==> Rest() == old(Rest())[|pattern|..]
    {
      ghost var s := Rest();
      var i := 0;
      while i < |pattern|
        invariant Valid() && i <= |pattern| && i <= |s|
        invariant pattern[..i] == s[..i] && Rest() == s[i..]
      {
        var ch := GetC();
        if ch != pattern[i] as int {
          UngetC();
          return false;
        }
        i := i + 1;
      }
      return true;
    }
  }

  /** The number that the first `n` characters spell, or -1. */
  function HexNumber(s: string, n: nat): (r: int)
    ensures r >= -1
  {
    if n == 0 then 0
    else if HexNumber(s, n - 1) < 0 || |s| < n || HexValue(s[n - 1]) < 0 then -1
    else HexNumber(s, n - 1) * 16 + HexValue(s[n - 1])
  }

  lemma QuadHexNumber(s: string)
    ensures QuadHex(s) == if HexNumber(s, 4) < 0 then Fail else Done(HexNumber(s, 4), s[4..])
  {
    hide HexValue;
    assert HexNumber(s, 4) < 0 || HexNumber(s, 3) >= 0;
    assert HexNumber(s, 3) < 0 || HexNumber(s, 2) >= 0;
    assert HexNumber(s, 2) < 0 || HexNumber(s, 1) >= 0;
  }

  lemma {:induction false} HexStops(s: string, n: nat, m: nat)
    requires n <= m && HexNumber(s, n) < 0
    ensures HexNumber(s, m) < 0
    decreases m
  {
    if n < m { HexStops(s, n, m - 1); }
  }

  /** -1 for anything but four hexadecimal digits. */
  method ParseQuadHex(input: Input) returns (u: int)
    requires input.Valid()
    modifies input
    ensures input.Valid()
    ensures u == END <==> QuadHex(old(input.Rest())).Fail?
    ensures u != END ==> QuadHex(old(input.Rest())) == Done(u, input.Rest())
  {
    hide QuadHex;
    ghost var s := input.Rest();
    QuadHexNumber(s);
    u := 0;
    var i := 0;
    while i < 4
      invariant input.Valid() && 0 <= i <= 4 && i <= |s| && input.Rest() == s[i..]
      invariant u == HexNumber(s, i) && u >= 0
    {
      var hex := input.GetC();
      if hex == END {
        HexStops(s, i + 1, 4);
        return END;
      }
      if '0' as int <= hex <= '9' as int {
        hex := hex - '0' as int;
      } else if 'A' as int <= hex <= 'F' as int {
        hex := hex - ('A' as int - 10);
      } else if 'a' as int <= hex <= 'f' as int {
        hex := hex - ('a' as int - 10);
      } else {
        input.UngetC();
        HexStops(s, i + 1, 4);
        return END;
      }
      u := u * 16 + hex;
      i := i + 1;
    }
  }

  /** The UTF-8 bytes of a code point, one push after another. */
  method PushUtf8(u: nat) returns (text: string)
    requires u < 0x110000
    ensures text == Utf8(u)
  {
    text := "";
    if u < 0x80 {
      text := text + [u as char];
    } else {
      if u < 0x800 {
        text := text + [(0xc0 + u / 0x40) as char];
      } else {
        if u < 0x10000 {
          text := text + [(0xe0 + u / 0x1000) as char];
        } else {
          text := text + [(0xf0 + u / 0x40000) as char];
          text := text + [(0x80 + u / 0x1000 % 0x40) as char];
        }
        text := text + [(0x80 + u / 0x40 % 0x40) as char];
      }
      text := text + [(0x80 + u % 0x40) as char];
    }
  }

  lemma PairUnfold(u: nat, t: string, s: string)
    requires QuadHex(s) == Done(u, t) && 0xd800 <= u < 0xdc00
    ensures |t| < 2 || t[0] != '\\' || t[1] != 'u' ==> Codepoint(s).Fail?
    ensures |t| >= 2 && t[0] == '\\' && t[1] == 'u' ==>
      Codepoint(s) == (var p := QuadHex(t[2..]);
                       if p.Done? && 0xdc00 <= p.value <= 0xdfff then
                         Done(Utf8((u - 0xd800) * 0x400 + (p.value - 0xdc00) + 0x10000), p.rest)
                       else Fail)
  {
    hide QuadHex, Utf8;
  }

  lemma UnitUnfold(s: string)
    ensures QuadHex(s).Fail? ==> Codepoint(s).Fail?
    ensures QuadHex(s).Done? && 0xdc00 <= QuadHex(s).value <= 0xdfff ==> Codepoint(s).Fail?
    ensures QuadHex(s).Done? && !(0xd800 <= QuadHex(s).value <= 0xdfff) ==>
      Codepoint(s) == Done(Utf8(QuadHex(s).value), QuadHex(s).rest)
  {
    hide QuadHex, Utf8;
  }

  method ParseCodepoint(input: Input) returns (ok: bool, text: string)
    requires input.Valid()
    modifies input
    ensures input.Valid()
    ensures ok == Codepoint(old(input.Rest())).Done?
    ensures ok ==> Codepoint(old(input.Rest())) == Done(text, input.Rest())
  {
    hide QuadHex, Utf8, Codepoint;
    text := "";
    UnitUnfold(input.Rest());
    var u := ParseQuadHex(input);
    if u == END {
      return false, text;
    }
    if 0xd800 <= u <= 0xdfff {
      if 0xdc00 <= u {
        return false, text;
      }
      PairUnfold(u, input.Rest(), old(input.Rest()));
      var ch := input.GetC();
      if ch == '\\' as int {
        ch := input.GetC();
      } else {
        ch := END;
      }
      if ch != 'u' as int {
        input.UngetC();
        return false, text;
      }
      var second := ParseQuadHex(input);
      if !(0xdc00 <= second <= 0xdfff) {
        return false, text;
      }
      u := (u - 0xd800) * 0x400 + (second - 0xdc00) % 0x400;
      u := u + 0x10000;
    }
    text := PushUtf8(u);
    ok := true;
  }

  lemma PrependNothing(p: Parsed<string>, a: string)
    ensures Prepend("", p) == p && a + "" == a
  {
    if p.Done? { assert "" + p.value == p.value; }
  }

  lemma PrependMore(a: string, b: string, p: Parsed<string>)
    ensures Prepend(a, Prepend(b, p)) == Prepend(a + b, p)
  {
    if p.Done? { AppendAppend(a, b, p.value); }
  }

  /** What the reader of a string literal does with its next character. */
  lemma LiteralUnfold(s: string)
    ensures s == [] || s[0] as int < 0x20 ==> Literal(s).Fail?
    ensures s != [] && s[0] == '"' ==> Literal(s) == Done("", s[1..])
    ensures s == ['\\'] ==> Literal(s).Fail?
    ensures |s| > 1 && s[0] == '\\' && s[1] == 'u' ==>
      Literal(s) == (if Codepoint(s[2..]).Fail? then Fail
                     else Prepend(Codepoint(s[2..]).value, Literal(Codepoint(s[2..]).rest)))
    ensures |s| > 1 && s[0] == '\\' && s[1] != 'u' ==>
      Literal(s) == (if Unescaped(s[1]) == "" then Fail else Prepend(Unescaped(s[1]), Literal(s[2..])))
    ensures s != [] && s[0] as int >= 0x20 && s[0] != '"' && s[0] != '\\' ==>
      Literal(s) == Prepend([s[0]], Literal(s[1..]))
  {
    hide Codepoint, Unescaped;
  }

  method ParseString(input: Input) returns (ok: bool, out: string)
    requires input.Valid()
    modifies input
    ensures input.Valid()
    ensures ok == Literal(old(input.Rest())).Done?
    ensures ok ==> Literal(old(input.Rest())) == Done(out, input.Rest())
  {
    hide Literal, Codepoint, Unescaped;
    out := "";
    PrependNothing(Literal(input.Rest()), out);
    while true
      invariant input.Valid()
      invariant Literal(old(input.Rest())) == Prepend(out, Literal(input.Rest()))
      decreases |input.Rest()|
    {
      LiteralUnfold(input.Rest());
      PrependNothing(Literal(input.Rest()), out);
      var ch := input.GetC();
      if ch < ' ' as int {
        input.UngetC();
        return false, out;
      } else if ch == '"' as int {
        return true, out;
      } else if ch == '\\' as int {
        ch := input.GetC();
        if ch == END {
          return false, out;
        } else if ch == 'u' as int {
          var good, text := ParseCodepoint(input);
          if !good {
            return false, out;
          }
          PrependMore(out, text, Literal(input.Rest()));
          out := out + text;
        } else {
          var c := Unescaped(ch as char);
          if c == "" {
            return false, out;
          }
          PrependMore(out, c, Literal(input.Rest()));
          out := out + c;
        }
      } else {
        PrependMore(out, [ch as char], Literal(input.Rest()));
        out := out + [ch as char];
      }
    }
  }

  lemma NumeralUnfold(s: string)
    ensures s != [] && IsNumeral(s[0]) ==> Numeral(s) == [s[0]] + Numeral(s[1..])
    ensures s == [] || !IsNumeral(s[0]) ==> Numeral(s) == ""
  {
  }

  method ParseNumber(input: Input) returns (numeral: string)
    requires input.Valid()
    modifies input
    ensures input.Valid()
    ensures numeral == Numeral(old(input.Rest())) && input.Rest() == old(input.Rest())[|numeral|..]
  {
    hide Numeral;
    ghost var s := input.Rest();
    numeral := "";
    while true
      invariant input.Valid() && |numeral| <= |s|
      invariant Numeral(s) == numeral + Numeral(input.Rest()) && input.Rest() == s[|numeral|..]
      decreases |input.Rest()|
    {
      NumeralUnfold(input.Rest());
      var ch := input.GetC();
      if '0' as int <= ch <= '9' as int || ch == '+' as int || ch == '-' as int || ch == 'e' as int || ch == 'E' as int {
        AppendAppend(numeral, [ch as char], Numeral(input.Rest()));
        numeral := numeral + [ch as char];
      } else if ch == '.' as int {
        AppendAppend(numeral, ".", Numeral(input.Rest()));
        numeral := numeral + ".";
      } else {
        input.UngetC();
        break;
      }
    }
  }
}
