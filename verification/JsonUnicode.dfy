/** Escapes of code points (section 7 of RFC 8259) are read as their UTF-8 bytes. */
module JsonUnicode {
  import opened OrderedKeys
  import opened Json

  /** A code point that text can hold: no surrogate. */
  predicate IsScalar(u: nat) {
    u < 0x110000 && !(0xd800 <= u <= 0xdfff)
  }

  function Hex4(u: nat): string
    requires u < 0x10000
  {
    [HexDigit(u / 0x1000), HexDigit(u / 0x100 % 16), HexDigit(u / 16 % 16), HexDigit(u % 16)]
  }

  /** The code point as JSON escapes it behind a first `\u`: one code unit, or two that form a surrogate pair. */
  function EscapeOf(u: nat): string
    requires IsScalar(u)
  {
    if u < 0x10000 then Hex4(u)
    else Hex4(0xd800 + (u - 0x10000) / 0x400) + ("\\u" + Hex4(0xdc00 + (u - 0x10000) % 0x400))
  }

  lemma HexValueOfDigit(d: nat)
    requires d < 16
    ensures HexValue(HexDigit(d)) == d
  {
  }

  lemma FourDigits(u: nat)
    requires u < 0x10000
    ensures ((u / 0x1000 * 16 + u / 0x100 % 16) * 16 + u / 16 % 16) * 16 + u % 16 == u
    ensures u / 0x1000 < 16
  {
    assert u / 0x100 == u / 0x1000 * 16 + u / 0x100 % 16 by { assert u / 0x1000 == u / 0x100 / 16; }
    assert u / 16 == u / 0x100 * 16 + u / 16 % 16 by { assert u / 0x100 == u / 16 / 16; }
  }

  lemma QuadHexOfHex4(u: nat, rest: string)
    requires u < 0x10000
    ensures QuadHex(Hex4(u) + rest) == Done(u, rest)
  {
    hide HexValue, HexDigit;
    FourDigits(u);
    HexValueOfDigit(u / 0x1000);
    HexValueOfDigit(u / 0x100 % 16);
    HexValueOfDigit(u / 16 % 16);
    HexValueOfDigit(u % 16);
    assert (Hex4(u) + rest)[4..] == rest;
  }

  /** Whichever code point is escaped, its UTF-8 bytes are read. */
  lemma CodepointOfEscape(u: nat, rest: string)
    requires IsScalar(u)
    ensures Codepoint(EscapeOf(u) + rest) == Done(Utf8(u), rest)
  {
    hide QuadHex, Hex4, Utf8;
    if u < 0x10000 {
      QuadHexOfHex4(u, rest);
    } else {
      var (high, low) := (0xd800 + (u - 0x10000) / 0x400, 0xdc00 + (u - 0x10000) % 0x400);
      var tail := "\\u" + (Hex4(low) + rest);
      AppendAppend(Hex4(high), "\\u" + Hex4(low), rest);
      AppendAppend("\\u", Hex4(low), rest);
      QuadHexOfHex4(high, tail);
      QuadHexOfHex4(low, rest);
      assert tail[2..] == Hex4(low) + rest;
      assert (high - 0xd800) * 0x400 + (low - 0xdc00) + 0x10000 == u;
    }
  }

  /** The code point that UTF-8 bytes stand for: the lead byte tells their number, the others carry six bits each. */
  function FromUtf8(bytes: string): nat {
    if |bytes| == 1 then bytes[0] as nat
    else if |bytes| == 2 then bytes[0] as nat % 0x20 * 0x40 + bytes[1] as nat % 0x40
    else if |bytes| == 3 then (bytes[0] as nat % 0x10 * 0x40 + bytes[1] as nat % 0x40) * 0x40 + bytes[2] as nat % 0x40
    else if |bytes| == 4 then
      ((bytes[0] as nat % 8 * 0x40 + bytes[1] as nat % 0x40) * 0x40 + bytes[2] as nat % 0x40) * 0x40 + bytes[3] as nat % 0x40
    else 0
  }

  /** How many bytes the lead byte announces; 0 for a byte that cannot lead. */
  function Announced(lead: char): nat {
    var b := lead as nat;
    if b < 0x80 then 1 else if 0xc0 <= b < 0xe0 then 2 else if 0xe0 <= b < 0xf0 then 3 else if 0xf0 <= b < 0xf8 then 4 else 0
  }

  lemma Sextets(u: nat)
    requires u < 0x110000
    ensures u == u / 0x40 * 0x40 + u % 0x40
    ensures u / 0x40 == u / 0x1000 * 0x40 + u / 0x40 % 0x40
    ensures u / 0x1000 == u / 0x40000 * 0x40 + u / 0x1000 % 0x40
  {
    assert u / 0x1000 == u / 0x40 / 0x40;
    assert u / 0x40000 == u / 0x1000 / 0x40;
  }

  lemma Continues(x: nat)
    ensures (0x80 + x % 0x40) % 0x40 == x % 0x40 && 0x80 <= 0x80 + x % 0x40 < 0xc0
  {
  }

  lemma Leads(u: nat)
    requires u < 0x110000
    ensures u < 0x800 ==> (0xc0 + u / 0x40) % 0x20 == u / 0x40
    ensures u < 0x10000 ==> (0xe0 + u / 0x1000) % 0x10 == u / 0x1000
    ensures (0xf0 + u / 0x40000) % 8 == u / 0x40000
  {
  }

  /** The bytes are UTF-8 of the code point, in as many bytes as the lead byte announces, and the rest continue it. */
  lemma Utf8IsUtf8(u: nat)
    requires u < 0x110000
    ensures FromUtf8(Utf8(u)) == u
    ensures |Utf8(u)| == Announced(Utf8(u)[0])
    ensures forall i :: 1 <= i < |Utf8(u)| ==> 0x80 <= Utf8(u)[i] as nat < 0xc0
  {
    Sextets(u);
    Leads(u);
    Continues(u);
    Continues(u / 0x40);
    Continues(u / 0x1000);
  }
}
