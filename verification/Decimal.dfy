/** Decimal numerals, as `std::to_string` and `printf("%d")` write them and `std::stoi` and `strtoimax` read them. */
module Decimal {

  predicate IsDigit(c: char) {
    '0' <= c <= '9'
  }

  predicate AllDigits(s: string) {
    forall i :: 0 <= i < |s| ==> IsDigit(s[i])
  }

  function DigitChar(d: nat): (c: char)
    requires d < 10
    ensures IsDigit(c) && DigitOf(c) == d
  {
    ('0' as int + d) as char
  }

  function DigitOf(c: char): (d: nat)
    requires IsDigit(c)
    ensures d < 10
  {
    c as int - '0' as int
  }

  function Text(n: nat): (s: string)
    ensures s != [] && AllDigits(s)
  {
    if n < 10 then [DigitChar(n)] else Text(n / 10) + [DigitChar(n % 10)]
  }

  function ValueOf(s: string): nat
    requires AllDigits(s)
  {
    if s == [] then 0 else 10 * ValueOf(s[..|s| - 1]) + DigitOf(s[|s| - 1])
  }

  /** The digits that a text begins with. */
  function Digits(s: string): (r: string)
    ensures AllDigits(r) && r <= s
  {
    if s != [] && IsDigit(s[0]) then [s[0]] + Digits(s[1..]) else ""
  }

  lemma {:induction false} DigitsEnd(s: string, rest: string)
    requires AllDigits(s) && (rest == [] || !IsDigit(rest[0]))
    ensures Digits(s + rest) == s
  {
    if s == [] {
      assert s + rest == rest;
    } else {
      assert (s + rest)[1..] == s[1..] + rest;
      DigitsEnd(s[1..], rest);
    }
  }

  lemma {:induction false} ValueOfText(n: nat)
    ensures ValueOf(Text(n)) == n
  {
    if n >= 10 {
      ValueOfText(n / 10);
      assert Text(n)[..|Text(n)| - 1] == Text(n / 10);
    }
  }

  function Power(n: nat): nat {
    if n == 0 then 1 else 10 * Power(n - 1)
  }

  /** The first digit counts as many tens as there are digits behind it. */
  lemma {:induction false} ValueOfPlaces(c: char, s: string)
    requires '0' <= c <= '9' && AllDigits(s)
    ensures AllDigits([c] + s) && ValueOf([c] + s) == (c as int - '0' as int) * Power(|s|) + ValueOf(s)
  {
    var t := [c] + s;
    if s == "" {
      assert t[..0] == "";
    } else {
      assert t[..|t| - 1] == [c] + s[..|s| - 1];
      ValueOfPlaces(c, s[..|s| - 1]);
      TenTimes(c as int - '0' as int, Power(|s| - 1));
    }
  }

  lemma TenTimes(d: int, p: int)
    ensures 10 * (d * p) == d * (10 * p)
  {
  }

  /** A numeral has no superfluous zeros: only zero itself starts with one. */
  lemma {:induction false} NoLeadingZero(n: nat)
    ensures Text(n)[0] == '0' <==> n == 0
  {
    if n >= 10 { NoLeadingZero(n / 10); }
  }

  function IntText(i: int): (s: string)
    ensures s != [] && (IsDigit(s[0]) || s[0] == '-')
  {
    if i < 0 then "-" + Text(-i) else Text(i)
  }

  datatype MaybeInt = NotInt | AnInt(i: int)

  /** A whole string that is an optional sign and digits. */
  function ReadInt(s: string): MaybeInt {
    if s != [] && (s[0] == '-' || s[0] == '+') then
      if |s| > 1 && AllDigits(s[1..]) then
        var n: int := ValueOf(s[1..]);
        AnInt(if s[0] == '-' then -n else n)
      else NotInt
    else if s != [] && AllDigits(s) then AnInt(ValueOf(s))
    else NotInt
  }

  lemma ReadIntText(i: int)
    ensures ReadInt(IntText(i)) == AnInt(i)
  {
    hide Text, ValueOf;
    if i < 0 {
      ValueOfText(-i);
      assert IntText(i)[1..] == Text(-i);
    } else {
      ValueOfText(i);
      assert IsDigit(Text(i)[0]);
    }
  }
}
