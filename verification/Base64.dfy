/** Base64 and base64url, with the fill strings of base.h. Binary data is a string of characters below 256. */
module Base64 {
  import opened OrderedKeys

  datatype Alphabet = Standard | Url

  /** `Invalid` is the std::runtime_error("Invalid input"). */
  datatype Decoded = Binary(data: string) | Invalid

  predicate IsBytes(s: string) {
    forall i :: 0 <= i < |s| ==> s[i] as int < 256
  }

  /** The character of a sextet. */
  function Symbol(a: Alphabet, i: nat): char
    requires i < 64
  {
    if i < 26 then ('A' as int + i) as char
    else if i < 52 then ('a' as int + i - 26) as char
    else if i < 62 then ('0' as int + i - 52) as char
    else if i == 62 then (if a.Url? then '-' else '+')
    else (if a.Url? then '_' else '/')
  }

  function Fill(a: Alphabet): (fill: string)
    ensures fill != []
  {
    if a.Url? then "%3d" else "="
  }

  /** The sextet of a character; -1 if it is not in the alphabet. */
  function Sextet(a: Alphabet, c: char): (r: int)
    ensures -1 <= r < 64
    ensures r >= 0 ==> Symbol(a, r) == c
  {
    if 'A' <= c <= 'Z' then c as int - 'A' as int
    else if 'a' <= c <= 'z' then c as int - 'a' as int + 26
    else if '0' <= c <= '9' then c as int - '0' as int + 52
    else if c == Symbol(a, 62) then 62
    else if c == Symbol(a, 63) then 63
    else -1
  }

  lemma SextetOfSymbol(a: Alphabet, i: nat)
    requires i < 64
    ensures Sextet(a, Symbol(a, i)) == i
  {
  }

  predicate AllData(a: Alphabet, s: string) {
    forall i :: 0 <= i < |s| ==> Sextet(a, s[i]) >= 0
  }

  /* Encoding */

  /** The `k`-th sextet, from the left, of three octets. */
  function SextetOf(triple: nat, k: nat): (r: nat)
    requires k < 4
    ensures r < 64
  {
    if k == 0 then triple / 0x40000 % 0x40
    else if k == 1 then triple / 0x1000 % 0x40
    else if k == 2 then triple / 0x40 % 0x40
    else triple % 0x40
  }

  /** The first `n` symbols of three octets. */
  function Symbols(a: Alphabet, triple: nat, n: nat): (s: string)
    requires n <= 4
    ensures |s| == n && AllData(a, s)
  {
    seq(n, i requires 0 <= i < n => Symbol(a, SextetOf(triple, i)))
  }

  function Triple(x: char, y: char, z: char): nat {
    x as int * 0x10000 + y as int * 0x100 + z as int
  }

  function Encode(a: Alphabet, bin: string): string {
    if |bin| == 0 then ""
    else if |bin| == 1 then Symbols(a, Triple(bin[0], 0 as char, 0 as char), 2) + Fills(a, 2)
    else if |bin| == 2 then Symbols(a, Triple(bin[0], bin[1], 0 as char), 3) + Fills(a, 1)
    else Symbols(a, Triple(bin[0], bin[1], bin[2]), 4) + Encode(a, bin[3..])
  }

  function Fills(a: Alphabet, n: nat): (s: string)
    ensures |s| == n * |Fill(a)|
  {
    if n == 0 then "" else Fill(a) + Fills(a, n - 1)
  }

  /* Decoding */

  /** What is left of a text, and how many fills were taken off its end, when no more than two are found. */
  datatype Stripped = Stripped(data: string, fills: nat) | TooMany

  function Strip(a: Alphabet, s: string, fills: nat): (r: Stripped)
    requires fills <= 2
    ensures r.Stripped? ==> |r.data| <= |s| && r.fills <= 2
    decreases |s|
  {
    var n := |s| - |Fill(a)|;
    if n > 0 && s[n..] == Fill(a) then
      if fills == 2 then TooMany else Strip(a, s[..n], fills + 1)
    else Stripped(s, fills)
  }

  function Octet(n: nat): char {
    (n % 0x100) as char
  }

  /** The octets of as many symbols as come in fours. */
  function Groups(a: Alphabet, s: string): Decoded
    requires |s| % 4 == 0
  {
    if s == [] then Binary("")
    else if !AllData(a, s[..4]) then Invalid
    else
      var triple := Sextet(a, s[0]) * 0x40000 + Sextet(a, s[1]) * 0x1000 + Sextet(a, s[2]) * 0x40 + Sextet(a, s[3]);
      match Groups(a, s[4..])
      case Binary(more) => Binary([Octet(triple / 0x10000), Octet(triple / 0x100), Octet(triple)] + more)
      case Invalid => Invalid
  }

  /** The octets of the symbols before the fills. */
  function Tail(a: Alphabet, s: string): Decoded
    requires |s| == 2 || |s| == 3
  {
    if !AllData(a, s) then Invalid
    else
      var triple := Sextet(a, s[0]) * 0x40000 + Sextet(a, s[1]) * 0x1000;
      if |s| == 2 then Binary([Octet(triple / 0x10000)])
      else Binary([Octet((triple + Sextet(a, s[2]) * 0x40) / 0x10000), Octet((triple + Sextet(a, s[2]) * 0x40) / 0x100)])
  }

  function Append(x: Decoded, y: Decoded): Decoded {
    if x.Binary? && y.Binary? then Binary(x.data + y.data) else Invalid
  }

  lemma Fours(q: int, m: int)
    requires 0 <= m < 4
    ensures (4 * q + m) % 4 == m
  {
  }

  /** What four symbols stand for. */
  function Four(a: Alphabet, x: char, y: char, z: char, w: char): Decoded {
    if Sextet(a, x) < 0 || Sextet(a, y) < 0 || Sextet(a, z) < 0 || Sextet(a, w) < 0 then Invalid
    else
      var t := Sextet(a, x) * 0x40000 + Sextet(a, y) * 0x1000 + Sextet(a, z) * 0x40 + Sextet(a, w);
      Binary([Octet(t / 0x10000), Octet(t / 0x100), Octet(t)])
  }

  lemma GroupsOf(a: Alphabet, x: char, y: char, z: char, w: char, more: string)
    requires |more| % 4 == 0
    ensures |[x, y, z, w] + more| % 4 == 0
    ensures Groups(a, [x, y, z, w] + more) == Append(Four(a, x, y, z, w), Groups(a, more))
  {
    hide Sextet, Octet, AllData;
    Fours(|more| / 4 + 1, 0);
    var s := [x, y, z, w] + more;
    assert s[..4] == [x, y, z, w] && s[4..] == more;
    AllFour(a, x, y, z, w);
  }

  lemma AllFour(a: Alphabet, x: char, y: char, z: char, w: char)
    ensures AllData(a, [x, y, z, w]) <==> Sextet(a, x) >= 0 && Sextet(a, y) >= 0 && Sextet(a, z) >= 0 && Sextet(a, w) >= 0
  {
    hide Sextet;
    var s := [x, y, z, w];
    assert s[0] == x && s[1] == y && s[2] == z && s[3] == w;
  }

  lemma NoGroups(a: Alphabet)
    ensures Groups(a, "") == Binary("")
  {
  }

  lemma AppendNoData(x: Decoded)
    ensures Append(Binary(""), x) == x && Append(x, Binary("")) == x
  {
    if x.Binary? { AppendNothing(x.data); }
  }

  /** The fills make up what is missing in the last group of four. */
  lemma FillsToFour(n: nat, fills: nat)
    requires fills <= 2 && (n + fills) % 4 == 0
    ensures n % 4 == if fills == 0 then 0 else 4 - fills
    ensures n >= n % 4 && (n - n % 4) % 4 == 0
  {
    var (q, m) := (n / 4, n % 4);
    Fours(q, 0);
    if m + fills < 4 { Fours(q, m + fills); } else { Fours(q + 1, m + fills - 4); }
  }

  lemma FoursBetween(i: nat, n: nat)
    requires i < n && i % 4 == 0 && n % 4 == 0
    ensures i + 4 <= n && (n - i) % 4 == 0 && (n - (i + 4)) % 4 == 0
  {
    Fours(n / 4 - i / 4, 0);
    Fours(n / 4 - i / 4 - 1, 0);
  }

  /** The octets of the symbols `s`, which `fills` fills followed. */
  function Unpack(a: Alphabet, s: string, fills: nat): Decoded
    requires fills <= 2 && (|s| + fills) % 4 == 0
  {
    if fills == 0 then Groups(a, s)
    else
      var fast := |s| - (4 - fills);
      assert fast % 4 == 0 && fast >= 0;
      Append(Groups(a, s[..fast]), Tail(a, s[fast..]))
  }

  function Decode(a: Alphabet, s: string): Decoded {
    match Strip(a, s, 0)
    case TooMany => Invalid
    case Stripped(data, fills) => if (|data| + fills) % 4 != 0 then Invalid else Unpack(a, data, fills)
  }

  /* Padding */

  function Pad(a: Alphabet, s: string): string {
    s + Fills(a, (4 - |s| % 4) % 4)
  }

  /** The text before the first fill. */
  function Trim(a: Alphabet, s: string): (r: string)
    ensures r <= s
    decreases |s|
  {
    if s == [] || Fill(a) <= s then "" else [s[0]] + Trim(a, s[1..])
  }
}

module Base64Theorems {
  import opened OrderedKeys
  import opened Base64

  function FillCount(bin: string): nat {
    (3 - |bin| % 3) % 3
  }

  /** The symbols of an encoding. */
  function Data(a: Alphabet, bin: string): string {
    if |bin| == 0 then ""
    else if |bin| == 1 then Symbols(a, Triple(bin[0], 0 as char, 0 as char), 2)
    else if |bin| == 2 then Symbols(a, Triple(bin[0], bin[1], 0 as char), 3)
    else Symbols(a, Triple(bin[0], bin[1], bin[2]), 4) + Data(a, bin[3..])
  }

  lemma FillCountStep(bin: string)
    requires |bin| >= 3
    ensures FillCount(bin[3..]) == FillCount(bin)
  {
  }

  /** An encoding is symbols of the alphabet, and then up to two fills. */
  lemma {:induction false} EncodeSplits(a: Alphabet, bin: string)
    ensures Encode(a, bin) == Data(a, bin) + Fills(a, FillCount(bin))
  {
    hide Symbols, Fills, Triple, FillCount;
    if |bin| == 0 {
      assert FillCount(bin) == 0 by { FillCountSmall(bin); }
      NoFills(a, "");
    } else if |bin| < 3 {
      FillCountSmall(bin);
    } else {
      EncodeSplits(a, bin[3..]);
      FillCountStep(bin);
      AppendAppend(Symbols(a, Triple(bin[0], bin[1], bin[2]), 4), Data(a, bin[3..]), Fills(a, FillCount(bin)));
    }
  }

  lemma FillCountSmall(bin: string)
    requires |bin| < 3
    ensures FillCount(bin) == if |bin| == 0 then 0 else 3 - |bin|
  {
  }

  /** The fills round the number of symbols up to a multiple of four. */
  lemma {:induction false} DataShape(a: Alphabet, bin: string)
    ensures AllData(a, Data(a, bin))
    ensures (|Data(a, bin)| + FillCount(bin)) % 4 == 0
    ensures FillCount(bin) <= 2 && (FillCount(bin) > 0 ==> |Data(a, bin)| >= 2)
  {
    hide Symbols, Triple, Sextet;
    if |bin| >= 3 { DataShape(a, bin[3..]); }
  }

  lemma NoFills(a: Alphabet, s: string)
    ensures s + Fills(a, 0) == s
  {
  }

  lemma FillsLast(a: Alphabet, n: nat)
    ensures Fills(a, n + 1) == Fills(a, n) + Fill(a)
  {
    if n > 0 {
      FillsLast(a, n - 1);
      AppendAppend(Fill(a), Fills(a, n - 1), Fill(a));
    }
  }

  /** No fill ends in a symbol of the alphabet, so data is never taken for a fill. */
  lemma DataIsNotFill(a: Alphabet, s: string)
    requires AllData(a, s) && |s| >= |Fill(a)|
    ensures s[|s| - |Fill(a)|..] != Fill(a)
  {
    assert s[|s| - |Fill(a)|..][0] == s[|s| - |Fill(a)|];
    assert Sextet(a, Fill(a)[0]) == -1;
  }

  lemma {:induction false} StripFills(a: Alphabet, data: string, n: nat, fills: nat)
    requires AllData(a, data) && fills + n <= 2 && (n > 0 ==> data != [])
    ensures Strip(a, data + Fills(a, n), fills) == Stripped(data, fills + n)
    decreases n
  {
    hide Sextet, Fill, Fills, Strip;
    if n == 0 {
      NoFills(a, data);
      StripStop(a, data, fills);
    } else {
      FillsLast(a, n - 1);
      AppendAppend(data, Fills(a, n - 1), Fill(a));
      StripFills(a, data, n - 1, fills + 1);
      StripStep(a, data + Fills(a, n - 1), fills);
    }
  }

  lemma StripStop(a: Alphabet, s: string, fills: nat)
    requires fills <= 2 && AllData(a, s)
    ensures Strip(a, s, fills) == Stripped(s, fills)
  {
    hide Sextet, Fill;
    if |s| > |Fill(a)| { DataIsNotFill(a, s); }
  }

  lemma StripStep(a: Alphabet, s: string, fills: nat)
    requires s != [] && fills < 2
    ensures Strip(a, s + Fill(a), fills) == Strip(a, s, fills + 1)
  {
    hide Fill;
    var t := s + Fill(a);
    assert t[..|s|] == s && t[|s|..] == Fill(a);
  }

  lemma SextetsSum(t: nat)
    requires t < 0x1000000
    ensures SextetOf(t, 0) * 0x40000 + SextetOf(t, 1) * 0x1000 + SextetOf(t, 2) * 0x40 + SextetOf(t, 3) == t
  {
    var q, r, p := t / 0x40, t / 0x1000, t / 0x40000;
    assert r == q / 0x40;
    assert p == r / 0x40;
    assert p % 0x40 == p;
  }

  lemma OctetsOf(x: nat, y: nat, z: nat, t: nat)
    requires x < 0x100 && y < 0x100 && z < 0x100 && t == x * 0x10000 + y * 0x100 + z
    ensures Octet(t / 0x10000) == x as char && Octet(t / 0x100) == y as char && Octet(t) == z as char
  {
    assert t / 0x10000 == x;
    assert t / 0x100 == x * 0x100 + y;
  }

  lemma LowSextets(x: nat, y: nat, t: nat)
    requires x < 0x100 && y < 0x100 && t == x * 0x10000 + y * 0x100
    ensures SextetOf(t, 3) == 0
    ensures y == 0 ==> SextetOf(t, 2) == 0
  {
  }

  lemma SymbolAt(a: Alphabet, t: nat, n: nat, i: nat)
    requires i < n <= 4
    ensures Sextet(a, Symbols(a, t, n)[i]) == SextetOf(t, i)
  {
    SextetOfSymbol(a, SextetOf(t, i));
  }

  lemma FourSymbols(a: Alphabet, t: nat)
    requires t < 0x1000000
    ensures Groups(a, Symbols(a, t, 4)) == Binary([Octet(t / 0x10000), Octet(t / 0x100), Octet(t)])
  {
    hide Sextet, SextetOf, Symbols, Octet;
    var s := Symbols(a, t, 4);
    SymbolAt(a, t, 4, 0);
    SymbolAt(a, t, 4, 1);
    SymbolAt(a, t, 4, 2);
    SymbolAt(a, t, 4, 3);
    SextetsSum(t);
    assert s[..4] == s;
  }

  lemma FewSymbols(a: Alphabet, t: nat, n: nat)
    requires t < 0x1000000 && 2 <= n <= 3 && SextetOf(t, 3) == 0 && (n == 2 ==> SextetOf(t, 2) == 0)
    ensures Tail(a, Symbols(a, t, n)) == Binary(if n == 2 then [Octet(t / 0x10000)] else [Octet(t / 0x10000), Octet(t / 0x100)])
  {
    hide Sextet, SextetOf, Symbols, Octet;
    SymbolAt(a, t, n, 0);
    SymbolAt(a, t, n, 1);
    if n == 3 { SymbolAt(a, t, n, 2); }
    SextetsSum(t);
  }

  lemma GroupsStep(a: Alphabet, four: string, s: string)
    requires |four| == 4 && |s| % 4 == 0
    ensures Groups(a, four + s) == Append(Groups(a, four), Groups(a, s))
  {
    hide Groups, Four, Append;
    assert four == [four[0], four[1], four[2], four[3]];
    GroupsOf(a, four[0], four[1], four[2], four[3], s);
    GroupsOf(a, four[0], four[1], four[2], four[3], "");
    AppendNothing(four);
    NoGroups(a);
    AppendNoData(Four(a, four[0], four[1], four[2], four[3]));
  }

  lemma UnpackStep(a: Alphabet, four: string, s: string, fills: nat)
    requires |four| == 4 && fills <= 2 && (|s| + fills) % 4 == 0
    ensures (|four + s| + fills) % 4 == 0
    ensures Unpack(a, four + s, fills) == Append(Groups(a, four), Unpack(a, s, fills))
  {
    hide Groups, Tail;
    if fills == 0 {
      GroupsStep(a, four, s);
    } else {
      var fast := |s| - (4 - fills);
      FillsToFour(|s|, fills);
      assert fast % 4 == 0 && fast >= 0;
      assert (four + s)[..fast + 4] == four + s[..fast] && (four + s)[fast + 4..] == s[fast..];
      GroupsStep(a, four, s[..fast]);
      AppendTwice(Groups(a, four), Groups(a, s[..fast]), Tail(a, s[fast..]));
    }
  }

  lemma AppendTwice(x: Decoded, y: Decoded, z: Decoded)
    ensures Append(Append(x, y), z) == Append(x, Append(y, z))
  {
    if x.Binary? && y.Binary? && z.Binary? { AppendAppend(x.data, y.data, z.data); }
  }

  lemma UnpackTail(a: Alphabet, s: string, fills: nat)
    requires (|s| == 2 && fills == 2) || (|s| == 3 && fills == 1)
    ensures (|s| + fills) % 4 == 0
    ensures Unpack(a, s, fills) == Tail(a, s)
  {
    hide Tail;
    assert s[..0] == "" && s[0..] == s;
    if Tail(a, s).Binary? { AppendNothing(Tail(a, s).data); }
  }

  lemma UnpackFew(a: Alphabet, bin: string)
    requires IsBytes(bin) && 1 <= |bin| <= 2
    ensures Unpack(a, Data(a, bin), 3 - |bin|) == Binary(bin)
  {
    hide Sextet, SextetOf, Symbols, Octet, Tail, Unpack;
    var (x, y) := (bin[0] as int, if |bin| == 2 then bin[1] as int else 0);
    var t := x * 0x10000 + y * 0x100;
    LowSextets(x, y, t);
    OctetsOf(x, y, 0, t);
    FewSymbols(a, t, |bin| + 1);
    var s := Data(a, bin);
    assert s == Symbols(a, t, |bin| + 1);
    UnpackTail(a, s, 3 - |bin|);
    assert bin == if |bin| == 1 then [bin[0]] else [bin[0], bin[1]];
  }

  lemma {:induction false} UnpackData(a: Alphabet, bin: string)
    requires IsBytes(bin)
    ensures FillCount(bin) <= 2 && (|Data(a, bin)| + FillCount(bin)) % 4 == 0
    ensures Unpack(a, Data(a, bin), FillCount(bin)) == Binary(bin)
  {
    hide Symbols, FillCount, Unpack, Groups, Octet;
    DataShape(a, bin);
    if |bin| < 3 {
      FillCountSmall(bin);
      if |bin| == 0 {
        UnpackNothing(a);
      } else {
        UnpackFew(a, bin);
      }
    } else {
      var t := Triple(bin[0], bin[1], bin[2]);
      FillCountStep(bin);
      DataShape(a, bin[3..]);
      UnpackStep(a, Symbols(a, t, 4), Data(a, bin[3..]), FillCount(bin));
      FourSymbols(a, t);
      OctetsOf(bin[0] as int, bin[1] as int, bin[2] as int, t);
      UnpackData(a, bin[3..]);
      assert bin == [bin[0], bin[1], bin[2]] + bin[3..];
    }
  }

  lemma UnpackNothing(a: Alphabet)
    ensures Unpack(a, "", 0) == Binary("")
  {
  }

  /** Symbols of the alphabet and up to two fills, four in each group. */
  predicate IsEncoded(a: Alphabet, s: string, data: string, fills: nat) {
    s == data + Fills(a, fills) && AllData(a, data) && fills <= 2 && (|data| + fills) % 4 == 0
  }

  /** Text is decoded, and not refused, exactly when it has that form. */
  lemma DecodeAccepts(a: Alphabet, s: string)
    ensures Decode(a, s).Binary? <==> exists data, fills :: IsEncoded(a, s, data, fills)
  {
    hide Sextet, Fills, Strip, Unpack;
    if Decode(a, s).Binary? {
      StripTakes(a, s, 0);
      var r := Strip(a, s, 0);
      UnpackAccepts(a, r.data, r.fills);
      assert IsEncoded(a, s, r.data, r.fills);
    }
    if data, fills :| IsEncoded(a, s, data, fills) {
      StripFills(a, data, fills, 0);
      UnpackAccepts(a, data, fills);
    }
  }

  lemma CutAt(s: string, n: nat)
    requires n <= |s|
    ensures s == s[..n] + s[n..]
  {
  }

  lemma {:induction false} StripTakes(a: Alphabet, s: string, fills: nat)
    requires fills <= 2
    ensures var r := Strip(a, s, fills); r.Stripped? ==> fills <= r.fills && s == r.data + Fills(a, r.fills - fills)
    decreases |s|
  {
    hide Fill, Fills;
    var n := |s| - |Fill(a)|;
    if n > 0 && s[n..] == Fill(a) {
      if fills < 2 {
        var t := s[..n];
        var r := Strip(a, t, fills + 1);
        assert Strip(a, s, fills) == r;
        StripTakes(a, t, fills + 1);
        CutAt(s, n);
        if r.Stripped? {
          FillsLast(a, r.fills - fills - 1);
          AppendAppend(r.data, Fills(a, r.fills - fills - 1), Fill(a));
        }
      }
    } else {
      NoFills(a, s);
    }
  }

  lemma {:induction false} GroupsAccepts(a: Alphabet, s: string)
    requires |s| % 4 == 0
    ensures Groups(a, s).Binary? <==> AllData(a, s)
  {
    hide Sextet, Octet;
    if s != [] {
      GroupsAccepts(a, s[4..]);
      assert s == s[..4] + s[4..];
    }
  }

  lemma UnpackAccepts(a: Alphabet, s: string, fills: nat)
    requires fills <= 2 && (|s| + fills) % 4 == 0
    ensures Unpack(a, s, fills).Binary? <==> AllData(a, s)
  {
    hide Sextet, Octet, Groups;
    if fills == 0 {
      GroupsAccepts(a, s);
    } else {
      var fast := |s| - (4 - fills);
      assert fast % 4 == 0 && fast >= 0;
      GroupsAccepts(a, s[..fast]);
      assert s == s[..fast] + s[fast..];
    }
  }

  /** Decoding what was encoded gives the same bytes, in both alphabets. */
  lemma DecodeEncode(a: Alphabet, bin: string)
    requires IsBytes(bin)
    ensures Decode(a, Encode(a, bin)) == Binary(bin)
  {
    hide Unpack, Strip, Encode, Data, FillCount, Fills;
    EncodeSplits(a, bin);
    DataShape(a, bin);
    StripFills(a, Data(a, bin), FillCount(bin), 0);
    UnpackData(a, bin);
  }

  lemma {:induction false} TrimFills(a: Alphabet, data: string, n: nat)
    requires AllData(a, data)
    ensures Trim(a, data + Fills(a, n)) == data
  {
    hide Sextet;
    if data == [] {
      if n > 0 { assert Fill(a) <= data + Fills(a, n); }
    } else {
      assert data + Fills(a, n) == [data[0]] + (data[1..] + Fills(a, n));
      assert Sextet(a, Fill(a)[0]) == -1;
      TrimFills(a, data[1..], n);
    }
  }

  /** Padding what was trimmed gives the same text again; the trimmed text holds no dot. */
  lemma PadTrim(a: Alphabet, bin: string)
    ensures Pad(a, Trim(a, Encode(a, bin))) == Encode(a, bin)
    ensures AllData(a, Trim(a, Encode(a, bin))) && '.' !in Trim(a, Encode(a, bin))
  {
    hide Encode, Data, Fills, FillCount, Trim;
    EncodeSplits(a, bin);
    DataShape(a, bin);
    TrimFills(a, Data(a, bin), FillCount(bin));
    NoDots(a, Data(a, bin));
    RoundUp(|Data(a, bin)|, FillCount(bin));
  }

  lemma NoDots(a: Alphabet, s: string)
    requires AllData(a, s)
    ensures '.' !in s
  {
    assert Sextet(a, '.') == -1;
  }

  lemma RoundUp(n: nat, k: nat)
    requires k < 4 && (n + k) % 4 == 0
    ensures (4 - n % 4) % 4 == k
  {
  }

  /** What the token carries of some bytes, and what it makes of that. */
  lemma DecodeTrimmed(a: Alphabet, bin: string)
    requires IsBytes(bin)
    ensures Decode(a, Pad(a, Trim(a, Encode(a, bin)))) == Binary(bin)
  {
    hide Decode, Pad, Trim, Encode;
    PadTrim(a, bin);
    DecodeEncode(a, bin);
  }
}
