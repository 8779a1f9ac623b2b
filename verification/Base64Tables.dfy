/** The text of base64 by the published tables: section 4 of RFC 4648, and section 5 for the URL alphabet. */
module Base64Tables {
  import opened OrderedKeys
  import opened Base64
  import opened Base64Theorems

  const UPPER := "ABCDEFGHIJKLMNOPQRSTUVWXYZ"
  const LOWER := "abcdefghijklmnopqrstuvwxyz"
  const DIGITS := "0123456789"

  /** The table of an alphabet: each of its 64 characters at the place of its value. */
  function Table(a: Alphabet): (t: string)
    ensures |t| == 64
  {
    UPPER + LOWER + DIGITS + if a.Url? then "-_" else "+/"
  }

  lemma UpperAt(i: nat)
    requires i < 26
    ensures UPPER[i] as int == 'A' as int + i
  {
  }

  lemma LowerAt(i: nat)
    requires i < 26
    ensures LOWER[i] as int == 'a' as int + i
  {
  }

  lemma DigitAt(i: nat)
    requires i < 10
    ensures DIGITS[i] as int == '0' as int + i
  {
  }

  lemma SymbolInTable(a: Alphabet, i: nat)
    requires i < 64
    ensures Table(a)[i] == Symbol(a, i)
  {
    if i < 26 { UpperAt(i); } else if i < 52 { LowerAt(i - 26); } else if i < 62 { DigitAt(i - 52); }
  }

  /** The first place of a character; the length of the text if there is none. */
  function PlaceIn(t: string, c: char): (i: nat)
    ensures i <= |t| && (i < |t| ==> t[i] == c)
    ensures i == |t| <==> c !in t
  {
    if t == [] || t[0] == c then 0 else 1 + PlaceIn(t[1..], c)
  }

  /** The value of a character: its place in the table, 64 if it is not in it. */
  function Place(a: Alphabet, c: char): nat {
    PlaceIn(Table(a), c)
  }

  predicate InTable(a: Alphabet, s: string) {
    forall i :: 0 <= i < |s| ==> s[i] in Table(a)
  }

  lemma PlaceOfSymbol(a: Alphabet, i: nat)
    requires i < 64
    ensures Place(a, Symbol(a, i)) == i && Symbol(a, i) in Table(a)
  {
    hide Symbol, Sextet, Table;
    SymbolInTable(a, i);
    var j := Place(a, Symbol(a, i));
    SymbolInTable(a, j);
    SextetOfSymbol(a, i);
    SextetOfSymbol(a, j);
  }

  lemma SextetIsPlace(a: Alphabet, c: char)
    ensures c in Table(a) <==> Sextet(a, c) >= 0
    ensures c in Table(a) ==> Sextet(a, c) == Place(a, c) < 64
  {
    hide Symbol, Sextet, Table;
    if Sextet(a, c) >= 0 { PlaceOfSymbol(a, Sextet(a, c)); }
    if c in Table(a) {
      SymbolInTable(a, Place(a, c));
      SextetOfSymbol(a, Place(a, c));
    }
  }

  lemma DataIsInTable(a: Alphabet, s: string)
    ensures AllData(a, s) <==> InTable(a, s)
  {
    hide Sextet, Table;
    forall i | 0 <= i < |s| ensures s[i] in Table(a) <==> Sextet(a, s[i]) >= 0 { SextetIsPlace(a, s[i]); }
  }

  /* Encoding */

  /** The places of four characters, as the digits of a number. */
  function Quad(a: Alphabet, c0: char, c1: char, c2: char, c3: char): nat {
    262144 * Place(a, c0) + 4096 * Place(a, c1) + 64 * Place(a, c2) + Place(a, c3)
  }

  lemma SymbolsSpell(a: Alphabet, t: nat, n: nat)
    requires t < 0x1000000 && 2 <= n <= 4
    ensures var s := Symbols(a, t, n);
      InTable(a, s) && forall i :: 0 <= i < n ==> Place(a, s[i]) == SextetOf(t, i)
    ensures SextetOf(t, 0) * 262144 + SextetOf(t, 1) * 4096 + SextetOf(t, 2) * 64 + SextetOf(t, 3) == t
  {
    hide Symbol, SextetOf, Place, Table;
    SextetsSum(t);
    forall i | 0 <= i < n ensures Symbols(a, t, n)[i] in Table(a) && Place(a, Symbols(a, t, n)[i]) == SextetOf(t, i) {
      PlaceOfSymbol(a, SextetOf(t, i));
    }
  }

  /** The characters that stand for three bytes, and for one or two. */
  lemma EncodeSmall(a: Alphabet, bin: string)
    requires IsBytes(bin) && 1 <= |bin| <= 3
    ensures var (y, z) := (if |bin| > 1 then bin[1] else 0 as char, if |bin| > 2 then bin[2] else 0 as char);
      var e := Symbols(a, Triple(bin[0], y, z), |bin| + 1);
      && InTable(a, e)
      && (|bin| == 3 ==> Quad(a, e[0], e[1], e[2], e[3]) == 65536 * bin[0] as int + 256 * bin[1] as int + bin[2] as int)
      && (|bin| == 2 ==> Quad(a, e[0], e[1], e[2], 'A') == 65536 * bin[0] as int + 256 * bin[1] as int)
      && (|bin| == 1 ==> Quad(a, e[0], e[1], 'A', 'A') == 65536 * bin[0] as int)
  {
    hide Symbols, SextetOf, Place, Table;
    var (y, z) := (if |bin| > 1 then bin[1] else 0 as char, if |bin| > 2 then bin[2] else 0 as char);
    var t := Triple(bin[0], y, z);
    SymbolsSpell(a, t, |bin| + 1);
    AIsZero(a);
    if |bin| < 3 { LowSextets(bin[0] as int, y as int, t); }
  }

  lemma AIsZero(a: Alphabet)
    ensures Place(a, 'A') == 0
  {
  }

  lemma EncodeUnfold(a: Alphabet, bin: string)
    requires |bin| >= 3
    ensures Encode(a, bin) == Symbols(a, Triple(bin[0], bin[1], bin[2]), 4) + Encode(a, bin[3..])
    ensures |Encode(a, bin)| >= 4 && Encode(a, bin)[4..] == Encode(a, bin[3..])
    ensures Encode(a, bin)[..4] == Symbols(a, Triple(bin[0], bin[1], bin[2]), 4)
  {
    hide Symbols, Triple, Fills;
  }

  /** Every three bytes are spelled by four characters of the table. */
  lemma {:induction false} EncodedGroup(a: Alphabet, bin: string, k: nat)
    requires IsBytes(bin) && 3 * k + 3 <= |bin|
    ensures 4 * k + 4 <= |Encode(a, bin)| && InTable(a, Encode(a, bin)[4 * k..4 * k + 4])
    ensures var e := Encode(a, bin);
      Quad(a, e[4 * k], e[4 * k + 1], e[4 * k + 2], e[4 * k + 3])
      == 65536 * bin[3 * k] as int + 256 * bin[3 * k + 1] as int + bin[3 * k + 2] as int
    decreases k
  {
    hide Encode, Quad, InTable, Symbols, Triple;
    EncodeUnfold(a, bin);
    var e := Encode(a, bin);
    if k == 0 {
      EncodeSmall(a, bin[..3]);
      assert e[0..4] == e[..4] && e[..4][0] == e[0] && e[..4][1] == e[1] && e[..4][2] == e[2] && e[..4][3] == e[3];
    } else {
      EncodedGroup(a, bin[3..], k - 1);
      Shifted(e, 4 * k);
    }
  }

  lemma Shifted(e: string, i: nat)
    requires 4 <= i && i + 4 <= |e|
    ensures var d := e[4..];
      d[i - 4] == e[i] && d[i - 3] == e[i + 1] && d[i - 2] == e[i + 2] && d[i - 1] == e[i + 3] && d[i - 4..i] == e[i..i + 4]
  {
  }

  /** What ends an encoding: nothing; or two or three characters, for one or two bytes as if zeros followed, and the fill. */
  predicate EndSpells(a: Alphabet, e: string, bin: string) {
    match |bin|
    case 0 => e == ""
    case 1 =>
      && |e| >= 2 && InTable(a, e[..2]) && e[2..] == (if a.Url? then "%3d%3d" else "==")
      && Quad(a, e[0], e[1], 'A', 'A') == 65536 * bin[0] as int
    case 2 =>
      && |e| >= 3 && InTable(a, e[..3]) && e[3..] == (if a.Url? then "%3d" else "=")
      && Quad(a, e[0], e[1], e[2], 'A') == 65536 * bin[0] as int + 256 * bin[1] as int
    case _ => false
  }

  lemma {:induction false} EncodedEnd(a: Alphabet, bin: string)
    requires IsBytes(bin)
    ensures 4 * (|bin| / 3) <= |Encode(a, bin)|
    ensures EndSpells(a, Encode(a, bin)[4 * (|bin| / 3)..], bin[3 * (|bin| / 3)..])
  {
    hide EndSpells, Symbols, Triple, Encode;
    if |bin| < 3 {
      EndOfSmall(a, bin);
      TakeAll(Encode(a, bin));
      TakeAll(bin);
    } else {
      EncodeUnfold(a, bin);
      EncodedEnd(a, bin[3..]);
      WholeMore(|bin| - 3, 3);
      EndLaterEncoded(a, bin, (|bin| - 3) / 3);
    }
  }

  lemma EndLaterEncoded(a: Alphabet, bin: string, k: nat)
    requires |bin| >= 3 && |Encode(a, bin)| >= 4 && Encode(a, bin)[4..] == Encode(a, bin[3..])
    requires 3 * k <= |bin| - 3 && 4 * k <= |Encode(a, bin[3..])|
    requires EndSpells(a, Encode(a, bin[3..])[4 * k..], bin[3..][3 * k..])
    ensures 4 * (k + 1) <= |Encode(a, bin)| && EndSpells(a, Encode(a, bin)[4 * (k + 1)..], bin[3 * (k + 1)..])
  {
    hide EndSpells, Encode;
    DropMore(Encode(a, bin), 4, 4 * (k + 1));
    DropMore(bin, 3, 3 * (k + 1));
  }

  lemma DropMore(s: string, i: nat, j: nat)
    requires i <= j <= |s|
    ensures s[i..][j - i..] == s[j..]
  {
  }

  lemma EndOfSmall(a: Alphabet, bin: string)
    requires IsBytes(bin) && |bin| < 3
    ensures EndSpells(a, Encode(a, bin), bin)
  {
    hide Quad, InTable, Symbols, Triple;
    if |bin| > 0 {
      EncodeSmall(a, bin);
      FillText(a);
      var s := Symbols(a, Triple(bin[0], if |bin| > 1 then bin[1] else 0 as char, 0 as char), |bin| + 1);
      assert Encode(a, bin)[..|bin| + 1] == s;
    }
  }

  lemma FillText(a: Alphabet)
    ensures Fills(a, 1) == (if a.Url? then "%3d" else "=") && Fills(a, 2) == if a.Url? then "%3d%3d" else "=="
  {
    assert Fills(a, 0) == "";
    assert Fill(a) + "" == Fill(a);
    assert "%3d" + "%3d" == "%3d%3d" && "=" + "=" == "==";
    assert Fills(a, 1) == Fill(a) + Fills(a, 0);
    assert Fills(a, 2) == Fill(a) + Fills(a, 1);
  }

  /** The encoding of any bytes, character by character: three bytes are the four characters whose places in the table are their
      sextets, and the end is as `EndSpells` says. */
  lemma EncodeByTable(a: Alphabet, bin: string)
    requires IsBytes(bin)
    ensures 4 * (|bin| / 3) <= |Encode(a, bin)|
    ensures forall k :: 0 <= k < |bin| / 3 ==> GroupSpells(a, Encode(a, bin), bin, k)
    ensures EndSpells(a, Encode(a, bin)[4 * (|bin| / 3)..], bin[3 * (|bin| / 3)..])
  {
    hide Encode, EndSpells, IsBytes;
    EncodedEnd(a, bin);
    forall k | 0 <= k < |bin| / 3 ensures GroupSpells(a, Encode(a, bin), bin, k) { EncodedGroup(a, bin, k); }
  }

  predicate GroupSpells(a: Alphabet, e: string, bin: string, k: nat) {
    && 4 * k + 4 <= |e| && 3 * k + 3 <= |bin| && InTable(a, e[4 * k..4 * k + 4])
    && Quad(a, e[4 * k], e[4 * k + 1], e[4 * k + 2], e[4 * k + 3])
      == 65536 * bin[3 * k] as int + 256 * bin[3 * k + 1] as int + bin[3 * k + 2] as int
  }

  /* Decoding */

  /** The bytes that are read from two or three characters at the end: the bits that are left over are not looked at. */
  predicate EndReads(a: Alphabet, e: string, bin: string) {
    match |e|
    case 0 => bin == ""
    case 2 => |bin| == 1 && bin[0] as int == Quad(a, e[0], e[1], 'A', 'A') / 65536
    case 3 => |bin| == 2 && 256 * bin[0] as int + bin[1] as int == Quad(a, e[0], e[1], e[2], 'A') / 256
    case _ => false
  }

  lemma OctetSum(t: nat)
    requires t < 0x1000000
    ensures 65536 * Octet(t / 0x10000) as int + 256 * Octet(t / 0x100) as int + Octet(t) as int == t
    ensures Octet(t / 0x10000) as int == t / 65536
    ensures 256 * Octet(t / 0x10000) as int + Octet(t / 0x100) as int == t / 256
  {
    var q, r := t / 0x100, t / 0x10000;
    assert r == q / 0x100;
  }

  lemma FourByTable(a: Alphabet, four: string)
    requires |four| == 4 && InTable(a, four)
    ensures var t := Quad(a, four[0], four[1], four[2], four[3]);
      t < 0x1000000 && Groups(a, four) == Binary([Octet(t / 0x10000), Octet(t / 0x100), Octet(t)])
  {
    hide Sextet, Table, Octet, Place, AllData, Groups;
    forall i | 0 <= i < 4 ensures Sextet(a, four[i]) == Place(a, four[i]) < 64 { SextetIsPlace(a, four[i]); }
    assert four == [four[0], four[1], four[2], four[3]];
    GroupsOf(a, four[0], four[1], four[2], four[3], "");
    AppendNothing(four);
    NoGroups(a);
    AppendNoData(Four(a, four[0], four[1], four[2], four[3]));
  }

  lemma TailByTable(a: Alphabet, s: string)
    requires (|s| == 2 || |s| == 3) && InTable(a, s)
    ensures Tail(a, s).Binary? && EndReads(a, s, Tail(a, s).data)
  {
    hide Sextet, Table, Octet, Place;
    forall i | 0 <= i < |s| ensures Sextet(a, s[i]) == Place(a, s[i]) < 64 { SextetIsPlace(a, s[i]); }
    AIsZero(a);
    OctetSum(Quad(a, s[0], s[1], if |s| == 3 then s[2] else 'A', 'A'));
  }

  /** What symbols stand for, four by four, and at the end. */
  ghost predicate ReadByTable(a: Alphabet, data: string, bin: string) {
    && |bin| / 3 == |data| / 4
    && (forall k :: 0 <= k < |data| / 4 ==> GroupSpells(a, data, bin, k))
    && EndReads(a, data[4 * (|data| / 4)..], bin[3 * (|bin| / 3)..])
  }

  lemma GroupLater(a: Alphabet, four: string, data: string, three: string, bin: string, k: nat)
    requires |four| == 4 && |three| == 3 && GroupSpells(a, data, bin, k)
    ensures GroupSpells(a, four + data, three + bin, k + 1)
  {
    hide Quad, InTable;
    assert (four + data)[4 * (k + 1)..4 * (k + 1) + 4] == data[4 * k..4 * k + 4];
  }

  lemma GroupFirst(a: Alphabet, four: string, data: string, three: string, bin: string)
    requires |four| == 4 && |three| == 3 && GroupSpells(a, four, three, 0)
    ensures GroupSpells(a, four + data, three + bin, 0)
  {
    hide Quad, InTable;
    assert (four + data)[0..4] == four[0..4];
  }

  lemma EndLater(s: string, t: string, n: nat)
    requires |s| == n && (n == 3 || n == 4)
    ensures |s + t| / n == |t| / n + 1
    ensures (s + t)[n * (|s + t| / n)..] == t[n * (|t| / n)..]
  {
    WholeMore(|t|, n);
  }

  lemma WholeMore(m: nat, n: nat)
    requires n == 3 || n == 4
    ensures (n + m) / n == m / n + 1 && 0 <= n * (m / n) <= m && n * ((n + m) / n) == n + n * (m / n)
  {
    if n == 3 {
      assert (3 + m) / 3 == m / 3 + 1;
    } else {
      assert (4 + m) / 4 == m / 4 + 1;
    }
  }

  lemma ReadOneMore(a: Alphabet, four: string, data: string, three: string, bin: string)
    requires |four| == 4 && |three| == 3 && GroupSpells(a, four, three, 0) && ReadByTable(a, data, bin)
    ensures ReadByTable(a, four + data, three + bin)
  {
    hide GroupSpells, EndReads;
    EndLater(four, data, 4);
    EndLater(three, bin, 3);
    GroupFirst(a, four, data, three, bin);
    forall k | 1 <= k < |four + data| / 4 ensures GroupSpells(a, four + data, three + bin, k) {
      GroupLater(a, four, data, three, bin, k - 1);
    }
  }

  lemma {:induction false} UnpackByTable(a: Alphabet, data: string, fills: nat)
    requires fills <= 2 && (|data| + fills) % 4 == 0 && InTable(a, data) && (fills > 0 ==> |data| >= 2)
    ensures Unpack(a, data, fills).Binary? && ReadByTable(a, data, Unpack(a, data, fills).data)
    decreases |data|
  {
    hide Unpack, Tail, Groups, EndReads, GroupSpells, InTable;
    FillsToFour(|data|, fills);
    if |data| < 4 {
      NoneOrTail(a, data, fills);
    } else {
      var (four, rest) := (data[..4], data[4..]);
      assert data == four + rest;
      InTableParts(a, four, rest);
      assert (|rest| + fills) % 4 == 0;
      FillsToFour(|rest|, fills);
      UnpackByTable(a, rest, fills);
      UnpackStep(a, four, rest, fills);
      FourByTable(a, four);
      FourSpells(a, four);
      ReadOneMore(a, four, rest, Groups(a, four).data, Unpack(a, rest, fills).data);
    }
  }

  lemma InTableParts(a: Alphabet, s: string, t: string)
    requires InTable(a, s + t)
    ensures InTable(a, s) && InTable(a, t)
  {
    hide Table;
    forall i | 0 <= i < |s| ensures s[i] in Table(a) { assert (s + t)[i] == s[i]; }
    forall i | 0 <= i < |t| ensures t[i] in Table(a) { assert (s + t)[|s| + i] == t[i]; }
  }

  lemma FourSpells(a: Alphabet, four: string)
    requires |four| == 4 && InTable(a, four)
    ensures Groups(a, four).Binary? && |Groups(a, four).data| == 3 && GroupSpells(a, four, Groups(a, four).data, 0)
  {
    hide Groups, InTable, Quad, Octet;
    FourByTable(a, four);
    OctetSum(Quad(a, four[0], four[1], four[2], four[3]));
    assert four[0..4] == four;
  }

  lemma NoneOrTail(a: Alphabet, data: string, fills: nat)
    requires fills <= 2 && |data| == (if fills == 0 then 0 else 4 - fills) && InTable(a, data)
    ensures Unpack(a, data, fills).Binary? && ReadByTable(a, data, Unpack(a, data, fills).data)
  {
    hide Tail, EndReads, Unpack, InTable;
    if fills == 0 {
      UnpackNothing(a);
      NoEnd(a);
    } else {
      UnpackTail(a, data, fills);
      TailByTable(a, data);
      var bin := Tail(a, data).data;
      EndLengths(a, data, bin);
      TakeAll(data);
      TakeAll(bin);
    }
  }

  lemma NoEnd(a: Alphabet)
    ensures EndReads(a, "", "")
  {
  }

  lemma EndLengths(a: Alphabet, e: string, bin: string)
    requires EndReads(a, e, bin) && |e| > 0
    ensures |bin| < 3
  {
  }

  /** Characters of the table, and up to two fills that make up fours. */
  predicate IsText(a: Alphabet, s: string, data: string, fills: nat) {
    && InTable(a, data) && fills <= 2 && (|data| + fills) % 4 == 0
    && s == data + match fills
      case 0 => ""
      case 1 => if a.Url? then "%3d" else "="
      case _ => if a.Url? then "%3d%3d" else "=="
  }

  lemma TextIsEncoded(a: Alphabet, s: string, data: string, fills: nat)
    ensures IsText(a, s, data, fills) <==> IsEncoded(a, s, data, fills)
  {
    hide InTable, AllData, Fills;
    DataIsInTable(a, data);
    FillText(a);
    NoFills(a, "");
    assert "" + Fills(a, 0) == Fills(a, 0);
  }

  /** Text is decoded exactly when it has that form, and to the bytes that the table says. */
  lemma DecodeByTable(a: Alphabet, s: string)
    ensures Decode(a, s).Binary? <==> exists data, fills :: IsText(a, s, data, fills)
    ensures forall data, fills :: IsText(a, s, data, fills) && Decode(a, s).Binary? ==> ReadByTable(a, data, Decode(a, s).data)
  {
    hide IsText, IsEncoded, Decode, ReadByTable;
    DecodeAccepts(a, s);
    forall data, fills ensures IsText(a, s, data, fills) <==> IsEncoded(a, s, data, fills) { TextIsEncoded(a, s, data, fills); }
    forall data, fills | IsText(a, s, data, fills) && Decode(a, s).Binary? ensures ReadByTable(a, data, Decode(a, s).data) {
      DecodeText(a, s, data, fills);
    }
  }

  lemma DecodeText(a: Alphabet, s: string, data: string, fills: nat)
    requires IsText(a, s, data, fills)
    ensures Decode(a, s).Binary? && ReadByTable(a, data, Decode(a, s).data)
  {
    hide ReadByTable, InTable, AllData, Fills, Unpack, Strip;
    TextIsEncoded(a, s, data, fills);
    FillsToFour(|data|, fills);
    StripFills(a, data, fills, 0);
    UnpackByTable(a, data, fills);
  }
}
