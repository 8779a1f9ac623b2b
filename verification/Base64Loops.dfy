/** The loops of `base::encode` and `base::decode`, which build their result one character at a time. */
module Base64Loops {
  import opened OrderedKeys
  import opened Base64

  method EncodeBinary(a: Alphabet, bin: string) returns (res: string)
    ensures res == Encode(a, bin)
  {
    hide Encode, Symbols, Symbol, Triple, Fill, Fills;
    res := "";
    var size := |bin|;
    var fastSize := size - size % 3;
    var i := 0;
    NothingBefore(Encode(a, bin), bin);
    while i < fastSize
      invariant 0 <= i <= fastSize && i % 3 == 0
      invariant Encode(a, bin) == res + Encode(a, bin[i..])
    {
      ThreesBetween(i, fastSize);
      EncodeStep(a, bin[i..]);
      Shift(bin, i, 3);
      var triple := Triple(bin[i], bin[i + 1], bin[i + 2]);
      i := i + 3;
      ghost var was := res;
      res := PushSymbols(a, triple, 4, res);
      AppendAppend(was, Symbols(a, triple, 4), Encode(a, bin[i..]));
    }
    EncodeEnd(a, bin, i, res);
    if fastSize == size {
      return;
    }
    var x := bin[fastSize];
    if size % 3 == 1 {
      res := PushSymbols(a, Triple(x, 0 as char, 0 as char), 2, res);
      res := res + Fill(a);
      res := res + Fill(a);
    } else {
      res := PushSymbols(a, Triple(x, bin[fastSize + 1], 0 as char), 3, res);
      res := res + Fill(a);
    }
  }

  /** The first `n` symbols of three octets, appended one by one. */
  method PushSymbols(a: Alphabet, triple: nat, n: nat, before: string) returns (res: string)
    requires 2 <= n <= 4
    ensures res == before + Symbols(a, triple, n)
  {
    hide Symbol, Symbols;
    SymbolList(a, triple);
    res := before;
    res := res + [Symbol(a, triple / 0x40000 % 0x40)];
    res := res + [Symbol(a, triple / 0x1000 % 0x40)];
    if n > 2 {
      res := res + [Symbol(a, triple / 0x40 % 0x40)];
    }
    if n > 3 {
      res := res + [Symbol(a, triple % 0x40)];
    }
  }

  lemma NothingBefore(text: string, bin: string)
    ensures "" + text == text && bin[0..] == bin
  {
  }

  lemma Shift(s: string, i: nat, k: nat)
    requires i + k <= |s|
    ensures s[i..][k..] == s[i + k..]
    ensures forall j :: 0 <= j < k ==> s[i..][j] == s[i + j]
  {
  }

  lemma EncodeEnd(a: Alphabet, bin: string, i: nat, res: string)
    requires i <= |bin| <= i + 2 && Encode(a, bin) == res + Encode(a, bin[i..])
    ensures |bin| == i ==> Encode(a, bin) == res
    ensures |bin| == i + 1 ==> Encode(a, bin) == res + Symbols(a, Triple(bin[i], 0 as char, 0 as char), 2) + Fill(a) + Fill(a)
    ensures |bin| == i + 2 ==> Encode(a, bin) == res + Symbols(a, Triple(bin[i], bin[i + 1], 0 as char), 3) + Fill(a)
  {
    hide Encode, Symbols, Symbol, Triple, Fill, Fills;
    EncodeStep(a, bin[i..]);
    Shift(bin, i, |bin| - i);
    if |bin| == i + 1 {
      AppendFills(a, res, Symbols(a, Triple(bin[i], 0 as char, 0 as char), 2), 2);
    } else if |bin| == i + 2 {
      AppendFills(a, res, Symbols(a, Triple(bin[i], bin[i + 1], 0 as char), 3), 1);
    }
  }

  lemma ThreesBetween(i: nat, n: nat)
    requires i < n && i % 3 == 0 && n % 3 == 0
    ensures i + 3 <= n && (i + 3) % 3 == 0
  {
  }

  lemma EncodeStep(a: Alphabet, s: string)
    ensures |s| >= 3 ==> Encode(a, s) == Symbols(a, Triple(s[0], s[1], s[2]), 4) + Encode(a, s[3..])
    ensures |s| == 2 ==> Encode(a, s) == Symbols(a, Triple(s[0], s[1], 0 as char), 3) + Fills(a, 1)
    ensures |s| == 1 ==> Encode(a, s) == Symbols(a, Triple(s[0], 0 as char, 0 as char), 2) + Fills(a, 2)
    ensures s == [] ==> forall t: string :: t + Encode(a, s) == t
  {
    hide Symbols, Fills;
  }

  lemma SymbolList(a: Alphabet, t: nat)
    ensures Symbols(a, t, 4) == [Symbol(a, t / 0x40000 % 0x40), Symbol(a, t / 0x1000 % 0x40),
                                 Symbol(a, t / 0x40 % 0x40), Symbol(a, t % 0x40)]
    ensures Symbols(a, t, 3) == [Symbol(a, t / 0x40000 % 0x40), Symbol(a, t / 0x1000 % 0x40), Symbol(a, t / 0x40 % 0x40)]
    ensures Symbols(a, t, 2) == [Symbol(a, t / 0x40000 % 0x40), Symbol(a, t / 0x1000 % 0x40)]
  {
    hide Symbol;
  }

  lemma AppendFills(a: Alphabet, s: string, t: string, n: nat)
    requires 1 <= n <= 2
    ensures s + (t + Fills(a, n)) == if n == 1 then s + t + Fill(a) else s + t + Fill(a) + Fill(a)
  {
    hide Fill;
    assert Fills(a, 0) == "" && Fill(a) + "" == Fill(a);
    assert Fills(a, 1) == Fill(a);
    assert Fills(a, 2) == Fill(a) + Fill(a);
    AppendAppend(s, t, Fills(a, n));
    AppendAppend(s + t, Fill(a), Fill(a));
  }

  /** `get_sextet`: the first place of the character in the alphabet, or an exception. */
  method GetSextet(a: Alphabet, c: char) returns (r: int)
    ensures r == Sextet(a, c)
  {
    var i := 0;
    while i < 64
      invariant 0 <= i <= 64
      invariant forall j :: 0 <= j < i ==> Symbol(a, j) != c
    {
      if Symbol(a, i) == c {
        SextetOfSymbol(a, i);
        return i;
      }
      i := i + 1;
    }
    return -1;
  }

  method DecodeText(a: Alphabet, base: string) returns (r: Decoded)
    ensures r == Decode(a, base)
  {
    hide Decode, Strip, Unpack, Groups, Tail, Sextet, Fill, Octet, Append;
    var size := |base|;
    var fillCount := 0;
    NothingBefore("", base);
    TakeAll(base);
    while size > |Fill(a)|
      invariant 0 <= size <= |base| && 0 <= fillCount <= 2
      invariant Strip(a, base, 0) == Strip(a, base[..size], fillCount)
      decreases size
    {
      StripUnfold(a, base[..size], fillCount);
      TakeShorter(base, size - |Fill(a)|, size);
      if base[size - |Fill(a)|..size] == Fill(a) {
        size := size - |Fill(a)|;
        if fillCount + 1 > 2 {
          DecodeTooMany(a, base);
          return Invalid;
        }
        fillCount := fillCount + 1;
      } else {
        break;
      }
    }
    StripUnfold(a, base[..size], fillCount);
    DecodeStripped(a, base, base[..size], fillCount);
    if (size + fillCount) % 4 != 0 {
      return Invalid;
    }
    UnpackParts(a, base[..size], fillCount);
    var fastSize := size - size % 4;
    r := DecodeGroups(a, base, fastSize);
    TakeShorter(base, fastSize, size);
    if fillCount == 0 || r.Invalid? {
      return;
    }
    var more := DecodeTail(a, base[fastSize..size]);
    r := Append(r, more);
  }

  lemma DecodeTooMany(a: Alphabet, s: string)
    requires Strip(a, s, 0) == TooMany
    ensures Decode(a, s) == Invalid
  {
  }

  lemma DecodeStripped(a: Alphabet, s: string, data: string, fills: nat)
    requires Strip(a, s, 0) == Stripped(data, fills)
    ensures fills <= 2 && Decode(a, s) == if (|data| + fills) % 4 != 0 then Invalid else Unpack(a, data, fills)
  {
    hide Strip, Unpack;
  }

  lemma UnpackParts(a: Alphabet, s: string, fills: nat)
    requires fills <= 2 && (|s| + fills) % 4 == 0
    ensures |s| >= |s| % 4 && (|s| - |s| % 4) % 4 == 0
    ensures fills == 0 ==> |s| % 4 == 0 && s[..|s|] == s && Unpack(a, s, fills) == Groups(a, s)
    ensures fills > 0 ==> |s| % 4 == 4 - fills
    ensures fills > 0 ==> Unpack(a, s, fills) == Append(Groups(a, s[..|s| - |s| % 4]), Tail(a, s[|s| - |s| % 4..]))
    ensures forall x :: Append(Invalid, x) == Invalid
  {
    hide Groups, Tail;
    assert s[..|s|] == s;
    FillsToFour(|s|, fills);
  }

  method DecodeGroups(a: Alphabet, base: string, fastSize: nat) returns (r: Decoded)
    requires fastSize <= |base| && fastSize % 4 == 0
    ensures r == Groups(a, base[..fastSize])
  {
    hide Groups, Sextet, Octet, Append, AllData;
    var res := "";
    var i := 0;
    AppendNoData(Groups(a, base[..fastSize]));
    while i < fastSize
      invariant 0 <= i <= fastSize && i % 4 == 0
      invariant Groups(a, base[..fastSize]) == Append(Binary(res), Groups(a, base[i..fastSize]))
    {
      GroupsUnfold(a, base, i, fastSize);
      AppendInvalid(Binary(res), Groups(a, base[i + 4..fastSize]));
      var x := GetSextet(a, base[i]);
      if x < 0 { return Invalid; }
      var y := GetSextet(a, base[i + 1]);
      if y < 0 { return Invalid; }
      var z := GetSextet(a, base[i + 2]);
      if z < 0 { return Invalid; }
      var w := GetSextet(a, base[i + 3]);
      if w < 0 { return Invalid; }
      var triple := x * 0x40000 + y * 0x1000 + z * 0x40 + w;
      i := i + 4;
      AppendThree(res, Octet(triple / 0x10000), Octet(triple / 0x100), Octet(triple), Groups(a, base[i..fastSize]));
      res := res + [Octet(triple / 0x10000)];
      res := res + [Octet(triple / 0x100)];
      res := res + [Octet(triple)];
    }
    r := Binary(res);
    assert base[i..fastSize] == [];
    GroupsEnd(a, base[i..fastSize], res);
  }

  method DecodeTail(a: Alphabet, s: string) returns (r: Decoded)
    requires |s| == 2 || |s| == 3
    ensures r == Tail(a, s)
  {
    hide Sextet, Octet;
    var x := GetSextet(a, s[0]);
    if x < 0 { return Invalid; }
    var y := GetSextet(a, s[1]);
    if y < 0 { return Invalid; }
    var triple := x * 0x40000 + y * 0x1000;
    if |s| == 3 {
      var z := GetSextet(a, s[2]);
      if z < 0 { return Invalid; }
      triple := triple + z * 0x40;
      r := Binary([Octet(triple / 0x10000)] + [Octet(triple / 0x100)]);
    } else {
      r := Binary([Octet(triple / 0x10000)]);
    }
  }

  lemma StripUnfold(a: Alphabet, s: string, fills: nat)
    requires fills <= 2
    ensures |s| > |Fill(a)| && s[|s| - |Fill(a)|..] == Fill(a) ==>
      Strip(a, s, fills) == if fills == 2 then TooMany else Strip(a, s[..|s| - |Fill(a)|], fills + 1)
    ensures |s| <= |Fill(a)| || s[|s| - |Fill(a)|..] != Fill(a) ==> Strip(a, s, fills) == Stripped(s, fills)
  {
    hide Fill;
  }

  lemma TakeShorter(s: string, n: nat, m: nat)
    requires n <= m <= |s|
    ensures s[..m][n..] == s[n..m] && s[..m][..n] == s[..n]
  {
  }

  lemma AppendThree(res: string, x: char, y: char, z: char, more: Decoded)
    ensures Append(Binary(res), Append(Binary([x, y, z]), more)) == Append(Binary(res + [x] + [y] + [z]), more)
  {
    if more.Binary? { assert res + ([x, y, z] + more.data) == res + [x] + [y] + [z] + more.data; }
  }

  lemma GroupsUnfold(a: Alphabet, base: string, i: nat, n: nat)
    requires i < n <= |base| && i % 4 == 0 && n % 4 == 0
    ensures i + 4 <= n && (n - i) % 4 == 0 && (n - (i + 4)) % 4 == 0 && (i + 4) % 4 == 0
    ensures Groups(a, base[i..n]) ==
      Append(Four(a, base[i], base[i + 1], base[i + 2], base[i + 3]), Groups(a, base[i + 4..n]))
  {
    hide Groups, Four, Append;
    FoursBetween(i, n);
    Fours(i / 4 + 1, 0);
    assert base[i..n] == [base[i], base[i + 1], base[i + 2], base[i + 3]] + base[i + 4..n];
    GroupsOf(a, base[i], base[i + 1], base[i + 2], base[i + 3], base[i + 4..n]);
  }

  lemma AppendInvalid(x: Decoded, y: Decoded)
    ensures Append(x, Append(Invalid, y)) == Invalid
  {
  }

  lemma GroupsEnd(a: Alphabet, s: string, res: string)
    requires s == []
    ensures Append(Binary(res), Groups(a, s)) == Binary(res)
  {
  }
}
