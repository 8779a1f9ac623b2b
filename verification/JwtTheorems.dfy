/** What a token keeps of the claims it was made from, and exactly when it is accepted. */
module JwtTheorems {
  import opened Results
  import opened OrderedKeys
  import opened Decimal
  import opened Json
  import opened JsonRoundTrip
  import opened Base64
  import opened Base64Theorems
  import opened Jwt

  /* Claims as a map */

  /** Setting a claim changes what that claim is, and no other. */
  lemma {:induction false} LookupInsert(claims: seq<Field>, key: string, v: Value, name: string)
    ensures Lookup(Insert(claims, key, v), name) == if name == key then Claim(v) else Lookup(claims, name)
  {
    if claims != [] {
      LessTotal(claims[0].key, key);
      LookupInsert(claims[1..], key, v, name);
    }
  }

  lemma {:induction false} InsertMembers(claims: seq<Field>, key: string, v: Value, f: Field)
    requires f in Insert(claims, key, v)
    ensures f == Field(key, v) || f in claims
  {
    if claims != [] && Less(claims[0].key, key) {
      if f != claims[0] { InsertMembers(claims[1..], key, v, f); }
    }
  }

  /** Claims stay in the order of their names. */
  lemma {:induction false} InsertAscending(claims: seq<Field>, key: string, v: Value)
    requires Ascending(Keys(claims))
    ensures Ascending(Keys(Insert(claims, key, v)))
  {
    if claims == [] {
    } else if Less(claims[0].key, key) {
      AscendingTail(claims);
      InsertAscending(claims[1..], key, v);
      var more := Insert(claims[1..], key, v);
      forall i | 0 <= i < |more| ensures Less(claims[0].key, more[i].key) {
        InsertMembers(claims[1..], key, v, more[i]);
        if more[i] in claims[1..] { AscendingHead(claims, more[i]); }
      }
      AscendingCons(claims[0], more);
    } else {
      LessTotal(claims[0].key, key);
      AscendingTail(claims);
      forall f | f in claims[1..] ensures Less(key, f.key) {
        AscendingHead(claims, f);
        if claims[0].key != key { LessTransitive(key, claims[0].key, f.key); }
      }
      AscendingCons(Field(key, v), if claims[0].key == key then claims[1..] else claims);
    }
  }

  lemma AscendingTail(claims: seq<Field>)
    requires claims != [] && Ascending(Keys(claims))
    ensures Ascending(Keys(claims[1..]))
  {
    forall i, j | 0 <= i < j < |claims| - 1 ensures Less(Keys(claims[1..])[i], Keys(claims[1..])[j]) {
      assert Less(Keys(claims)[i + 1], Keys(claims)[j + 1]);
    }
  }

  lemma AscendingHead(claims: seq<Field>, f: Field)
    requires claims != [] && Ascending(Keys(claims)) && f in claims[1..]
    ensures Less(claims[0].key, f.key)
  {
    var i :| 1 <= i < |claims| && claims[i] == f;
    assert Less(Keys(claims)[0], Keys(claims)[i]);
  }

  lemma AscendingCons(f: Field, more: seq<Field>)
    requires Ascending(Keys(more)) && forall i :: 0 <= i < |more| ==> Less(f.key, more[i].key)
    ensures Ascending(Keys([f] + more))
  {
    var keys := Keys([f] + more);
    forall i, j | 0 <= i < j < |keys| ensures Less(keys[i], keys[j]) {
      if i > 0 { assert Less(Keys(more)[i - 1], Keys(more)[j - 1]); }
    }
  }

  /* Printed JSON is bytes */

  /** Every string in the value is made of bytes. */
  ghost predicate ByteStrings(v: Value)
    decreases v
  {
    match v
    case Number(numeral) => IsBytes(numeral)
    case Str(s) => IsBytes(s)
    case Arr(items) => forall i :: 0 <= i < |items| ==> ByteStrings(items[i])
    case Obj(fields) => forall i :: 0 <= i < |fields| ==> IsBytes(fields[i].key) && ByteStrings(fields[i].val)
    case _ => true
  }

  lemma {:induction false} EscapedIsBytes(s: string)
    requires IsBytes(s)
    ensures IsBytes(Escaped(s))
  {
    if s != [] { EscapedIsBytes(s[1..]); }
  }

  lemma {:induction false} SpacesAreBytes(n: nat)
    ensures IsBytes(Spaces(n))
  {
    if n > 0 { SpacesAreBytes(n - 1); }
  }

  lemma {:induction false} PrintIsBytes(v: Value, indent: int)
    requires ByteStrings(v) && indent >= -1
    ensures IsBytes(PrintBare(v, indent))
    decreases v, 1
  {
    hide IntText, Quoted, Indent, PrintItems, PrintFields;
    match v
    case Null =>
    case Bool(b) =>
    case Number(numeral) =>
    case Int(i) => IntIsBytes(i);
    case Str(s) => QuotedIsBytes(s);
    case Arr(items) =>
      IndentIsBytes(indent);
      ItemsAreBytes(items, Inner(indent));
    case Obj(fields) =>
      IndentIsBytes(indent);
      FieldsAreBytes(fields, Inner(indent));
  }

  lemma IntIsBytes(i: int)
    ensures IsBytes(IntText(i))
  {
  }

  lemma QuotedIsBytes(s: string)
    requires IsBytes(s)
    ensures IsBytes(Quoted(s))
  {
    EscapedIsBytes(s);
  }

  lemma IndentIsBytes(indent: int)
    requires indent >= -1
    ensures IsBytes(Indent(indent))
  {
    if indent >= 0 { SpacesAreBytes(indent * INDENT_WIDTH); }
  }

  lemma {:induction false} ItemsAreBytes(items: seq<Value>, indent: int)
    requires indent >= -1 && forall i :: 0 <= i < |items| ==> ByteStrings(items[i])
    ensures IsBytes(PrintItems(items, indent))
    decreases items, 2
  {
    hide PrintBare, Indent, ByteStrings;
    if items != [] {
      IndentIsBytes(indent);
      PrintIsBytes(items[0], indent);
      if |items| > 1 { ItemsAreBytes(items[1..], indent); }
    }
  }

  lemma {:induction false} FieldsAreBytes(fields: seq<Field>, indent: int)
    requires indent >= -1
    requires forall i :: 0 <= i < |fields| ==> IsBytes(fields[i].key) && ByteStrings(fields[i].val)
    ensures IsBytes(PrintFields(fields, indent))
    decreases fields, 2
  {
    hide PrintBare, Indent, ByteStrings, Quoted;
    if fields != [] {
      IndentIsBytes(indent);
      QuotedIsBytes(fields[0].key);
      PrintIsBytes(fields[0].val, indent);
      if |fields| > 1 { FieldsAreBytes(fields[1..], indent); }
    }
  }

  /* The parts of a token */

  /** A part decodes to what was encoded, and has no dot in it. */
  lemma PartRoundTrip(text: string)
    requires IsBytes(text)
    ensures DecodePart(EncodePart(text)) == Ok(text) && '.' !in EncodePart(text)
  {
    hide Decode, Encode, Trim, Pad;
    DecodeTrimmed(Url, text);
    PadTrim(Url, text);
  }

  lemma ClaimsTextIsBytes(claims: seq<Field>)
    requires ByteStrings(Obj(claims))
    ensures IsBytes(ClaimsText(claims))
  {
    hide PrintBare, ByteStrings;
    PrintIsBytes(Obj(claims), -1);
  }

  lemma ParseClaimsText(claims: seq<Field>)
    requires Proper(Obj(claims))
    ensures ParseClaims(ClaimsText(claims)) ==
      if FieldsFit(claims, 100) then Ok(claims) else Err(InvalidJson)
  {
    hide Read, Serialize, Proper;
    ReadSerialized(Obj(claims), false);
  }

  lemma {:induction false} FindDotAfter(a: string, rest: string)
    requires '.' !in a
    ensures FindDot(a + "." + rest) == |a|
  {
    if a == [] {
      assert a + "." + rest == "." + rest;
    } else {
      assert (a + "." + rest)[1..] == a[1..] + "." + rest;
      FindDotAfter(a[1..], rest);
    }
  }

  lemma SplitToken(a: string, b: string, c: string)
    requires '.' !in a && '.' !in b
    ensures DecodeToken(a + "." + b + "." + c) == DecodeParts(a, b, c)
  {
    hide FindDot, DecodeParts;
    var text := a + "." + b + "." + c;
    var rest := b + "." + c;
    assert text == a + "." + rest;
    FindDotAfter(a, rest);
    FindDotAfter(b, c);
    assert text[..|a|] == a && text[|a| + 1..] == rest;
    assert rest[..|b|] == b && rest[|b| + 1..] == c;
  }

  ghost predicate ProperClaims(claims: seq<Field>) {
    Proper(Obj(claims)) && ByteStrings(Obj(claims))
  }

  /** What a signed token decodes to. */
  function Signed(mac: Mac, secret: string, header: seq<Field>, payload: seq<Field>): Token {
    Token(EncodePart(ClaimsText(WithAlgorithm(header))), EncodePart(ClaimsText(payload)),
          mac(secret, SigningInput(header, payload)), WithAlgorithm(header), payload)
  }

  lemma WithAlgorithmIsProper(header: seq<Field>)
    requires ProperClaims(header)
    ensures ProperClaims(WithAlgorithm(header))
    ensures Lookup(WithAlgorithm(header), "alg") ==
      if Lookup(header, "alg").Claim? then Lookup(header, "alg") else Claim(Str(ALGORITHM))
    ensures forall name :: name != "alg" ==> Lookup(WithAlgorithm(header), name) == Lookup(header, name)
  {
    InsertIsProper(header, "alg", Str(ALGORITHM));
    forall name ensures Lookup(Insert(header, "alg", Str(ALGORITHM)), name)
        == if name == "alg" then Claim(Str(ALGORITHM)) else Lookup(header, name) {
      LookupInsert(header, "alg", Str(ALGORITHM), name);
    }
  }

  lemma InsertIsProper(claims: seq<Field>, key: string, v: Value)
    requires ProperClaims(claims) && IsBytes(key) && Proper(v) && ByteStrings(v)
    ensures ProperClaims(Insert(claims, key, v))
  {
    hide Ascending, Insert;
    InsertAscending(claims, key, v);
    var fields := Insert(claims, key, v);
    forall i | 0 <= i < |fields| ensures IsBytes(fields[i].key) && Proper(fields[i].val) && ByteStrings(fields[i].val) {
      InsertMembers(claims, key, v, fields[i]);
    }
  }

  /**
   * A signed token decodes, to the claims it was made of and the algorithm, if and only if header and payload keep to
   * the depth limit of the JSON reader.
   */
  lemma DecodeSigned(mac: Mac, secret: string, header: seq<Field>, payload: seq<Field>)
    requires ProperClaims(header) && ProperClaims(payload)
    requires IsBytes(mac(secret, SigningInput(header, payload)))
    ensures DecodeToken(Sign(mac, secret, header, payload)) ==
      if FieldsFit(WithAlgorithm(header), 100) && FieldsFit(payload, 100) then
        Ok(Signed(mac, secret, header, payload))
      else Err(InvalidJson)
  {
    hide DecodeToken, DecodePart, EncodePart, ParseClaims, ClaimsText, Proper, ByteStrings, WithAlgorithm, FieldsFit;
    var full := WithAlgorithm(header);
    WithAlgorithmIsProper(header);
    ClaimsTextIsBytes(full);
    ClaimsTextIsBytes(payload);
    PartRoundTrip(ClaimsText(full));
    PartRoundTrip(ClaimsText(payload));
    PartRoundTrip(mac(secret, SigningInput(header, payload)));
    ParseClaimsText(full);
    ParseClaimsText(payload);
    SplitToken(EncodePart(ClaimsText(full)), EncodePart(ClaimsText(payload)), EncodePart(mac(secret, SigningInput(header, payload))));
  }

  /* The tokens of the REST service */

  predicate Fits64(i: int) {
    -0x8000_0000_0000_0000 <= i <= 0x7FFF_FFFF_FFFF_FFFF
  }

  /** The claims that a token for a user is to have. */
  function UserClaim(name: string, user: string, group: string, issued: int, expires: int): Claim {
    if name == "iss" then Claim(Str("appmesh-auth0"))
    else if name == "iat" then Claim(Int(issued))
    else if name == "exp" then Claim(Int(expires))
    else if name == "name" then Claim(Str(user))
    else if name == "group" then Claim(Str(group))
    else NoClaim
  }

  function HeaderClaim(name: string): Claim {
    if name == "alg" then Claim(Str("HS256")) else if name == "typ" then Claim(Str("JWT")) else NoClaim
  }

  /** Exactly the claims that were set. */
  lemma UserClaimsAre(user: string, group: string, issued: int, expires: int, name: string)
    requires IsBytes(user) && IsBytes(group)
    requires Fits64(issued) && Fits64(expires)
    ensures ProperClaims(UserClaims(user, group, issued, expires))
    ensures Lookup(UserClaims(user, group, issued, expires), name) == UserClaim(name, user, group, issued, expires)
  {
    hide Insert, ProperClaims;
    var c1 := Insert([], "iss", Str(ISSUER));
    var c2 := Insert(c1, "iat", Int(issued));
    var c3 := Insert(c2, "exp", Int(expires));
    var c4 := Insert(c3, NAME, Str(user));
    NoClaimsAreProper();
    SetClaim([], "iss", Str(ISSUER), name);
    SetClaim(c1, "iat", Int(issued), name);
    SetClaim(c2, "exp", Int(expires), name);
    SetClaim(c3, NAME, Str(user), name);
    SetClaim(c4, GROUP, Str(group), name);
  }

  lemma NoClaimsAreProper()
    ensures ProperClaims([])
  {
  }

  lemma SetClaim(claims: seq<Field>, key: string, v: Value, name: string)
    requires ProperClaims(claims) && IsBytes(key) && Proper(v) && ByteStrings(v)
    ensures ProperClaims(Insert(claims, key, v))
    ensures Lookup(Insert(claims, key, v), name) == if name == key then Claim(v) else Lookup(claims, name)
  {
    hide Insert, ProperClaims;
    InsertIsProper(claims, key, v);
    LookupInsert(claims, key, v, name);
  }

  lemma FlatClaimsFit(claims: seq<Field>, n: nat)
    requires forall f :: f in claims ==> f.val.Str? || f.val.Int?
    ensures FieldsFit(claims, n)
  {
    forall i | 0 <= i < |claims| ensures Fits(claims[i].val, n) {
      assert claims[i] in claims;
    }
  }

  lemma UserClaimsFit(user: string, group: string, issued: int, expires: int)
    ensures FieldsFit(UserClaims(user, group, issued, expires), 100)
    ensures FieldsFit(WithAlgorithm(UserHeader()), 100)
  {
    hide Insert;
    var c1 := Insert([], "iss", Str(ISSUER));
    var c2 := Insert(c1, "iat", Int(issued));
    var c3 := Insert(c2, "exp", Int(expires));
    var c4 := Insert(c3, NAME, Str(user));
    forall f | f in UserClaims(user, group, issued, expires) ensures f.val.Str? || f.val.Int? {
      InsertIsFlat([], "iss", Str(ISSUER));
      InsertIsFlat(c1, "iat", Int(issued));
      InsertIsFlat(c2, "exp", Int(expires));
      InsertIsFlat(c3, NAME, Str(user));
      InsertIsFlat(c4, GROUP, Str(group));
    }
    FlatClaimsFit(UserClaims(user, group, issued, expires), 100);
    InsertIsFlat([], "typ", Str(TYPE));
    InsertIsFlat(UserHeader(), "alg", Str(ALGORITHM));
    FlatClaimsFit(WithAlgorithm(UserHeader()), 100);
  }

  ghost predicate Flat(claims: seq<Field>) {
    forall f :: f in claims ==> f.val.Str? || f.val.Int?
  }

  lemma InsertIsFlat(claims: seq<Field>, key: string, v: Value)
    requires Flat(claims) && (v.Str? || v.Int?)
    ensures Flat(Insert(claims, key, v))
  {
    forall f | f in Insert(claims, key, v) ensures f.val.Str? || f.val.Int? { InsertMembers(claims, key, v, f); }
  }

  lemma UserHeaderIs(name: string)
    ensures ProperClaims(UserHeader())
    ensures Lookup(WithAlgorithm(UserHeader()), name) == HeaderClaim(name)
  {
    hide Insert, ProperClaims, WithAlgorithm;
    NoClaimsAreProper();
    SetClaim([], "typ", Str(TYPE), name);
    SetClaim([], "typ", Str(TYPE), "alg");
    WithAlgorithmIsProper(UserHeader());
  }

  /* What the verifier accepts */

  /** Seconds whose nanoseconds a 64-bit number can count. */
  predicate Countable(seconds: int) {
    -0x8000_0000_0000_0000 <= seconds * 1_000_000_000 <= 0x7FFF_FFFF_FFFF_FFFF
  }

  /** A time of the clock. */
  predicate Timely(v: Value) {
    v.Int? && Countable(v.i)
  }

  /** What the verifier wants under a name; for a time that is its leeway in seconds. */
  function Wanted(claims: map<string, Value>, name: string): Claim {
    if name in claims then Claim(claims[name]) else NoClaim
  }

  function LeewaySeconds(leeway: Claim): int {
    if leeway.Claim? && leeway.val.Int? then leeway.val.i else 0
  }

  /**
   * Whether a claim is a time that, with its leeway, `now` must not be after, or before. An absent claim asks for nothing;
   * one that is there must be a time of the clock, and so must its leeway and the stretched time.
   */
  predicate NotAfter(c: Claim, leeway: Claim, now: Instant) {
    c.Claim? ==>
      && Timely(c.val) && (leeway.Claim? ==> Timely(leeway.val))
      && Countable(c.val.i + LeewaySeconds(leeway)) && now <= (c.val.i + LeewaySeconds(leeway)) * 1_000_000_000
  }

  predicate NotBefore(c: Claim, leeway: Claim, now: Instant) {
    c.Claim? ==>
      && Timely(c.val) && (leeway.Claim? ==> Timely(leeway.val))
      && Countable(c.val.i - LeewaySeconds(leeway)) && (c.val.i - LeewaySeconds(leeway)) * 1_000_000_000 <= now
  }

  predicate InWindow(claims: map<string, Value>, payload: seq<Field>, now: Instant) {
    && NotAfter(Lookup(payload, "exp"), Wanted(claims, "exp"), now)
    && NotBefore(Lookup(payload, "iat"), Wanted(claims, "iat"), now)
    && NotBefore(Lookup(payload, "nbf"), Wanted(claims, "nbf"), now)
  }

  lemma WholeSeconds(i: int)
    ensures ToSeconds(i * SECOND) == i
  {
  }

  lemma LeewayIs(claims: map<string, Value>, name: string)
    ensures var c := Wanted(claims, name);
      Leeway(claims, name) ==
        if c.NoClaim? then Ok(0) else if !c.val.Int? then Err(BadClaim)
        else if Timely(c.val) then Ok(LeewaySeconds(c) * SECOND) else Err(ClockOverflow)
  {
    hide ToSeconds;
    if name in claims && claims[name].Int? { WholeSeconds(claims[name].i); }
  }

  lemma CheckExpiryAccepts(claims: map<string, Value>, payload: seq<Field>, now: Instant)
    ensures CheckExpiry(claims, payload, now).Ok? <==> NotAfter(Lookup(payload, "exp"), Wanted(claims, "exp"), now)
  {
    hide Lookup, Leeway, Wanted;
    LeewayIs(claims, "exp");
  }

  lemma CheckStartAccepts(claims: map<string, Value>, payload: seq<Field>, name: string, now: Instant)
    ensures CheckStart(claims, payload, name, now).Ok? <==> NotBefore(Lookup(payload, name), Wanted(claims, name), now)
  {
    hide Lookup, Leeway, Wanted;
    LeewayIs(claims, name);
  }

  lemma CheckTimesAccepts(claims: map<string, Value>, payload: seq<Field>, now: Instant)
    ensures CheckTimes(claims, payload, now).Ok? <==> InWindow(claims, payload, now)
  {
    hide Lookup, CheckExpiry, CheckStart, NotAfter, NotBefore, Wanted;
    CheckExpiryAccepts(claims, payload, now);
    CheckStartAccepts(claims, payload, "iat", now);
    CheckStartAccepts(claims, payload, "nbf", now);
  }

  predicate IsAudience(v: Value) {
    v.Str? || (v.Arr? && AllStrings(v.items))
  }

  /** A string is the set of itself. */
  function AudienceNames(v: Value): set<string>
    requires IsAudience(v)
  {
    if v.Str? then {v.s} else StringsIn(v.items)
  }

  function StringsIn(items: seq<Value>): set<string> {
    set v | v in items && v.Str? :: v.s
  }

  lemma StringSetIs(items: seq<Value>)
    requires AllStrings(items)
    ensures StringSet(items) == StringsIn(items)
  {
    forall s | s in StringSet(items) ensures s in StringsIn(items) {
      var i :| 0 <= i < |items| && items[i].s == s;
      assert items[i] in items;
    }
    forall s | s in StringsIn(items) ensures s in StringSet(items) {
      var v :| v in items && v.Str? && v.s == s;
      var i :| 0 <= i < |items| && items[i] == v;
    }
  }

  /** Whether the token holds what the verifier wants; null, boolean and double claims are never met. */
  predicate Holds(payload: seq<Field>, name: string, c: Value) {
    var found := Lookup(payload, name);
    if name == "exp" || name == "iat" || name == "nbf" then true
    else if found.NoClaim? then false
    else if name == "aud" then
      IsAudience(found.val) && IsAudience(c) && AudienceNames(c) <= AudienceNames(found.val)
    else
      match (found.val, c)
      case (Int(i), Int(j)) => i == j && Countable(i)
      case (Str(s), Str(t)) => s == t
      case (Arr(xs), Arr(ys)) => AllStrings(xs) && AllStrings(ys) && StringsIn(xs) == StringsIn(ys)
      case (Obj(_), Obj(_)) => Serialize(found.val, false) == Serialize(c, false)
      case _ => false
  }

  lemma CheckClaimHolds(payload: seq<Field>, name: string, c: Value)
    ensures CheckClaim(payload, name, c).Ok? <==> Holds(payload, name, c)
  {
    hide Lookup, Serialize, StringSet, StringsIn, AllStrings;
    var found := Lookup(payload, name);
    if found.Claim? && found.val.Arr? && AllStrings(found.val.items) { StringSetIs(found.val.items); }
    if c.Arr? && AllStrings(c.items) { StringSetIs(c.items); }
  }

  /** What a claim is compared as. */
  predicate SameKind(v: Value, w: Value) {
    || (v.Int? && w.Int?) || (v.Str? && w.Str?) || (v.Arr? && w.Arr?)
    || (v.Obj? && w.Obj?) || (v.Bool? && w.Bool?) || (v.Number? && w.Number?)
  }

  /** Which exception is thrown for a wanted claim that is compared for equality and not met. */
  lemma CheckEqualThrows(payload: seq<Field>, name: string, c: Value)
    ensures var (found, r) := (Lookup(payload, name), CheckEqual(payload, name, c));
      if found.NoClaim? then r == Err(MissingClaim)
      else if found.val.Null? || c.Null? || (found.val.Bool? && c.Bool?) || (found.val.Number? && c.Number?) then r == Err(LogicError)
      else if !SameKind(found.val, c) then r == Err(ClaimTypeMismatch)
      else if found.val.Int? && !(Countable(c.i) && Countable(found.val.i)) then r == Err(ClockOverflow)
      else if found.val.Arr? && !(AllStrings(c.items) && AllStrings(found.val.items)) then r == Err(BadClaim)
      else r == Ok(()) || r == Err(ClaimValueMismatch)
  {
    hide Lookup, Serialize, StringSet, AllStrings;
  }

  lemma {:induction false} CheckClaimsHold(order: seq<string>, claims: map<string, Value>, payload: seq<Field>)
    requires forall name :: name in order ==> name in claims
    ensures CheckClaims(order, claims, payload).Ok? <==> forall name :: name in order ==> Holds(payload, name, claims[name])
  {
    hide CheckClaim, Holds;
    if order != [] {
      CheckClaimHolds(payload, order[0], claims[order[0]]);
      CheckClaimsHold(order[1..], claims, payload);
      assert forall name :: name in order <==> name == order[0] || name in order[1..];
    }
  }

  /**
   * Whatever the verifier wants, and in whatever order the hash table is walked: a token passes exactly when algorithm and
   * code are right, the time lies in its stretched window, and it holds every claim that is wanted.
   */
  lemma VerifyAccepts(mac: Mac, secret: string, claims: map<string, Value>, order: seq<string>, token: Token, now: Instant)
    requires IsOrder(order, claims.Keys)
    ensures Verify(mac, secret, claims, order, token, now).Ok? <==>
      && Lookup(token.header, "alg") == Claim(Str("HS256"))
      && token.signature == mac(secret, token.header64 + "." + token.payload64)
      && InWindow(claims, token.payload, now)
      && forall name :: name in claims ==> Holds(token.payload, name, claims[name])
  {
    hide Lookup, CheckTimes, CheckClaims, Holds, InWindow;
    CheckTimesAccepts(claims, token.payload, now);
    CheckClaimsHold(order, claims, token.payload);
    assert forall name :: name in order <==> name in claims;
  }

  /** What is asked of a token for it to be accepted. */
  predicate Acceptable(mac: Mac, salt: string, users: map<string, User>, token: Token, user: string, group: string,
                       now: Instant) {
    && Lookup(token.payload, "name") == Claim(Str(user)) && Lookup(token.payload, "group") == Claim(Str(group))
    && user in users && !users[user].locked
    && Lookup(token.header, "alg") == Claim(Str("HS256")) && Lookup(token.payload, "iss") == Claim(Str("appmesh-auth0"))
    && token.signature == mac(salt, token.header64 + "." + token.payload64)
    && InWindow(map[], token.payload, now)
  }

  /** For any text whatsoever: it is accepted, for a user and a group, exactly when it decodes to an acceptable token. */
  lemma VerifyTokenAccepts(mac: Mac, salt: string, users: map<string, User>, order: seq<string>, text: string, user: string,
                           group: string, now: Instant)
    requires IsOrder(order, REQUIRED)
    ensures VerifyToken(mac, salt, users, order, text, now) == Ok((user, group)) <==>
      DecodeToken(text).Ok? && Acceptable(mac, salt, users, DecodeToken(text).value, user, group, now)
  {
    hide DecodeToken, Lookup, Verify, InWindow, IsOrder;
    if DecodeToken(text).Ok? {
      var token := DecodeToken(text).value;
      if Lookup(token.payload, NAME) == Claim(Str(user)) && Lookup(token.payload, GROUP) == Claim(Str(group)) {
        VerifyAccepts(mac, salt, RequiredClaims(user, Str(group)), order, token, now);
        RequiredAre(token.payload, user, group, now);
      }
    }
  }

  lemma RequiredAre(payload: seq<Field>, user: string, group: string, now: Instant)
    requires Lookup(payload, NAME) == Claim(Str(user)) && Lookup(payload, GROUP) == Claim(Str(group))
    ensures var claims := RequiredClaims(user, Str(group));
      && ((forall name :: name in claims ==> Holds(payload, name, claims[name])) <==> Lookup(payload, "iss") == Claim(Str(ISSUER)))
      && (InWindow(claims, payload, now) <==> InWindow(map[], payload, now))
  {
    hide Lookup;
    assert "iss" in RequiredClaims(user, Str(group));
  }

  /** What a token for a user decodes to: the claims that were set and the algorithm, and nothing else. */
  ghost predicate IsUserToken(token: Token, user: string, group: string, issued: int, expires: int) {
    && (forall name :: Lookup(token.payload, name) == UserClaim(name, user, group, issued, expires))
    && (forall name :: Lookup(token.header, name) == HeaderClaim(name))
  }

  lemma UserTokenIs(token: Token, user: string, group: string, issued: int, expires: int)
    requires IsBytes(user) && IsBytes(group)
    requires Fits64(issued) && Fits64(expires)
    requires token.payload == UserClaims(user, group, issued, expires) && token.header == WithAlgorithm(UserHeader())
    ensures IsUserToken(token, user, group, issued, expires)
    ensures ProperClaims(token.payload) && ProperClaims(UserHeader())
  {
    hide Lookup, UserClaims, UserHeader, WithAlgorithm, UserClaim, HeaderClaim;
    forall name ensures Lookup(token.payload, name) == UserClaim(name, user, group, issued, expires) {
      UserClaimsAre(user, group, issued, expires, name);
    }
    forall name ensures Lookup(token.header, name) == HeaderClaim(name) {
      UserHeaderIs(name);
    }
    UserClaimsAre(user, group, issued, expires, NAME);
    UserHeaderIs(NAME);
  }

  /** The second that a time in nanoseconds is in, or on the side of zero of it before the epoch. */
  function SecondOf(t: Instant): int {
    if t >= 0 then t / 1_000_000_000 else -((-t) / 1_000_000_000)
  }

  lemma SecondsAre(t: Instant)
    ensures ToSeconds(t) == SecondOf(t)
    ensures InClock(t) <==> Fits64(t)
  {
  }

  /** A created token decodes to exactly the claims set for the user, and to its signature. */
  lemma TokenRoundTrip(mac: Mac, salt: string, user: string, group: string, timeout: int, now: Instant, later: Instant)
    requires user != "" && IsBytes(user) && IsBytes(group)
    requires Fits64(now) && Fits64(later + timeout * 1_000_000_000)
    requires forall key, data :: IsBytes(mac(key, data))
    ensures var created := CreateToken(mac, salt, user, group, timeout, now, later);
      && created.Ok? && DecodeToken(created.value).Ok?
      && var token := DecodeToken(created.value).value;
      && IsUserToken(token, user, group, SecondOf(now), SecondOf(later + timeout * 1_000_000_000))
      && token.signature == mac(salt, token.header64 + "." + token.payload64)
  {
    hide DecodeToken, Sign, SigningInput, UserClaims, UserHeader, WithAlgorithm, EncodePart, FieldsFit, IsUserToken, ToSeconds,
      SecondOf, ProperClaims;
    var (issued, expires) := (ToSeconds(now), ToSeconds(later + timeout * SECOND));
    SecondsAre(now);
    SecondsAre(later + timeout * SECOND);
    SecondsInClock(now);
    SecondsInClock(later + timeout * SECOND);
    var payload := UserClaims(user, group, issued, expires);
    UserTokenIs(Signed(mac, salt, UserHeader(), payload), user, group, issued, expires);
    UserClaimsFit(user, group, issued, expires);
    DecodeSigned(mac, salt, UserHeader(), payload);
    SignedInput(mac, salt, UserHeader(), payload);
  }

  lemma SignedInput(mac: Mac, secret: string, header: seq<Field>, payload: seq<Field>)
    ensures var token := Signed(mac, secret, header, payload);
      token.signature == mac(secret, token.header64 + "." + token.payload64)
  {
    hide EncodePart, ClaimsText, WithAlgorithm;
  }

  lemma SecondsInClock(t: Instant)
    requires InClock(t)
    ensures MIN_INT64 <= ToSeconds(t) <= MAX_INT64 && InClock(ToSeconds(t) * SECOND)
  {
  }

  /**
   * With the salt that signed it, a token is accepted at a time if and only if its user exists and is not locked, and
   * the time lies between the second of issue and the second of expiry; it then gives back user and group. With another
   * salt the same holds, provided the two salts give the same code.
   */
  lemma TokenAcceptance(mac: Mac, salt: string, otherSalt: string, users: map<string, User>, order: seq<string>,
                        user: string, group: string, timeout: int, now: Instant, later: Instant, t: Instant)
    requires IsOrder(order, REQUIRED)
    requires user != "" && IsBytes(user) && IsBytes(group)
    requires Fits64(now) && Fits64(later + timeout * 1_000_000_000)
    requires forall key, data :: IsBytes(mac(key, data))
    ensures var created := CreateToken(mac, salt, user, group, timeout, now, later);
      && created.Ok?
      && (VerifyToken(mac, salt, users, order, created.value, t) == Ok((user, group)) <==>
            user in users && !users[user].locked
            && SecondOf(now) * 1_000_000_000 <= t <= SecondOf(later + timeout * 1_000_000_000) * 1_000_000_000)
      && var token := DecodeToken(created.value);
      && token.Ok?
      && var input := token.value.header64 + "." + token.value.payload64;
      && (VerifyToken(mac, otherSalt, users, order, created.value, t) == Ok((user, group)) <==>
            VerifyToken(mac, salt, users, order, created.value, t) == Ok((user, group)) && mac(otherSalt, input) == mac(salt, input))
  {
    hide CreateToken, DecodeToken, VerifyToken, Lookup;
    TokenRoundTrip(mac, salt, user, group, timeout, now, later);
    var text := CreateToken(mac, salt, user, group, timeout, now, later).value;
    VerifyTokenAccepts(mac, salt, users, order, text, user, group, t);
    VerifyTokenAccepts(mac, otherSalt, users, order, text, user, group, t);
  }

  /** A token for a user is accepted for no other user or group. */
  lemma TokenNamesItsUser(mac: Mac, salt: string, users: map<string, User>, order: seq<string>, user: string, group: string,
                          timeout: int, now: Instant, later: Instant, t: Instant, someone: string, some: string)
    requires IsOrder(order, REQUIRED)
    requires user != "" && IsBytes(user) && IsBytes(group)
    requires Fits64(now) && Fits64(later + timeout * 1_000_000_000)
    requires forall key, data :: IsBytes(mac(key, data))
    ensures var created := CreateToken(mac, salt, user, group, timeout, now, later);
      created.Ok? && (VerifyToken(mac, salt, users, order, created.value, t) == Ok((someone, some)) ==> someone == user && some == group)
  {
    hide CreateToken, DecodeToken, VerifyToken, Lookup;
    TokenRoundTrip(mac, salt, user, group, timeout, now, later);
    VerifyTokenAccepts(mac, salt, users, order, CreateToken(mac, salt, user, group, timeout, now, later).value, someone, some, t);
  }

  /**
   * A claim of expiry beyond the clock is never met, however early it is asked: counting it in nanoseconds overflows. Ten
   * billion seconds after the epoch, in the year 2286, is such a time.
   */
  lemma FarExpiry(mac: Mac, salt: string, users: map<string, User>, order: seq<string>, user: string, group: string,
                  issued: int, expires: int, t: Instant)
    requires IsOrder(order, REQUIRED)
    requires IsBytes(user) && IsBytes(group) && user in users && !users[user].locked
    requires Fits64(issued) && Fits64(expires) && !Countable(expires)
    requires forall key, data :: IsBytes(mac(key, data))
    ensures var text := Sign(mac, salt, UserHeader(), UserClaims(user, group, issued, expires));
      VerifyToken(mac, salt, users, order, text, t) == Err(ClockOverflow)
    ensures !Countable(10_000_000_000)
  {
    hide DecodeToken, Lookup, Sign, UserClaims, UserHeader, WithAlgorithm, FieldsFit, ProperClaims, IsOrder, SigningInput,
      EncodePart, Verify, IsUserToken;
    var payload := UserClaims(user, group, issued, expires);
    var token := Signed(mac, salt, UserHeader(), payload);
    UserTokenIs(token, user, group, issued, expires);
    UserClaimsFit(user, group, issued, expires);
    DecodeSigned(mac, salt, UserHeader(), payload);
    SignedInput(mac, salt, UserHeader(), payload);
    FarTokenFails(mac, salt, order, token, user, group, issued, expires, t);
  }

  lemma FarTokenFails(mac: Mac, salt: string, order: seq<string>, token: Token, user: string, group: string, issued: int,
                      expires: int, t: Instant)
    requires IsOrder(order, REQUIRED) && !Countable(expires)
    requires IsUserToken(token, user, group, issued, expires)
    requires token.signature == mac(salt, token.header64 + "." + token.payload64)
    ensures Lookup(token.payload, NAME) == Claim(Str(user)) && Lookup(token.payload, GROUP) == Claim(Str(group))
    ensures Verify(mac, salt, RequiredClaims(user, Str(group)), order, token, t) == Err(ClockOverflow)
  {
    hide Lookup, IsOrder, CheckClaims;
    assert Lookup(token.payload, "exp") == Claim(Int(expires));
  }

  /* Refusals */

  /** What a token is refused with, of the checks in their order; of the times only where all can be told. */
  lemma VerifyThrows(mac: Mac, secret: string, claims: map<string, Value>, order: seq<string>, token: Token, now: Instant)
    requires IsOrder(order, claims.Keys)
    ensures var (alg, r) := (Lookup(token.header, "alg"), Verify(mac, secret, claims, order, token, now));
      && (alg.NoClaim? || !alg.val.Str? ==> r == Err(BadClaim))
      && (alg.Claim? && alg.val.Str? && alg.val.s != "HS256" ==> r == Err(WrongAlgorithm))
      && (alg == Claim(Str("HS256")) && token.signature != mac(secret, token.header64 + "." + token.payload64) ==>
            r == Err(InvalidSignature))
    ensures Lookup(token.header, "alg") == Claim(Str("HS256"))
      && token.signature == mac(secret, token.header64 + "." + token.payload64)
      && CanTellAll(claims, token.payload) && !InWindow(claims, token.payload, now)
      ==> Verify(mac, secret, claims, order, token, now) == Err(TokenExpired)
  {
    hide Lookup, CheckClaims, CheckTimes, IsOrder, CanTellAll, InWindow;
    if CanTellAll(claims, token.payload) { CheckTimesThrows(claims, token.payload, now); }
  }

  predicate CanTellAll(claims: map<string, Value>, payload: seq<Field>) {
    CanTell(claims, payload, "exp") && CanTell(claims, payload, "iat") && CanTell(claims, payload, "nbf")
  }

  /** A claim that is not there, or a time that, like its leeway and both ends of it, the clock can count. */
  predicate CanTell(claims: map<string, Value>, payload: seq<Field>, name: string) {
    var (c, leeway) := (Lookup(payload, name), Wanted(claims, name));
    c.Claim? ==>
      && Timely(c.val) && (leeway.Claim? ==> Timely(leeway.val))
      && Countable(c.val.i + LeewaySeconds(leeway)) && Countable(c.val.i - LeewaySeconds(leeway))
  }

  lemma CheckTimesThrows(claims: map<string, Value>, payload: seq<Field>, now: Instant)
    requires CanTellAll(claims, payload)
    ensures !InWindow(claims, payload, now) ==> CheckTimes(claims, payload, now) == Err(TokenExpired)
  {
    hide CheckExpiry, CheckStart, NotAfter, NotBefore, Lookup, Wanted, CanTell;
    CheckExpiryThrows(claims, payload, now);
    CheckStartThrows(claims, payload, "iat", now);
    CheckStartThrows(claims, payload, "nbf", now);
  }

  lemma CheckExpiryThrows(claims: map<string, Value>, payload: seq<Field>, now: Instant)
    requires CanTell(claims, payload, "exp")
    ensures CheckExpiry(claims, payload, now) ==
      if NotAfter(Lookup(payload, "exp"), Wanted(claims, "exp"), now) then Ok(()) else Err(TokenExpired)
  {
    hide Lookup, Leeway, Wanted;
    LeewayIs(claims, "exp");
  }

  lemma CheckStartThrows(claims: map<string, Value>, payload: seq<Field>, name: string, now: Instant)
    requires CanTell(claims, payload, name)
    ensures CheckStart(claims, payload, name, now) ==
      if NotBefore(Lookup(payload, name), Wanted(claims, name), now) then Ok(()) else Err(TokenExpired)
  {
    hide Lookup, Leeway, Wanted;
    LeewayIs(claims, name);
  }

  /** Who is refused before the token is verified: a token that names no account, or a locked one. */
  lemma VerifyTokenThrows(mac: Mac, salt: string, users: map<string, User>, order: seq<string>, text: string, now: Instant)
    requires IsOrder(order, REQUIRED)
    ensures var (token, r) := (DecodeToken(text), VerifyToken(mac, salt, users, order, text, now));
      && (token.Err? ==> r == Err(token.error))
      && (token.Ok? ==>
            var name := Lookup(token.value.payload, "name");
            && (name.NoClaim? ==> r == Err(NoUserName))
            && (name.Claim? && !name.val.Str? ==> r == Err(BadClaim))
            && (name.Claim? && name.val.Str? && name.val.s !in users ==> r == Err(UnknownUser))
            && (name.Claim? && name.val.Str? && name.val.s in users && users[name.val.s].locked ==> r == Err(UserLocked)))
    ensures CreateToken(mac, salt, "", text, 0, now, now) == Err(NoUserName)
  {
    hide DecodeToken, Lookup, Verify, IsOrder, Sign;
  }

  /** Text that is not three parts is no token; of three parts the first that is bad says how. */
  lemma DecodeThrows(a: string, b: string, c: string)
    requires '.' !in a && '.' !in b
    ensures DecodeToken(a) == Err(InvalidToken) && DecodeToken(a + "." + b) == Err(InvalidToken)
    ensures DecodePart(a).Err? || DecodePart(b).Err? || DecodePart(c).Err? ==> DecodeToken(a + "." + b + "." + c) == Err(InvalidBase64)
    ensures DecodePart(a).Ok? && DecodePart(b).Ok? && DecodePart(c).Ok? ==>
      var (header, payload) := (Read(DecodePart(a).value), Read(DecodePart(b).value));
      && (header.Fail? ==> DecodeToken(a + "." + b + "." + c) == Err(InvalidJson))
      && (header.Done? && !header.value.Obj? ==> DecodeToken(a + "." + b + "." + c) == Err(NotAnObject))
      && (header.Done? && header.value.Obj? && payload.Fail? ==> DecodeToken(a + "." + b + "." + c) == Err(InvalidJson))
      && (header.Done? && header.value.Obj? && payload.Done? && !payload.value.Obj? ==>
            DecodeToken(a + "." + b + "." + c) == Err(NotAnObject))
  {
    hide Decode, Pad, Read, FindDot, DecodeToken;
    SplitToken(a, b, c);
    NotThree(a, b);
  }

  lemma NotThree(a: string, b: string)
    requires '.' !in a && '.' !in b
    ensures DecodeToken(a) == Err(InvalidToken) && DecodeToken(a + "." + b) == Err(InvalidToken)
  {
    hide FindDot, DecodeParts;
    NoDot(a);
    NoDot(b);
    FindDotAfter(a, b);
    assert (a + "." + b)[|a| + 1..] == b;
  }

  lemma {:induction false} NoDot(s: string)
    requires '.' !in s
    ensures FindDot(s) == |s|
  {
    if s != "" { NoDot(s[1..]); }
  }
}
