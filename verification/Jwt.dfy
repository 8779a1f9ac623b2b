/** JSON Web Tokens as jwt.h builds, splits and verifies them, signed with HMAC-SHA256. */
module Jwt {
  import opened Results
  import opened OrderedKeys
  import opened Json
  import opened Base64

  /** HMAC-SHA256 of a secret and some data: any function to bytes. */
  type Mac = (string, string) -> string

  /** Nanoseconds since the epoch, as `std::chrono::system_clock` counts them. */
  type Instant = int

  const SECOND := 1_000_000_000
  const ALGORITHM := "HS256"

  /** The times that a 64-bit count of nanoseconds can tell. */
  predicate InClock(t: Instant) {
    MIN_INT64 <= t <= MAX_INT64
  }

  /** `to_time_t`: truncated towards zero. */
  function ToSeconds(t: Instant): int {
    if t >= 0 then t / SECOND else -(-t / SECOND)
  }

  datatype Claim = NoClaim | Claim(val: Value)

  function Lookup(claims: seq<Field>, name: string): Claim {
    if claims == [] then NoClaim
    else if claims[0].key == name then Claim(claims[0].val)
    else Lookup(claims[1..], name)
  }

  /* Signing */

  function EncodePart(text: string): string {
    Trim(Url, Encode(Url, text))
  }

  function ClaimsText(claims: seq<Field>): string {
    Serialize(Obj(claims), false)
  }

  /** The algorithm is set unless the caller set one. */
  function WithAlgorithm(header: seq<Field>): seq<Field> {
    if Lookup(header, "alg").Claim? then header else Insert(header, "alg", Str(ALGORITHM))
  }

  /** Header and payload: the part of a token that is signed. */
  function SigningInput(header: seq<Field>, payload: seq<Field>): string {
    EncodePart(ClaimsText(WithAlgorithm(header))) + "." + EncodePart(ClaimsText(payload))
  }

  function Sign(mac: Mac, secret: string, header: seq<Field>, payload: seq<Field>): string {
    var input := SigningInput(header, payload);
    input + "." + EncodePart(mac(secret, input))
  }

  /* Decoding */

  /**
   * `BadClaim` is the exception for a claim that is not there or is of another type than the one asked for; `LogicError`
   * that for a type with no comparison; `ClockOverflow` a time that the clock cannot count, which C++ leaves undefined.
   */
  datatype Error =
    | InvalidToken | InvalidBase64 | InvalidJson | NotAnObject
    | BadClaim | LogicError | ClockOverflow
    | WrongAlgorithm | InvalidSignature | TokenExpired
    | MissingClaim | ClaimTypeMismatch | ClaimValueMismatch | AudienceMismatch
    | NoUserName | UnknownUser | UserLocked

  type Outcome<+T> = Result<T, Error>

  datatype Token = Token(header64: string, payload64: string, signature: string, header: seq<Field>, payload: seq<Field>)

  function DecodePart(text: string): Outcome<string> {
    match Decode(Url, Pad(Url, text))
    case Binary(data) => Ok(data)
    case Invalid => Err(InvalidBase64)
  }

  function ParseClaims(text: string): Outcome<seq<Field>> {
    match Read(text)
    case Fail => Err(InvalidJson)
    case Done(v, _) => if v.Obj? then Ok(v.fields) else Err(NotAnObject)
  }

  /** The place of the first dot; the length if there is none. */
  function FindDot(s: string): (i: nat)
    ensures i <= |s| && '.' !in s[..i] && (i < |s| ==> s[i] == '.')
  {
    if s == [] || s[0] == '.' then 0 else
      var i := FindDot(s[1..]);
      assert s[..1 + i] == [s[0]] + s[1..][..i];
      1 + i
  }

  function DecodeToken(text: string): Outcome<Token> {
    var i := FindDot(text);
    if i == |text| then Err(InvalidToken) else
      var rest := text[i + 1..];
      var j := FindDot(rest);
      if j == |rest| then Err(InvalidToken) else DecodeParts(text[..i], rest[..j], rest[j + 1..])
  }

  function DecodeParts(header64: string, payload64: string, signature64: string): Outcome<Token> {
    var headerText :- DecodePart(header64);
    var payloadText :- DecodePart(payload64);
    var signature :- DecodePart(signature64);
    var header :- ParseClaims(headerText);
    var payload :- ParseClaims(payloadText);
    Ok(Token(header64, payload64, signature, header, payload))
  }

  /* Verifying */

  /** `as_date`. */
  function AsDate(v: Value): Outcome<Instant> {
    if !v.Int? then Err(BadClaim)
    else if !InClock(v.i * SECOND) then Err(ClockOverflow)
    else Ok(v.i * SECOND)
  }

  /** How far `exp`, `iat` or `nbf` is stretched: a claim that the verifier wants under that name is the leeway. */
  function Leeway(claims: map<string, Value>, name: string): Outcome<Instant> {
    if name !in claims then Ok(0) else
      var date :- AsDate(claims[name]);
      Ok(ToSeconds(date) * SECOND)
  }

  function Stretched(claims: map<string, Value>, name: string, v: Value, later: bool): Outcome<Instant> {
    var leeway :- Leeway(claims, name);
    var date :- AsDate(v);
    var limit := if later then date + leeway else date - leeway;
    if InClock(limit) then Ok(limit) else Err(ClockOverflow)
  }

  function CheckExpiry(claims: map<string, Value>, payload: seq<Field>, now: Instant): Outcome<()> {
    var exp := Lookup(payload, "exp");
    if exp.NoClaim? then Ok(()) else
      var limit :- Stretched(claims, "exp", exp.val, true);
      if now > limit then Err(TokenExpired) else Ok(())
  }

  function CheckStart(claims: map<string, Value>, payload: seq<Field>, name: string, now: Instant): Outcome<()> {
    var start := Lookup(payload, name);
    if start.NoClaim? then Ok(()) else
      var limit :- Stretched(claims, name, start.val, false);
      if now < limit then Err(TokenExpired) else Ok(())
  }

  function CheckTimes(claims: map<string, Value>, payload: seq<Field>, now: Instant): Outcome<()> {
    var _ :- CheckExpiry(claims, payload, now);
    var _ :- CheckStart(claims, payload, "iat", now);
    CheckStart(claims, payload, "nbf", now)
  }

  predicate AllStrings(items: seq<Value>) {
    forall i :: 0 <= i < |items| ==> items[i].Str?
  }

  function StringSet(items: seq<Value>): set<string>
    requires AllStrings(items)
  {
    set i | 0 <= i < |items| :: items[i].s
  }

  /** `as_set`. */
  function AsSet(v: Value): Outcome<set<string>> {
    if v.Arr? && AllStrings(v.items) then Ok(StringSet(v.items)) else Err(BadClaim)
  }

  /** A string stands for the set of itself; the type of null cannot be asked for. */
  function AudienceOf(v: Value): Outcome<set<string>> {
    match v
    case Null => Err(LogicError)
    case Str(s) => Ok({s})
    case _ => AsSet(v)
  }

  function CheckAudience(payload: seq<Field>, c: Value): Outcome<()> {
    var found := Lookup(payload, "aud");
    if found.NoClaim? then Err(AudienceMismatch) else
      var audience :- AudienceOf(found.val);
      var expected :- AudienceOf(c);
      if expected <= audience then Ok(()) else Err(AudienceMismatch)
  }

  function Same(equal: bool): Outcome<()> {
    if equal then Ok(()) else Err(ClaimValueMismatch)
  }

  /** `assert_claim_eq`; there is no comparison for null, boolean and double claims. */
  function CheckEqual(payload: seq<Field>, name: string, c: Value): Outcome<()> {
    var found := Lookup(payload, name);
    if found.NoClaim? then Err(MissingClaim)
    else if found.val.Null? || c.Null? then Err(LogicError)
    else
      match (c, found.val)
      case (Int(_), Int(_)) =>
        var expected :- AsDate(c);
        var date :- AsDate(found.val);
        Same(expected == date)
      case (Arr(_), Arr(_)) =>
        var expected :- AsSet(c);
        var items :- AsSet(found.val);
        Same(expected == items)
      case (Obj(_), Obj(_)) => Same(Serialize(c, false) == Serialize(found.val, false))
      case (Str(s), Str(t)) => Same(s == t)
      case (Bool(_), Bool(_)) => Err(LogicError)
      case (Number(_), Number(_)) => Err(LogicError)
      case _ => Err(ClaimTypeMismatch)
  }

  function CheckClaim(payload: seq<Field>, name: string, c: Value): Outcome<()> {
    if name == "exp" || name == "iat" || name == "nbf" then Ok(())
    else if name == "aud" then CheckAudience(payload, c)
    else CheckEqual(payload, name, c)
  }

  /** Up to the first claim that is not met, in the order in which the hash table of the wanted claims is walked. */
  function CheckClaims(order: seq<string>, claims: map<string, Value>, payload: seq<Field>): Outcome<()>
    requires forall name :: name in order ==> name in claims
  {
    if order == [] then Ok(()) else
      var _ :- CheckClaim(payload, order[0], claims[order[0]]);
      CheckClaims(order[1..], claims, payload)
  }

  /** Some order of all the names. */
  predicate IsOrder(order: seq<string>, names: set<string>) {
    Elements(order) == names
  }

  function Verify(mac: Mac, secret: string, claims: map<string, Value>, order: seq<string>, token: Token, now: Instant)
    : Outcome<()>
    requires IsOrder(order, claims.Keys)
  {
    var alg := Lookup(token.header, "alg");
    if alg.NoClaim? || !alg.val.Str? then Err(BadClaim)
    else if alg.val.s != ALGORITHM then Err(WrongAlgorithm)
    else if mac(secret, token.header64 + "." + token.payload64) != token.signature then Err(InvalidSignature)
    else
      var _ :- CheckTimes(claims, token.payload, now);
      CheckClaims(order, claims, token.payload)
  }

  /* The tokens of the REST service */

  const ISSUER := "appmesh-auth0"
  const TYPE := "JWT"
  const NAME := "name"
  const GROUP := "group"

  function UserHeader(): seq<Field> {
    Insert([], "typ", Str(TYPE))
  }

  function UserClaims(user: string, group: string, issued: int, expires: int): seq<Field> {
    Insert(Insert(Insert(Insert(Insert([], "iss", Str(ISSUER)), "iat", Int(issued)), "exp", Int(expires)),
                  NAME, Str(user)), GROUP, Str(group))
  }

  /** The clock is read twice: for the time of issue, and for the time from which the timeout runs. */
  function CreateToken(mac: Mac, salt: string, user: string, group: string, timeoutSeconds: int,
                       now: Instant, later: Instant): Outcome<string> {
    if user == "" then Err(NoUserName)
    else Ok(Sign(mac, salt, UserHeader(), UserClaims(user, group, ToSeconds(now), ToSeconds(later + timeoutSeconds * SECOND))))
  }

  datatype User = User(locked: bool)

  /** The names of the claims that the service asks for. */
  const REQUIRED: set<string> := {"iss", NAME, GROUP}

  function RequiredClaims(user: string, group: Value): (claims: map<string, Value>)
    ensures claims.Keys == REQUIRED
  {
    map["iss" := Str(ISSUER), NAME := Str(user), GROUP := group]
  }

  /** `users` are the accounts; the result is the user and the group that the token names. */
  function VerifyToken(mac: Mac, salt: string, users: map<string, User>, order: seq<string>, text: string, now: Instant)
    : Outcome<(string, string)>
    requires IsOrder(order, REQUIRED)
  {
    var token :- DecodeToken(text);
    var name := Lookup(token.payload, NAME);
    if name.NoClaim? then Err(NoUserName)
    else if !name.val.Str? then Err(BadClaim)
    else if name.val.s !in users then Err(UnknownUser)
    else
      var group := Lookup(token.payload, GROUP);
      if users[name.val.s].locked then Err(UserLocked)
      else
        var wanted := if group.Claim? then group.val else Null;
        var _ :- Verify(mac, salt, RequiredClaims(name.val.s, wanted), order, token, now);
        if wanted.Str? then Ok((name.val.s, wanted.s)) else Err(BadClaim)
  }
}
