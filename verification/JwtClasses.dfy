/** The builder, the HMAC algorithm and the verifier of jwt.h, and the two functions of RestBase.cpp that use them. */
module JwtClasses {
  import opened Results
  import opened Json
  import opened Base64
  import opened Jwt
  import Base64Loops
  import JsonParser
  import JsonWriter

  method EncodeClaims(claims: seq<Field>) returns (part: string)
    ensures part == EncodePart(ClaimsText(claims))
  {
    var text := JsonWriter.SerializeValue(Obj(claims), false);
    part := EncodeTrimmed(text);
  }

  method EncodeTrimmed(text: string) returns (part: string)
    ensures part == EncodePart(text)
  {
    var encoded := Base64Loops.EncodeBinary(Url, text);
    part := Trim(Url, encoded);
  }

  method DecodePadded(part: string) returns (r: Outcome<string>)
    ensures r == DecodePart(part)
  {
    var decoded := Base64Loops.DecodeText(Url, Pad(Url, part));
    r := if decoded.Binary? then Ok(decoded.data) else Err(InvalidBase64);
  }

  /** `map_of_claims::parse_claims`. */
  method ParseClaimsOf(text: string) returns (r: Outcome<seq<Field>>)
    ensures r == ParseClaims(text)
  {
    var ok, v := JsonParser.ParseText(text);
    r := if !ok then Err(InvalidJson) else if v.Obj? then Ok(v.fields) else Err(NotAnObject);
  }

  /** The constructor of `decoded_jwt`. */
  method DecodeJwt(text: string) returns (r: Outcome<Token>)
    ensures r == DecodeToken(text)
  {
    hide DecodePart, ParseClaims;
    var headerEnd := FindDot(text);
    if headerEnd == |text| {
      return Err(InvalidToken);
    }
    var rest := text[headerEnd + 1..];
    var payloadEnd := FindDot(rest);
    if payloadEnd == |rest| {
      return Err(InvalidToken);
    }
    var header64, payload64 := text[..headerEnd], rest[..payloadEnd];
    var headerText :- DecodePadded(header64);
    var payloadText :- DecodePadded(payload64);
    var signature :- DecodePadded(rest[payloadEnd + 1..]);
    var header :- ParseClaimsOf(headerText);
    var payload :- ParseClaimsOf(payloadText);
    return Ok(Token(header64, payload64, signature, header, payload));
  }

  class HmacSha {
    const mac: Mac
    const secret: string

    constructor (mac: Mac, secret: string)
      ensures this.mac == mac && this.secret == secret
    {
      this.mac, this.secret := mac, secret;
    }

    method Sign(data: string) returns (signature: string)
      ensures signature == mac(secret, data)
    {
      signature := mac(secret, data);
    }

    /** Compares all of the shorter of the two codes, and their lengths. */
    method Verify(data: string, signature: string) returns (matched: bool)
      ensures matched <==> signature == mac(secret, data)
    {
      var res := Sign(data);
      matched := true;
      var i := 0;
      var n := if |res| < |signature| then |res| else |signature|;
      while i < n
        invariant 0 <= i <= n
        invariant matched <==> res[..i] == signature[..i]
      {
        assert res[..i + 1] == res[..i] + [res[i]] && signature[..i + 1] == signature[..i] + [signature[i]];
        if res[i] != signature[i] {
          matched := false;
        }
        i := i + 1;
      }
      if |res| != |signature| {
        matched := false;
      }
      assert res[..|res|] == res && signature[..|signature|] == signature;
    }
  }

  class Builder {
    var headerClaims: seq<Field>
    var payloadClaims: seq<Field>

    constructor ()
      ensures headerClaims == [] && payloadClaims == []
    {
      headerClaims, payloadClaims := [], [];
    }

    method SetHeaderClaim(id: string, c: Value)
      modifies this`headerClaims
      ensures headerClaims == Insert(old(headerClaims), id, c)
    {
      headerClaims := Insert(headerClaims, id, c);
    }

    method SetPayloadClaim(id: string, c: Value)
      modifies this`payloadClaims
      ensures payloadClaims == Insert(old(payloadClaims), id, c)
    {
      payloadClaims := Insert(payloadClaims, id, c);
    }

    /** Signs a copy of the header, so that the builder can be used again. */
    method SignWith(algo: HmacSha) returns (token: string)
      ensures token == Sign(algo.mac, algo.secret, headerClaims, payloadClaims)
    {
      var header := headerClaims;
      if Lookup(headerClaims, "alg").NoClaim? {
        header := Insert(header, "alg", Str(ALGORITHM));
      }
      var header64 := EncodeClaims(header);
      var payload64 := EncodeClaims(payloadClaims);
      token := header64 + "." + payload64;
      var signature := algo.Sign(token);
      var signature64 := EncodeTrimmed(signature);
      token := token + "." + signature64;
    }
  }

  class Verifier {
    var claims: map<string, Value>
    const algorithm: HmacSha

    constructor (algorithm: HmacSha)
      ensures this.algorithm == algorithm && claims == map[]
    {
      this.algorithm, claims := algorithm, map[];
    }

    method WithClaim(name: string, c: Value)
      modifies this`claims
      ensures claims == old(claims)[name := c]
    {
      claims := claims[name := c];
    }

    /** `order` is the order in which the hash table of the claims is walked. */
    method VerifyDecoded(jwt: Token, order: seq<string>, now: Instant) returns (r: Outcome<()>)
      requires IsOrder(order, claims.Keys)
      ensures r == Verify(algorithm.mac, algorithm.secret, claims, order, jwt, now)
    {
      hide Lookup, CheckClaim, CheckExpiry, CheckStart;
      var alg := Lookup(jwt.header, "alg");
      if alg.NoClaim? || !alg.val.Str? {
        return Err(BadClaim);
      }
      if alg.val.s != ALGORITHM {
        return Err(WrongAlgorithm);
      }
      var matched := algorithm.Verify(jwt.header64 + "." + jwt.payload64, jwt.signature);
      if !matched {
        return Err(InvalidSignature);
      }
      var _ :- CheckExpiry(claims, jwt.payload, now);
      var _ :- CheckStart(claims, jwt.payload, "iat", now);
      var _ :- CheckStart(claims, jwt.payload, "nbf", now);
      r := WalkClaims(jwt.payload, order);
    }

    /** The loop over the wanted claims. */
    method WalkClaims(payload: seq<Field>, order: seq<string>) returns (r: Outcome<()>)
      requires forall name :: name in order ==> name in claims
      ensures r == CheckClaims(order, claims, payload)
    {
      hide CheckClaim;
      var i := 0;
      while i < |order|
        invariant 0 <= i <= |order|
        invariant CheckClaims(order, claims, payload) == CheckClaims(order[i..], claims, payload)
      {
        var name := order[i];
        r := CheckClaim(payload, name, claims[name]);
        if r.Err? {
          return;
        }
        assert order[i..][1..] == order[i + 1..];
        i := i + 1;
      }
      return Ok(());
    }
  }

  /** `RestBase::createJwtToken`. */
  method CreateJwtToken(mac: Mac, salt: string, user: string, group: string, timeoutSeconds: int, now: Instant, later: Instant)
    returns (r: Outcome<string>)
    ensures r == CreateToken(mac, salt, user, group, timeoutSeconds, now, later)
  {
    hide Insert, Sign;
    if user == "" {
      return Err(NoUserName);
    }
    var builder := new Builder();
    builder.SetPayloadClaim("iss", Str(ISSUER));
    builder.SetHeaderClaim("typ", Str(TYPE));
    builder.SetPayloadClaim("iat", Int(ToSeconds(now)));
    builder.SetPayloadClaim("exp", Int(ToSeconds(later + timeoutSeconds * SECOND)));
    builder.SetPayloadClaim(NAME, Str(user));
    builder.SetPayloadClaim(GROUP, Str(group));
    var algorithm := new HmacSha(mac, salt);
    var token := builder.SignWith(algorithm);
    return Ok(token);
  }

  /** `RestBase::verifyToken`, from the text of the token on. */
  method VerifyJwtToken(mac: Mac, salt: string, users: map<string, User>, order: seq<string>, text: string, now: Instant)
    returns (r: Outcome<(string, string)>)
    requires IsOrder(order, REQUIRED)
    ensures r == VerifyToken(mac, salt, users, order, text, now)
  {
    hide Lookup, Verify, DecodeToken;
    var decoded := DecodeJwt(text);
    if decoded.Err? {
      return Err(decoded.error);
    }
    var name := Lookup(decoded.value.payload, NAME);
    if name.NoClaim? {
      return Err(NoUserName);
    }
    if !name.val.Str? {
      return Err(BadClaim);
    }
    var userName := name.val.s;
    if userName !in users {
      return Err(UnknownUser);
    }
    var userGroup := Null;
    var group := Lookup(decoded.value.payload, GROUP);
    if group.Claim? {
      userGroup := group.val;
    }
    if users[userName].locked {
      return Err(UserLocked);
    }
    var algorithm := new HmacSha(mac, salt);
    var verifier := new Verifier(algorithm);
    verifier.WithClaim("iss", Str(ISSUER));
    verifier.WithClaim(NAME, Str(userName));
    verifier.WithClaim(GROUP, userGroup);
    assert verifier.claims == RequiredClaims(userName, userGroup);
    var verified := verifier.VerifyDecoded(decoded.value, order, now);
    if verified.Err? {
      return Err(verified.error);
    }
    if !userGroup.Str? {
      return Err(BadClaim);
    }
    return Ok((userName, userGroup.s));
  }
}
