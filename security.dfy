/** backend/app/auth/security.py: the password hasher and the access token.
    bcrypt and the JWT library are parameters: a `Hasher` and a `JwtCodec` record of
    functions, with ghost predicates stating what the service relies on them for.
    Tokens are JWTs (RFC 7519) signed with HMAC SHA-256, "HS256" (section 3.2 of RFC 7518). */
module Security {
  import opened Wrappers
  import opened PyText
  import opened PyValues

  const Algorithm: string := "HS256"
  const DefaultSecret: string := "your-super-secret-key-change-in-production"
  /** Lifetime used when `expires_delta` is missing or zero: 15 minutes. */
  const DefaultLifetime: int := 15 * 60

  /** `os.getenv("AUTH_SECRET", DefaultSecret)`, read by both encode and decode. */
  function SecretKey(env: Option<string>): string
  {
    if env.Some? then env.value else DefaultSecret
  }

  // ---------------------------------------------------------------- Hasher

  /** `Hasher.get_password_hash` and `Hasher.verify_password`. */
  datatype Hasher = Hasher(hash: string -> string, verify: (string, string) -> bool)

  /** A hash differs from its password, verifies against it, and against no other. */
  ghost predicate SoundHasher(h: Hasher)
  {
    && (forall p :: h.hash(p) != p)
    && (forall p :: h.verify(p, h.hash(p)))
    && (forall p, q :: q != p ==> !h.verify(q, h.hash(p)))
  }

  /** The hasher contract can be met (the model's assumptions about bcrypt are consistent). */
  lemma SoundHasherExists()
    ensures exists h :: SoundHasher(h)
  {
    var h := Hasher(p => "$" + p, (q, hashed) => hashed == "$" + q);
    forall p, q | q != p
      ensures !h.verify(q, h.hash(p))
    {
      assert ("$" + q)[1..] == q && ("$" + p)[1..] == p;
    }
    assert SoundHasher(h);
  }

  // ---------------------------------------------------------------- JWT

  /** A JWS in compact serialisation: non-empty, base64url parts joined by dots, so it holds
      no whitespace. */
  predicate CompactToken(t: string)
  {
    |t| > 0 && forall i :: 0 <= i < |t| ==> !IsSpace(t[i])
  }

  /** `jwt.encode(claims, key, algorithm)` and the signature/format part of
      `jwt.decode(token, key, algorithms=[algorithm])`. */
  datatype JwtCodec = JwtCodec(
    sign: (Dict, string, string) -> string,
    verify: (string, string, string) -> Option<Dict>)

  /** Decoding with the signing key returns the claims, with any other key fails, and
      tokens are compact. */
  ghost predicate SoundCodec(c: JwtCodec)
  {
    && (forall claims, key, alg :: c.verify(c.sign(claims, key, alg), key, alg) == Some(claims))
    && (forall claims, key, other, alg :: other != key ==> c.verify(c.sign(claims, key, alg), other, alg) == None)
    && (forall claims, key, alg :: CompactToken(c.sign(claims, key, alg)))
  }

  /** The `exp` claim check (section 4.1.4 of RFC 7519): a token is accepted only before
      its expiration time; an `exp` that is not a number makes it invalid. */
  datatype ExpiryStatus = Live | Expired | BadExp

  function ExpiryOf(claims: Dict, now: int): ExpiryStatus
  {
    if "exp" !in claims then Live
    else
      match claims["exp"]
      case VInt(e) => if now >= e then Expired else Live
      case _ => BadExp
  }

  /** `utcnow() + expires_delta` when `expires_delta` is truthy (present and non-zero),
      else `utcnow() + 15 minutes`. */
  function ExpiryTime(expiresDelta: Option<int>, now: int): int
  {
    if expiresDelta.Some? && expiresDelta.value != 0 then now + expiresDelta.value
    else now + DefaultLifetime
  }

  /** The claims `create_access_token` signs: a copy of `data` with `exp` set, replacing any
      `exp` the caller passed. */
  function AccessTokenClaims(data: Dict, expiresDelta: Option<int>, now: int): (claims: Dict)
    ensures claims.Keys == data.Keys + {"exp"}
    ensures forall k :: k in data && k != "exp" ==> claims[k] == data[k]
    ensures claims["exp"] == VInt(ExpiryTime(expiresDelta, now))
  {
    data["exp" := VInt(ExpiryTime(expiresDelta, now))]
  }

  /** `create_access_token` */
  function CreateAccessToken(codec: JwtCodec, data: Dict, expiresDelta: Option<int>, now: int,
                             secretEnv: Option<string>): (token: string)
    ensures SoundCodec(codec) ==> CompactToken(token)
    ensures SoundCodec(codec) ==>
      codec.verify(token, SecretKey(secretEnv), Algorithm) == Some(AccessTokenClaims(data, expiresDelta, now))
  {
    codec.sign(AccessTokenClaims(data, expiresDelta, now), SecretKey(secretEnv), Algorithm)
  }

  /** `decode_access_token`: the claims, or None for every kind of failure. */
  function DecodeAccessToken(codec: JwtCodec, token: string, secretEnv: Option<string>, now: int)
    : (r: Option<Dict>)
    ensures r.Some? ==> codec.verify(token, SecretKey(secretEnv), Algorithm) == r
                        && ExpiryOf(r.value, now) == Live
  {
    match codec.verify(token, SecretKey(secretEnv), Algorithm)
    case None => None
    case Some(claims) => if ExpiryOf(claims, now) == Live then Some(claims) else None
  }

  /** The lifetime rule: a missing or zero `expires_delta` gives 15 minutes, any other
      (even negative) delta is added to the current time. */
  lemma ExpiryRule(expiresDelta: Option<int>, now: int)
    ensures expiresDelta == None || expiresDelta == Some(0) ==> ExpiryTime(expiresDelta, now) == now + 900
    ensures expiresDelta.Some? && expiresDelta.value != 0 ==>
              ExpiryTime(expiresDelta, now) - now == expiresDelta.value
  {
  }

  /** A token decodes, with the same secret and before it expires, to the caller's claims
      plus `exp`. */
  lemma DecodeCreated(codec: JwtCodec, data: Dict, expiresDelta: Option<int>, now: int,
                      secretEnv: Option<string>, later: int)
    requires SoundCodec(codec)
    requires later < ExpiryTime(expiresDelta, now)
    ensures DecodeAccessToken(codec, CreateAccessToken(codec, data, expiresDelta, now, secretEnv), secretEnv, later)
         == Some(AccessTokenClaims(data, expiresDelta, now))
  {
  }

  /** From its expiry time on, a token no longer decodes. */
  lemma DecodeRejectsExpired(codec: JwtCodec, data: Dict, expiresDelta: Option<int>, now: int,
                             secretEnv: Option<string>, later: int)
    requires SoundCodec(codec)
    requires later >= ExpiryTime(expiresDelta, now)
    ensures DecodeAccessToken(codec, CreateAccessToken(codec, data, expiresDelta, now, secretEnv), secretEnv, later)
         == None
  {
  }

  /** A token signed under one secret never decodes under another. */
  lemma DecodeRejectsOtherSecret(codec: JwtCodec, data: Dict, expiresDelta: Option<int>, now: int,
                                 signEnv: Option<string>, decodeEnv: Option<string>, later: int)
    requires SoundCodec(codec)
    requires SecretKey(signEnv) != SecretKey(decodeEnv)
    ensures DecodeAccessToken(codec, CreateAccessToken(codec, data, expiresDelta, now, signEnv), decodeEnv, later)
         == None
  {
  }

  /** A token issued with a lifetime of -1 second is already expired when issued. */
  lemma NegativeLifetimeExpiresImmediately(codec: JwtCodec, data: Dict, now: int, secretEnv: Option<string>)
    requires SoundCodec(codec)
    ensures DecodeAccessToken(codec, CreateAccessToken(codec, data, Some(-1), now, secretEnv), secretEnv, now)
         == None
  {
  }
}
