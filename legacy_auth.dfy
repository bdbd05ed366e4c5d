/** backend/app/auth.py: the older bearer-token dependency, an alternative to the routers'
    `get_current_user`. It verifies tokens with its own secret default and builds a
    principal from the claims with fallbacks between claim names. */
module LegacyAuth {
  import opened Wrappers
  import opened PyValues
  import opened Http
  import opened Security

  /** `os.getenv("AUTH_SECRET", "changeme")` */
  const LegacyDefaultSecret: string := "changeme"

  function LegacySecret(env: Option<string>): string
  {
    if env.Some? then env.value else LegacyDefaultSecret
  }

  const MissingToken: string := "Missing authorization token"
  const TokenExpired: string := "Token expired"
  const InvalidToken: string := "Invalid token"
  const MissingCredentials: string := "Authorization header missing or malformed"
  const MissingClaims: string := "Missing required user claims"

  /** The `User` object of this module: a string id, a name of whatever type the claim had,
      and the claims it came from. */
  datatype Principal = Principal(userId: string, username: Value, claims: Dict)

  /** `User.__init__`: the id is stored as `str(user_id)`; missing claims become `{}`. */
  function MakePrincipal(userId: Value, username: Value, claims: Option<Dict>): (p: Principal)
    ensures p.userId == Str(userId) && p.username == username
    ensures claims.None? ==> p.claims == map[]
    ensures claims.Some? ==> p.claims == claims.value
  {
    // `claims or {}`: an empty dict is replaced by an equal empty dict
    Principal(Str(userId), username, if claims.None? then map[] else claims.value)
  }

  /** `User.dict`: the two fields, then the claims spread over them. */
  function PrincipalDict(p: Principal): (d: Dict)
    ensures d.Keys == {"user_id", "username"} + p.claims.Keys
    ensures forall k :: k in p.claims ==> d[k] == p.claims[k]
    ensures "user_id" !in p.claims ==> d["user_id"] == VStr(p.userId)
    ensures "username" !in p.claims ==> d["username"] == p.username
  {
    map["user_id" := VStr(p.userId), "username" := p.username] + p.claims
  }

  /** `verify_jwt`: an empty token, an expired token and every other failure of the JWT
      library are told apart. */
  function VerifyJwt(codec: JwtCodec, token: Option<string>, secretEnv: Option<string>, now: int)
    : (r: Result<Dict, Failure>)
    ensures (token.None? || token.value == "") ==> r == Err(HttpError(Unauthorized, MissingToken))
    ensures r.Err? ==> r.error.HttpError? && r.error.status == Unauthorized
    ensures r.Ok? <==> token.Some? && token.value != "" &&
                       match codec.verify(token.value, LegacySecret(secretEnv), Algorithm)
                       case None => false
                       case Some(claims) => ExpiryOf(claims, now) == Live
    ensures r.Ok? ==> Some(r.value) == codec.verify(token.value, LegacySecret(secretEnv), Algorithm)
    ensures token.Some? && token.value != "" ==>
      match codec.verify(token.value, LegacySecret(secretEnv), Algorithm)
      case None => r == Err(HttpError(Unauthorized, InvalidToken))
      case Some(claims) =>
        && (ExpiryOf(claims, now) == Expired ==> r == Err(HttpError(Unauthorized, TokenExpired)))
        && (ExpiryOf(claims, now) == BadExp ==> r == Err(HttpError(Unauthorized, InvalidToken)))
  {
    if token.None? || token.value == "" then Err(HttpError(Unauthorized, MissingToken))
    else
      match codec.verify(token.value, LegacySecret(secretEnv), Algorithm)
      case None => Err(HttpError(Unauthorized, InvalidToken))
      case Some(claims) =>
        match ExpiryOf(claims, now)
        case Expired => Err(HttpError(Unauthorized, TokenExpired))
        case BadExp => Err(HttpError(Unauthorized, InvalidToken))
        case Live => Ok(claims)
  }

  /** `payload.get(primary) or payload.get(fallback)` */
  function ClaimOr(payload: Dict, primary: string, fallback: string): (v: Value)
    ensures Truthy(Get(payload, primary)) ==> v == payload[primary]
    ensures !Truthy(Get(payload, primary)) ==> v == Get(payload, fallback)
  {
    var first := Get(payload, primary);
    if Truthy(first) then first else Get(payload, fallback)
  }

  /** `get_current_user`: the bearer credentials from `HTTPBearer(auto_error=False)` (absent
      when the header is missing or is not a bearer header), verified, then turned into a
      principal from `user_id` (or `sub`) and `username` (or `name`). */
  function GetCurrentUser(codec: JwtCodec, credentials: Option<string>, secretEnv: Option<string>, now: int)
    : (r: Result<Principal, Failure>)
    ensures credentials.None? ==> r == Err(HttpError(Unauthorized, MissingCredentials))
    ensures r.Ok? ==> VerifyJwt(codec, credentials, secretEnv, now) == Ok(r.value.claims)
    ensures r.Ok? ==> Truthy(r.value.username)
                      && r.value.userId == Str(ClaimOr(r.value.claims, "user_id", "sub"))
                      && r.value.username == ClaimOr(r.value.claims, "username", "name")
    ensures credentials.Some? && VerifyJwt(codec, credentials, secretEnv, now).Err? ==>
      r == Err(VerifyJwt(codec, credentials, secretEnv, now).error)
    ensures credentials.Some? && VerifyJwt(codec, credentials, secretEnv, now).Ok? ==>
      var payload := VerifyJwt(codec, credentials, secretEnv, now).value;
      var userId, username := ClaimOr(payload, "user_id", "sub"), ClaimOr(payload, "username", "name");
      && (r.Ok? <==> Truthy(userId) && Truthy(username))
      && (!Truthy(userId) || !Truthy(username) ==> r == Err(HttpError(Unauthorized, MissingClaims)))
      && (r.Ok? ==> r.value == MakePrincipal(userId, username, Some(payload)))
  {
    if credentials.None? then Err(HttpError(Unauthorized, MissingCredentials))
    else
      match VerifyJwt(codec, credentials, secretEnv, now)
      case Err(f) => Err(f)
      case Ok(payload) =>
        var userId := ClaimOr(payload, "user_id", "sub");
        var username := ClaimOr(payload, "username", "name");
        if !Truthy(userId) || !Truthy(username) then Err(HttpError(Unauthorized, MissingClaims))
        else Ok(MakePrincipal(userId, username, Some(payload)))
  }

  // ---------------------------------------------------------------- properties

  /** Signed with the legacy secret and still live, a token verifies to its claims. */
  lemma VerifySigned(codec: JwtCodec, claims: Dict, secretEnv: Option<string>, now: int)
    requires SoundCodec(codec)
    requires ExpiryOf(claims, now) == Live
    ensures VerifyJwt(codec, Some(codec.sign(claims, LegacySecret(secretEnv), Algorithm)), secretEnv, now) == Ok(claims)
  {
    assert CompactToken(codec.sign(claims, LegacySecret(secretEnv), Algorithm));
  }

  /** An expired but correctly signed token is reported as expired, not as invalid. */
  lemma ExpiredIsReported(codec: JwtCodec, claims: Dict, secretEnv: Option<string>, now: int, exp: int)
    requires SoundCodec(codec)
    requires "exp" in claims && claims["exp"] == VInt(exp) && now >= exp
    ensures VerifyJwt(codec, Some(codec.sign(claims, LegacySecret(secretEnv), Algorithm)), secretEnv, now)
         == Err(HttpError(Unauthorized, TokenExpired))
  {
    assert CompactToken(codec.sign(claims, LegacySecret(secretEnv), Algorithm));
  }

  /** A token signed under another secret is invalid, whatever its expiry. */
  lemma OtherSecretIsInvalid(codec: JwtCodec, claims: Dict, key: string, secretEnv: Option<string>, now: int)
    requires SoundCodec(codec)
    requires key != LegacySecret(secretEnv)
    ensures VerifyJwt(codec, Some(codec.sign(claims, key, Algorithm)), secretEnv, now)
         == Err(HttpError(Unauthorized, InvalidToken))
  {
    assert CompactToken(codec.sign(claims, key, Algorithm));
  }

  /** With `AUTH_SECRET` unset, the two modules sign and verify under different default
      secrets, so a token from `create_access_token` is invalid here. */
  lemma DefaultSecretsDisagree(codec: JwtCodec, data: Dict, expiresDelta: Option<int>, issued: int, now: int)
    requires SoundCodec(codec)
    ensures VerifyJwt(codec, Some(CreateAccessToken(codec, data, expiresDelta, issued, None)), None, now)
         == Err(HttpError(Unauthorized, InvalidToken))
  {
    assert SecretKey(None) != LegacySecret(None) by {
      assert SecretKey(None)[0] != LegacySecret(None)[0];
    }
    OtherSecretIsInvalid(codec, AccessTokenClaims(data, expiresDelta, issued), SecretKey(None), None, now);
  }

  /** The claim fallbacks: `user_id` wins over `sub` and `username` over `name` when truthy;
      a token carrying only `sub` and `name` still identifies its holder. */
  lemma SubAndNameSuffice(codec: JwtCodec, sub: string, name: string, secretEnv: Option<string>, now: int)
    requires SoundCodec(codec)
    requires sub != "" && name != ""
    ensures var claims := map["sub" := VStr(sub), "name" := VStr(name)];
            var token := codec.sign(claims, LegacySecret(secretEnv), Algorithm);
            GetCurrentUser(codec, Some(token), secretEnv, now) == Ok(Principal(sub, VStr(name), claims))
  {
    var claims := map["sub" := VStr(sub), "name" := VStr(name)];
    VerifySigned(codec, claims, secretEnv, now);
  }

  /** `User.dict` lets a claim named `user_id` or `username` override the stored field. */
  lemma ClaimsOverrideFields(p: Principal, v: Value)
    requires "user_id" in p.claims && p.claims["user_id"] == v
    ensures PrincipalDict(p)["user_id"] == v
    ensures p.claims["user_id"] != VStr(p.userId) ==> PrincipalDict(p)["user_id"] != VStr(p.userId)
  {
  }
}
