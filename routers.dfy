/** backend/app/auth/routers.py: the login endpoint, the bearer-token dependency
    `get_current_user` and the `/auth/me` view. Each handler is a function of the user
    directory's state, the request fields, the codec, the `AUTH_SECRET` setting and the
    current time in seconds. */
module Routers {
  import opened Wrappers
  import opened PyText
  import opened PyValues
  import opened Http
  import opened UserModel
  import opened Security
  import opened Users

  /** `timedelta(minutes=30)`, the lifetime of the tokens `login` issues. */
  const LoginTokenLifetime: int := 30 * 60

  const RequiredFields: string := "Username and password are required"
  const BadCredentials: string := "Incorrect username or password"
  const InactiveUser: string := "Inactive user"
  const MissingHeader: string := "Not authenticated - missing Authorization header"
  const BadHeaderFormat: string := "Invalid authorization header format"
  const BadScheme: string := "Invalid authentication scheme - expected Bearer"
  const BadToken: string := "Invalid or expired token"
  const MissingSub: string := "Invalid token payload - missing user ID (sub claim)"
  const MissingUsername: string := "Invalid token payload - missing username"
  const UnknownUser: string := "User not found"

  /** The body `login` answers with. */
  datatype TokenResponse = TokenResponse(accessToken: string, tokenType: string)

  /** The `data` `login` hands to `create_access_token`: the id as a string, the name, and the
      issue and expiry times (the JWT library turns both datetimes into epoch seconds). */
  function LoginClaims(u: User, now: int): (data: Dict)
    ensures data.Keys == {"sub", "username", "iat", "exp"}
    ensures data["sub"] == VStr(Str(VInt(u.id))) && data["username"] == VStr(u.username)
    ensures data["iat"] == VInt(now) && data["exp"] == VInt(now + LoginTokenLifetime)
  {
    map["sub" := VStr(Str(VInt(u.id))), "username" := VStr(u.username),
        "iat" := VInt(now), "exp" := VInt(now + LoginTokenLifetime)]
  }

  /** `login`. The handler repeats its lookup, activity and password checks a second time
      on the same, unchanged directory; they decide the same way, so they appear once. */
  function Login(d: UserDirectory, username: string, password: string, hasher: Hasher,
                 codec: JwtCodec, secretEnv: Option<string>, now: int)
    : (r: Result<TokenResponse, Failure>)
    reads d
    requires d.Valid()
    ensures (username == "" || password == "") <==> r == Err(HttpError(UnprocessableEntity, RequiredFields))
    ensures r.Err? ==> r.error.HttpError? && r.error.status in {UnprocessableEntity, Unauthorized}
    ensures r.Ok? <==>
      && username != "" && password != ""
      && d.FindByUsername(username).Some?
      && d.FindByUsername(username).value.isActive
      && hasher.verify(password, d.FindByUsername(username).value.hashedPassword)
    ensures r.Ok? ==> r.value.tokenType == "bearer"
  {
    if username == "" || password == "" then
      Err(HttpError(UnprocessableEntity, RequiredFields))
    else
      match d.FindByUsername(username)
      case None => Err(HttpError(Unauthorized, BadCredentials))
      case Some(user) =>
        if !user.isActive then Err(HttpError(Unauthorized, InactiveUser))
        else if !hasher.verify(password, user.hashedPassword) then Err(HttpError(Unauthorized, BadCredentials))
        else
          var token := CreateAccessToken(codec, LoginClaims(user, now), Some(LoginTokenLifetime), now, secretEnv);
          Ok(TokenResponse(token, "bearer"))
  }

  /** The checks `get_current_user` applies once the token has decoded to `payload`. */
  function AuthorizePayload(d: UserDirectory, payload: Dict): (r: Result<User, Failure>)
    reads d
    requires d.Valid()
    ensures r.Ok? ==> r.value.id in d.users && d.users[r.value.id] == r.value && r.value.isActive
    ensures !Truthy(Get(payload, "sub")) ==> r == Err(HttpError(Unauthorized, MissingSub))
    ensures Truthy(Get(payload, "sub")) && !Truthy(Get(payload, "username")) ==>
      r == Err(HttpError(Unauthorized, MissingUsername))
    ensures Truthy(Get(payload, "sub")) && Truthy(Get(payload, "username")) ==>
      match ToInt(Get(payload, "sub"))
      case Err(e) => r == Err(Unhandled(e))
      case Ok(id) =>
        && (id !in d.users ==> r == Err(HttpError(Unauthorized, UnknownUser)))
        && (id in d.users && !d.users[id].isActive ==> r == Err(HttpError(Unauthorized, InactiveUser)))
        && (id in d.users && d.users[id].isActive ==> r == Ok(d.users[id]))
    ensures r.Ok? <==>
      && Truthy(Get(payload, "sub")) && Truthy(Get(payload, "username"))
      && ToInt(Get(payload, "sub")).Ok?
      && ToInt(Get(payload, "sub")).value in d.users
      && d.users[ToInt(Get(payload, "sub")).value].isActive
  {
    var sub := Get(payload, "sub");
    if !Truthy(sub) then Err(HttpError(Unauthorized, MissingSub))
    else if !Truthy(Get(payload, "username")) then Err(HttpError(Unauthorized, MissingUsername))
    else
      match ToInt(sub)
      case Err(e) => Err(Unhandled(e))
      case Ok(id) =>
        match d.GetUserById(id)
        case None => Err(HttpError(Unauthorized, UnknownUser))
        case Some(user) =>
          if !user.isActive then Err(HttpError(Unauthorized, InactiveUser)) else Ok(user)
  }

  /** `get_current_user`: read the `Authorization` header, split it on whitespace into
      exactly a scheme and a token, require the scheme `bearer` in any case, decode the
      token and look up its subject. */
  function GetCurrentUser(d: UserDirectory, authorization: Option<string>, codec: JwtCodec,
                          secretEnv: Option<string>, now: int)
    : (r: Result<User, Failure>)
    reads d
    requires d.Valid()
    ensures (authorization.None? || authorization.value == "") ==>
      r == Err(HttpError(Unauthorized, MissingHeader))
    ensures authorization.Some? && authorization.value != "" && |Words(authorization.value)| != 2 ==>
      r == Err(HttpError(Unauthorized, BadHeaderFormat))
    ensures authorization.Some? && |Words(authorization.value)| == 2 &&
            Lower(Words(authorization.value)[0]) != "bearer" ==>
      r == Err(HttpError(Unauthorized, BadScheme))
    ensures authorization.Some? && |Words(authorization.value)| == 2 &&
            Lower(Words(authorization.value)[0]) == "bearer" ==>
      match DecodeAccessToken(codec, Words(authorization.value)[1], secretEnv, now)
      case None => r == Err(HttpError(Unauthorized, BadToken))
      case Some(payload) =>
        && (payload == map[] ==> r == Err(HttpError(Unauthorized, BadToken)))
        && (payload != map[] ==> r == AuthorizePayload(d, payload))
    ensures r.Ok? ==> r.value.id in d.users && d.users[r.value.id] == r.value && r.value.isActive
  {
    if authorization.None? || authorization.value == "" then
      Err(HttpError(Unauthorized, MissingHeader))
    else
      var words := Words(authorization.value);
      if |words| != 2 then Err(HttpError(Unauthorized, BadHeaderFormat))
      else if Lower(words[0]) != "bearer" then Err(HttpError(Unauthorized, BadScheme))
      else
        match DecodeAccessToken(codec, words[1], secretEnv, now)
        case None => Err(HttpError(Unauthorized, BadToken))
        case Some(payload) =>
          if payload == map[] then Err(HttpError(Unauthorized, BadToken))
          else AuthorizePayload(d, payload)
  }

  /** `get_me`: the authenticated user's public view. */
  function GetMe(d: UserDirectory, authorization: Option<string>, codec: JwtCodec,
                 secretEnv: Option<string>, now: int)
    : (r: Result<Dict, Failure>)
    reads d
    requires d.Valid()
    ensures r.Ok? ==> "hashed_password" !in r.value
    ensures r.Ok? <==> GetCurrentUser(d, authorization, codec, secretEnv, now).Ok?
    ensures r.Ok? ==> r.value == ToDict(GetCurrentUser(d, authorization, codec, secretEnv, now).value)
  {
    match GetCurrentUser(d, authorization, codec, secretEnv, now)
    case Err(f) => Err(f)
    case Ok(user) => Ok(ToDict(user))
  }

  // ---------------------------------------------------------------- properties

  /** An unknown name and a wrong password for a known, active user get the same answer,
      so the response does not reveal which names exist. */
  lemma UnknownUserAndWrongPasswordAlike(d: UserDirectory, username: string, password: string,
                                         hasher: Hasher, codec: JwtCodec, secretEnv: Option<string>,
                                         now: int)
    requires d.Valid() && SoundHasher(hasher)
    requires username != "" && password != ""
    requires d.FindByUsername(username).None? ||
             (exists p :: p != password && d.FindByUsername(username).value.isActive &&
                          d.FindByUsername(username).value.hashedPassword == hasher.hash(p))
    ensures Login(d, username, password, hasher, codec, secretEnv, now) == Err(HttpError(Unauthorized, BadCredentials))
  {
    if d.FindByUsername(username).Some? {
      var p :| p != password && d.FindByUsername(username).value.hashedPassword == hasher.hash(p);
      assert !hasher.verify(password, hasher.hash(p));
    }
  }

  /** An inactive account is reported as such whatever password is given: the activity
      check comes before the password check. */
  lemma InactiveBeforePassword(d: UserDirectory, username: string, password: string, hasher: Hasher,
                               codec: JwtCodec, secretEnv: Option<string>, now: int)
    requires d.Valid() && username != "" && password != ""
    requires d.FindByUsername(username).Some? && !d.FindByUsername(username).value.isActive
    ensures Login(d, username, password, hasher, codec, secretEnv, now) == Err(HttpError(Unauthorized, InactiveUser))
  {
  }

  /** What a successful login issued: the token `create_access_token` signs for the login
      claims of the active user the name matched. */
  lemma LoginIssues(d: UserDirectory, username: string, password: string, hasher: Hasher,
                    codec: JwtCodec, secretEnv: Option<string>, now: int)
    requires d.Valid()
    requires Login(d, username, password, hasher, codec, secretEnv, now).Ok?
    ensures var u := d.FindByUsername(username).value;
            && u.id in d.users && d.users[u.id] == u && u.isActive && u.username != ""
            && Login(d, username, password, hasher, codec, secretEnv, now).value.accessToken
               == CreateAccessToken(codec, LoginClaims(u, now), Some(LoginTokenLifetime), now, secretEnv)
  {
    var u := d.FindByUsername(username).value;
    assert |Lower(u.username)| == |Lower(username)|;
  }

  /** A header `Bearer <token>` passes the header checks and is judged by what the token
      decodes to. */
  lemma BearerHeader(d: UserDirectory, token: string, codec: JwtCodec, secretEnv: Option<string>, now: int)
    requires d.Valid() && CompactToken(token)
    ensures GetCurrentUser(d, Some("Bearer " + token), codec, secretEnv, now) ==
      match DecodeAccessToken(codec, token, secretEnv, now)
      case None => Err(HttpError(Unauthorized, BadToken))
      case Some(payload) =>
        if payload == map[] then Err(HttpError(Unauthorized, BadToken)) else AuthorizePayload(d, payload)
  {
    BearerHeaderWords("Bearer", token);
    assert "Bearer" + " " + token == "Bearer " + token;
    assert Lower("Bearer") == "bearer";
  }

  /** The claims a login signs identify an active user of the directory. */
  lemma AuthorizeLoginClaims(d: UserDirectory, u: User, now: int)
    requires d.Valid() && u.id in d.users && d.users[u.id] == u && u.isActive && u.username != ""
    ensures AuthorizePayload(d, LoginClaims(u, now)) == Ok(u)
  {
    IntOfStrOfInt(u.id);
  }

  /** A successful login signs the user's id, name and issue time, expiring 30 minutes later. */
  lemma LoginTokenClaims(d: UserDirectory, username: string, password: string, hasher: Hasher,
                         codec: JwtCodec, secretEnv: Option<string>, now: int, later: int)
    requires d.Valid() && SoundCodec(codec)
    requires Login(d, username, password, hasher, codec, secretEnv, now).Ok?
    requires later < now + LoginTokenLifetime
    ensures var u := d.FindByUsername(username).value;
            var token := Login(d, username, password, hasher, codec, secretEnv, now).value.accessToken;
            DecodeAccessToken(codec, token, secretEnv, later) ==
              Some(map["sub" := VStr(Str(VInt(u.id))), "username" := VStr(u.username),
                       "iat" := VInt(now), "exp" := VInt(now + LoginTokenLifetime)])
  {
    var u := d.FindByUsername(username).value;
    var data := LoginClaims(u, now);
    LoginIssues(d, username, password, hasher, codec, secretEnv, now);
    DecodeCreated(codec, data, Some(LoginTokenLifetime), now, secretEnv, later);
    assert AccessTokenClaims(data, Some(LoginTokenLifetime), now) == data;
  }

  /** A session round trip: the token a login returns, sent back as `Bearer <token>` on the
      same directory before it expires, authenticates the user who logged in. */
  lemma LoginThenAuthenticate(d: UserDirectory, username: string, password: string, hasher: Hasher,
                              codec: JwtCodec, secretEnv: Option<string>, now: int, later: int)
    requires d.Valid() && SoundCodec(codec)
    requires Login(d, username, password, hasher, codec, secretEnv, now).Ok?
    requires later < now + LoginTokenLifetime
    ensures var token := Login(d, username, password, hasher, codec, secretEnv, now).value.accessToken;
            GetCurrentUser(d, Some("Bearer " + token), codec, secretEnv, later) == Ok(d.FindByUsername(username).value)
  {
    var u := d.FindByUsername(username).value;
    var token := Login(d, username, password, hasher, codec, secretEnv, now).value.accessToken;
    LoginIssues(d, username, password, hasher, codec, secretEnv, now);
    LoginTokenClaims(d, username, password, hasher, codec, secretEnv, now, later);
    assert DecodeAccessToken(codec, token, secretEnv, later) == Some(LoginClaims(u, now));
    BearerHeader(d, token, codec, secretEnv, later);
    assert "sub" in LoginClaims(u, now);
    AuthorizeLoginClaims(d, u, now);
  }

  /** `scheme + " " + token` splits into exactly the scheme and the token when neither
      holds whitespace. */
  lemma BearerHeaderWords(scheme: string, token: string)
    requires |scheme| > 0 && NoSeparator(scheme, IsSpace)
    requires CompactToken(token)
    ensures Words(scheme + " " + token) == [scheme, token]
  {
    assert scheme + " " + token == scheme + [' '] + token;
    SplitTwo(scheme, ' ', token, IsSpace);
  }

  /** The scheme is compared case-insensitively: any spelling of "bearer" is accepted. */
  lemma SchemeCaseIgnored(d: UserDirectory, scheme: string, token: string, codec: JwtCodec,
                          secretEnv: Option<string>, now: int)
    requires d.Valid()
    requires |scheme| > 0 && NoSeparator(scheme, IsSpace) && Lower(scheme) == "bearer"
    requires CompactToken(token)
    ensures GetCurrentUser(d, Some(scheme + " " + token), codec, secretEnv, now)
         == GetCurrentUser(d, Some("Bearer " + token), codec, secretEnv, now)
  {
    BearerHeaderWords(scheme, token);
    BearerHeaderWords("Bearer", token);
    assert "Bearer" + " " + token == "Bearer " + token;
    assert Lower("Bearer") == "bearer";
  }

  /** Expiry: from 30 minutes after login on, the issued token is refused. */
  lemma LoginTokenExpires(d: UserDirectory, username: string, password: string, hasher: Hasher,
                          codec: JwtCodec, secretEnv: Option<string>, now: int, later: int)
    requires d.Valid() && SoundCodec(codec)
    requires Login(d, username, password, hasher, codec, secretEnv, now).Ok?
    requires later >= now + LoginTokenLifetime
    ensures var token := Login(d, username, password, hasher, codec, secretEnv, now).value.accessToken;
            GetCurrentUser(d, Some("Bearer " + token), codec, secretEnv, later) == Err(HttpError(Unauthorized, BadToken))
  {
    var u := d.FindByUsername(username).value;
    var token := Login(d, username, password, hasher, codec, secretEnv, now).value.accessToken;
    LoginIssues(d, username, password, hasher, codec, secretEnv, now);
    DecodeRejectsExpired(codec, LoginClaims(u, now), Some(LoginTokenLifetime), now, secretEnv, later);
    BearerHeader(d, token, codec, secretEnv, later);
  }

  /** The `username` claim is only required to be truthy: its value is never compared with
      the stored user, so two payloads that differ only there authorize alike. */
  lemma UsernameClaimUnchecked(d: UserDirectory, payload: Dict, v: Value, w: Value)
    requires d.Valid()
    requires Truthy(v) && Truthy(w)
    ensures AuthorizePayload(d, payload["username" := v]) == AuthorizePayload(d, payload["username" := w])
  {
    assert Get(payload["username" := v], "sub") == Get(payload["username" := w], "sub");
  }
}
