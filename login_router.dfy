/**
 * The session handlers (back/src/routers/login.py): `login`, `logout`, `get_own`
 * (`GET /me`) and `refresh`. The credential check and the refresh token check are
 * pure decisions; `login`, `logout` and `refresh` then write the response's
 * cookie jar one directive at a time.
 */
module LoginRouter {
  import opened Wrappers
  import opened Text
  import opened Schemas
  import opened Http
  import opened Security
  import opened Auth
  import opened UserRepository
  import Jwt

  /** The one error for an unknown email and for a wrong password. */
  const InvalidLogin := HttpError(401, "メールアドレスまたはパスワードが無効です", true)

  /** Any other fault inside `login`. */
  const LoginInternalError := HttpError(500, "内部サーバーエラー", true)

  /** The cookie names the handlers write: login's two, and the key refresh uses for the access token. */
  lemma CookieNamesDistinct()
    ensures "access_token" != "refresh_token"
    ensures "access_token" != "access_tokenr"
    ensures "access_tokenr" != "refresh_token"
  {
    assert |"access_token"| == 12 && |"refresh_token"| == 13 && |"access_tokenr"| == 13;
    assert "access_tokenr"[0] != "refresh_token"[0];
  }

  const LoginReply := Reply(200, Message("msg", "ログインが成功しました"))
  const LogoutReply := Reply(200, Message("msg", "Cookieが削除されました"))
  const RefreshReply := Reply(200, Message("msg", "リフレッシュが成功しました"))

  // ---------------------------------------------------------------------------
  // login

  /**
   * The checks `login` makes before issuing tokens: the email must be stored and
   * the password must verify against the stored hash. A stored password that is
   * not a bcrypt hash makes the hashing context raise, which `login` turns into
   * its 500 error.
   */
  function CheckCredentials(users: Table, email: string, pw: string): (r: Result<User, HttpError>)
    ensures r.Success? <==> email in users && VerifyPw(pw, users[email]) == Success(true)
    ensures r.Success? ==> r.value == Row(users, email)
    ensures r.Failure? && r.error == LoginInternalError <==> email in users && !IsBcryptHash(users[email])
    ensures r.Failure? ==> r.error in {InvalidLogin, LoginInternalError}
  {
    if email !in users then Failure(InvalidLogin)
    else match VerifyPw(pw, users[email])
      case Failure(_) => Failure(LoginInternalError)
      case Success(ok) => if ok then Success(Row(users, email)) else Failure(InvalidLogin)
  }

  /** A wrong password for a stored account and an unknown email give the identical error. */
  lemma LoginFailuresIndistinguishable(users: Table, email: string, pw: string, storedPw: string)
    requires email in users && users[email] == GetHashedPw(storedPw) && storedPw != pw
    ensures CheckCredentials(users, email, pw) == Failure(InvalidLogin)
    ensures CheckCredentials(users - {email}, email, pw) == Failure(InvalidLogin)
  {
    VerifyHashed(pw, storedPw);
  }

  /** An account stored with a hashed password accepts exactly that password. */
  lemma CredentialsOfHashedAccount(users: Table, email: string, pw: string, attempt: string)
    requires email in users && users[email] == GetHashedPw(pw)
    ensures CheckCredentials(users, email, attempt).Success? <==> attempt == pw
  {
    VerifyHashed(attempt, pw);
  }

  /** An account whose password was stored raw (not bcrypt-shaped) can no longer log in: every attempt is a 500. */
  lemma CredentialsOfRawAccount(users: Table, email: string, rawPw: string, attempt: string)
    requires email in users && users[email] == rawPw && !IsBcryptHash(rawPw)
    ensures CheckCredentials(users, email, attempt) == Failure(LoginInternalError)
  {
  }

  /** A `Bearer ` cookie with the handlers' flags, expiring at the token's expiry. */
  function BearerCookie(t: IssuedToken, samesite: string): (c: Cookie)
    ensures c.value == BearerPrefix + t.token && c.expires == Some(t.exp) && c.maxAge.None?
    ensures c.httponly && !c.secure && c.samesite == samesite
  {
    Cookie(BearerPrefix + t.token, None, Some(t.exp), false, true, samesite)
  }

  /** The directives a successful login writes. */
  function LoginCookies(email: string, now: int, settings: Settings): (jar: map<string, Cookie>)
    ensures jar.Keys == {"access_token", "refresh_token"}
    ensures "access_token" in jar && "refresh_token" in jar
    ensures jar["access_token"] == BearerCookie(CreateAccessToken(email, now, settings), "lax")
    ensures jar["refresh_token"] == BearerCookie(CreateRefreshToken(email, now, settings), "lax")
  {
    map["access_token" := BearerCookie(CreateAccessToken(email, now, settings), "lax"),
        "refresh_token" := BearerCookie(CreateRefreshToken(email, now, settings), "lax")]
  }

  /**
   * `login(response, fd)`. On success the jar gains exactly the two session
   * cookies and the body is a message; on failure nothing is written.
   */
  method Login(response: Response, cur: Cursor, email: string, pw: string, now: int, settings: Settings)
    returns (r: Result<Reply, HttpError>)
    modifies response
    ensures r.Success? <==> CheckCredentials(cur.users, email, pw).Success?
    ensures r.Success? ==> r.value == LoginReply && response.cookies == old(response.cookies) + LoginCookies(email, now, settings)
    ensures r.Failure? ==> r.error == CheckCredentials(cur.users, email, pw).error && response.cookies == old(response.cookies)
  {
    var repo := new UserRepo(cur);
    var user := repo.Get(email);
    if user.None? {
      return Failure(InvalidLogin);
    }
    var verified := VerifyPw(pw, user.value.pw);
    if verified.Failure? {
      return Failure(LoginInternalError);
    }
    if !verified.value {
      return Failure(InvalidLogin);
    }
    SetSessionCookies(response, email, now, settings);
    r := Success(LoginReply);
  }

  /** The two `set_cookie` calls of a successful login. */
  method SetSessionCookies(response: Response, email: string, now: int, settings: Settings)
    modifies response
    ensures response.cookies == old(response.cookies) + LoginCookies(email, now, settings)
  {
    ghost var before := response.cookies;
    var access := CreateAccessToken(email, now, settings);
    var refresh := CreateRefreshToken(email, now, settings);
    response.SetCookie("access_token", BearerPrefix + access.token, access.exp, false, true, "lax");
    response.SetCookie("refresh_token", BearerPrefix + refresh.token, refresh.exp, false, true, "lax");
    CookieNamesDistinct();
    WriteTwo(before, "access_token", BearerCookie(access, "lax"), "refresh_token", BearerCookie(refresh, "lax"));
  }

  /** Each login cookie's `expires` is the `exp` claim of the token it carries. */
  lemma LoginCookiesCarryTheirExpiry(email: string, now: int, settings: Settings, key: string)
    requires key == "access_token" || key == "refresh_token"
    ensures key in LoginCookies(email, now, settings)
    ensures var c := LoginCookies(email, now, settings)[key];
      StartsWith(c.value, BearerPrefix) &&
      Jwt.Parse(c.value[|BearerPrefix|..]) == Some(Jwt.Claims(Some(email), c.expires))
  {
    var c := LoginCookies(email, now, settings)[key];
    var t := if key == "access_token" then CreateAccessToken(email, now, settings) else CreateRefreshToken(email, now, settings);
    assert c.value == BearerPrefix + t.token;
    PrefixStrip(BearerPrefix, t.token);
  }

  /**
   * The access cookie a login sets resolves to the login's account for as long as
   * the access token has not expired, and to the credentials error afterwards.
   */
  lemma LoginSessionResolves(users: Table, email: string, now: int, settings: Settings, at: int)
    requires email in users
    ensures var exp := CreateAccessToken(email, now, settings).exp;
      GetCurUser(Some(LoginCookies(email, now, settings)["access_token"].value), users, at) ==
        if at <= exp then Success(Row(users, email)) else Failure(CredentialsError)
  {
    GetCurUserOnClaims(IssuedClaims(email, CreateAccessToken(email, now, settings).exp), users, at);
  }

  /**
   * A client following RFC 6265 keeps a login cookie until `now` plus the
   * absolute expiry it was given, because an integer `expires` counts seconds
   * from the moment it is sent.
   */
  lemma LoginCookieOutlivesToken(email: string, now: int, settings: Settings)
    requires now > 0
    ensures var c := LoginCookies(email, now, settings)["access_token"];
      DiscardedAt(c, now) == Some(now + CreateAccessToken(email, now, settings).exp) &&
      DiscardedAt(c, now).value > CreateAccessToken(email, now, settings).exp
  {
    BearerCookieDiscardedAt(CreateAccessToken(email, now, settings), "lax", now);
  }

  /**
   * Every cookie a login writes carries `Bearer ` and a token whose claims name
   * the account and the cookie's own expiry, is HTTP-only, is not marked secure,
   * has no `Max-Age` and is samesite `lax`.
   */
  lemma LoginCookiesAreBearer(email: string, now: int, settings: Settings)
    ensures forall k | k in LoginCookies(email, now, settings) ::
      var c := LoginCookies(email, now, settings)[k];
      StartsWith(c.value, BearerPrefix) && c.httponly && !c.secure && c.maxAge.None? && c.samesite == "lax" &&
      Jwt.Parse(c.value[|BearerPrefix|..]) == Some(Jwt.Claims(Some(email), c.expires))
  {
    BearerCookieCarriesClaims(CreateAccessToken(email, now, settings), email, "lax");
    BearerCookieCarriesClaims(CreateRefreshToken(email, now, settings), email, "lax");
  }

  /** The same for the cookies a refresh writes, except that they are samesite `none`. */
  lemma RefreshCookiesAreBearer(email: string, now: int, settings: Settings)
    ensures forall k | k in RefreshCookies(email, now, settings) ::
      var c := RefreshCookies(email, now, settings)[k];
      StartsWith(c.value, BearerPrefix) && c.httponly && !c.secure && c.maxAge.None? && c.samesite == "none" &&
      Jwt.Parse(c.value[|BearerPrefix|..]) == Some(Jwt.Claims(Some(email), c.expires))
  {
    BearerCookieCarriesClaims(CreateAccessToken(email, now, settings), email, "none");
    BearerCookieCarriesClaims(CreateRefreshToken(email, now, settings), email, "none");
  }

  /** A bearer cookie for an issued token carries that token's claims behind the prefix. */
  lemma BearerCookieCarriesClaims(t: IssuedToken, email: string, samesite: string)
    requires Jwt.Parse(t.token) == Some(IssuedClaims(email, t.exp))
    ensures var c := BearerCookie(t, samesite);
      StartsWith(c.value, BearerPrefix) && Jwt.Parse(c.value[|BearerPrefix|..]) == Some(Jwt.Claims(Some(email), c.expires))
  {
    PrefixStrip(BearerPrefix, t.token);
  }

  /** A bearer cookie is discarded `exp` seconds after it is sent, so after `exp` itself when sent after the epoch. */
  lemma BearerCookieDiscardedAt(t: IssuedToken, samesite: string, sentAt: int)
    requires sentAt > 0
    ensures DiscardedAt(BearerCookie(t, samesite), sentAt) == Some(sentAt + t.exp)
    ensures DiscardedAt(BearerCookie(t, samesite), sentAt).value > t.exp
  {
  }

  // ---------------------------------------------------------------------------
  // logout

  /** The jar after `logout`: both session cookies replaced by deletions, everything else kept. */
  function LogoutCookies(jar: map<string, Cookie>): (after: map<string, Cookie>)
    ensures after.Keys == jar.Keys + {"access_token", "refresh_token"}
    ensures after["access_token"] == Deletion && after["refresh_token"] == Deletion
    ensures forall k | k in jar && k != "access_token" && k != "refresh_token" :: after[k] == jar[k]
  {
    jar["access_token" := Deletion]["refresh_token" := Deletion]
  }

  /** `logout(response)`: unconditional. */
  method Logout(response: Response) returns (r: Reply)
    modifies response
    ensures r == LogoutReply
    ensures response.cookies == LogoutCookies(old(response.cookies))
  {
    response.DeleteCookie("access_token");
    response.DeleteCookie("refresh_token");
    r := LogoutReply;
  }

  /** A second logout writes what the first wrote. */
  lemma LogoutIdempotent(jar: map<string, Cookie>)
    ensures LogoutCookies(LogoutCookies(jar)) == LogoutCookies(jar)
  {
  }

  // ---------------------------------------------------------------------------
  // get_own

  /** `get_own`: the current user, as resolved from the access cookie. */
  function GetOwn(accessToken: Option<string>, users: Table, now: int): (r: Result<Reply, HttpError>)
    ensures r.Failure? ==> r.error == CredentialsError
    ensures r.Success? ==> (r.value.status == 200 && r.value.body.UserRecord? &&
      r.value.body.user.email in users && r.value.body.user == Row(users, r.value.body.user.email))
    ensures r.Success? <==> GetCurUser(accessToken, users, now).Success?
    ensures r.Success? ==> r.value.body == UserRecord(GetCurUser(accessToken, users, now).value)
    ensures r.Success? ==> exists c: Jwt.Claims ::
      accessToken == Some(BearerPrefix + Jwt.Encode(c)) && c.sub == Some(r.value.body.user.email) && Jwt.NotExpired(c, now)
  {
    match GetCurUser(accessToken, users, now)
    case Failure(e) => Failure(e)
    case Success(u) => Success(Reply(200, UserRecord(u)))
  }

  // ---------------------------------------------------------------------------
  // refresh

  /**
   * The checks `refresh` makes: the refresh cookie's token decodes and names a
   * subject. The handler's user lookup is never awaited, so the table is not
   * consulted and the subject need not be a stored email.
   */
  function RefreshSubject(refreshToken: Option<string>, now: int): (r: Result<string, HttpError>)
    ensures r.Failure? ==> r.error == CredentialsError
    ensures r.Success? ==> exists c: Jwt.Claims ::
      refreshToken == Some(BearerPrefix + Jwt.Encode(c)) && c.sub == Some(r.value) && Jwt.NotExpired(c, now)
  {
    match GetRefreshTokenFromCookie(refreshToken)
    case Failure(e) => Failure(e)
    case Success(token) =>
      match Jwt.Decode(token, now)
      case Failure(_) => Failure(CredentialsError)
      case Success(payload) =>
        if payload.sub.None? then Failure(CredentialsError) else Success(payload.sub.value)
  }

  /** On the encoding of some claims, refresh succeeds exactly when they have not expired and name a subject. */
  lemma RefreshOnClaims(c: Jwt.Claims, now: int)
    ensures RefreshSubject(Some(BearerPrefix + Jwt.Encode(c)), now) ==
      if Jwt.NotExpired(c, now) && c.sub.Some? then Success(c.sub.value) else Failure(CredentialsError)
  {
    ExtractBearer(Jwt.Encode(c));
    Jwt.EncodeParses(c);
  }

  /** The directives a successful refresh writes: the access token goes to the key `access_tokenr`. */
  function RefreshCookies(email: string, now: int, settings: Settings): (jar: map<string, Cookie>)
    ensures jar.Keys == {"access_tokenr", "refresh_token"}
    ensures jar["access_tokenr"] == BearerCookie(CreateAccessToken(email, now, settings), "none")
    ensures jar["refresh_token"] == BearerCookie(CreateRefreshToken(email, now, settings), "none")
  {
    map["access_tokenr" := BearerCookie(CreateAccessToken(email, now, settings), "none"),
        "refresh_token" := BearerCookie(CreateRefreshToken(email, now, settings), "none")]
  }

  /**
   * `refresh(response, refresh_token)`. The cursor is passed to the handler but,
   * the lookup not being awaited, never read.
   */
  method Refresh(response: Response, refreshToken: Option<string>, cur: Cursor, now: int, settings: Settings)
    returns (r: Result<Reply, HttpError>)
    modifies response
    ensures r.Success? <==> RefreshSubject(refreshToken, now).Success?
    ensures r.Success? ==> (r.value == RefreshReply &&
      response.cookies == old(response.cookies) + RefreshCookies(RefreshSubject(refreshToken, now).value, now, settings))
    ensures r.Failure? ==> r.error == CredentialsError && response.cookies == old(response.cookies)
  {
    var subject := RefreshSubject(refreshToken, now);
    if subject.Failure? {
      return Failure(subject.error);
    }
    var email := subject.value;
    // `user_repo.get(email)` without `await` is a coroutine object, never None:
    // nothing is read and the existence check cannot fail.
    SetRefreshedCookies(response, email, now, settings);
    r := Success(RefreshReply);
  }

  /** The two `set_cookie` calls of a successful refresh. */
  method SetRefreshedCookies(response: Response, email: string, now: int, settings: Settings)
    modifies response
    ensures response.cookies == old(response.cookies) + RefreshCookies(email, now, settings)
  {
    ghost var before := response.cookies;
    var access := CreateAccessToken(email, now, settings);
    var refresh := CreateRefreshToken(email, now, settings);
    response.SetCookie("access_tokenr", BearerPrefix + access.token, access.exp, false, true, "none");
    response.SetCookie("refresh_token", BearerPrefix + refresh.token, refresh.exp, false, true, "none");
    CookieNamesDistinct();
    WriteTwo(before, "access_tokenr", BearerCookie(access, "none"), "refresh_token", BearerCookie(refresh, "none"));
  }

  /** A refresh leaves whatever `access_token` directive the jar had (or its absence) as it was. */
  lemma RefreshKeepsAccessCookie(jar: map<string, Cookie>, email: string, now: int, settings: Settings)
    ensures var after := jar + RefreshCookies(email, now, settings);
      ("access_token" in after <==> "access_token" in jar) &&
      ("access_token" in jar ==> after["access_token"] == jar["access_token"])
  {
    CookieNamesDistinct();
  }

  /**
   * The refresh cookie of a login is accepted until the refresh token expires,
   * even when the account has been deleted meanwhile, while the access cookie of
   * that login is then rejected.
   */
  lemma RefreshAcceptsDeletedAccount(users: Table, email: string, now: int, settings: Settings, at: int)
    requires email !in users
    requires at <= CreateRefreshToken(email, now, settings).exp
    ensures RefreshSubject(Some(LoginCookies(email, now, settings)["refresh_token"].value), at) == Success(email)
    ensures GetCurUser(Some(LoginCookies(email, now, settings)["access_token"].value), users, at) == Failure(CredentialsError)
  {
    RefreshOnClaims(IssuedClaims(email, CreateRefreshToken(email, now, settings).exp), at);
    GetCurUserOnClaims(IssuedClaims(email, CreateAccessToken(email, now, settings).exp), users, at);
  }
}
