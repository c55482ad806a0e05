/**
 * The authentication dependencies (back/src/dependencies/auth.py): taking a token
 * out of a `Bearer ` cookie and resolving the current user from the access token.
 * Every failure is the one credentials error.
 */
module Auth {
  import opened Wrappers
  import opened Text
  import opened Schemas
  import opened Http
  import Jwt

  const BearerPrefix := "Bearer "

  /** `credentials_exception`. */
  const CredentialsError := HttpError(401, "Could not validate credentials", true)

  /** `get_access_token_from_cookie(access_token)`; `None` is a request without that cookie. */
  function GetAccessTokenFromCookie(accessToken: Option<string>): (r: Result<string, HttpError>)
    ensures r.Success? <==> accessToken.Some? && StartsWith(accessToken.value, BearerPrefix)
    ensures r.Success? ==> BearerPrefix + r.value == accessToken.value
    ensures r.Failure? ==> r.error == CredentialsError
  {
    if accessToken.None? then Failure(CredentialsError)
    else if !StartsWith(accessToken.value, BearerPrefix) then Failure(CredentialsError)
    else
      var token := accessToken.value[|BearerPrefix|..];
      assert accessToken.value == accessToken.value[..|BearerPrefix|] + token;
      Success(token)
  }

  /** `get_refresh_token_from_cookie(refresh_token)`. */
  function GetRefreshTokenFromCookie(refreshToken: Option<string>): (r: Result<string, HttpError>)
    ensures r.Success? <==> refreshToken.Some? && StartsWith(refreshToken.value, BearerPrefix)
    ensures r.Success? ==> BearerPrefix + r.value == refreshToken.value
    ensures r.Failure? ==> r.error == CredentialsError
  {
    if refreshToken.None? then Failure(CredentialsError)
    else if !StartsWith(refreshToken.value, BearerPrefix) then Failure(CredentialsError)
    else
      var token := refreshToken.value[|BearerPrefix|..];
      assert refreshToken.value == refreshToken.value[..|BearerPrefix|] + token;
      Success(token)
  }

  /** The two extractors are the same function of the cookie value. */
  lemma ExtractorsAgree(cookie: Option<string>)
    ensures GetAccessTokenFromCookie(cookie) == GetRefreshTokenFromCookie(cookie)
  {
  }

  /** Stripping is the inverse of the prefixing the login handler does. */
  lemma ExtractBearer(token: string)
    ensures GetAccessTokenFromCookie(Some(BearerPrefix + token)) == Success(token)
    ensures GetRefreshTokenFromCookie(Some(BearerPrefix + token)) == Success(token)
  {
    PrefixStrip(BearerPrefix, token);
  }

  /**
   * `get_cur_user`: the access token from the cookie, decoded (signature and
   * expiry), its `sub`, and the stored user of that email.
   */
  function GetCurUser(accessToken: Option<string>, users: Table, now: int): (r: Result<User, HttpError>)
    ensures r.Failure? ==> r.error == CredentialsError
    ensures r.Success? ==> r.value.email in users && r.value == Row(users, r.value.email)
    ensures r.Success? ==> exists c: Jwt.Claims ::
      accessToken == Some(BearerPrefix + Jwt.Encode(c)) && c.sub == Some(r.value.email) && Jwt.NotExpired(c, now)
  {
    match GetAccessTokenFromCookie(accessToken)
    case Failure(e) => Failure(e)
    case Success(token) =>
      match Jwt.Decode(token, now)
      case Failure(_) => Failure(CredentialsError)
      case Success(payload) =>
        if payload.sub.None? then Failure(CredentialsError)
        else if payload.sub.value !in users then Failure(CredentialsError)
        else Success(Row(users, payload.sub.value))
  }

  /** A missing cookie, or one without the `Bearer ` prefix, is rejected. */
  lemma GetCurUserNeedsBearerCookie(accessToken: Option<string>, users: Table, now: int)
    requires accessToken.None? || !StartsWith(accessToken.value, BearerPrefix)
    ensures GetCurUser(accessToken, users, now) == Failure(CredentialsError)
  {
  }

  /**
   * On a cookie holding the encoding of some claims, the outcome is decided by the
   * claims alone: success exactly when they have not expired, name a subject, and
   * that subject is a stored email, and then the user is that email's record.
   */
  lemma GetCurUserOnClaims(c: Jwt.Claims, users: Table, now: int)
    ensures GetCurUser(Some(BearerPrefix + Jwt.Encode(c)), users, now) ==
      if Jwt.NotExpired(c, now) && c.sub.Some? && c.sub.value in users
      then Success(Row(users, c.sub.value))
      else Failure(CredentialsError)
  {
    ExtractBearer(Jwt.Encode(c));
    Jwt.EncodeParses(c);
  }

  /** A cookie that holds no encoding of claims (a forged or damaged token) is rejected. */
  lemma GetCurUserRejectsUndecodable(token: string, users: Table, now: int)
    requires Jwt.Parse(token).None?
    ensures GetCurUser(Some(BearerPrefix + token), users, now) == Failure(CredentialsError)
  {
    ExtractBearer(token);
  }
}
