/**
 * Password hashing and token issuance (back/src/security.py).
 *
 * The password hasher is bcrypt behind a hashing context; here it is an injective
 * stand-in whose output carries bcrypt's `$2b$` scheme marker. Verifying against a
 * string the context does not recognise as a bcrypt hash is an error (the context
 * raises), not a `False`.
 */
module Security {
  import opened Wrappers
  import opened Text
  import opened Schemas
  import Jwt

  const BcryptMarker := "$2b$"

  /** A string the hashing context recognises as a bcrypt hash. */
  predicate IsBcryptHash(h: string)
  {
    StartsWith(h, BcryptMarker)
  }

  /** `get_hashed_pw(pw)`. Salting and the cost factor are not modelled. */
  function GetHashedPw(pw: string): (h: string)
    ensures IsBcryptHash(h)
  {
    PrefixStrip(BcryptMarker, pw);
    BcryptMarker + pw
  }

  datatype HashError = UnknownHashFormat

  /** `verify_pw(plain_pw, hashed_pw)`. */
  function VerifyPw(plainPw: string, hashedPw: string): (r: Result<bool, HashError>)
    ensures r.Failure? <==> !IsBcryptHash(hashedPw)
  {
    if IsBcryptHash(hashedPw) then Success(hashedPw == GetHashedPw(plainPw))
    else Failure(UnknownHashFormat)
  }

  /** Against a hash it produced, verification never fails and answers whether the passwords match. */
  lemma VerifyHashed(plainPw: string, pw: string)
    ensures VerifyPw(plainPw, GetHashedPw(pw)) == Success(plainPw == pw)
  {
    if GetHashedPw(plainPw) == GetHashedPw(pw) {
      PrefixStrip(BcryptMarker, plainPw);
      PrefixStrip(BcryptMarker, pw);
    }
  }

  /** A token and the expiry (seconds since the epoch) it encodes. */
  datatype IssuedToken = IssuedToken(token: string, exp: int)

  const SecondsPerMinute := 60
  const SecondsPerDay := 86400

  /** The claims an issued token carries. */
  function IssuedClaims(sub: string, exp: int): Jwt.Claims
  {
    Jwt.Claims(Some(sub), Some(exp))
  }

  /** `create_access_token(TokenPayload(sub=sub))` at time `now`. */
  function CreateAccessToken(sub: string, now: int, settings: Settings): (r: IssuedToken)
    ensures r.exp == now + settings.accessExpireMinutes * SecondsPerMinute
    ensures Jwt.Parse(r.token) == Some(IssuedClaims(sub, r.exp))
    ensures settings.accessExpireMinutes > 0 ==> r.exp > now
  {
    var exp := now + settings.accessExpireMinutes * SecondsPerMinute;
    Jwt.EncodeParses(IssuedClaims(sub, exp));
    IssuedToken(Jwt.Encode(IssuedClaims(sub, exp)), exp)
  }

  /**
   * `create_refresh_token(TokenPayload(sub=sub))` at time `now`. The lifetime is
   * `TOKEN_REFRESH_EXPIRE_DAYS` taken as a number of minutes, as `create_refresh_token` does.
   */
  function CreateRefreshToken(sub: string, now: int, settings: Settings): (r: IssuedToken)
    ensures r.exp == now + settings.refreshExpireDays * SecondsPerMinute
    ensures Jwt.Parse(r.token) == Some(IssuedClaims(sub, r.exp))
    ensures settings.refreshExpireDays > 0 ==> r.exp > now
  {
    var exp := now + settings.refreshExpireDays * SecondsPerMinute;
    Jwt.EncodeParses(IssuedClaims(sub, exp));
    IssuedToken(Jwt.Encode(IssuedClaims(sub, exp)), exp)
  }

  /** The refresh lifetime is not the configured number of days unless that number is zero. */
  lemma RefreshLifetimeIsMinutes(sub: string, now: int, settings: Settings)
    ensures CreateRefreshToken(sub, now, settings).exp - now == settings.refreshExpireDays * SecondsPerMinute
    ensures settings.refreshExpireDays != 0 ==>
      CreateRefreshToken(sub, now, settings).exp != now + settings.refreshExpireDays * SecondsPerDay
  {
  }

  /** An issued token decodes to its own claims up to and including its expiry second, and is rejected after. */
  lemma IssuedTokenDecodes(t: IssuedToken, sub: string, at: int)
    requires Jwt.Parse(t.token) == Some(IssuedClaims(sub, t.exp))
    ensures at <= t.exp ==> Jwt.Decode(t.token, at) == Success(IssuedClaims(sub, t.exp))
    ensures at > t.exp ==> Jwt.Decode(t.token, at) == Failure(Jwt.Expired)
  {
  }
}
