# Cookie-session user service, modelled in Dafny

This is a model of the back end of a small FastAPI user service. The service registers
accounts, keyed by email, with a bcrypt-hashed password. It logs users in by setting two
HTTP-only cookies, `access_token` and `refresh_token`, each holding `Bearer <JWT>`. It
resolves the current user from the access cookie, refreshes the tokens from the refresh
cookie, logs out by deleting the cookies, and offers create/read/update/delete over one
`users` table.

The model is split into modules:

- `Jwt`: the token stand-in. The token is a string that encodes the claims `sub` and
  `exp`. `Encode` and `Parse` are proved inverse in both directions. `Decode` rejects
  malformed strings and tokens whose `exp` is already past.
- `Security`: the password stand-in and token issuance. The bcrypt stand-in produces a
  string carrying the `$2b$` marker. The model treats a stored string as a bcrypt hash
  exactly when it carries that marker. Verifying against any other string is an error,
  as the real hashing context raises on a value it cannot identify. The real context
  decides this differently; see `Security.VerifyPw` under "Left out".
- `Auth`: the two cookie extractors and `get_cur_user`.
- `Http`: the response cookie jar. It is a class whose `map` field is rewritten by
  `SetCookie` and `DeleteCookie`, following the framework's `set_cookie`/`delete_cookie`.
  The framework appends one `Set-Cookie` header per call and never overwrites an earlier
  one. The map is the client's final view after it applies those headers in order. The
  two differ only when one response carries two directives for one key, which happens
  only in `SessionScenario.LoginLogoutWhoAmI`.
- `UserRepository`: a `Cursor` class owning the `users` table and a `UserRepo` class
  issuing one statement per method against it.
- `LoginRouter`: `login`, `logout`, `get_own` and `refresh`.
- `UserRouter`: the `/users` handlers.
- `CaseNaming`: `snake_case_to_camel_case`.
- `SessionScenario`: client sequences that chain the handlers.

Time is a parameter `now`, in integer seconds since the epoch. The settings are a value
holding the two lifetimes.

The model keeps several behaviours of the code exactly as written:

- **Refresh lifetime.** The refresh token lives `TOKEN_REFRESH_EXPIRE_DAYS` *minutes*,
  not days, because the code passes the setting as `minutes=`.
- **Refresh cookie name.** `refresh` stores the new access token under the cookie
  `access_tokenr`, with `samesite="none"`. The old `access_token` cookie is left
  untouched.
- **Un-awaited lookup.** `refresh` calls the repository's `get` without awaiting it. The
  result is a coroutine object and never `None`, so the table is never read. A refresh
  cookie stays valid for a deleted account.
- **Raw-password update.** `update_user` stores the new password without hashing it,
  while `create_user` stores the hash. A later login then makes the hashing context
  raise on the unrecognised stored value. `login` turns that into its 500 error, for
  every password tried.
- **Relative expires.** `login` passes the token's absolute expiry timestamp as the
  integer `expires` of `set_cookie`. The framework renders an integer `expires` as
  seconds from the moment the header is sent. A client following RFC 6265 therefore
  keeps the cookie far past the token's expiry (`LoginCookieOutlivesToken`).
- **Unreachable 404.** `get_users` answers 404 for an empty table. That answer cannot
  be given: the handler first requires an authenticated caller, whose own row is in the
  table. The model keeps the check and proves that branch dead.

## Model

| member | source | states |
|---|---|---|
| Security.GetHashedPw | back/src/security.py:26-32 | the stored form of a password is always recognised as a bcrypt hash |
| Security.VerifyPw | back/src/security.py:14-24 | verification is an error exactly when the stored string is not a bcrypt hash |
| Security.VerifyHashed | back/src/security.py:14-32 | against a hash it produced, verification succeeds and answers true exactly for the same password |
| Security.CreateAccessToken | back/src/security.py:35-43 | expiry is now plus the access lifetime in minutes; the token decodes to claims naming the subject and that expiry; a positive lifetime gives an expiry after now |
| Security.CreateRefreshToken | back/src/security.py:46-55 | expiry is now plus the refresh setting counted as minutes; the token carries the subject and that expiry |
| Security.RefreshLifetimeIsMinutes | back/src/security.py:52 | the refresh lifetime differs from the configured number of days whenever that number is non-zero |
| Security.IssuedTokenDecodes | back/src/security.py:40-43 | an issued token decodes to its own claims up to its expiry second and is rejected as expired after it |
| Jwt.Decode | back/src/dependencies/auth.py:71-75 | a successful decode returns claims whose encoding is the token and which are not expired at `now` |
| Jwt.DecodeExactly | back/src/dependencies/auth.py:71-75 | decoding yields claims `c` if and only if the token is the encoding of `c` and `c` has not expired |
| Jwt.Encode | back/src/security.py:42 | the stand-in for `jwt.encode`; it has no contract of its own, and its properties are stated by `EncodeParses`, `EncodeInjective` and `DecodeExactly` |
| Jwt.Parse | back/src/dependencies/auth.py:71-75 | the signature and format check of `jwt.decode`; it has no contract of its own, and `EncodeParses` and `ParseEncodes` prove it is the exact inverse of `Encode` |
| Jwt.EncodeParses | back/src/security.py:41-42 | parsing the encoding of any claims gives those claims back |
| Jwt.ParseEncodes | back/src/security.py:41-42 | every parsable token is the encoding of what it parses to |
| Jwt.EncodeInjective | back/src/security.py:41-42 | two claims have the same encoding if and only if they are equal |
| Jwt.IntTextRoundTrip | back/src/security.py:41 | the decimal text of an integer `exp` parses back to that integer |
| Jwt.ParseIntCanonical | back/src/security.py:41 | the only text parsing to an integer is that integer's canonical decimal text |
| Auth.GetAccessTokenFromCookie | back/src/dependencies/auth.py:32-45 | success if and only if the cookie is present and starts with `Bearer `; the prefix followed by the result is the cookie; every failure is the 401 credentials error |
| Auth.GetRefreshTokenFromCookie | back/src/dependencies/auth.py:48-61 | the same contract for the refresh cookie |
| Auth.ExtractorsAgree | back/src/dependencies/auth.py:32-61 | the two extractors give the same result on every cookie value |
| Auth.ExtractBearer | back/src/dependencies/auth.py:32-61 | stripping `Bearer ` undoes the prefixing the handlers write |
| Auth.GetCurUser | back/src/dependencies/auth.py:64-94 | every failure is the credentials error; a success is a stored user's record, and the cookie carries unexpired claims naming that user |
| Auth.GetCurUserNeedsBearerCookie | back/src/dependencies/auth.py:36-41 | a missing cookie, or one without the prefix, is rejected |
| Auth.GetCurUserOnClaims | back/src/dependencies/auth.py:69-94 | on encoded claims, success exactly when they are unexpired, name a subject and that subject is stored; the user is then that row |
| Auth.GetCurUserRejectsUndecodable | back/src/dependencies/auth.py:92-94 | a token that is no encoding of claims is rejected with the credentials error |
| Http.DeletionDiscardedOnArrival | back/src/routers/login.py:121-122 | the directive `delete_cookie` writes is discarded by the client the moment it arrives |
| Http.RelativeExpiresOutlivesTimestamp | back/src/routers/login.py:88-94 | a cookie with only an integer `expires`, sent after the epoch, is kept beyond that integer read as an absolute timestamp |
| Http.Response.SetCookie | back/src/routers/login.py:88-94 | the jar maps the key to the new directive, with no `max_age`, and keeps every other key |
| Http.Response.DeleteCookie | back/src/routers/login.py:121-122 | the jar maps the key to the deletion directive (empty value, `max_age` 0) and keeps every other key |
| LoginRouter.CheckCredentials | back/src/routers/login.py:53-69 | success if and only if the email is stored and the password verifies, giving that row; the 500 error if and only if the stored value is not a bcrypt hash; no other error than that and the 401 |
| LoginRouter.LoginFailuresIndistinguishable | back/src/routers/login.py:56-69 | a wrong password and an unknown email give the identical 401 |
| LoginRouter.CredentialsOfHashedAccount | back/src/routers/login.py:63-69 | an account stored by registration accepts exactly its own password |
| LoginRouter.CredentialsOfRawAccount | back/src/routers/login.py:108-116 | an account whose stored password is not a bcrypt hash answers every login with the 500 error |
| LoginRouter.BearerCookie | back/src/routers/login.py:88-101 | the cookie value is `Bearer ` plus the token, `expires` is the token's expiry, it is HTTP-only and not secure |
| LoginRouter.LoginCookies | back/src/routers/login.py:88-101 | a login writes exactly `access_token` and `refresh_token`, each carrying its freshly issued token, with samesite `lax` |
| LoginRouter.Login | back/src/routers/login.py:44-116 | succeeds if and only if the credentials check does; then the jar gains exactly the login cookies; on failure it returns the check's error and writes nothing |
| LoginRouter.SetSessionCookies | back/src/routers/login.py:87-101 | the two `set_cookie` calls add exactly the login cookies to the jar |
| LoginRouter.LoginCookiesCarryTheirExpiry | back/src/routers/login.py:72-101 | each login cookie holds a `Bearer` token whose claims are the email and the cookie's own `expires` |
| LoginRouter.LoginSessionResolves | back/src/routers/login.py:72-94 | the access cookie of a login resolves to that account until the access token expires, and to the credentials error after |
| LoginRouter.LoginCookieOutlivesToken | back/src/routers/login.py:88-94 | a client following RFC 6265 discards the access cookie at send time plus the absolute expiry, later than the token's expiry |
| LoginRouter.BearerCookieDiscardedAt | back/src/routers/login.py:88-101 | a session cookie sent after the epoch is discarded `exp` seconds after sending, later than `exp` |
| LoginRouter.LoginCookiesAreBearer | back/src/routers/login.py:88-101 | every cookie a login writes is `Bearer ` plus a token carrying the account and the cookie's own expiry, HTTP-only, not secure, with no `max_age`, samesite `lax` |
| LoginRouter.RefreshCookiesAreBearer | back/src/routers/login.py:175-191 | every cookie a refresh writes has the same shape, with samesite `none` |
| LoginRouter.LogoutCookies | back/src/routers/login.py:119-125 | both session keys hold the deletion directive; every other cookie is kept |
| LoginRouter.Logout | back/src/routers/login.py:119-125 | replies with the logout message and leaves the jar as `LogoutCookies` of the old jar |
| LoginRouter.LogoutIdempotent | back/src/routers/login.py:119-125 | a second logout leaves the jar as the first left it |
| LoginRouter.GetOwn | back/src/routers/login.py:127-130 | succeeds exactly when `get_cur_user` does, returning the very user it resolved: the stored row of the `sub` of the unexpired claims the access cookie encodes; every failure is the credentials error |
| LoginRouter.RefreshSubject | back/src/routers/login.py:140-157 | every failure is the credentials error; a success is the subject of unexpired claims encoded in the refresh cookie |
| LoginRouter.RefreshOnClaims | back/src/routers/login.py:143-150 | on encoded claims, refresh accepts exactly when they are unexpired and name a subject |
| LoginRouter.RefreshCookies | back/src/routers/login.py:175-191 | a refresh writes exactly `access_tokenr` and `refresh_token`, with fresh tokens and samesite `none` |
| LoginRouter.Refresh | back/src/routers/login.py:133-199 | succeeds if and only if the refresh decision does; then the jar gains exactly the refresh cookies; otherwise the credentials error and the jar is unchanged |
| LoginRouter.SetRefreshedCookies | back/src/routers/login.py:159-191 | the two `set_cookie` calls add exactly the refresh cookies to the jar |
| LoginRouter.RefreshKeepsAccessCookie | back/src/routers/login.py:176-183 | a refresh neither adds, removes nor changes the `access_token` cookie |
| LoginRouter.RefreshAcceptsDeletedAccount | back/src/routers/login.py:152-157 | the refresh cookie of a login still refreshes after the account is deleted, while the access cookie of that login is rejected |
| UserRepository.UserRepo.Get | back/src/repositories/user.py:15-39 | None if and only if the email is not stored; otherwise the stored record |
| UserRepository.UserRepo.GetAll | back/src/repositories/user.py:42-61 | one record per stored row, each as stored, no email twice, every stored row present |
| UserRepository.UserRepo.Create | back/src/repositories/user.py:64-81 | inserts exactly when the email is new; a duplicate key leaves the table unchanged |
| UserRepository.UserRepo.Update | back/src/repositories/user.py:84-99 | sets the password of the matching row; no row matches an absent email |
| UserRepository.UserRepo.Delete | back/src/repositories/user.py:102-117 | the table loses exactly that email |
| UserRepository.CreateThenGet | back/src/repositories/user.py:15-81 | a record read back after inserting a new email is the record inserted |
| UserRepository.UpdateThenGet | back/src/repositories/user.py:15-99 | an update changes only its own row; any other row reads back as before |
| UserRouter.GetUser | back/src/routers/user.py:26-54 | 401 without a valid access cookie; otherwise 404 for an unknown email, else 200 with the stored record |
| UserRouter.GetUsers | back/src/routers/user.py:62-86 | 401 without a valid access cookie; otherwise always 200 with every stored record exactly once |
| UserRouter.CreateUser | back/src/routers/user.py:94-130 | 400 with the table unchanged for a taken email; otherwise 201 and the table gains the email with the hash of the password |
| UserRouter.DeleteUser | back/src/routers/user.py:138-167 | 404 with the table unchanged for an unknown email; otherwise 200 and the row is removed |
| UserRouter.UpdateUser | back/src/routers/user.py:175-209 | 404 with the table unchanged for an unknown email; otherwise 200 and the row holds the password as given |
| SessionScenario.RegisterLoginWhoAmI | back/src/routers/login.py:44-130 | after registering, login succeeds, `/me` with the cookie login set returns the new account, and a wrong password gets the 401 |
| SessionScenario.RegisterUpdateLogin | back/src/routers/user.py:192-195 | after an update stores a non-bcrypt password, every login to that account is the 500 error |
| SessionScenario.LoginLogoutWhoAmI | back/src/routers/login.py:119-130 | after login then logout on one response, the access cookie left in the jar identifies no one |
| CaseNaming.Split | back/src/main.py:22 | one more component than underscores; no component contains `_` |
| CaseNaming.JoinSplit | back/src/main.py:22 | joining the components with `_` gives back the name |
| CaseNaming.SplitJoin | back/src/main.py:22 | splitting an `_`-join of underscore-free parts gives back those parts |
| CaseNaming.SplitAppend | back/src/main.py:22 | splitting `a_b`, where `a` has no underscore, gives `a` followed by the split of `b` |
| CaseNaming.SplitWithoutUnderscore | back/src/main.py:22 | a name without `_` is one component |
| CaseNaming.TitleChar | back/src/main.py:23 | casing keeps whether a character is cased; uncased characters are unchanged |
| CaseNaming.Title | back/src/main.py:23 | preserves length; a letter at the start or after a non-letter is upper-cased, a letter after a letter is lower-cased, anything else is kept |
| CaseNaming.TitleAll | back/src/main.py:23 | the `"".join` of the title-cased components is exactly as long as the components together |
| CaseNaming.SnakeCaseToCamelCase | back/src/main.py:21-23 | the first component followed by the title-cased later components; it has no contract of its own, and its properties are stated by `FirstComponentKept`, `CamelCaseShape`, `CamelCaseWithoutUnderscore` and `CamelCaseExample` |
| CaseNaming.TitleAllShape | back/src/main.py:23 | title-casing underscore-free components keeps their total length and introduces no `_` |
| CaseNaming.FirstComponentKept | back/src/main.py:21-23 | the result starts with the first component, unchanged |
| CaseNaming.CamelCaseShape | back/src/main.py:21-23 | the result has no `_`, and its length is the name's length minus its underscores |
| CaseNaming.CamelCaseWithoutUnderscore | back/src/main.py:21-23 | a name without `_` is returned unchanged |
| CaseNaming.CamelCaseExample | back/src/main.py:21-23 | the route name `get_cur_user` becomes the operation id `getCurUser` |

## Left out

- Network, the ASGI server, routing, request parsing, response-model filtering and logging are left out: they are I/O.
- The `print` calls in `get_own` and `refresh` are left out: they are output only.
- The database connection, `commit` and `rollback` are left out. Each repository statement is atomic on an in-memory table.
- Emails compare exactly, as strings. The column's collation is not modelled; MySQL's default collations ignore case and trailing spaces.
- The handlers' 500 paths for driver faults are left out, because the table never faults. The exception is `login`'s 500 for a stored value that is not a bcrypt hash, which is modelled.
- Concurrency is left out. With concurrent deletes, the unreachable 404 of `get_users` could become reachable.
- The JWT signature, secret key and algorithm are left out. The codec is an injective string encoding, so a forged or damaged token is simply one that does not parse.
- Jwt.Decode: clock leeway and registered claims other than `sub` and `exp` are not checked. The `exp` claim is always an integer here.
- The token payload's `datetime` is converted to a whole number of seconds; sub-second time is not modelled.
- Security.VerifyPw: a stored string counts as a bcrypt hash exactly when it starts with `$2b$`. The real hashing context also accepts the `$2a$`, `$2y$` and `$2$` prefixes, which the model treats as errors; it raises on `$2x$`, as the model does. It also rejects a `$2b$` string that is not a well-formed hash of 60 characters in bcrypt's alphabet. So a raw password such as `$2b$abc`, stored by `update_user`, makes login a 500 in the service, while in the model `abc` logs in and any other password gets the 401. The 500 of `CredentialsOfRawAccount` is proved only for raw passwords without that prefix.
- Security.GetHashedPw: bcrypt's salt, cost factor and 72-byte password limit are not modelled. The stand-in is deterministic and injective, which is as strong as what `verify` promises about matching.
- Http.DiscardedAt: the client follows RFC 6265, which puts no cap on a cookie's lifetime. User agents that follow its successor draft (RFC 6265bis), Chrome among them, cap it at 400 days. There, the login cookies are discarded after 400 days, still after the tokens expire, rather than at the moment `LoginCookieOutlivesToken` names.
- Cookie `path`, `domain` and the `WWW-Authenticate` header value are not modelled. The header is kept only as a flag on the error.
- CaseNaming.Title: case mapping covers ASCII letters only. Other characters count as uncased, whereas Python's `str.title` also recognises non-ASCII letters. `str.title` can also lengthen a string (`'ß'.title()` is `'Ss'`), so the length equation of `CamelCaseShape` holds in the service only for ASCII names.
- The `use_route_names_as_operation_ids` loop over the application's routes, the settings loader and `get_conn_and_cursor` are not part of this model.
