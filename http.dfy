/**
 * The HTTP vocabulary the handlers produce: an `HTTPException` (status, detail and
 * whether it carries the `WWW-Authenticate: Bearer` header), a successful reply,
 * and the response's cookie jar with the web framework's `set_cookie` and
 * `delete_cookie`.
 */
module Http {
  import opened Wrappers
  import opened Schemas

  datatype HttpError = HttpError(status: nat, detail: string, bearerChallenge: bool)

  /** A JSON body: `{key: text}`, one user record, or a list of them. */
  datatype Body = Message(key: string, text: string) | UserRecord(user: User) | UserRecords(users: seq<User>)

  datatype Reply = Reply(status: nat, body: Body)

  /** One `Set-Cookie` directive. `expires` is the integer the handler passed, if any. */
  datatype Cookie = Cookie(value: string, maxAge: Option<int>, expires: Option<int>,
                           secure: bool, httponly: bool, samesite: string)

  /** What `delete_cookie(key)` writes: an empty value that expires at once. */
  const Deletion := Cookie("", Some(0), Some(0), false, false, "lax")

  /**
   * The moment a client discards a cookie it received at `sentAt`, per RFC 6265
   * (no cap on a cookie's lifetime). An integer `expires` is rendered by Python's
   * cookie library as that many seconds after the moment of rendering, and
   * `Max-Age` takes precedence over `Expires`; `None` is a session cookie.
   */
  function DiscardedAt(c: Cookie, sentAt: int): Option<int>
  {
    if c.maxAge.Some? then Some(sentAt + c.maxAge.value)
    else if c.expires.Some? then Some(sentAt + c.expires.value)
    else None
  }

  /** A deletion directive is discarded the moment it arrives, whenever it is sent. */
  lemma DeletionDiscardedOnArrival(sentAt: int)
    ensures DiscardedAt(Deletion, sentAt) == Some(sentAt)
  {
  }

  /**
   * A cookie carrying only an integer `expires`, sent after the epoch, is kept
   * beyond that integer read as an absolute timestamp.
   */
  lemma RelativeExpiresOutlivesTimestamp(c: Cookie, sentAt: int)
    requires c.maxAge.None? && c.expires.Some? && sentAt > 0
    ensures DiscardedAt(c, sentAt).Some? && DiscardedAt(c, sentAt).value > c.expires.value
  {
  }

  /** Two writes under different keys add both directives to the jar. */
  lemma WriteTwo(jar: map<string, Cookie>, k1: string, c1: Cookie, k2: string, c2: Cookie)
    requires k1 != k2
    ensures jar[k1 := c1][k2 := c2] == jar + map[k1 := c1, k2 := c2]
  {
  }

  /** The framework's response object; only its cookie jar is modelled. */
  class Response {
    var cookies: map<string, Cookie>

    constructor ()
      ensures cookies == map[]
    {
      cookies := map[];
    }

    /** `set_cookie(key, value, expires=..., secure=..., httponly=..., samesite=...)`; `max_age` is left unset. */
    method SetCookie(key: string, value: string, expires: int, secure: bool, httponly: bool, samesite: string)
      modifies this
      ensures cookies == old(cookies)[key := Cookie(value, None, Some(expires), secure, httponly, samesite)]
    {
      cookies := cookies[key := Cookie(value, None, Some(expires), secure, httponly, samesite)];
    }

    /** `delete_cookie(key)`: a directive with `max_age=0` and `expires=0`. */
    method DeleteCookie(key: string)
      modifies this
      ensures cookies == old(cookies)[key := Deletion]
    {
      cookies := cookies[key := Deletion];
    }
  }
}
