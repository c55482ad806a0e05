/**
 * A client of the handlers: register an account, log in, ask who is logged in
 * with the cookie the login set, and log in again with a wrong password.
 */
module SessionScenario {
  import opened Wrappers
  import opened Schemas
  import opened Http
  import opened Security
  import opened Auth
  import opened UserRepository
  import opened LoginRouter
  import opened UserRouter

  method RegisterLoginWhoAmI(cur: Cursor, email: string, pw: string, wrongPw: string, now: int, settings: Settings)
    returns (created: Result<Reply, HttpError>, login: Result<Reply, HttpError>, me: Result<Reply, HttpError>,
             relogin: Result<Reply, HttpError>)
    requires email !in cur.users && wrongPw != pw
    requires settings.accessExpireMinutes >= 0
    modifies cur
    ensures created == Success(CreatedReply)
    ensures login == Success(LoginReply)
    ensures me == Success(Reply(200, UserRecord(User(email, GetHashedPw(pw)))))
    ensures relogin == Failure(InvalidLogin)
  {
    created := CreateUser(email, pw, cur);
    var response := new Response();
    login := Login(response, cur, email, pw, now, settings);
    CredentialsOfHashedAccount(cur.users, email, pw, pw);
    LoginSessionResolves(cur.users, email, now, settings, now);
    me := GetOwn(Some(response.cookies["access_token"].value), cur.users, now);
    var second := new Response();
    relogin := Login(second, cur, email, wrongPw, now, settings);
    LoginFailuresIndistinguishable(cur.users, email, wrongPw, pw);
  }

  /**
   * An update stores the new password as given; when that is not a bcrypt hash,
   * the next login with any password is the internal error.
   */
  method RegisterUpdateLogin(cur: Cursor, email: string, pw: string, newPw: string, attempt: string, now: int, settings: Settings)
    returns (updated: Result<Reply, HttpError>, login: Result<Reply, HttpError>)
    requires email !in cur.users && !IsBcryptHash(newPw)
    modifies cur
    ensures updated == Success(UpdatedReply(email))
    ensures login == Failure(LoginInternalError)
  {
    var created := CreateUser(email, pw, cur);
    updated := UpdateUser(email, newPw, cur);
    var response := new Response();
    login := Login(response, cur, email, attempt, now, settings);
    CredentialsOfRawAccount(cur.users, email, newPw, attempt);
  }

  /** After a logout in the same response, the access cookie no longer identifies anyone. */
  method LoginLogoutWhoAmI(cur: Cursor, email: string, pw: string, now: int, settings: Settings)
    returns (login: Result<Reply, HttpError>, me: Result<Reply, HttpError>)
    requires email in cur.users && cur.users[email] == GetHashedPw(pw)
    ensures login == Success(LoginReply)
    ensures me == Failure(CredentialsError)
  {
    var response := new Response();
    login := Login(response, cur, email, pw, now, settings);
    CredentialsOfHashedAccount(cur.users, email, pw, pw);
    var bye := Logout(response);
    me := GetOwn(Some(response.cookies["access_token"].value), cur.users, now);
  }
}
