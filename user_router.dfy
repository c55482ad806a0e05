/**
 * The user handlers (back/src/routers/user.py) over the repository. The two reads
 * depend on the current user and so answer 401 without a valid access cookie;
 * create, delete and update take no cookie at all. Create stores the hash of the
 * password, update stores the password as given.
 */
module UserRouter {
  import opened Wrappers
  import opened Schemas
  import opened Http
  import opened Security
  import opened Auth
  import opened UserRepository

  function NoSuchUser(email: string): HttpError
  {
    HttpError(404, "ユーザー：" + email + " は存在しません", false)
  }

  const AlreadyRegistered := HttpError(400, "このメールアドレスは既に登録されています", false)
  const CreatedReply := Reply(201, Message("message", "ユーザーが正常に作成されました"))

  function DeletedReply(email: string): Reply
  {
    Reply(200, Message("message", "ユーザー：" + email + " が正常に削除されました"))
  }

  function UpdatedReply(email: string): Reply
  {
    Reply(200, Message("message", "ユーザー：" + email + " が正常に更新されました"))
  }

  /** `GET /users/{email}`. */
  method GetUser(email: string, accessToken: Option<string>, cur: Cursor, now: int) returns (r: Result<Reply, HttpError>)
    ensures GetCurUser(accessToken, cur.users, now).Failure? ==> r == Failure(CredentialsError)
    ensures GetCurUser(accessToken, cur.users, now).Success? && email !in cur.users ==> r == Failure(NoSuchUser(email))
    ensures GetCurUser(accessToken, cur.users, now).Success? && email in cur.users ==>
      r == Success(Reply(200, UserRecord(Row(cur.users, email))))
  {
    var caller := GetCurUser(accessToken, cur.users, now);
    if caller.Failure? {
      return Failure(caller.error);
    }
    var repo := new UserRepo(cur);
    var user := repo.Get(email);
    if user.None? {
      return Failure(NoSuchUser(email));
    }
    r := Success(Reply(200, UserRecord(user.value)));
  }

  /**
   * `GET /users/`: every record. The handler answers 404 on an empty table, but
   * a caller that passed `get_cur_user` has a row of its own, so that answer is
   * never given: the call succeeds exactly when the caller is authenticated.
   */
  method GetUsers(accessToken: Option<string>, cur: Cursor, now: int) returns (r: Result<Reply, HttpError>)
    ensures GetCurUser(accessToken, cur.users, now).Failure? ==> r == Failure(CredentialsError)
    ensures GetCurUser(accessToken, cur.users, now).Success? ==>
      r.Success? && r.value.status == 200 && r.value.body.UserRecords?
    ensures r.Success? && r.value.body.UserRecords? ==>
      var rows := r.value.body.users;
      && |rows| == |cur.users|
      && (forall i | 0 <= i < |rows| :: rows[i].email in cur.users && rows[i] == Row(cur.users, rows[i].email))
      && (forall e | e in cur.users :: Row(cur.users, e) in rows)
  {
    var caller := GetCurUser(accessToken, cur.users, now);
    if caller.Failure? {
      return Failure(caller.error);
    }
    var repo := new UserRepo(cur);
    var users := repo.GetAll();
    if users == [] {
      // the 404 "ユーザーが存在しません": the caller's own row is in the table
      assert false;
    }
    r := Success(Reply(200, UserRecords(users)));
  }

  /** `POST /users/`: registers `email` with the hash of `pw`, unless the email is taken. */
  method CreateUser(email: string, pw: string, cur: Cursor) returns (r: Result<Reply, HttpError>)
    modifies cur
    ensures email in old(cur.users) ==> r == Failure(AlreadyRegistered) && cur.users == old(cur.users)
    ensures email !in old(cur.users) ==> r == Success(CreatedReply) && cur.users == old(cur.users)[email := GetHashedPw(pw)]
  {
    var repo := new UserRepo(cur);
    var user := repo.Get(email);
    if user.Some? {
      return Failure(AlreadyRegistered);
    }
    var inserted := repo.Create(User(email, GetHashedPw(pw)));
    assert inserted;
    r := Success(CreatedReply);
  }

  /** `DELETE /users/{email}`. */
  method DeleteUser(email: string, cur: Cursor) returns (r: Result<Reply, HttpError>)
    modifies cur
    ensures email !in old(cur.users) ==> r == Failure(NoSuchUser(email)) && cur.users == old(cur.users)
    ensures email in old(cur.users) ==> r == Success(DeletedReply(email)) && cur.users == old(cur.users) - {email}
  {
    var repo := new UserRepo(cur);
    var user := repo.Get(email);
    if user.None? {
      return Failure(NoSuchUser(email));
    }
    repo.Delete(email);
    r := Success(DeletedReply(email));
  }

  /** `PUT /users/{email}`: stores `pw` as the password, without hashing it. */
  method UpdateUser(email: string, pw: string, cur: Cursor) returns (r: Result<Reply, HttpError>)
    modifies cur
    ensures email !in old(cur.users) ==> r == Failure(NoSuchUser(email)) && cur.users == old(cur.users)
    ensures email in old(cur.users) ==> r == Success(UpdatedReply(email)) && cur.users == old(cur.users)[email := pw]
  {
    var repo := new UserRepo(cur);
    var user := repo.Get(email);
    if user.None? {
      return Failure(NoSuchUser(email));
    }
    repo.Update(User(email, pw));
    r := Success(UpdatedReply(email));
  }
}
