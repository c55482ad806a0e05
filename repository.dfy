/**
 * The users repository (back/src/repositories/user.py). A `Cursor` stands for the
 * database connection's view of the `users` table, keyed by email; a `UserRepo`
 * holds the cursor and runs one statement per method against it. Each statement
 * is atomic; transactions, commit and rollback are not modelled. Emails compare
 * exactly, as strings; the column's collation is not modelled.
 */
module UserRepository {
  import opened Wrappers
  import opened Schemas

  class Cursor {
    var users: Table

    constructor (users: Table)
      ensures this.users == users
    {
      this.users := users;
    }
  }

  class UserRepo {
    const cur: Cursor

    constructor (cur: Cursor)
      ensures this.cur == cur
    {
      this.cur := cur;
    }

    /** `SELECT email, pw FROM users WHERE email = ...`: the row, or None. */
    method Get(email: string) returns (u: Option<User>)
      ensures u.None? <==> email !in cur.users
      ensures u.Some? ==> u.value.email == email && u.value.pw == cur.users[email]
    {
      if email in cur.users {
        u := Some(User(email, cur.users[email]));
      } else {
        u := None;
      }
    }

    /**
     * `SELECT email, pw FROM users`: one record per row, in an order the table
     * does not fix; `[]` for an empty table.
     */
    method GetAll() returns (rows: seq<User>)
      ensures |rows| == |cur.users|
      ensures forall i | 0 <= i < |rows| :: rows[i].email in cur.users && rows[i].pw == cur.users[rows[i].email]
      ensures forall i, j | 0 <= i < j < |rows| :: rows[i].email != rows[j].email
      ensures forall e | e in cur.users :: Row(cur.users, e) in rows
    {
      var pending := cur.users.Keys;
      rows := [];
      while pending != {}
        invariant pending <= cur.users.Keys
        invariant |rows| + |pending| == |cur.users.Keys|
        invariant forall i | 0 <= i < |rows| ::
          rows[i].email in cur.users && rows[i].email !in pending && rows[i].pw == cur.users[rows[i].email]
        invariant forall i, j | 0 <= i < j < |rows| :: rows[i].email != rows[j].email
        invariant forall e | e in cur.users && e !in pending :: Row(cur.users, e) in rows
        decreases pending
      {
        var e :| e in pending;
        rows := rows + [Row(cur.users, e)];
        pending := pending - {e};
      }
    }

    /**
     * `INSERT INTO users ...`: adds the row. On a duplicate email the statement
     * raises and inserts nothing; `false` stands for that error, on which
     * `create_user` would roll back and answer 500. That case cannot arise from
     * `create_user`, which looks the email up first.
     */
    method Create(user: User) returns (inserted: bool)
      modifies cur
      ensures inserted <==> user.email !in old(cur.users)
      ensures cur.users == if inserted then old(cur.users)[user.email := user.pw] else old(cur.users)
    {
      inserted := user.email !in cur.users;
      if inserted {
        cur.users := cur.users[user.email := user.pw];
      }
    }

    /** `UPDATE users SET pw = ... WHERE email = ...`: no row matches an absent email. */
    method Update(user: User)
      modifies cur
      ensures cur.users == if user.email in old(cur.users) then old(cur.users)[user.email := user.pw] else old(cur.users)
    {
      if user.email in cur.users {
        cur.users := cur.users[user.email := user.pw];
      }
    }

    /** `DELETE FROM users WHERE email = ...`. */
    method Delete(email: string)
      modifies cur
      ensures cur.users == old(cur.users) - {email}
    {
      cur.users := cur.users - {email};
    }
  }

  /** A record read back after a successful insert is the record inserted. */
  method CreateThenGet(repo: UserRepo, user: User) returns (read: Option<User>)
    requires user.email !in repo.cur.users
    modifies repo.cur
    ensures read == Some(user)
    ensures repo.cur.users == old(repo.cur.users)[user.email := user.pw]
  {
    var inserted := repo.Create(user);
    read := repo.Get(user.email);
  }

  /** An update touches only the password of its own row; other rows read back unchanged. */
  method UpdateThenGet(repo: UserRepo, user: User, other: string) returns (mine: Option<User>, theirs: Option<User>)
    requires other != user.email
    modifies repo.cur
    ensures mine == if user.email in old(repo.cur.users) then Some(user) else None
    ensures theirs == if other in old(repo.cur.users) then Some(Row(old(repo.cur.users), other)) else None
  {
    repo.Update(user);
    mine := repo.Get(user.email);
    theirs := repo.Get(other);
  }
}
