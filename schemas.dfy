/**
 * The records of the service. `UserInDB`, `UserOutDB` and `UserOut` all carry an
 * email and a password field and are one datatype here; the users table is a map
 * from email (its key) to the stored password string.
 */
module Schemas {

  datatype User = User(email: string, pw: string)

  type Table = map<string, string>

  /** The record a table holds for `email`. */
  function Row(users: Table, email: string): (u: User)
    requires email in users
    ensures u.email == email && u.pw == users[email]
  {
    User(email, users[email])
  }

  /** The settings the token issuer reads (`TOKEN_ACCESS_EXPIRE_MINUTES`, `TOKEN_REFRESH_EXPIRE_DAYS`). */
  datatype Settings = Settings(accessExpireMinutes: int, refreshExpireDays: int)
}
