/** The data the account API works on: user records, the table that holds
    them, the identity of the caller of a request, and the bearer token that
    login hands out. */
module Accounts {

  datatype Option<T> = None | Some(value: T)

  /** The distinct failure kinds of the handlers. `UsernameTaken` is the
      database's unique constraint on `username` rejecting a save. */
  datatype Error = AuthRequired | PermissionDenied | NotFound | BadCredentials | UsernameTaken

  datatype Result<T> = Ok(value: T) | Err(error: Error)

  /** Django's password hasher, taken as an arbitrary function from a raw
      password to the string stored in the `password` column. */
  type Hasher = string -> string

  /** One row of the user table. The password is kept only as its hash. */
  datatype Account = Account(id: int, username: string, email: string, passwordHash: string, isStaff: bool)

  /** The user attached to a request: the anonymous user, or the account
      the authentication middleware loaded for the request's bearer token. */
  datatype Caller = Anonymous | Authenticated(user: Account)

  /** An issued bearer token. Its payload names the account by username. */
  datatype Token = Token(username: string)

  /** The user table and the next value of its auto-increment primary key. */
  datatype Db = Db(rows: map<int, Account>, nextId: int)

  /** `user.check_password(password)`: the stored hash is the hash of `password`. */
  predicate CheckPassword(h: Hasher, acc: Account, password: string)
  {
    acc.passwordHash == h(password)
  }

  predicate UsernameInUse(rows: map<int, Account>, username: string)
  {
    exists k :: k in rows && rows[k].username == username
  }

  predicate UniqueUsernames(rows: map<int, Account>)
  {
    forall i, j :: i in rows && j in rows && rows[i].username == rows[j].username ==> i == j
  }

  /** What the database guarantees of the table: every row sits under its
      own primary key, keys come from the auto-increment counter, and no two
      rows share a username. */
  predicate WellFormed(db: Db)
  {
    && 0 < db.nextId
    && (forall k :: k in db.rows ==> 0 < k < db.nextId && db.rows[k].id == k)
    && UniqueUsernames(db.rows)
  }

  /** The caller's record is the one stored in the table right now, as it is
      when the middleware has just loaded it for the request. */
  predicate CallerIsCurrent(db: Db, caller: Caller)
  {
    caller.Authenticated? ==> caller.user.id in db.rows && db.rows[caller.user.id] == caller.user
  }

  /** The primary keys of the accounts that carry the staff flag. */
  function StaffIds(db: Db): set<int>
  {
    set k | k in db.rows && db.rows[k].isStaff
  }
}
