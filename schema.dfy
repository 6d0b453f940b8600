/** The account API's query and mutation handlers as functions from the
    table before the request to the handler's result and the table after it.
    Every handler except login checks first that the caller is authenticated;
    every failure leaves the table as it was. */
module Schema {
  import opened Accounts

  const CreatedMessage := "user created successfully"
  const WrongPasswordMessage := "Current password is incorrect"
  const PasswordUpdatedMessage := "Password updated successfuly"

  datatype Created = Created(user: Account, message: string)
  datatype LoginPayload = LoginPayload(token: Token, user: Account)
  datatype PasswordChange = PasswordChange(success: bool, message: string)

  /** `user.save()`: writes `acc` under its primary key (an update, or an
      insert when no row has that key) unless another row already holds its
      username, which the database's unique constraint refuses. */
  function Save(rows: map<int, Account>, acc: Account): (r: Result<map<int, Account>>)
    ensures r.Err? ==> r.error == UsernameTaken
    ensures r.Err? <==> exists k :: k in rows && k != acc.id && rows[k].username == acc.username
    ensures r.Ok? ==> r.value.Keys == rows.Keys + {acc.id} && r.value[acc.id] == acc
    ensures r.Ok? ==> forall k :: k in rows && k != acc.id ==> r.value[k] == rows[k]
    ensures r.Ok? && UniqueUsernames(rows) ==> UniqueUsernames(r.value)
  {
    if exists k :: k in rows && k != acc.id && rows[k].username == acc.username then
      Err(UsernameTaken)
    else
      Ok(rows[acc.id := acc])
  }

  /** The database lookup by the unique username (`get_by_natural_key`). */
  function FindByUsername(rows: map<int, Account>, username: string): (r: Option<int>)
    requires UniqueUsernames(rows)
    ensures r.Some? ==> r.value in rows && rows[r.value].username == username
    ensures r.None? <==> !UsernameInUse(rows, username)
  {
    if UsernameInUse(rows, username) then
      var k :| k in rows && rows[k].username == username;
      Some(k)
    else
      None
  }

  /** `get_token(user)`: a token whose payload identifies the user. */
  function IssueToken(user: Account): (t: Token)
    ensures t.username == user.username
    ensures forall rows: map<int, Account> {:trigger FindByUsername(rows, t.username)} ::
              UniqueUsernames(rows) && user.id in rows && rows[user.id] == user ==>
                FindByUsername(rows, t.username) == Some(user.id)
  {
    Token(user.username)
  }

  /** `Query.resolve_all_users`: every stored account, for an
      authenticated caller only. */
  function AllUsers(db: Db, caller: Caller): (r: Result<set<Account>>)
    ensures r.Err? <==> caller.Anonymous?
    ensures r.Err? ==> r.error == AuthRequired
    ensures r.Ok? ==> forall k :: k in db.rows ==> db.rows[k] in r.value
    ensures r.Ok? ==> forall a :: a in r.value ==> exists k :: k in db.rows && db.rows[k] == a
  {
    if caller.Anonymous? then Err(AuthRequired) else Ok(set k | k in db.rows :: db.rows[k])
  }

  /** `CreateUser.mutate`: an authenticated caller (staff or not) adds an
      account under a fresh key, storing the hash of the password. */
  function CreateUser(db: Db, h: Hasher, caller: Caller, username: string, email: string, password: string)
    : (out: (Result<Created>, Db))
    requires WellFormed(db)
    ensures caller.Anonymous? ==> out == (Err(AuthRequired), db)
    ensures caller.Authenticated? ==> (out.0.Err? <==> UsernameInUse(db.rows, username))
    ensures caller.Authenticated? && out.0.Err? ==> out.0.error == UsernameTaken
    ensures out.0.Err? ==> out.1 == db
    ensures out.0.Ok? ==>
              var user := out.0.value.user;
              && user.id !in db.rows
              && user.username == username && user.email == email && !user.isStaff
              && user.passwordHash == h(password) && CheckPassword(h, user, password)
              && out.0.value.message == CreatedMessage
              && out.1.rows == db.rows[user.id := user]
              && user.id == db.nextId && out.1.nextId == db.nextId + 1
              && |out.1.rows| == |db.rows| + 1
    ensures WellFormed(out.1)
  {
    if caller.Anonymous? then (Err(AuthRequired), db)
    else
      var user := Account(db.nextId, username, email, h(password), false);
      match Save(db.rows, user)
      case Err(e) => (Err(e), db)
      case Ok(rows) => (Ok(Created(user, CreatedMessage)), Db(rows, db.nextId + 1))
  }

  /** `ObtainJSONWebToken.mutate` (login): public; the account with that
      username whose stored hash matches the password, with a token for it. */
  function Login(db: Db, h: Hasher, username: string, password: string): (r: Result<LoginPayload>)
    requires WellFormed(db)
    ensures r.Ok? <==> exists k :: k in db.rows && db.rows[k].username == username && CheckPassword(h, db.rows[k], password)
    ensures r.Err? ==> r.error == BadCredentials
    ensures r.Ok? ==>
              && r.value.user.id in db.rows && db.rows[r.value.user.id] == r.value.user
              && r.value.user.username == username && CheckPassword(h, r.value.user, password)
              && r.value.token == Token(username)
  {
    match FindByUsername(db.rows, username)
    case None => Err(BadCredentials)
    case Some(k) =>
      var user := db.rows[k];
      if CheckPassword(h, user, password) then Ok(LoginPayload(IssueToken(user), user))
      else Err(BadCredentials)
  }

  /** The record with only the supplied fields replaced. */
  function Patch(acc: Account, username: Option<string>, email: Option<string>): (r: Account)
    ensures r.id == acc.id && r.passwordHash == acc.passwordHash && r.isStaff == acc.isStaff
    ensures r.username == (if username.Some? then username.value else acc.username)
    ensures r.email == (if email.Some? then email.value else acc.email)
  {
    acc.(username := if username.Some? then username.value else acc.username,
         email := if email.Some? then email.value else acc.email)
  }

  /** `UpdateUser.mutate`: an authenticated caller changes the username
      and/or email of any account; omitted fields keep their values. */
  function UpdateUser(db: Db, caller: Caller, id: int, username: Option<string>, email: Option<string>)
    : (out: (Result<Account>, Db))
    requires WellFormed(db)
    ensures caller.Anonymous? ==> out == (Err(AuthRequired), db)
    ensures caller.Authenticated? && id !in db.rows ==> out == (Err(NotFound), db)
    ensures out.0.Ok? <==>
              && caller.Authenticated? && id in db.rows
              && !(username.Some? && exists k :: k in db.rows && k != id && db.rows[k].username == username.value)
    ensures caller.Authenticated? && id in db.rows && out.0.Err? ==>
              && out.0.error == UsernameTaken
              && username.Some? && db.rows[id].username != username.value
              && UsernameInUse(db.rows, username.value)
    ensures out.0.Err? ==> out.1 == db
    ensures out.0.Ok? ==>
              var user := out.0.value;
              && caller.Authenticated? && id in db.rows
              && user.id == id
              && user.username == (if username.Some? then username.value else db.rows[id].username)
              && user.email == (if email.Some? then email.value else db.rows[id].email)
              && user.passwordHash == db.rows[id].passwordHash
              && user.isStaff == db.rows[id].isStaff
              && out.1 == db.(rows := db.rows[id := user])
    ensures WellFormed(out.1)
  {
    if caller.Anonymous? then (Err(AuthRequired), db)
    else if id !in db.rows then (Err(NotFound), db)
    else
      var user := Patch(db.rows[id], username, email);
      match Save(db.rows, user)
      case Err(e) => (Err(e), db)
      case Ok(rows) => (Ok(user), db.(rows := rows))
  }

  /** `DeleteUser.mutate`: staff only; removes the account with that id. */
  function DeleteUser(db: Db, caller: Caller, id: int): (out: (Result<bool>, Db))
    requires WellFormed(db)
    ensures caller.Anonymous? ==> out == (Err(AuthRequired), db)
    ensures caller.Authenticated? && !caller.user.isStaff ==> out == (Err(PermissionDenied), db)
    ensures caller.Authenticated? && caller.user.isStaff && id !in db.rows ==> out == (Err(NotFound), db)
    ensures out.0.Ok? <==> caller.Authenticated? && caller.user.isStaff && id in db.rows
    ensures out.0.Err? ==> out.1 == db
    ensures out.0.Ok? ==>
              && out.0.value
              && out.1.rows.Keys == db.rows.Keys - {id}
              && (forall k :: k in out.1.rows ==> out.1.rows[k] == db.rows[k])
              && out.1.nextId == db.nextId
              && |out.1.rows| == |db.rows| - 1
    ensures WellFormed(out.1)
  {
    if caller.Anonymous? then (Err(AuthRequired), db)
    else if !caller.user.isStaff then (Err(PermissionDenied), db)
    else if id !in db.rows then (Err(NotFound), db)
    else
      var rows := db.rows - {id};
      assert rows.Keys == db.rows.Keys - {id};
      (Ok(true), db.(rows := rows))
  }

  /** `UpdatePassword.mutate`: the caller changes their own password. A
      wrong current password is a result with `success == false`, not an
      error. The caller's record as loaded for the request is what is saved. */
  function UpdatePassword(db: Db, h: Hasher, caller: Caller, currentPassword: string, newPassword: string)
    : (out: (Result<PasswordChange>, Db))
    requires WellFormed(db)
    ensures caller.Anonymous? ==> out == (Err(AuthRequired), db)
    ensures caller.Authenticated? && !CheckPassword(h, caller.user, currentPassword) ==>
              out == (Ok(PasswordChange(false, WrongPasswordMessage)), db)
    ensures out.0.Ok? && !out.0.value.success ==> caller.Authenticated? && !CheckPassword(h, caller.user, currentPassword)
    ensures out.0.Ok? && out.0.value.success <==>
              && caller.Authenticated? && CheckPassword(h, caller.user, currentPassword)
              && !(exists k :: k in db.rows && k != caller.user.id && db.rows[k].username == caller.user.username)
    ensures caller.Authenticated? && out.0.Err? ==> out.0.error == UsernameTaken
    ensures out.0.Err? || !out.0.value.success ==> out.1 == db
    ensures out.0.Ok? && out.0.value.success ==>
              && caller.Authenticated? && CheckPassword(h, caller.user, currentPassword)
              && out.0.value.message == PasswordUpdatedMessage
              && out.1 == db.(rows := db.rows[caller.user.id := caller.user.(passwordHash := h(newPassword))])
    ensures CallerIsCurrent(db, caller) && caller.Authenticated? && CheckPassword(h, caller.user, currentPassword) ==>
              && out == (Ok(PasswordChange(true, PasswordUpdatedMessage)), out.1)
              && out.1.rows.Keys == db.rows.Keys
              && out.1.rows[caller.user.id] == db.rows[caller.user.id].(passwordHash := h(newPassword))
              && (forall k :: k in db.rows && k != caller.user.id ==> out.1.rows[k] == db.rows[k])
    ensures CallerIsCurrent(db, caller) ==> WellFormed(out.1)
  {
    if caller.Anonymous? then (Err(AuthRequired), db)
    else if !CheckPassword(h, caller.user, currentPassword) then
      (Ok(PasswordChange(false, WrongPasswordMessage)), db)
    else
      var user := caller.user.(passwordHash := h(newPassword));
      match Save(db.rows, user)
      case Err(e) => (Err(e), db)
      case Ok(rows) => (Ok(PasswordChange(true, PasswordUpdatedMessage)), db.(rows := rows))
  }
}
