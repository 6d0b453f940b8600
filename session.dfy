/** A sequence of requests against the endpoint. Each request carries the
    bearer token it was sent with (none for login); the authentication
    middleware turns that token into the request's caller by loading the
    account it names from the table, and the request goes to the handler
    the schema registers for it. */
module Session {
  import opened Accounts
  import Schema

  datatype Request =
    | AllUsers(token: Option<Token>)
    | CreateUser(token: Option<Token>, username: string, email: string, password: string)
    | Login(username: string, password: string)
    | UpdateUser(token: Option<Token>, id: int, newUsername: Option<string>, newEmail: Option<string>)
    | DeleteUser(token: Option<Token>, id: int)
    | UpdatePassword(token: Option<Token>, currentPassword: string, newPassword: string)

  /** The bearer token a request was sent with; login is sent without one. */
  function TokenOf(req: Request): Option<Token>
  {
    if req.Login? then None else req.token
  }

  /** The middleware: the account whose username the token's payload names,
      as stored now, or the anonymous user when there is no token or no
      such account. */
  function CallerOf(db: Db, token: Option<Token>): (c: Caller)
    requires WellFormed(db)
    ensures CallerIsCurrent(db, c)
    ensures c.Authenticated? <==> token.Some? && UsernameInUse(db.rows, token.value.username)
    ensures c.Authenticated? ==> c.user.username == token.value.username
  {
    if token.None? then Anonymous
    else
      match Schema.FindByUsername(db.rows, token.value.username)
      case None => Anonymous
      case Some(k) => Authenticated(db.rows[k])
  }

  /** The table after one request. */
  function Apply(db: Db, h: Hasher, req: Request): (next: Db)
    requires WellFormed(db)
    ensures WellFormed(next)
  {
    var caller := CallerOf(db, TokenOf(req));
    match req
    case AllUsers(_) => db
    case Login(_, _) => db
    case CreateUser(_, username, email, password) =>
      Schema.CreateUser(db, h, caller, username, email, password).1
    case UpdateUser(_, id, username, email) =>
      Schema.UpdateUser(db, caller, id, username, email).1
    case DeleteUser(_, id) =>
      Schema.DeleteUser(db, caller, id).1
    case UpdatePassword(_, currentPassword, newPassword) =>
      Schema.UpdatePassword(db, h, caller, currentPassword, newPassword).1
  }

  /** The table after the requests, served one after another. Every table
      a run reaches keeps the database's guarantees. */
  function Run(db: Db, h: Hasher, reqs: seq<Request>): (final: Db)
    requires WellFormed(db)
    ensures WellFormed(final)
    decreases |reqs|
  {
    if reqs == [] then db else Run(Apply(db, h, reqs[0]), h, reqs[1..])
  }

  /** Requests sent without a token (logins among them) change nothing. */
  lemma {:induction false} AnonymousRunChangesNothing(db: Db, h: Hasher, reqs: seq<Request>)
    requires WellFormed(db)
    requires forall i :: 0 <= i < |reqs| ==> TokenOf(reqs[i]).None?
    ensures Run(db, h, reqs) == db
    decreases |reqs|
  {
    if reqs != [] {
      assert TokenOf(reqs[0]).None?;
      AnonymousRunChangesNothing(db, h, reqs[1..]);
    }
  }

  /** No request makes an account staff: an account that is staff after a
      request was staff before it. */
  lemma StaffNeverGrowsInOneStep(db: Db, h: Hasher, req: Request)
    requires WellFormed(db)
    ensures StaffIds(Apply(db, h, req)) <= StaffIds(db)
  {
  }

  /** No run of requests makes an account staff. */
  lemma {:induction false} StaffNeverGrows(db: Db, h: Hasher, reqs: seq<Request>)
    requires WellFormed(db)
    ensures StaffIds(Run(db, h, reqs)) <= StaffIds(db)
    decreases |reqs|
  {
    if reqs != [] {
      StaffNeverGrowsInOneStep(db, h, reqs[0]);
      StaffNeverGrows(Apply(db, h, reqs[0]), h, reqs[1..]);
    }
  }

  /** Deletion is reserved to staff: while no account is staff, no run of
      requests removes an account. */
  lemma {:induction false} WithoutStaffNothingIsDeleted(db: Db, h: Hasher, reqs: seq<Request>)
    requires WellFormed(db) && StaffIds(db) == {}
    ensures db.rows.Keys <= Run(db, h, reqs).rows.Keys
    decreases |reqs|
  {
    if reqs != [] {
      var next := Apply(db, h, reqs[0]);
      StaffNeverGrowsInOneStep(db, h, reqs[0]);
      assert db.rows.Keys <= next.rows.Keys;
      WithoutStaffNothingIsDeleted(next, h, reqs[1..]);
    }
  }

  /** The token that login hands out identifies the account that logged
      in: sent back with a later request, the middleware resolves it to
      that same account, as long as the table has not changed. */
  lemma IssuedTokenResolvesToUser(db: Db, h: Hasher, username: string, password: string)
    requires WellFormed(db) && Schema.Login(db, h, username, password).Ok?
    ensures var payload := Schema.Login(db, h, username, password).value;
            CallerOf(db, Some(payload.token)) == Authenticated(payload.user)
  {
  }

  /** A token resolves to the stored account that bears its username. */
  lemma TokenResolvesToNamedAccount(db: Db, k: int, token: Token)
    requires WellFormed(db) && k in db.rows && db.rows[k].username == token.username
    ensures CallerOf(db, Some(token)) == Authenticated(db.rows[k])
  {
  }

  /** One rename request: the caller named by `token`, any authenticated
      user, gives account `id` a username no other account holds. */
  lemma RenameStep(db: Db, h: Hasher, token: Token, caller: int, id: int, name: string)
    requires WellFormed(db) && caller in db.rows && db.rows[caller].username == token.username && id in db.rows
    requires !(exists k :: k in db.rows && k != id && db.rows[k].username == name)
    ensures Apply(db, h, UpdateUser(Some(token), id, Some(name), None))
            == db.(rows := db.rows[id := db.rows[id].(username := name)])
  {
    TokenResolvesToNamedAccount(db, caller, token);
  }

  /** One delete request sent with a token that names a staff account. */
  lemma StaffDeleteStep(db: Db, h: Hasher, token: Token, staff: int, v: int)
    requires WellFormed(db) && staff in db.rows && db.rows[staff].username == token.username
    requires db.rows[staff].isStaff && v in db.rows
    ensures v !in Apply(db, h, DeleteUser(Some(token), v)).rows
  {
    TokenResolvesToNamedAccount(db, staff, token);
  }

  /** A token names an account by its username, and any authenticated user
      may rename any account. So a user without the staff flag can make
      another user's token act as a staff account. Non-staff `z` renames
      non-staff `x` to an unused name, then gives staff account `s` the
      name `x` had; the token issued to `x` now resolves to `s` and
      deletes any account `v`. */
  lemma RenameRedirectsToken(db: Db, h: Hasher, x: int, s: int, z: int, v: int, unused: string)
    requires WellFormed(db) && x in db.rows && s in db.rows && z in db.rows && v in db.rows
    requires !db.rows[x].isStaff && !db.rows[z].isStaff && db.rows[s].isStaff
    requires z != x && !UsernameInUse(db.rows, unused)
    ensures
      var xName, zName := db.rows[x].username, db.rows[z].username;
      v !in Run(db, h, [UpdateUser(Some(Token(zName)), x, Some(unused), None),
                        UpdateUser(Some(Token(zName)), s, Some(xName), None),
                        DeleteUser(Some(Token(xName)), v)]).rows
  {
    var xName, zName := db.rows[x].username, db.rows[z].username;
    var reqs := [UpdateUser(Some(Token(zName)), x, Some(unused), None),
                 UpdateUser(Some(Token(zName)), s, Some(xName), None),
                 DeleteUser(Some(Token(xName)), v)];
    RenameStep(db, h, Token(zName), z, x, unused);
    var db1 := Apply(db, h, reqs[0]);
    assert db1.rows[z] == db.rows[z];
    RenameStep(db1, h, Token(zName), z, s, xName);
    var db2 := Apply(db1, h, reqs[1]);
    StaffDeleteStep(db2, h, Token(xName), s, v);
    var db3 := Apply(db2, h, reqs[2]);
    assert reqs[1..][1..][1..] == [];
    assert Run(db, h, reqs) == Run(db1, h, reqs[1..]) == Run(db2, h, reqs[1..][1..]) == Run(db3, h, []);
  }
}
