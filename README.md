# Account management API of django-graphql, modelled in Dafny

The repository serves a GraphQL endpoint over Django's user table. The
endpoint has one query, `allUsers`, and five mutations: `createUser`,
`login` (`ObtainJSONWebToken`), `updateUser`, `deleteUser` and
`updatePassword`. Every handler except login first checks that the
request's user is authenticated. `deleteUser` also requires the staff
flag. Then a handler reads or writes one record and either raises or
returns a result. `updatePassword` is the one exception: it reports a wrong
current password as `success = false` in its result instead of raising.

The model has four modules:

- `Accounts` (`accounts.dfy`) holds the data. An account row has an id, a
  username, an email, a password hash and a staff flag. The table is a
  `map<int, Account>` together with its auto-increment counter. A caller is
  either anonymous or the account loaded for the request. The error kinds
  are `AuthRequired`, `PermissionDenied`, `NotFound`, `BadCredentials` and
  `UsernameTaken`. `WellFormed` is what the database guarantees: each row
  sits under its own key, keys are below the counter, and usernames are
  unique. The password hasher is a parameter `h: string -> string`, so every
  proof holds for any hasher. `CheckPassword(h, acc, p)` means
  `acc.passwordHash == h(p)`.
- `Schema` (`schema.dfy`) gives each handler as a function. It maps the
  table and the caller to the handler's result and the table afterwards.
  Each contract states the handler's order of checks and its error cases.
  It states that a failure leaves the table untouched and what a success
  changes, and that the database's guarantees are kept.
- `UserStore` (`user_store.dfy`) has the class `UserTable`. Its fields are
  the table and the counter, and it has one method per mutating handler.
  The create, update and password methods build or fetch a record, assign
  its fields, and save it into the table. The delete method removes the row
  after its checks. Each method is proved to leave exactly the result and the
  table that the `Schema` function gives.
- `SchemaProperties` (`schema_properties.dfy`) and `Session`
  (`session.dfy`) relate handlers to later requests. For example, login
  after a password change, or a deleted account that no handler finds
  again. `Session` also runs whole sequences of requests. The middleware
  resolves each request's bearer token to the caller, and each request
  goes to its handler.

Django's `save()` is `Schema.Save`. It writes the record under its primary
key, or inserts it when that key has no row. A save that would give a
second row the same username is refused with `UsernameTaken` (the
database's unique constraint), and the table is unchanged. The code
itself never checks this. The failure comes from the database as an
integrity error.

A login token is `Token(username)`. That is the identity that
`graphql_jwt`'s `get_token` puts in the payload.

## Model

| member | source | states |
|---|---|---|
| `Schema.Save` | myproject/myapp/schema.py:68 | the save is refused (UsernameTaken) exactly when another row has the record's username; otherwise only that record's key is written, every other row is unchanged, and unique usernames stay unique |
| `Schema.FindByUsername` | myproject/myapp/schema.py:39 | with unique usernames, finds the key of the row with that username, or reports that no row has it |
| `Schema.AllUsers` | myproject/myapp/schema.py:121-125 | an anonymous caller gets AuthRequired; an authenticated caller gets exactly the stored accounts |
| `Schema.CreateUser` | myproject/myapp/schema.py:21-28 | anonymous: AuthRequired with the table unchanged; otherwise fails exactly when the username is in use, and then with UsernameTaken and the table unchanged; on success adds one row under the counter's next key, which no row holds, and advances the counter, so no key is handed out twice; the row has the given username and email, `h(password)` as the stored hash, no staff flag, message "user created successfully"; keeps the database guarantees |
| `Schema.Login` | myproject/myapp/schema.py:38-44 | succeeds exactly when some stored account has that username and its hash matches the password, returning that stored account and a token naming it; otherwise BadCredentials |
| `Schema.UpdateUser` | myproject/myapp/schema.py:54-69 | checks authentication, then that the id exists (NotFound exactly when it does not), each failure leaving the table unchanged; succeeds exactly when the caller is authenticated, the id exists and no other row holds a supplied new username, and otherwise fails with UsernameTaken; on success replaces only the supplied username/email, keeping the id, password hash and staff flag, and changes no other row |
| `Schema.DeleteUser` | myproject/myapp/schema.py:81-93 | checks authentication, then the staff flag (PermissionDenied), then that the id exists (NotFound), each failure leaving the table unchanged; succeeds exactly when all three hold, returning success, removing that one row, leaving every other row as it was and leaving the key counter unchanged |
| `Schema.UpdatePassword` | myproject/myapp/schema.py:105-116 | anonymous: AuthRequired; a wrong current password is returned as success=false with "Current password is incorrect" and the table unchanged; succeeds exactly when the caller's record has the right password and no other row holds its username, and otherwise fails with UsernameTaken; on success the caller's record with the new hash is saved under its id; for a caller loaded from the table, this always succeeds and replaces only the caller's hash |
| `UserStore.UserTable.CreateUser` | myproject/myapp/schema.py:21-28 | builds the record, sets its password hash and saves it; the result and new table are those of `Schema.CreateUser`; the table invariant is kept |
| `UserStore.UserTable.UpdateUser` | myproject/myapp/schema.py:54-69 | fetches the record, assigns only the supplied fields and saves it; result and new table are those of `Schema.UpdateUser`; invariant kept |
| `UserStore.UserTable.DeleteUser` | myproject/myapp/schema.py:81-93 | removes the row after the three checks; result and new table are those of `Schema.DeleteUser`; invariant kept |
| `UserStore.UserTable.UpdatePassword` | myproject/myapp/schema.py:105-116 | for the caller loaded for the request, sets the new hash on the caller's record and saves it; result and new table are those of `Schema.UpdatePassword`; invariant kept |
| `SchemaProperties.PasswordChangeThenLogin` | myproject/myapp/schema.py:111-116 | after a password change with the right current password, login with the new password returns the caller, and login with the old password fails unless the two hashes collide |
| `SchemaProperties.CreatedUserCanLogIn` | myproject/myapp/schema.py:25-28 | an account created with an unused username logs in with its password, getting that account and a token naming it, and is listed by `allUsers` |
| `SchemaProperties.EmailOnlyUpdateKeepsLogin` | myproject/myapp/schema.py:63-66 | an update that supplies only the email succeeds, keeps the username, and leaves unchanged which passwords log in with that username |
| `SchemaProperties.DeletedUserIsGone` | myproject/myapp/schema.py:87-93 | after a staff caller deletes an account, updating or deleting that id gives NotFound, its username no longer logs in, and the listing leaves it out |
| `Session.CallerOf` | myproject/myapp/schema.py:22 | the request's user is the stored account that the token names, or anonymous when there is no token or no such account |
| `Session.Apply` | myproject/myapp/schema.py:127-134 | one request goes to its handler with the caller the middleware resolved, and the database guarantees still hold afterwards |
| `Session.Run` | myproject/myapp/schema.py:127-134 | every table that a sequence of requests reaches keeps the database guarantees |
| `Session.AnonymousRunChangesNothing` | myproject/myapp/schema.py:21-125 | requests sent without a token never change the table: every handler but login rejects them before touching the table, and login leaves the modelled table as it is |
| `Session.StaffNeverGrowsInOneStep` | myproject/myapp/schema.py:25-116 | no request gives an account the staff flag |
| `Session.StaffNeverGrows` | myproject/myapp/schema.py:25-116 | no sequence of requests gives an account the staff flag |
| `Session.WithoutStaffNothingIsDeleted` | myproject/myapp/schema.py:85-86 | while no account is staff, no sequence of requests removes an account |
| `Schema.Patch` | myproject/myapp/schema.py:63-66 | the patched record takes a supplied username or email and keeps the old value of an omitted one; id, password hash and staff flag are unchanged |
| `Schema.IssueToken` | myproject/myapp/schema.py:43 | the issued token picks out this account: in any table with unique usernames that stores the account under its id, the username lookup on the token finds exactly that id |
| `Session.TokenResolvesToNamedAccount` | myproject/myapp/schema.py:22 | a token resolves to the stored account that has its username |
| `Session.IssuedTokenResolvesToUser` | myproject/myapp/schema.py:39-44 | the token returned by login, sent with a later request against the same table, makes the caller the account that logged in |
| `Session.RenameStep` | myproject/myapp/schema.py:55-68 | a rename request by any account named by its token, to a username no other row holds, changes only that row's username |
| `Session.StaffDeleteStep` | myproject/myapp/schema.py:82-92 | a delete request sent with a token that names a staff account removes the target row |
| `Session.RenameRedirectsToken` | myproject/myapp/schema.py:63-64 | any authenticated user may rename any account, and tokens name accounts by username: a non-staff user can rename a non-staff account away and give its old name to a staff account, after which that account's token deletes any account |

## Left out

- The crop predictor in `myproject/myapp/model_utils.py` is not modelled. It loads a pickled classifier from disk and calls its `predict`, which is file I/O and floating-point inference in a foreign library.
- The GraphQL declarations are not modelled: the `UserType` field list, argument declarations, and `graphene.Schema`. `Session.Apply` only stands for the routing of a request to its handler. `DeleteUser` declares `username` and `email` arguments, but its `mutate` accepts only `id`. A request that supplies either one fails when the handler is called with an unexpected keyword argument. The model has only `id`, so it does not have that failure.
- Password hashing is an arbitrary function `h`. Django salts each hash and checks it with the hasher's `verify`. The model treats checking as equality of hashes, so it does not capture two different stored hashes of the same password.
- `Schema.Login` does not check `authenticate`'s `is_active` flag or other authentication backends. A token is `Token(username)`: signing, expiry and verification of the JSON Web Token are not modelled. Any token that names a stored username counts as valid.
- `allUsers` gives a set. Django's `User.objects.all()` returns rows in an order the database chooses, and that order is not modelled.
- The `id` argument is an integer. GraphQL passes it as a string, and a string that is not a number makes Django raise a value error, which the model does not have.
- Error messages are error kinds. The model keeps only the returned `message` strings of `createUser` and `updatePassword`, exactly as written in the source, including the spelling "successfuly".
- `date_joined`, field-length validation, transactions, locking and concurrent requests are not modelled. Requests run one at a time. A failed insert does not advance the key counter.
- `UserStore.UserTable.UpdatePassword` requires the caller to be the account currently stored. That holds for a request with one operation, which is the kind the model serves. `Schema.UpdatePassword` also covers a caller record that is out of date: that stale record is what gets saved.
- A GraphQL document with several mutations is not modelled. Such a document runs them one after another with the same `info.context.user`, loaded once. After `updateUser` on the caller's own account, or after `deleteUser` of it, a later `updatePassword` in the same document saves the stale record. It writes back the old username, or inserts the deleted row again. `Session` sends one operation per request, so it does not cover this.
- The stored hash is `h(password)` for an arbitrary `h`. The model does not state that the stored value differs from the raw password. That depends on Django's hash format, which is not modelled.
- Django's `check_password` re-hashes and saves the password when the hasher's settings have changed, and `authenticate` calls it on login. That upgrade write is not modelled, so in the model login never changes the table.
