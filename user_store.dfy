/** The user table as the mutation handlers change it: a record is built or
    fetched, its fields are assigned, and it is saved into the shared table.
    Each method leaves the result and the table that the corresponding
    handler function in `Schema` describes. */
module UserStore {
  import opened Accounts
  import Schema

  class UserTable {
    var rows: map<int, Account>
    var nextId: int
    const hash: Hasher

    function State(): Db
      reads this
    {
      Db(rows, nextId)
    }

    ghost predicate Valid()
      reads this
    {
      WellFormed(State())
    }

    /** An empty table whose first account will get primary key 1. */
    constructor (hash: Hasher)
      ensures Valid() && rows == map[] && nextId == 1 && this.hash == hash
    {
      rows := map[];
      nextId := 1;
      this.hash := hash;
    }

    method CreateUser(caller: Caller, username: string, email: string, password: string)
      returns (r: Result<Schema.Created>)
      requires Valid()
      modifies this
      ensures Valid()
      ensures (r, State()) == Schema.CreateUser(old(State()), hash, caller, username, email, password)
    {
      if caller.Anonymous? {
        return Err(AuthRequired);
      }
      var user := Account(nextId, username, email, "", false);
      user := user.(passwordHash := hash(password));  // set_password
      var saved := Schema.Save(rows, user);
      if saved.Err? {
        return Err(saved.error);
      }
      rows := saved.value;
      nextId := nextId + 1;
      r := Ok(Schema.Created(user, Schema.CreatedMessage));
    }

    method UpdateUser(caller: Caller, id: int, username: Option<string>, email: Option<string>)
      returns (r: Result<Account>)
      requires Valid()
      modifies this
      ensures Valid()
      ensures (r, State()) == Schema.UpdateUser(old(State()), caller, id, username, email)
    {
      if caller.Anonymous? {
        return Err(AuthRequired);
      }
      if id !in rows {
        return Err(NotFound);
      }
      var user := rows[id];
      if username.Some? {
        user := user.(username := username.value);
      }
      if email.Some? {
        user := user.(email := email.value);
      }
      var saved := Schema.Save(rows, user);
      if saved.Err? {
        return Err(saved.error);
      }
      rows := saved.value;
      r := Ok(user);
    }

    method DeleteUser(caller: Caller, id: int) returns (r: Result<bool>)
      requires Valid()
      modifies this
      ensures Valid()
      ensures (r, State()) == Schema.DeleteUser(old(State()), caller, id)
    {
      if caller.Anonymous? {
        return Err(AuthRequired);
      }
      if !caller.user.isStaff {
        return Err(PermissionDenied);
      }
      if id !in rows {
        return Err(NotFound);
      }
      rows := rows - {id};
      r := Ok(true);
    }

    /** The caller is the account the middleware loaded from this table for
        the current request. */
    method UpdatePassword(caller: Caller, currentPassword: string, newPassword: string)
      returns (r: Result<Schema.PasswordChange>)
      requires Valid() && CallerIsCurrent(State(), caller)
      modifies this
      ensures Valid()
      ensures (r, State()) == Schema.UpdatePassword(old(State()), hash, caller, currentPassword, newPassword)
    {
      if caller.Anonymous? {
        return Err(AuthRequired);
      }
      var user := caller.user;
      if !CheckPassword(hash, user, currentPassword) {
        return Ok(Schema.PasswordChange(false, Schema.WrongPasswordMessage));
      }
      user := user.(passwordHash := hash(newPassword));  // set_password
      var saved := Schema.Save(rows, user);
      if saved.Err? {
        return Err(saved.error);
      }
      rows := saved.value;
      r := Ok(Schema.PasswordChange(true, Schema.PasswordUpdatedMessage));
    }
  }
}
