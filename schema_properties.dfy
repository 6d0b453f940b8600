/** Properties that relate one handler's effect to what later requests see:
    login after a password change or an account creation, partial updates,
    and deleted accounts. */
module SchemaProperties {
  import opened Accounts
  import opened Schema

  /** After a successful password change the new password logs the caller
      in and, unless the two hashes collide, the old one no longer does. */
  lemma PasswordChangeThenLogin(db: Db, h: Hasher, caller: Caller, currentPassword: string, newPassword: string)
    requires WellFormed(db) && caller.Authenticated? && CallerIsCurrent(db, caller)
    requires CheckPassword(h, caller.user, currentPassword)
    ensures var (r, db') := UpdatePassword(db, h, caller, currentPassword, newPassword);
            && r == Ok(PasswordChange(true, PasswordUpdatedMessage))
            && Login(db', h, caller.user.username, newPassword).Ok?
            && Login(db', h, caller.user.username, newPassword).value.user.id == caller.user.id
            && (h(currentPassword) != h(newPassword) ==>
                  Login(db', h, caller.user.username, currentPassword) == Err(BadCredentials))
  {
  }

  /** An account that an authenticated caller creates can log in at once
      with the password it was created with, and is listed. */
  lemma CreatedUserCanLogIn(db: Db, h: Hasher, caller: Caller, username: string, email: string, password: string)
    requires WellFormed(db) && caller.Authenticated?
    requires !UsernameInUse(db.rows, username)
    ensures var (r, db') := CreateUser(db, h, caller, username, email, password);
            && r.Ok?
            && Login(db', h, username, password) == Ok(LoginPayload(Token(username), r.value.user))
            && AllUsers(db', caller).Ok? && r.value.user in AllUsers(db', caller).value
  {
  }

  /** Changing only the email keeps the username, and with it the login:
      every password that logged in before still does, and no other does. */
  lemma EmailOnlyUpdateKeepsLogin(db: Db, h: Hasher, caller: Caller, id: int, email: string, password: string)
    requires WellFormed(db) && caller.Authenticated? && id in db.rows
    ensures var (r, db') := UpdateUser(db, caller, id, None, Some(email));
            && r.Ok? && r.value.username == db.rows[id].username && r.value.email == email
            && Login(db', h, db.rows[id].username, password).Ok? == Login(db, h, db.rows[id].username, password).Ok?
  {
  }

  /** Once a staff caller has deleted an account, no handler finds it:
      updating or deleting it again reports that it does not exist, its
      username no longer logs in, and the listing leaves it out. */
  lemma DeletedUserIsGone(db: Db, h: Hasher, caller: Caller, id: int, password: string)
    requires WellFormed(db) && caller.Authenticated? && caller.user.isStaff && id in db.rows
    ensures var (r, db') := DeleteUser(db, caller, id);
            && r == Ok(true)
            && UpdateUser(db', caller, id, None, None).0 == Err(NotFound)
            && DeleteUser(db', caller, id).0 == Err(NotFound)
            && Login(db', h, db.rows[id].username, password) == Err(BadCredentials)
            && db.rows[id] !in AllUsers(db', caller).value
  {
  }
}
