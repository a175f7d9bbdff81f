/** Properties that span several operations: tokens used against
    self-authentication, and a walk through an account's lifecycle. */
module Lifecycle {
  import opened Wrappers
  import opened Passwords
  import opened Users
  import opened Responses
  import opened Identity
  import opened Data
  import opened UserRepository
  import opened Accounts

  /** Holding the token of an active account, self-authentication as that
      account succeeds exactly when the password verifies. */
  lemma SelfAuthenticationWithOwnToken(users: seq<User>, i: nat, password: string, now: Instant)
    requires LoginsUnique(users) && i < |users| && users[i].IsActive()
    ensures var caller := CallerOf(GenerateToken(users[i], now).claims);
      AuthenticateForSelf(users, users[i].login, password, caller).Success? <==> Verify(password, users[i].password)
  {
    var t := FindFirst(users, users[i].login, ActiveOnly);
    assert Hit(users[i], users[i].login, ActiveOnly);
    assert t.Some? && t.value == i;
  }

  /** The token of one account never passes self-authentication as another
      active account. */
  lemma SelfAuthenticationWithOthersToken(users: seq<User>, i: nat, k: nat, password: string, now: Instant)
    requires LoginsUnique(users) && IdsUnique(users)
    requires i < |users| && k < |users| && i != k && users[i].IsActive()
    ensures AuthenticateForSelf(users, users[i].login, password, CallerOf(GenerateToken(users[k], now).claims))
         == Failure(AccessDenied)
  {
    var t := FindFirst(users, users[i].login, ActiveOnly);
    assert Hit(users[i], users[i].login, ActiveOnly);
    assert t.Some? && t.value == i;
  }

  /** On the seeded table an anonymous caller registers a plain account,
      which then logs in with role `User`; registering the login again fails. */
  method RegisterThenLogIn(adminId: Id, adminSalt: nat, aliceId: Id, aliceSalt: nat, now: Instant)
    requires aliceId != adminId
  {
    var db := new UserTable.Seeded(adminId, adminSalt);
    var accounts := new Account(db);
    var alice := NewUser("alice", "pw1", "Alice", 0, None, false);
    assert !LoginTaken(db.users, "alice") by {
      assert db.users[0].login == "admin";
    }
    var r := accounts.CreateUser(alice, Anonymous, now, now, aliceId, aliceSalt);
    assert r.Success?;
    assert db.users[1].createdBy == "System" && !db.users[1].admin;

    var wrong := Login(db.users, "alice", "wrong", now);
    assert !Verify("wrong", db.users[1].password) ==> wrong == Failure(InvalidCredentials);
    var right := Login(db.users, "alice", "pw1", now);
    assert right.Success? && right.value.claims.role == UserRole;

    var admin := CallerOf(GenerateToken(db.users[0], now).claims);
    r := accounts.CreateUser(alice, admin, now + 1, now + 1, aliceId + adminId + 1, aliceSalt);
    assert r == Failure(UserAlreadyExists);
  }

  /** After a soft delete the admin lookup reports the account inactive and
      the account itself can no longer change its profile; after a restore
      it can again. */
  method SoftDeleteThenRestore(repo: UserRepo, login: string, admin: Caller, self: Caller, now: Instant)
    requires repo.db.Valid() && IsActiveTarget(repo.db.users, login)
    requires admin.isAdmin && admin.login.Some?
    requires !self.isAdmin && self.login == Some(login)
    modifies repo.db
  {
    var r := repo.DeleteUser(login, false, admin, now);
    assert r.Success?;
    var info := GetByLoginAdmin(repo.db.users, login);
    assert info.Success? && !info.value.isActive;

    r := repo.UpdateProfile(login, ProfileUpdate("Alicia", 0, None), self, now + 1);
    assert r == Failure(UserNotFoundOrRevoked);

    r := repo.RestoreUser(login, admin, now + 2);
    assert r.Success?;
    r := repo.UpdateProfile(login, ProfileUpdate("Alicia", 0, None), self, now + 3);
    assert r.Success?;
  }

  /** A hard delete frees the login for a new registration. */
  method HardDeleteFreesLogin(repo: UserRepo, accounts: Account, dto: NewUser, admin: Caller, freshId: Id, salt: nat, now: Instant)
    requires repo.db == accounts.db && repo.db.Valid() && LoginTaken(repo.db.users, dto.login)
    requires admin.isAdmin && !IdTaken(repo.db.users, freshId)
    modifies repo.db
  {
    var r := repo.DeleteUser(dto.login, true, admin, now);
    assert r.Success? && !LoginTaken(repo.db.users, dto.login);
    assert !IdTaken(repo.db.users, freshId);
    r := accounts.CreateUser(dto, admin, now + 1, now + 2, freshId, salt);
    assert r.Success?;
  }
}
