/** Registration, login and the claims of the token issued at login. */
module Accounts {
  import opened Wrappers
  import opened Passwords
  import opened Users
  import opened Responses
  import opened Identity
  import opened Data

  /** A registration request. */
  datatype NewUser = NewUser(login: string, password: string, name: string, gender: int,
                             birthday: Option<Instant>, admin: bool)

  /** Two days, in seconds: the validity of an issued token. */
  const TokenLifetime: int := 2 * 24 * 60 * 60

  /** The claims of a token issued to `u` at `now`: the account's id, the
      role `Admin` exactly for admins and `User` otherwise, and the login;
      the token expires two days later. */
  function GenerateToken(u: User, now: Instant): (t: Token)
    ensures t.claims.nameIdentifier == u.id && t.claims.login == u.login
    ensures t.claims.role == AdminRole <==> u.admin
    ensures t.claims.role == UserRole <==> !u.admin
    ensures t.expires == now + TokenLifetime && t.expires > now
  {
    Token(Claims(u.id, if u.admin then AdminRole else UserRole, u.login), now + TokenLifetime)
  }

  /** Login by login and password. It succeeds iff the first record with
      the login, whatever its revocation state, has a non-empty password
      that verifies; every failure is the same. The table is not changed. */
  function Login(users: seq<User>, login: string, password: string, now: Instant): (r: Result<Token>)
    ensures r.Success? <==>
      var t := FindFirst(users, login, AnyState);
      t.Some? && users[t.value].password != Empty && Verify(password, users[t.value].password)
    ensures r.Failure? ==> r == Failure(InvalidCredentials)
    ensures r.Success? ==> r.value == GenerateToken(users[FindFirst(users, login, AnyState).value], now)
    ensures r.Success? ==> r.value.claims.login == login
  {
    match FindFirst(users, login, AnyState)
    case None => Failure(InvalidCredentials)
    case Some(i) =>
      if users[i].password == Empty || !Verify(password, users[i].password) then Failure(InvalidCredentials)
      else Success(GenerateToken(users[i], now))
  }

  /** The record a successful registration adds. The service reads the
      clock once for the creation stamp and once more for the modification
      stamp, hence two instants. */
  function NewRecord(dto: NewUser, caller: Caller, created: Instant, modified: Instant, id: Id, salt: nat): User {
    User(id, dto.login, HashPassword(dto.password, salt), dto.name, dto.gender, dto.birthday, dto.admin,
         created, caller.CreatorName(), modified, caller.CreatorName(), None, None)
  }

  /** The account service over the table. The id of a new account and the
      salt of its password hash, both random in the service, are inputs, and
      so are the two clock readings of a registration. */
  class Account {
    const db: UserTable

    constructor (db: UserTable)
      ensures this.db == db
    {
      this.db := db;
    }

    /** Registers an account unless its login is taken (by an active or a
        revoked record); only an admin may register an admin. On success the
        table grows by exactly the new, active record. */
    method CreateUser(dto: NewUser, caller: Caller, created: Instant, modified: Instant, freshId: Id, salt: nat) returns (r: Result<()>)
      requires db.Valid()
      modifies db
      ensures db.Valid()
      ensures AllRevocationsPaired(old(db.users)) ==> AllRevocationsPaired(db.users)
      ensures r.Failure? ==> db.users == old(db.users)
      ensures LoginTaken(old(db.users), dto.login) ==> r == Failure(UserAlreadyExists)
      ensures !LoginTaken(old(db.users), dto.login) && dto.admin && !caller.isAdmin ==> r == Failure(OnlyAdminsCanCreateAdmin)
      ensures r.Success? <==>
        !LoginTaken(old(db.users), dto.login) && (!dto.admin || caller.isAdmin) && !IdTaken(old(db.users), freshId)
      ensures r.Success? ==>
        && |db.users| == |old(db.users)| + 1
        && db.users[..|old(db.users)|] == old(db.users)
        && var u := db.users[|old(db.users)|];
           && u.id == freshId && u.login == dto.login
           && u.password == HashPassword(dto.password, salt) && Verify(dto.password, u.password)
           && u.name == dto.name && u.gender == dto.gender && u.birthday == dto.birthday
           && u.admin == dto.admin
           && u.createdOn == created && u.modifiedOn == modified
           && u.createdBy == caller.CreatorName() && u.modifiedBy == caller.CreatorName()
           && u.revokedOn.None? && u.revokedBy.None?
      ensures r.Success? && !caller.isAdmin ==> !db.users[|old(db.users)|].admin
      ensures r.Success? ==> FindFirst(db.users, dto.login, AnyState) == Some(|old(db.users)|)
    {
      if FindFirst(db.users, dto.login, AnyState).Some? {
        return Failure(UserAlreadyExists);
      }
      var isInAdminRole := dto.admin;
      if isInAdminRole && !caller.isAdmin {
        return Failure(OnlyAdminsCanCreateAdmin);
      }
      var u := NewRecord(dto, caller, created, modified, freshId, salt);
      if IdTaken(db.users, freshId) {
        // the primary key on the id rejects the insertion
        return Failure(OperationFailed);
      }
      db.users := db.users + [u];
      r := Success(());
    }
  }

  // ---------------------------------------------------------------------
  // Properties relating login to the rest of the model

  /** Login cannot tell a missing account from a wrong password: both give
      the same answer. */
  lemma LoginFailuresAlike(users: seq<User>, missing: string, present: string, wrong: string, now: Instant)
    requires !LoginTaken(users, missing)
    requires FindFirst(users, present, AnyState).Some?
    requires !Verify(wrong, users[FindFirst(users, present, AnyState).value].password)
    ensures Login(users, missing, wrong, now) == Login(users, present, wrong, now) == Failure(InvalidCredentials)
  {
  }

  /** Changing only the revocation fields of a record leaves every lookup
      by login that ignores revocation where it was. */
  lemma {:induction false} FindFirstIgnoresRevocation(users: seq<User>, i: nat, u: User, login: string)
    requires i < |users| && u.login == users[i].login
    ensures FindFirst(users[i := u], login, AnyState) == FindFirst(users, login, AnyState)
    decreases |users|
  {
    if i > 0 {
      assert users[i := u][1..] == users[1..][i - 1 := u];
      FindFirstIgnoresRevocation(users[1..], i - 1, u, login);
    }
  }

  /** Login does not look at revocation: soft-deleting an account changes
      nothing about logging in, so a revoked account still gets a token
      (with the role `Admin` if it is an admin). */
  lemma LoginIgnoresRevocation(users: seq<User>, i: nat, at: Instant, revoker: Option<string>,
                               login: string, password: string, now: Instant)
    requires i < |users|
    ensures Login(users[i := Revoke(users[i], at, revoker)], login, password, now)
         == Login(users, login, password, now)
  {
    FindFirstIgnoresRevocation(users, i, Revoke(users[i], at, revoker), login);
  }

  /** A freshly registered account can log in with the password it was
      registered with, and its token carries its id, login and role. */
  lemma RegisteredUserCanLogIn(users: seq<User>, dto: NewUser, caller: Caller, created: Instant, modified: Instant,
                               id: Id, salt: nat, now: Instant)
    requires !LoginTaken(users, dto.login)
    ensures var r := Login(users + [NewRecord(dto, caller, created, modified, id, salt)], dto.login, dto.password, now);
      && r.Success?
      && r.value.claims == Claims(id, if dto.admin then AdminRole else UserRole, dto.login)
      && r.value.expires == now + TokenLifetime
  {
    var s := users + [NewRecord(dto, caller, created, modified, id, salt)];
    assert s[|users|].login == dto.login;
    assert forall j :: 0 <= j < |users| ==> s[j] == users[j];
  }

  /** The caller a token makes is the account it was issued to, with the
      admin role exactly when the account is an admin. */
  lemma TokenIdentifiesHolder(u: User, now: Instant)
    ensures CallerOf(GenerateToken(u, now).claims) == Caller(Some(u.id), Some(u.login), u.admin)
    ensures CallerOf(GenerateToken(u, now).claims).MayManage(u.login)
  {
  }

  /** The seeded admin logs in with the seeded password and receives an
      admin token. */
  lemma SeededAdminLogsIn(id: Id, salt: nat, now: Instant)
    ensures Login([SeedAdmin(id, salt)], "admin", SeedAdminPassword, now)
         == Success(Token(Claims(id, AdminRole, "admin"), now + TokenLifetime))
  {
    var users := [SeedAdmin(id, salt)];
    assert users[0].login == "admin";
  }
}
