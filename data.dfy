/** The account table and the lookups every operation starts with. */
module Data {
  import opened Wrappers
  import opened Passwords
  import opened Users

  /** Which records a lookup by login accepts. */
  datatype Filter = AnyState | ActiveOnly | RevokedOnly

  predicate Accepts(f: Filter, u: User) {
    match f
    case AnyState => true
    case ActiveOnly => u.IsActive()
    case RevokedOnly => !u.IsActive()
  }

  predicate Hit(u: User, login: string, f: Filter) {
    u.login == login && Accepts(f, u)
  }

  /** The index of the first record, in table order, with this login that the
      filter accepts; `None` when there is none. */
  function FindFirst(users: seq<User>, login: string, f: Filter): (r: Option<nat>)
    ensures r.Some? ==> r.value < |users| && Hit(users[r.value], login, f)
    ensures r.Some? ==> forall j :: 0 <= j < r.value ==> !Hit(users[j], login, f)
    ensures r.None? <==> forall j :: 0 <= j < |users| ==> !Hit(users[j], login, f)
    decreases |users|
  {
    if users == [] then None
    else if Hit(users[0], login, f) then Some(0)
    else match FindFirst(users[1..], login, f)
      case None => None
      case Some(k) => Some(k + 1)
  }

  /** Some record, active or revoked, holds this login. */
  predicate LoginTaken(users: seq<User>, login: string) {
    exists j :: 0 <= j < |users| && users[j].login == login
  }

  predicate IdTaken(users: seq<User>, id: Id) {
    exists j :: 0 <= j < |users| && users[j].id == id
  }

  /** The first record with this login exists and is not revoked: the target
      check of the profile, password and login changes. */
  predicate IsActiveTarget(users: seq<User>, login: string) {
    var t := FindFirst(users, login, AnyState);
    t.Some? && users[t.value].IsActive()
  }

  ghost predicate LoginsUnique(users: seq<User>) {
    forall i, j :: 0 <= i < |users| && 0 <= j < |users| && i != j ==> users[i].login != users[j].login
  }

  ghost predicate IdsUnique(users: seq<User>) {
    forall i, j :: 0 <= i < |users| && 0 <= j < |users| && i != j ==> users[i].id != users[j].id
  }

  ghost predicate AllHashed(users: seq<User>) {
    forall i :: 0 <= i < |users| ==> users[i].password.Hashed?
  }

  ghost predicate AllRevocationsPaired(users: seq<User>) {
    forall i :: 0 <= i < |users| ==> users[i].RevocationPaired()
  }

  /** `after` is `before` with at most record `i` replaced. */
  ghost predicate OnlyRecordChanged(before: seq<User>, after: seq<User>, i: nat) {
    |after| == |before| && i < |before|
    && forall j :: 0 <= j < |before| && j != i ==> after[j] == before[j]
  }

  /** Soft deletion of a record: it is stamped with the revocation instant
      and the revoker's login, absent when the revoker has none. */
  function Revoke(u: User, now: Instant, revoker: Option<string>): User {
    u.(revokedOn := Some(now), revokedBy := revoker)
  }

  function RemoveAt(users: seq<User>, i: nat): seq<User>
    requires i < |users|
  {
    users[..i] + users[i + 1..]
  }

  /** Removing a record keeps every other record, in order, and keeps the
      logins and ids unique. */
  lemma RemoveAtKeepsOthers(users: seq<User>, i: nat)
    requires i < |users|
    ensures |RemoveAt(users, i)| == |users| - 1
    ensures forall j :: 0 <= j < i ==> RemoveAt(users, i)[j] == users[j]
    ensures forall j :: i <= j < |users| - 1 ==> RemoveAt(users, i)[j] == users[j + 1]
    ensures LoginsUnique(users) ==> LoginsUnique(RemoveAt(users, i))
    ensures IdsUnique(users) ==> IdsUnique(RemoveAt(users, i))
    ensures AllHashed(users) ==> AllHashed(RemoveAt(users, i))
    ensures AllRevocationsPaired(users) ==> AllRevocationsPaired(RemoveAt(users, i))
  {
    var r := RemoveAt(users, i);
    // the index in `users` of the record at index j of `r`
    assert forall j :: 0 <= j < |r| ==> r[j] == users[if j < i then j else j + 1];
  }

  /** With unique logins, once the holder of a login is removed no lookup of
      that login finds anything, and the login is free. */
  lemma RemovedLoginIsGone(users: seq<User>, i: nat, f: Filter)
    requires i < |users| && LoginsUnique(users)
    ensures FindFirst(RemoveAt(users, i), users[i].login, f).None?
    ensures !LoginTaken(RemoveAt(users, i), users[i].login)
  {
    RemoveAtKeepsOthers(users, i);
    var r := RemoveAt(users, i);
    forall j | 0 <= j < |r| ensures r[j].login != users[i].login {
      if j < i {
        assert r[j] == users[j];
      } else {
        assert r[j] == users[j + 1];
      }
    }
  }

  // The seeded table

  /** 2025-06-16T00:00:00Z, the creation instant of the seeded account. */
  const SeedInstant: Instant := 1750032000
  const SeedAdminPassword: string := "Admin123"

  /** The one account present after the initial migration: an active admin
      named `admin`, created by `System`. Its id and the salt of its
      password hash are drawn at random there. */
  function SeedAdmin(id: Id, salt: nat): User {
    User(id, "admin", HashPassword(SeedAdminPassword, salt), "Administrator", 2, None, true,
         SeedInstant, "System", SeedInstant, "System", None, None)
  }

  /** The account table: a sequence of records in table order. */
  class UserTable {
    var users: seq<User>

    /** The table invariant kept by every operation: logins and ids are
        unique and every stored password is a hash. */
    ghost predicate Valid()
      reads this
    {
      LoginsUnique(users) && IdsUnique(users) && AllHashed(users)
    }

    /** The table as the initial migration leaves it. */
    constructor Seeded(adminId: Id, salt: nat)
      ensures Valid() && AllRevocationsPaired(users)
      ensures users == [SeedAdmin(adminId, salt)]
    {
      users := [SeedAdmin(adminId, salt)];
    }
  }

  lemma SeedLoginValid()
    ensures IsValidLogin("admin")
  {
    var s := "admin";
    ValidLoginIff(s);
    assert forall k :: 0 <= k < |s| ==> 'a' <= s[k] <= 'z';
  }

  lemma SeedNameValid()
    ensures IsValidName("Administrator")
  {
    var s := "Administrator";
    assert s == ['A', 'd', 'm', 'i', 'n', 'i', 's', 't', 'r', 'a', 't', 'o', 'r'];
    forall k | 0 <= k < |s| ensures IsNameLetter(s[k]) {
      assert IsAsciiLetter(s[k]);
    }
    ValidNameIff(s);
  }

  /** The seeded account satisfies every declared field constraint, is active
      and is an admin. */
  lemma SeedAdminWellFormed(id: Id, salt: nat)
    ensures WellFormed(SeedAdmin(id, salt))
    ensures SeedAdmin(id, salt).IsActive() && SeedAdmin(id, salt).RevocationPaired()
    ensures SeedAdmin(id, salt).admin && Verify(SeedAdminPassword, SeedAdmin(id, salt).password)
  {
    SeedLoginValid();
    SeedNameValid();
  }
}
