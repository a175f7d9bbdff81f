/** The per-account operations on the table: profile, password and login
    changes, soft and hard deletion, restoration, self-authentication, and
    the three read-only queries. */
module UserRepository {
  import opened Wrappers
  import opened Passwords
  import opened Users
  import opened Responses
  import opened Identity
  import opened Data

  /** The new profile fields of a profile update. */
  datatype ProfileUpdate = ProfileUpdate(name: string, gender: int, birthday: Option<Instant>)

  /** The profile view returned by the lookups and the age query. */
  datatype UserInfo = UserInfo(login: string, name: string, gender: int, birthday: Option<Instant>, isActive: bool)

  /** One line of the active-user list. */
  datatype UserListItem = UserListItem(id: Id, login: string, createdOn: Instant)

  function InfoOf(u: User, isActive: bool): UserInfo {
    UserInfo(u.login, u.name, u.gender, u.birthday, isActive)
  }

  function ListItemOf(u: User): UserListItem {
    UserListItem(u.id, u.login, u.createdOn)
  }

  // ---------------------------------------------------------------------
  // Lookup by login for administrators

  /** The profile of the first record with this login, active or revoked,
      with `isActive` telling which. */
  function GetByLoginAdmin(users: seq<User>, login: string): (r: Result<UserInfo>)
    ensures r.Failure? <==> !LoginTaken(users, login)
    ensures r.Failure? ==> r.error == UserNotFound
    ensures r.Success? ==> exists i :: 0 <= i < |users| && users[i].login == login
                                      && r.value == InfoOf(users[i], users[i].revokedOn.None?)
    ensures r.Success? ==> r.value.login == login
  {
    match FindFirst(users, login, AnyState)
    case None => Failure(UserNotFound)
    case Some(i) => Success(InfoOf(users[i], users[i].revokedOn == None))
  }

  // ---------------------------------------------------------------------
  // The active-user list, ordered by creation instant

  ghost predicate SortedByCreation(s: seq<UserListItem>) {
    forall i, j :: 0 <= i < j < |s| ==> s[i].createdOn <= s[j].createdOn
  }

  /** The positions of a list of flags that are set. */
  ghost function Marked(f: seq<bool>): set<int> {
    set i | 0 <= i < |f| && f[i]
  }

  /** Extending the window `lo..k` of a list of flags by position `k` adds
      that position exactly when it is set. */
  lemma MarkedGrows(f: seq<bool>, lo: int, k: int)
    requires 0 <= lo <= k < |f|
    ensures |set i | lo <= i < k + 1 && f[i]| == |set i | lo <= i < k && f[i]| + (if f[k] then 1 else 0)
  {
    var before := set i | lo <= i < k && f[i];
    if f[k] {
      assert (set i | lo <= i < k + 1 && f[i]) == before + {k};
    } else {
      assert (set i | lo <= i < k + 1 && f[i]) == before;
    }
  }

  /** Below `k`, the set positions of `f` past its head are those of its
      tail `g`, moved one place up: the two sets have the same size. */
  lemma {:induction false} MarkedPastHead(f: seq<bool>, g: seq<bool>, k: nat)
    requires |f| == |g| + 1 && forall i :: 0 <= i < |g| ==> g[i] == f[i + 1]
    requires 1 <= k <= |f|
    ensures |set i | 1 <= i < k && f[i]| == |set i | 0 <= i < k - 1 && g[i]|
    decreases k
  {
    if k > 1 {
      MarkedPastHead(f, g, k - 1);
      MarkedGrows(f, 1, k - 1);
      MarkedGrows(g, 0, k - 2);
      assert g[k - 2] == f[k - 1];
    }
  }

  /** The set positions of a list are its head, if set, and those of its
      tail. */
  lemma MarkedAtHead(f: seq<bool>)
    requires f != []
    ensures |Marked(f)| == (if f[0] then 1 else 0) + |Marked(f[1..])|
  {
    var rest := set i | 1 <= i < |f| && f[i];
    MarkedPastHead(f, f[1..], |f|);
    assert Marked(f[1..]) == set i | 0 <= i < |f| - 1 && f[1..][i];
    if f[0] {
      assert Marked(f) == rest + {0};
    } else {
      assert Marked(f) == rest;
    }
  }

  /** The active records of a table are its head, if it is active, and
      those of its tail. */
  lemma ActiveCountAtHead(users: seq<User>)
    requires users != []
    ensures |set i | 0 <= i < |users| && users[i].IsActive()|
         == (if users[0].IsActive() then 1 else 0) + |set i | 0 <= i < |users[1..]| && users[1..][i].IsActive()|
  {
    var f := seq(|users|, i requires 0 <= i < |users| => users[i].IsActive());
    assert Marked(f) == set i | 0 <= i < |users| && users[i].IsActive();
    assert Marked(f[1..]) == set i | 0 <= i < |users[1..]| && users[1..][i].IsActive();
    MarkedAtHead(f);
  }

  /** The number of non-revoked records whose list line is `x`. */
  ghost function ActiveCount(users: seq<User>, x: UserListItem): nat {
    |set i | 0 <= i < |users| && users[i].IsActive() && ListItemOf(users[i]) == x|
  }

  /** The non-revoked records with line `x` are the head, if it is one, and
      those of the tail. */
  lemma ActiveCountAtHeadOf(users: seq<User>, x: UserListItem)
    requires users != []
    ensures ActiveCount(users, x)
         == (if users[0].IsActive() && ListItemOf(users[0]) == x then 1 else 0) + ActiveCount(users[1..], x)
  {
    var f := seq(|users|, i requires 0 <= i < |users| => users[i].IsActive() && ListItemOf(users[i]) == x);
    assert Marked(f) == set i | 0 <= i < |users| && users[i].IsActive() && ListItemOf(users[i]) == x;
    assert Marked(f[1..]) == set i | 0 <= i < |users[1..]| && users[1..][i].IsActive() && ListItemOf(users[1..][i]) == x;
    MarkedAtHead(f);
  }

  lemma ActiveCountsAtHead(users: seq<User>)
    requires users != []
    ensures forall x :: (ActiveCount(users, x)
      == (if users[0].IsActive() && ListItemOf(users[0]) == x then 1 else 0) + ActiveCount(users[1..], x))
  {
    forall x ensures ActiveCount(users, x)
      == (if users[0].IsActive() && ListItemOf(users[0]) == x then 1 else 0) + ActiveCount(users[1..], x) {
      ActiveCountAtHeadOf(users, x);
    }
  }

  /** The list lines of the active records, in table order: one line per
      non-revoked record. */
  function ActiveItems(users: seq<User>): (r: seq<UserListItem>)
    ensures forall x :: x in r <==> exists i :: 0 <= i < |users| && users[i].IsActive() && x == ListItemOf(users[i])
    ensures |r| == |set i | 0 <= i < |users| && users[i].IsActive()|
    decreases |users|
  {
    if users == [] then []
    else
      var rest := ActiveItems(users[1..]);
      assert forall i :: 1 <= i < |users| ==> users[i] == users[1..][i - 1];
      ActiveCountAtHead(users);
      if users[0].IsActive() then [ListItemOf(users[0])] + rest else rest
  }

  /** Each line occurs in the active list as often as there are non-revoked
      records with that line. */
  lemma {:induction false} ActiveItemsCounts(users: seq<User>)
    ensures forall x :: multiset(ActiveItems(users))[x] == ActiveCount(users, x)
    decreases |users|
  {
    if users != [] {
      ActiveItemsCounts(users[1..]);
      ActiveCountsAtHead(users);
    }
  }

  /** A line that is due no later than the head of a sorted list can be put
      in front of it. */
  lemma SortedCons(h: UserListItem, t: seq<UserListItem>)
    requires SortedByCreation(t)
    requires t == [] || h.createdOn <= t[0].createdOn
    ensures SortedByCreation([h] + t)
  {
    var s := [h] + t;
    forall i, j | 0 <= i < j < |s| ensures s[i].createdOn <= s[j].createdOn {
      if i == 0 {
        assert s[j] == t[j - 1];
        assert t[0].createdOn <= t[j - 1].createdOn || j == 1;
      } else {
        assert s[i] == t[i - 1] && s[j] == t[j - 1];
      }
    }
  }

  /** Insertion of one line before the first line created after it. */
  function InsertByCreation(x: UserListItem, s: seq<UserListItem>): (r: seq<UserListItem>)
    ensures multiset(r) == multiset(s) + multiset{x}
    ensures |r| > 0 && (r[0] == x || (s != [] && r[0] == s[0]))
    decreases |s|
  {
    if s == [] || x.createdOn <= s[0].createdOn then [x] + s
    else
      assert s == [s[0]] + s[1..];
      [s[0]] + InsertByCreation(x, s[1..])
  }

  /** Insertion into a list sorted by creation instant keeps it sorted. */
  lemma {:induction false} InsertKeepsSorted(x: UserListItem, s: seq<UserListItem>)
    requires SortedByCreation(s)
    ensures SortedByCreation(InsertByCreation(x, s))
    decreases |s|
  {
    if s == [] || x.createdOn <= s[0].createdOn {
      SortedCons(x, s);
    } else {
      var tail := InsertByCreation(x, s[1..]);
      InsertKeepsSorted(x, s[1..]);
      assert s[1..] != [] ==> s[1..][0] == s[1];
      SortedCons(s[0], tail);
    }
  }

  /** Sorting by creation instant. */
  function SortByCreation(s: seq<UserListItem>): (r: seq<UserListItem>)
    ensures SortedByCreation(r)
    ensures multiset(r) == multiset(s)
    decreases |s|
  {
    if s == [] then []
    else
      assert s == [s[0]] + s[1..];
      var sorted := SortByCreation(s[1..]);
      InsertKeepsSorted(s[0], sorted);
      InsertByCreation(s[0], sorted)
  }

  /** The active records' lines, ordered by creation instant: exactly the
      non-revoked records, each once, in non-decreasing creation order. */
  function GetActiveUsers(users: seq<User>): (r: seq<UserListItem>)
    ensures SortedByCreation(r)
    ensures multiset(r) == multiset(ActiveItems(users))
    ensures forall x :: x in r <==> exists i :: 0 <= i < |users| && users[i].IsActive() && x == ListItemOf(users[i])
    ensures |r| == |set i | 0 <= i < |users| && users[i].IsActive()|
    ensures forall x :: multiset(r)[x] == ActiveCount(users, x)
  {
    ActiveItemsCounts(users);
    var items := ActiveItems(users);
    var r := SortByCreation(items);
    assert forall x :: x in r <==> x in multiset(r);
    assert forall x :: x in items <==> x in multiset(items);
    r
  }

  // ---------------------------------------------------------------------
  // The age query; the cutoff instant is computed by the caller

  /** Active, with a birthday on or before the cutoff. */
  predicate BornBy(u: User, cutoff: Instant) {
    u.revokedOn.None? && u.birthday.Some? && u.birthday.value <= cutoff
  }

  /** The records of a table that are active and born by the cutoff are
      its head, if it is, and those of its tail. */
  lemma BornByCountAtHead(users: seq<User>, cutoff: Instant)
    requires users != []
    ensures |set i | 0 <= i < |users| && BornBy(users[i], cutoff)|
         == (if BornBy(users[0], cutoff) then 1 else 0) + |set i | 0 <= i < |users[1..]| && BornBy(users[1..][i], cutoff)|
  {
    var f := seq(|users|, i requires 0 <= i < |users| => BornBy(users[i], cutoff));
    assert Marked(f) == set i | 0 <= i < |users| && BornBy(users[i], cutoff);
    assert Marked(f[1..]) == set i | 0 <= i < |users[1..]| && BornBy(users[1..][i], cutoff);
    MarkedAtHead(f);
  }

  /** The number of records born by the cutoff whose profile is `x`. */
  ghost function BornByCount(users: seq<User>, cutoff: Instant, x: UserInfo): nat {
    |set i | 0 <= i < |users| && BornBy(users[i], cutoff) && InfoOf(users[i], true) == x|
  }

  /** The records born by the cutoff with profile `x` are the head, if it is
      one, and those of the tail. */
  lemma BornByCountAtHeadOf(users: seq<User>, cutoff: Instant, x: UserInfo)
    requires users != []
    ensures BornByCount(users, cutoff, x)
         == (if BornBy(users[0], cutoff) && InfoOf(users[0], true) == x then 1 else 0) + BornByCount(users[1..], cutoff, x)
  {
    var f := seq(|users|, i requires 0 <= i < |users| => BornBy(users[i], cutoff) && InfoOf(users[i], true) == x);
    assert Marked(f) == set i | 0 <= i < |users| && BornBy(users[i], cutoff) && InfoOf(users[i], true) == x;
    assert Marked(f[1..])
        == set i | 0 <= i < |users[1..]| && BornBy(users[1..][i], cutoff) && InfoOf(users[1..][i], true) == x;
    MarkedAtHead(f);
  }

  lemma BornByCountsAtHead(users: seq<User>, cutoff: Instant)
    requires users != []
    ensures forall x :: (BornByCount(users, cutoff, x)
      == (if BornBy(users[0], cutoff) && InfoOf(users[0], true) == x then 1 else 0) + BornByCount(users[1..], cutoff, x))
  {
    forall x ensures BornByCount(users, cutoff, x)
      == (if BornBy(users[0], cutoff) && InfoOf(users[0], true) == x then 1 else 0) + BornByCount(users[1..], cutoff, x) {
      BornByCountAtHeadOf(users, cutoff, x);
    }
  }

  /** The profiles of the active records born on or before the cutoff, in
      table order, each marked active: one profile per such record. */
  function GetUsersOlderThan(users: seq<User>, cutoff: Instant): (r: seq<UserInfo>)
    ensures |r| == |set i | 0 <= i < |users| && BornBy(users[i], cutoff)| <= |users|
    ensures forall x :: x in r ==> x.isActive && x.birthday.Some? && x.birthday.value <= cutoff
    ensures forall x :: x in r <==> exists i :: 0 <= i < |users| && BornBy(users[i], cutoff) && x == InfoOf(users[i], true)
    decreases |users|
  {
    if users == [] then []
    else
      var rest := GetUsersOlderThan(users[1..], cutoff);
      assert forall i :: 1 <= i < |users| ==> users[i] == users[1..][i - 1];
      BornByCountAtHead(users, cutoff);
      if BornBy(users[0], cutoff) then [InfoOf(users[0], true)] + rest else rest
  }

  /** Each profile occurs in the age query's result as often as there are
      records born by the cutoff with that profile. */
  lemma {:induction false} OlderThanCounts(users: seq<User>, cutoff: Instant)
    ensures forall x :: multiset(GetUsersOlderThan(users, cutoff))[x] == BornByCount(users, cutoff, x)
    decreases |users|
  {
    if users != [] {
      OlderThanCounts(users[1..], cutoff);
      BornByCountsAtHead(users, cutoff);
    }
  }

  // ---------------------------------------------------------------------
  // Self-authentication

  /** The caller proves, with a password, that it is the active account with
      this login. The lookup takes the first active record with the login.
      Each failure has its own reason. */
  function AuthenticateForSelf(users: seq<User>, login: string, password: string, caller: Caller): (r: Result<UserInfo>)
    ensures FindFirst(users, login, ActiveOnly).None? ==> r == Failure(UserNotFoundOrInactive)
    ensures r.Success? <==>
      var t := FindFirst(users, login, ActiveOnly);
      t.Some? && caller.id == Some(users[t.value].id) && Verify(password, users[t.value].password)
    ensures r.Success? ==> r.value == InfoOf(users[FindFirst(users, login, ActiveOnly).value], true)
    ensures r.Success? ==> r.value.login == login && r.value.isActive
    ensures r.Failure? && FindFirst(users, login, ActiveOnly).Some? ==>
      r.error == (if caller.id != Some(users[FindFirst(users, login, ActiveOnly).value].id) then AccessDenied else WrongPassword)
  {
    match FindFirst(users, login, ActiveOnly)
    case None => Failure(UserNotFoundOrInactive)
    case Some(i) =>
      if caller.id != Some(users[i].id) then Failure(AccessDenied)
      else if !Verify(password, users[i].password) then Failure(WrongPassword)
      else Success(InfoOf(users[i], true))
  }

  // ---------------------------------------------------------------------
  // Record transition of restoration (soft deletion is `Data.Revoke`)

  function Reinstate(u: User, now: Instant, modifier: string): User {
    u.(revokedOn := None, revokedBy := None, modifiedOn := now, modifiedBy := modifier)
  }

  /** Restoring a soft-deleted active record gives back the record as it
      was, apart from the modification stamps. */
  lemma ReinstateUndoesRevoke(u: User, t1: Instant, revoker: Option<string>, t2: Instant, modifier: string)
    requires u.IsActive() && u.RevocationPaired()
    ensures Reinstate(Revoke(u, t1, revoker), t2, modifier) == u.(modifiedOn := t2, modifiedBy := modifier)
    ensures !Revoke(u, t1, revoker).IsActive()
    ensures revoker.Some? ==> Revoke(u, t1, revoker).RevocationPaired()
  {
  }

  // ---------------------------------------------------------------------
  // The repository over the table

  class UserRepo {
    const db: UserTable

    constructor (db: UserTable)
      ensures this.db == db
    {
      this.db := db;
    }

    /** Replaces the name, gender and birthday of the active account with
        this login, for an admin or the account itself, stamping the
        modification. No other field and no other record changes. */
    method UpdateProfile(login: string, dto: ProfileUpdate, caller: Caller, now: Instant) returns (r: Result<()>)
      requires db.Valid()
      modifies db
      ensures db.Valid()
      ensures AllRevocationsPaired(old(db.users)) ==> AllRevocationsPaired(db.users)
      ensures r.Failure? ==> db.users == old(db.users)
      ensures !IsActiveTarget(old(db.users), login) ==> r == Failure(UserNotFoundOrRevoked)
      ensures IsActiveTarget(old(db.users), login) && !caller.MayManage(login) ==> r == Failure(Forbidden)
      ensures r.Success? <==> IsActiveTarget(old(db.users), login) && caller.MayManage(login) && caller.login.Some?
      ensures r.Success? ==>
        var i := FindFirst(old(db.users), login, AnyState).value;
        && OnlyRecordChanged(old(db.users), db.users, i)
        && db.users[i] == old(db.users)[i].(name := dto.name, gender := dto.gender, birthday := dto.birthday,
                                            modifiedOn := now, modifiedBy := caller.login.value)
    {
      var t := FindFirst(db.users, login, AnyState);
      if t.None? || db.users[t.value].revokedOn.Some? {
        return Failure(UserNotFoundOrRevoked);
      }
      if !caller.MayManage(login) {
        return Failure(Forbidden);
      }
      if caller.login.None? {
        // the modifier column cannot be null: saving fails
        return Failure(OperationFailed);
      }
      var i := t.value;
      var u := db.users[i];
      db.users := db.users[i := u.(name := dto.name, gender := dto.gender, birthday := dto.birthday,
                                   modifiedOn := now, modifiedBy := caller.login.value)];
      r := Success(());
    }

    /** Replaces the password hash of the active account with this login,
        for an admin or the account itself; a non-admin must give the
        current password. Afterwards the stored hash verifies the new
        password. */
    method ChangePassword(login: string, oldPassword: string, newPassword: string, caller: Caller, now: Instant, salt: nat)
      returns (r: Result<()>)
      requires db.Valid()
      modifies db
      ensures db.Valid()
      ensures AllRevocationsPaired(old(db.users)) ==> AllRevocationsPaired(db.users)
      ensures r.Failure? ==> db.users == old(db.users)
      ensures !IsActiveTarget(old(db.users), login) ==> r == Failure(UserNotFoundOrRevoked)
      ensures IsActiveTarget(old(db.users), login) && !caller.MayManage(login) ==> r == Failure(Forbidden)
      ensures IsActiveTarget(old(db.users), login) && caller.MayManage(login) && !caller.isAdmin
              && !Verify(oldPassword, old(db.users)[FindFirst(old(db.users), login, AnyState).value].password)
              ==> r == Failure(OldPasswordIncorrect)
      ensures r.Success? <==>
        && IsActiveTarget(old(db.users), login) && caller.MayManage(login)
        && (caller.isAdmin || Verify(oldPassword, old(db.users)[FindFirst(old(db.users), login, AnyState).value].password))
        && caller.login.Some?
      ensures r.Success? ==>
        var i := FindFirst(old(db.users), login, AnyState).value;
        && OnlyRecordChanged(old(db.users), db.users, i)
        && db.users[i] == old(db.users)[i].(password := HashPassword(newPassword, salt),
                                            modifiedOn := now, modifiedBy := caller.login.value)
        && Verify(newPassword, db.users[i].password)
    {
      var t := FindFirst(db.users, login, AnyState);
      if t.None? || db.users[t.value].revokedOn.Some? {
        return Failure(UserNotFoundOrRevoked);
      }
      if !caller.MayManage(login) {
        return Failure(Forbidden);
      }
      var i := t.value;
      var u := db.users[i];
      if !caller.isAdmin && !Verify(oldPassword, u.password) {
        return Failure(OldPasswordIncorrect);
      }
      var hash := HashPassword(newPassword, salt);
      if caller.login.None? {
        return Failure(OperationFailed);
      }
      db.users := db.users[i := u.(password := hash, modifiedOn := now, modifiedBy := caller.login.value)];
      r := Success(());
    }

    /** Renames the active account with this login, for an admin or the
        account itself, unless some record (active or revoked, the target
        included) already holds the new login. Logins stay unique. */
    method ChangeLogin(login: string, newLogin: string, caller: Caller, now: Instant) returns (r: Result<()>)
      requires db.Valid()
      modifies db
      ensures db.Valid()
      ensures AllRevocationsPaired(old(db.users)) ==> AllRevocationsPaired(db.users)
      ensures r.Failure? ==> db.users == old(db.users)
      ensures !IsActiveTarget(old(db.users), login) ==> r == Failure(UserNotFoundOrRevoked)
      ensures IsActiveTarget(old(db.users), login) && !caller.MayManage(login) ==> r == Failure(Forbidden)
      ensures IsActiveTarget(old(db.users), login) && caller.MayManage(login) && LoginTaken(old(db.users), newLogin)
              ==> r == Failure(LoginInUse)
      ensures newLogin == login ==> r.Failure?
      ensures r.Success? <==>
        IsActiveTarget(old(db.users), login) && caller.MayManage(login) && !LoginTaken(old(db.users), newLogin)
        && caller.login.Some?
      ensures r.Success? ==>
        var i := FindFirst(old(db.users), login, AnyState).value;
        && OnlyRecordChanged(old(db.users), db.users, i)
        && db.users[i] == old(db.users)[i].(login := newLogin, modifiedOn := now, modifiedBy := caller.login.value)
        && FindFirst(db.users, newLogin, AnyState) == Some(i)
        && !LoginTaken(db.users, login)
    {
      var t := FindFirst(db.users, login, AnyState);
      if t.None? || db.users[t.value].revokedOn.Some? {
        return Failure(UserNotFoundOrRevoked);
      }
      if !caller.MayManage(login) {
        return Failure(Forbidden);
      }
      if FindFirst(db.users, newLogin, AnyState).Some? {
        return Failure(LoginInUse);
      }
      if caller.login.None? {
        return Failure(OperationFailed);
      }
      var i := t.value;
      var u := db.users[i];
      db.users := db.users[i := u.(login := newLogin, modifiedOn := now, modifiedBy := caller.login.value)];
      r := Success(());
    }

    /** Admin only. A hard delete removes the first record with this login; a
        soft delete stamps its revocation instant and revoker (the caller's
        login, absent when the caller has none). */
    method DeleteUser(login: string, hard: bool, caller: Caller, now: Instant) returns (r: Result<()>)
      requires db.Valid()
      modifies db
      ensures db.Valid()
      ensures r.Failure? ==> db.users == old(db.users)
      ensures !caller.isAdmin ==> r == Failure(OnlyAdminsCanDelete)
      ensures caller.isAdmin && !LoginTaken(old(db.users), login) ==> r == Failure(UserNotFound)
      ensures r.Success? <==> caller.isAdmin && LoginTaken(old(db.users), login)
      ensures r.Success? && hard ==>
        var i := FindFirst(old(db.users), login, AnyState).value;
        && db.users == RemoveAt(old(db.users), i)
        && FindFirst(db.users, login, AnyState).None?
        && !LoginTaken(db.users, login)
      ensures r.Success? && !hard ==>
        var i := FindFirst(old(db.users), login, AnyState).value;
        && OnlyRecordChanged(old(db.users), db.users, i)
        && db.users[i] == Revoke(old(db.users)[i], now, caller.login)
        && !db.users[i].IsActive()
      ensures AllRevocationsPaired(old(db.users)) && (hard || caller.login.Some?) ==> AllRevocationsPaired(db.users)
    {
      if !caller.isAdmin {
        return Failure(OnlyAdminsCanDelete);
      }
      var t := FindFirst(db.users, login, AnyState);
      if t.None? {
        return Failure(UserNotFound);
      }
      var i := t.value;
      if hard {
        RemoveAtKeepsOthers(db.users, i);
        RemovedLoginIsGone(db.users, i, AnyState);
        db.users := RemoveAt(db.users, i);
      } else {
        db.users := db.users[i := Revoke(db.users[i], now, caller.login)];
      }
      r := Success(());
    }

    /** Admin only. Clears both revocation fields of the first revoked record
        with this login and stamps the modification. */
    method RestoreUser(login: string, caller: Caller, now: Instant) returns (r: Result<()>)
      requires db.Valid()
      modifies db
      ensures db.Valid()
      ensures AllRevocationsPaired(old(db.users)) ==> AllRevocationsPaired(db.users)
      ensures r.Failure? ==> db.users == old(db.users)
      ensures !caller.isAdmin ==> r == Failure(OnlyAdminsCanRestore)
      ensures caller.isAdmin && FindFirst(old(db.users), login, RevokedOnly).None? ==> r == Failure(UserNotFoundOrNotRevoked)
      ensures r.Success? <==> caller.isAdmin && FindFirst(old(db.users), login, RevokedOnly).Some? && caller.login.Some?
      ensures r.Success? ==>
        var i := FindFirst(old(db.users), login, RevokedOnly).value;
        && OnlyRecordChanged(old(db.users), db.users, i)
        && !old(db.users)[i].IsActive()
        && db.users[i] == Reinstate(old(db.users)[i], now, caller.login.value)
        && db.users[i].IsActive() && db.users[i].RevocationPaired()
    {
      if !caller.isAdmin {
        return Failure(OnlyAdminsCanRestore);
      }
      var t := FindFirst(db.users, login, RevokedOnly);
      if t.None? {
        return Failure(UserNotFoundOrNotRevoked);
      }
      if caller.login.None? {
        return Failure(OperationFailed);
      }
      var i := t.value;
      db.users := db.users[i := Reinstate(db.users[i], now, caller.login.value)];
      r := Success(());
    }
  }
}
