# User account lifecycle and authorization — a Dafny model

This project models the core of a user-account management service: the
account table, how accounts are registered, logged in, edited, soft- and
hard-deleted and restored, and the authorization rules each operation
applies. The rules are "admin or self, and the target not revoked" for profile,
password and login changes. Deletion and restoration are admin-only.
Registering an admin requires an admin caller.

## Structure

- `users.dfy` (module `Users`): the `User` record. `Birthday`, `RevokedOn` and
  `RevokedBy` are `Option`s; every other field is always present. The login and
  name patterns are written as character-class ranges, and lemmas prove what they
  accept. The record also defines the gender range and the `WellFormed` predicate.
- `passwords.dfy` (module `Passwords`): a stand-in for bcrypt. `HashPassword(text, salt)`
  takes the random salt as a parameter. `Verify` checks a text against a stored
  hash. The password column has type `StoredPassword`, not `string`, so a
  plaintext password can never be stored.
- `identity.dfy` (module `Identity`): the caller of a request (`Caller`: the id
  claim, the `Login` claim, membership in role `Admin`). It also defines the
  "admin or self" rule, the creator name (`Login` claim or `"System"`), and
  the claims and expiry of an issued token.
- `responses.dfy` (module `Responses`): one error constructor per failure
  reason, plus `OperationFailed` for an exception caught by an operation's
  catch-all.
- `data.dfy` (module `Data`): the table as class `UserTable` with a
  `seq<User>` field, in table order. Its invariant `Valid()` says that logins
  and ids are unique and every password is a hash. The constructor
  `Seeded` gives the state after the initial migration: one active admin
  `admin`, created by `System`. The module also holds the first-match lookup
  by login and the removal of a record.
- `user_repo.dfy` (module `UserRepository`): the read-only queries as
  functions of the table contents. Class `UserRepo` holds the lifecycle
  operations as methods that replace or remove one record of the table.
- `account.dfy` (module `Accounts`): login and token claims as functions.
  Class `Account` holds registration as a method that appends one record.
- `lifecycle.dfy` (module `Lifecycle`): lemmas that combine issued tokens
  with self-authentication. It also has three client methods that chain the
  operations using only their contracts. `RegisterThenLogIn` registers and
  logs in on a seeded table. `SoftDeleteThenRestore` shows that a revoked
  account cannot edit itself until an admin restores it.
  `HardDeleteFreesLogin` shows that a hard delete frees the login for a new
  registration.

Inputs the service draws from its environment are parameters:
- the current time is `now` (seconds, UTC); registration reads the clock twice,
  so it takes two instants, `created` and `modified`;
- the id of a new account (a random GUID) is `freshId`;
- the bcrypt salt is `salt`;
- the age cutoff, which the service computes as "now minus `age` years", is `cutoff`.

Registration's duplicate-id branch stands for the primary key on `Id` (a
collision fails like any store error). Every lifecycle method states its
whole new table: its error cases and success condition, the record that
changes and the fields that change, and that nothing else changes. Every
method also preserves `Valid()`.

Behaviours of the code that the model keeps as written:

- The "not found or revoked" check comes before the authorization check, so
  an admin cannot edit a revoked account either.
- Registration and login accept anonymous callers.
- No unique index on `Login` exists in the schema. Uniqueness comes only
  from the lookups before registration and renaming. That is why it sits in
  `Valid()` and is proved preserved.
- Soft deletion by a caller without a `Login` claim leaves `RevokedOn` set
  and `RevokedBy` absent. So "both or neither" is proved only for callers
  that have a login.
- Profile, password, login and restore operations assign the caller's
  `Login` claim to `ModifiedBy`, a non-null column. An admin caller without
  that claim makes the save fail. The model answers `OperationFailed` and
  changes nothing.
- Login does not look at revocation. `Accounts.LoginIgnoresRevocation`
  states this, so a soft-deleted admin still receives an admin token.

## Model

| member | source | states |
|---|---|---|
| Users.MatchesOneOrMoreIff | UserManagementApi/Models/User.cs:9-16 | an anchored one-or-more character-class pattern accepts exactly the non-empty strings all of whose characters are in the class |
| Users.LoginClassMeaning | UserManagementApi/Models/User.cs:10 | a character is in the login class iff it is an ASCII letter or digit |
| Users.ValidLoginIff | UserManagementApi/Models/User.cs:9-10 | a login is valid iff it is non-empty and every character is an ASCII letter or digit |
| Users.NameClassMeaning | UserManagementApi/Models/User.cs:16 | a character is in the name class iff it is a Latin letter, in а-я or А-Я, or ё/Ё |
| Users.ValidNameIff | UserManagementApi/Models/User.cs:15-16 | a name is valid iff it is non-empty and every character is a Latin letter, in а-я or А-Я, or ё/Ё |
| Users.WellFormedIff | UserManagementApi/Models/User.cs:9-19 | a record meets its declared constraints iff login and name are as above, gender lies in 0..2 and the required password is non-empty |
| Passwords.HashPassword | UserManagementApi/Repositories/Account.cs:66 | the stored hash verifies the password it was made from, under any salt, and is not empty |
| Data.FindFirst | UserManagementApi/Repositories/UserRepo.cs:261-262 | the index of the first record with the login that the filter (any, active, revoked) accepts; none iff no record qualifies |
| Data.RemoveAtKeepsOthers | UserManagementApi/Repositories/UserRepo.cs:187 | removing a record keeps all others in order, and keeps logins and ids unique, hashes present and revocations paired |
| Data.RemovedLoginIsGone | UserManagementApi/Repositories/UserRepo.cs:186-187 | with unique logins, after removing the holder of a login no lookup finds it and the login is free |
| Data.UserTable.Seeded | UserManagementApi/Migrations/20250614144217_First.cs:38-62 | the initial table is exactly the seeded admin record, satisfies the table invariant and has paired revocation fields |
| Data.SeedAdminWellFormed | UserManagementApi/Migrations/20250614144217_First.cs:38-62 | the seeded record meets every field constraint, is active, is an admin and verifies the seeded password |
| UserRepository.GetByLoginAdmin | UserManagementApi/Repositories/UserRepo.cs:18-34 | fails with not-found iff no record has the login; otherwise the profile of a record with that login, with IsActive iff RevokedOn is absent |
| UserRepository.ActiveItems | UserManagementApi/Repositories/UserRepo.cs:46-54 | the list lines are exactly those of the non-revoked records, one line per such record (the length is the number of non-revoked records) |
| UserRepository.ActiveItemsCounts | UserManagementApi/Repositories/UserRepo.cs:46-54 | each list line occurs in the active list exactly as often as there are non-revoked records with that line |
| UserRepository.InsertByCreation | UserManagementApi/Repositories/UserRepo.cs:48 | inserting a line adds exactly that line, and the result starts with it or with the old head |
| UserRepository.InsertKeepsSorted | UserManagementApi/Repositories/UserRepo.cs:48 | inserting into a list sorted by CreatedOn keeps it sorted |
| UserRepository.SortByCreation | UserManagementApi/Repositories/UserRepo.cs:48 | the result is sorted by CreatedOn and is a permutation of the input |
| UserRepository.GetActiveUsers | UserManagementApi/Repositories/UserRepo.cs:42-57 | sorted by CreatedOn, a permutation of the active records' lines, a line is in it iff it is the line of a non-revoked record, it has one line per non-revoked record, and each line occurs as often as there are non-revoked records with that line |
| UserRepository.GetUsersOlderThan | UserManagementApi/Repositories/UserRepo.cs:65-81 | a profile is in the result iff it is that of an active record with a birthday on or before the cutoff; each is marked active; the result has one profile per such record |
| UserRepository.OlderThanCounts | UserManagementApi/Repositories/UserRepo.cs:70-79 | each profile occurs in the age query's result exactly as often as there are active records born by the cutoff with that profile |
| UserRepository.AuthenticateForSelf | UserManagementApi/Repositories/UserRepo.cs:228-254 | succeeds iff the first active record with the login has the caller's id and verifies the password; on success the result is that record's whole profile (login, name, gender, birthday), marked active; distinct failures for missing/inactive, other caller, wrong password |
| UserRepository.ReinstateUndoesRevoke | UserManagementApi/Repositories/UserRepo.cs:190-191 | restoring a soft-deleted active record yields the original apart from the modification stamps; soft deletion makes it inactive, with both revocation fields set when the revoker is known |
| UserRepository.UserRepo.UpdateProfile | UserManagementApi/Repositories/UserRepo.cs:89-115 | fails without change when the target is missing or revoked, or the caller is neither admin nor self; on success only Name, Gender, Birthday, ModifiedOn and ModifiedBy of the target change |
| UserRepository.UserRepo.ChangePassword | UserManagementApi/Repositories/UserRepo.cs:117-144 | same target and caller checks; a non-admin must verify the old password; on success only the hash and the modification stamps change, and the new hash verifies the new password |
| UserRepository.UserRepo.ChangeLogin | UserManagementApi/Repositories/UserRepo.cs:146-173 | same checks; fails when any record holds the new login, so renaming to the current login fails; on success only the login and stamps change, and logins stay unique |
| UserRepository.UserRepo.DeleteUser | UserManagementApi/Repositories/UserRepo.cs:175-201 | non-admins change nothing; hard delete removes the record so no lookup finds the login; soft delete sets RevokedOn and RevokedBy, so both are set when the caller has a login |
| UserRepository.UserRepo.RestoreUser | UserManagementApi/Repositories/UserRepo.cs:203-226 | admin only; matches only a revoked record, otherwise fails with no change; on success clears both revocation fields and stamps the modification |
| Accounts.GenerateToken | UserManagementApi/Repositories/Account.cs:105-116 | the token carries the account's id and login, the role Admin iff the account is an admin (User otherwise), and expires two days after issue |
| Accounts.Login | UserManagementApi/Repositories/Account.cs:25-40 | succeeds iff a record with the login exists, its password is non-empty and verifies; every failure is the same; the token is the one issued to that record |
| Accounts.Account.CreateUser | UserManagementApi/Repositories/Account.cs:42-88 | fails without change when the login is taken (active or revoked) or a non-admin asks for an admin; on success appends exactly one active record with the given fields, Admin as requested, CreatedOn and ModifiedOn from the two clock readings, creator and modifier the caller's login or System, and a hash that verifies the password |
| Accounts.LoginFailuresAlike | UserManagementApi/Repositories/Account.cs:30-31 | a missing login and a wrong password give the same answer |
| Accounts.FindFirstIgnoresRevocation | UserManagementApi/Repositories/Account.cs:90-91 | changing a record's revocation fields does not move the first-match lookup by login |
| Accounts.LoginIgnoresRevocation | UserManagementApi/Repositories/Account.cs:29-34 | soft-deleting any record with `Data.Revoke`, the transition the soft delete applies, leaves every login attempt's answer unchanged |
| Accounts.RegisteredUserCanLogIn | UserManagementApi/Repositories/Account.cs:62-77 | a newly registered account logs in with its password, and its token carries its id, login and requested role |
| Accounts.TokenIdentifiesHolder | UserManagementApi/Repositories/Account.cs:105-110 | the caller a token makes is the account it was issued to, admin exactly when the account is, and passes "admin or self" for that account |
| Accounts.SeededAdminLogsIn | UserManagementApi/Migrations/20250614144217_First.cs:38-62 | the seeded admin logs in with the seeded password and receives an admin token |
| Lifecycle.SelfAuthenticationWithOwnToken | UserManagementApi/Repositories/UserRepo.cs:232-243 | an active account's own token passes self-authentication iff the password verifies |
| Lifecycle.SelfAuthenticationWithOthersToken | UserManagementApi/Repositories/UserRepo.cs:238-240 | another account's token is always denied at self-authentication |
| Identity.Caller.MayManage | UserManagementApi/Repositories/UserRepo.cs:96-99 | definition: the "admin or self" rule, an admin caller or one whose Login claim is the target login (the same test is at lines 125-127 and 154-156) |
| Identity.Caller.CreatorName | UserManagementApi/Repositories/Account.cs:72-74 | definition: the caller's Login claim, or "System" when it has none |
| Identity.CallerOf | UserManagementApi/Repositories/UserRepo.cs:96-98 | definition: the caller a validated token makes, with its NameIdentifier and Login claims and membership in Admin exactly when the role claim is Admin (the NameIdentifier claim is read at line 238) |
| Accounts.NewRecord | UserManagementApi/Repositories/Account.cs:62-77 | definition: the record a registration adds, with a new id, the hashed password, the request's fields, the two clock readings, the creator name twice and no revocation |
| Data.Revoke | UserManagementApi/Repositories/UserRepo.cs:190-191 | definition: a soft delete sets RevokedOn to the instant and RevokedBy to the caller's login, absent when it has none |
| UserRepository.Reinstate | UserManagementApi/Repositories/UserRepo.cs:214-217 | definition: a restore clears RevokedOn and RevokedBy and stamps ModifiedOn and ModifiedBy |
| UserRepository.BornBy | UserManagementApi/Repositories/UserRepo.cs:71 | definition: the age query's filter, not revoked and with a birthday on or before the cutoff |
| Data.RemoveAt | UserManagementApi/Repositories/UserRepo.cs:187 | definition: a hard delete removes one record from the table |
| Data.SeedAdmin | UserManagementApi/Migrations/20250614144217_First.cs:38-62 | definition: the seeded admin record, with login admin, name Administrator, gender 2, the Admin flag set, the hash of the seeded password, created and modified by System at the seed instant |
| UserRepository.InfoOf | UserManagementApi/Repositories/UserRepo.cs:26-33 | definition: the profile view of a record, its login, name, gender and birthday with the given activity flag (the same projection is at lines 72-79 and 245-252) |
| UserRepository.ListItemOf | UserManagementApi/Repositories/UserRepo.cs:49-54 | definition: the active-list line of a record, its id, login and creation instant |
| Data.IsActiveTarget | UserManagementApi/Repositories/UserRepo.cs:93-95 | definition: the first record with the login exists and is not revoked, the target test of the profile change (and at lines 121-123 and 150-152) |
| Data.LoginTaken | UserManagementApi/Repositories/UserRepo.cs:159 | definition: some record, active or revoked, holds the login, the test before renaming and, at Account.cs:46-47, before registration |
| Passwords.Verify | UserManagementApi/Repositories/Account.cs:30 | definition: a text matches a stored password when the stored value is a hash of it with its own salt; stands for the library check also used at UserRepo.cs:130 and 242 |

## Left out

- HTTP controllers, routing and the `[Authorize]` attributes are not modelled. The admin-only rule of the three queries lives in those attributes, not in the repository, so the query functions take no caller.
- Token signing, the issuer, audience and key configuration, and serialisation are not modelled. Only the claims and the expiry are. A missing configuration key makes the service fail login with a generic message; the model does not have that case.
- Token validation on incoming requests is not modelled. `Identity.CallerOf` gives the caller a valid token makes.
- The bcrypt algorithm is not modelled. `Passwords.Digest` is an arbitrary deterministic function. The library throws when asked to verify against an empty stored value, which the catch-all turns into a generic failure. `AuthenticateForSelf` answers `WrongPassword` there instead. That case cannot arise in a table satisfying `Valid()`, where every password is a hash.
- The ORM, async execution and `SaveChangesAsync` are not modelled; the table is a sequence that each operation reassigns. The tracked entity shared between a lookup and its update, and any aliasing of it, are not modelled. Table order stands for the unspecified order of queries without an ORDER BY.
- Store failures other than a null `ModifiedBy` and a duplicate id are not modelled: connection errors and concurrent writers. Two concurrent registrations of one login are therefore not modelled either.
- Calendar arithmetic for "now minus `age` years" is not modelled; the cutoff instant is an input.
- The password pattern on `User.Password` is not imposed, because the column holds a bcrypt hash that the pattern would reject.
- The field constraints are not enforced by any operation, because the service enforces none of them. The ORM does not evaluate pattern annotations, and the request types carry no validation annotations. The constraints are the predicate `Users.WellFormed` and its lemmas, not part of `Valid()`.
- Response messages are not modelled; each failure reason is an `Error` constructor.
- Timestamp monotonicity (`ModifiedOn` not before `CreatedOn`) is not modelled, because the code does not enforce it: it stamps whatever the clock says.
- The JSON date converters are not modelled: they are serialisation only.
