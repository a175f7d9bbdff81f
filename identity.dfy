/** Who makes a request, and what an issued token says about its holder. */
module Identity {
  import opened Wrappers
  import opened Users

  /** The caller of a request, as its claims describe it: the identifier
      claim, the `Login` claim and membership in the `Admin` role. An
      anonymous request has neither claim and no role. */
  datatype Caller = Caller(id: Option<Id>, login: Option<string>, isAdmin: bool) {

    /** The "admin or self" rule of the per-account operations. A caller
        without a `Login` claim is never "self". */
    predicate MayManage(target: string) {
      isAdmin || login == Some(target)
    }

    /** The name stamped as creator and modifier of a registered account. */
    function CreatorName(): string {
      login.GetOr("System")
    }
  }

  const Anonymous: Caller := Caller(None, None, false)

  const AdminRole: string := "Admin"
  const UserRole: string := "User"

  /** The claims put into an issued token. */
  datatype Claims = Claims(nameIdentifier: Id, role: string, login: string)

  /** An issued token: its claims and its expiry instant. Signing and
      serialisation are not modelled. */
  datatype Token = Token(claims: Claims, expires: Instant)

  /** The caller a request carrying these claims is seen as: role membership
      is the role claim being exactly `Admin`. */
  function CallerOf(c: Claims): Caller {
    Caller(Some(c.nameIdentifier), Some(c.login), c.role == AdminRole)
  }
}
