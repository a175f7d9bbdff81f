/** Outcomes of the account operations: a success carrying a payload, or a
    failure carrying the reason the service reports. */
module Responses {

  datatype Error =
    | UserNotFound             // lookup by login found no record
    | UserNotFoundOrRevoked    // no record, or the record is revoked
    | Forbidden                // caller is neither an admin nor the account itself
    | OldPasswordIncorrect     // non-admin password change with a wrong old password
    | LoginInUse               // some record already holds the requested login
    | OnlyAdminsCanDelete
    | OnlyAdminsCanRestore
    | UserNotFoundOrNotRevoked // restore found no revoked record with that login
    | UserAlreadyExists        // registration with a login that is taken
    | OnlyAdminsCanCreateAdmin
    | InvalidCredentials       // login: no such user or wrong password, deliberately alike
    | UserNotFoundOrInactive   // self-authentication found no active record
    | AccessDenied             // self-authentication by another account
    | WrongPassword            // self-authentication with a wrong password
    | OperationFailed          // an exception caught by the operation's catch-all

  datatype Result<+T> = Success(value: T) | Failure(error: Error)
}
