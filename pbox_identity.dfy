/** The PicketBox identity the interceptor and the authorization manager consult. */
module PBox {
  import opened Wrappers

  /** What the identity provider's `restoreSession(token)` does: it returns a flag, or it throws
      `AuthenticationException`. */
  datatype RestoreOutcome = Ok(restored: bool) | AuthFailure

  /** The injected, request-scoped identity. The identity store behind `restoreSession` and
      `hasRole` is not part of this model: `store` is its verdict for each token, and `roles`
      is the set of role names `hasRole` answers from. */
  class PicketBoxIdentity {
    var loggedIn: bool
    var roles: set<string>
    const store: string -> RestoreOutcome
    /** The tokens handed to `restoreSession`, oldest first. */
    ghost var restoreCalls: seq<string>

    constructor (loggedIn: bool, roles: set<string>, store: string -> RestoreOutcome)
      ensures this.loggedIn == loggedIn && this.roles == roles && this.store == store
      ensures restoreCalls == []
    {
      this.loggedIn := loggedIn;
      this.roles := roles;
      this.store := store;
      restoreCalls := [];
    }

    /** `isLoggedIn()` */
    predicate IsLoggedIn()
      reads this
    {
      loggedIn
    }

    /** `hasRole(role)` */
    predicate HasRole(role: string)
      reads this
    {
      role in roles
    }

    /** `restoreSession(token)`: asks the store about the token; the identity is logged in
        afterwards exactly when the store confirmed the session. A confirmed session may load the
        user's information, so the roles are then left unconstrained. */
    method RestoreSession(token: string) returns (outcome: RestoreOutcome)
      modifies this
      ensures outcome == store(token)
      ensures loggedIn <==> outcome == Ok(true)
      ensures outcome != Ok(true) ==> roles == old(roles)
      ensures restoreCalls == old(restoreCalls) + [token]
    {
      outcome := store(token);
      loggedIn := outcome == Ok(true);
      restoreCalls := restoreCalls + [token];
    }
  }
}
