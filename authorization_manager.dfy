/** The `@Secures` authorizers of `AuthorizationManager`. */
module Authorization {
  import opened Wrappers
  import opened PBox

  /** The `@RolesAllowed` annotation: the role names it lists. */
  datatype RolesAllowed = RolesAllowed(value: seq<string>)

  /** `@RolesAllowed` written without a value: `value() default {}`. */
  const RolesAllowedDefault: RolesAllowed := RolesAllowed([])

  /** The invocation being authorized, reduced to what the reflective annotation lookup finds on
      it (`None` when the invoked method carries no `@RolesAllowed`). */
  datatype InvocationContext = InvocationContext(rolesAllowed: Option<RolesAllowed>)

  /** `getRestrictedRoles`: the annotation's roles when it is present, no roles when absent. */
  function GetRestrictedRoles(ctx: InvocationContext): (roles: seq<string>)
    ensures ctx.rolesAllowed.Some? ==> roles == ctx.rolesAllowed.value.value
    ensures ctx.rolesAllowed.None? ==> roles == []
  {
    match ctx.rolesAllowed
    case Some(annotation) => annotation.value
    case None => []
  }

  /** Both the missing annotation and the annotation's default declare no role. */
  lemma NoDeclaredRoles(ctx: InvocationContext)
    requires ctx.rolesAllowed in {None, Some(RolesAllowedDefault)}
    ensures GetRestrictedRoles(ctx) == []
  {
  }

  /** The access rule of `restrictRoles`: logged in, and holding some declared role. */
  predicate Permits(loggedIn: bool, held: set<string>, declared: seq<string>)
  {
    loggedIn && exists i :: 0 <= i < |declared| && declared[i] in held
  }

  /** `restrictRoles`: the loop returns at the first declared role the identity holds. */
  method RestrictRoles(ctx: InvocationContext, identity: PicketBoxIdentity) returns (allowed: bool)
    ensures allowed == Permits(identity.loggedIn, identity.roles, GetRestrictedRoles(ctx))
  {
    if !identity.IsLoggedIn() {
      return false;
    }

    var restrictedRoles := GetRestrictedRoles(ctx);

    for i := 0 to |restrictedRoles|
      invariant forall j :: 0 <= j < i ==> restrictedRoles[j] !in identity.roles
    {
      if identity.HasRole(restrictedRoles[i]) {
        return true;
      }
    }

    return false;
  }

  /** `isUserLoggedIn`: the logged-in flag, nothing else. */
  function IsUserLoggedIn(ctx: InvocationContext, identity: PicketBoxIdentity): (r: bool)
    reads identity
    ensures r <==> identity.IsLoggedIn()
  {
    identity.loggedIn
  }

  /** `isUserLoggedIn` ignores the context and the roles: two identities with the same flag get
      the same answer. */
  lemma IsUserLoggedInIgnoresRoles(ctx: InvocationContext, ctx': InvocationContext, a: PicketBoxIdentity, b: PicketBoxIdentity)
    requires a.loggedIn == b.loggedIn
    ensures IsUserLoggedIn(ctx, a) == IsUserLoggedIn(ctx', b)
  {
  }

  /** Whatever the roles, an identity that is not logged in is refused. */
  lemma PermitsRequiresLogin(loggedIn: bool, held: set<string>, declared: seq<string>)
    ensures !loggedIn ==> !Permits(loggedIn, held, declared)
  {
  }

  /** Every `restrictRoles` grant is also an `isUserLoggedIn` grant. */
  lemma RoleGrantImpliesUserLoggedIn(ctx: InvocationContext, identity: PicketBoxIdentity)
    ensures Permits(identity.loggedIn, identity.roles, GetRestrictedRoles(ctx)) ==> IsUserLoggedIn(ctx, identity)
  {
  }

  /** An empty declaration grants no one, logged in or not, whatever roles they hold; so does a
      method without the annotation or with its default. */
  lemma EmptyDeclarationDenies(loggedIn: bool, held: set<string>, ctx: InvocationContext)
    requires ctx.rolesAllowed in {None, Some(RolesAllowedDefault)}
    ensures !Permits(loggedIn, held, [])
    ensures !Permits(loggedIn, held, GetRestrictedRoles(ctx))
  {
  }

  /** The declared roles combine by OR: a logged-in identity is granted exactly when the declared
      set and its held set overlap. */
  lemma PermitsIffOverlap(held: set<string>, declared: seq<string>)
    ensures Permits(true, held, declared) <==> (set r | r in declared) * held != {}
  {
    var declaredSet := set r | r in declared;
    if Permits(true, held, declared) {
      var i :| 0 <= i < |declared| && declared[i] in held;
      assert declared[i] in declaredSet * held;
    }
    if declaredSet * held != {} {
      var r :| r in declaredSet * held;
      var i :| 0 <= i < |declared| && declared[i] == r;
    }
  }

  /** Only the set of declared roles matters: reordering or repeating them changes nothing. */
  lemma PermitsIgnoresOrderAndDuplicates(loggedIn: bool, held: set<string>, declared: seq<string>, declared': seq<string>)
    requires forall r :: r in declared <==> r in declared'
    ensures Permits(loggedIn, held, declared) == Permits(loggedIn, held, declared')
  {
    PermitsIffOverlap(held, declared);
    PermitsIffOverlap(held, declared');
    assert (set r | r in declared) == (set r | r in declared');
  }

  /** A scan of the whole declaration, with no early exit: how many declared entries are held. */
  function HeldCount(held: set<string>, declared: seq<string>): nat
  {
    if declared == [] then 0
    else HeldCount(held, declared[..|declared| - 1]) + (if declared[|declared| - 1] in held then 1 else 0)
  }

  /** The early return at the first held role agrees with the full scan. */
  lemma {:induction false} PermitsIffFullScan(held: set<string>, declared: seq<string>)
    ensures Permits(true, held, declared) <==> HeldCount(held, declared) > 0
  {
    if declared != [] {
      var front := declared[..|declared| - 1];
      PermitsIffFullScan(held, front);
      if Permits(true, held, front) {
        var i :| 0 <= i < |front| && front[i] in held;
        assert declared[i] in held;
      }
      if Permits(true, held, declared) && declared[|declared| - 1] !in held {
        var i :| 0 <= i < |declared| && declared[i] in held;
        assert front[i] in held;
      }
    }
  }
}
