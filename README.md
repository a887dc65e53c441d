# PicketLink extensions: request security interceptor and role authorizer

This project models the two access-control rules of the PicketLink extensions core and proves
what they promise.

- **`SecurityInterceptor`** is a RESTEasy pre-process interceptor. Before an endpoint runs,
  it checks whether the endpoint's declaring class is one of five exempt endpoints: sign-in,
  logout, account registration, user-name check and user info. If the class is not exempt and
  the injected identity is not logged in, it looks for a token. The token is the first value of
  the `Auth-Token` header, or else the `Auth-Token` cookie. It then asks the identity to
  restore a session from that token. If no session results, the request is answered with
  HTTP 403 (section 6.5.3 of RFC 7231) and an `AuthenticationResponse` whose `loggedIn` is
  false. Otherwise the request proceeds.
- **`AuthorizationManager`** holds two `@Secures` authorizers. `restrictRoles` grants a
  logged-in identity that holds at least one role listed in `@RolesAllowed`. A missing
  annotation, or its empty default, grants no one. `isUserLoggedIn` is the identity's
  logged-in flag.

Modules, one per file:

- `Wrappers` (`wrappers.dfy`): `Option`, which stands for Java's nullable references.
- `PBox` (`pbox_identity.dfy`): the identity as a class. Its fields are `loggedIn` and
  `roles`. A constant `store` gives the identity store's verdict on each token, either
  `Ok(bool)` or `AuthFailure` (the `AuthenticationException`). A ghost log records every
  token handed to `restoreSession`.
- `Interceptors` (`security_interceptor.dfy`): the request and response values and the token
  resolution. `Gate` is a pure function that gives the per-request decision.
  `SecurityInterceptor.PreProcess` is the imperative interceptor, proved equal to `Gate`. Its
  contract also says exactly when the identity was asked to restore a session.
- `Authorization` (`authorization_manager.dfy`): the annotation lookup, the `Permits` rule,
  the loop of `restrictRoles` proved equal to that rule, and lemmas about the rule.

The model keeps the source's null dereference on the cookie path. When there is no usable
header value and the cookie map exists without an `Auth-Token` entry, `getToken` calls
`getValue()` on `null`. The model gives this path its own outcome: `NullDereference` from
the token lookup, and `NullPointerFault` from `PreProcess`. The javadoc of `getToken`
("Retrieve the token from the request, if present", SecurityInterceptor.java:110) reads as
"no token" here. The model follows the code and adds the guarded variant separately (see
Findings).

## Model

| member | source | states |
|---|---|---|
| `Interceptors.RequiresAuthentication` | core/src/main/java/org/picketlink/extensions/core/rest/interceptors/SecurityInterceptor.java:145-154 | authentication is required exactly for classes other than the five exempt endpoints |
| `Interceptors.SubclassOfExemptRequiresAuthentication` | core/src/main/java/org/picketlink/extensions/core/rest/interceptors/SecurityInterceptor.java:145-154 | membership is by exact declaring class: a method declared in a subclass of an exempt endpoint requires authentication |
| `Interceptors.GetToken` | core/src/main/java/org/picketlink/extensions/core/rest/interceptors/SecurityInterceptor.java:116-135 | the step-by-step header-then-cookie assignment of `token` yields the resolution `ResolveToken`, including the fault |
| `Interceptors.HeaderTokenWins` | core/src/main/java/org/picketlink/extensions/core/rest/interceptors/SecurityInterceptor.java:118-126 | a non-null first `Auth-Token` header value is the token, and replacing the cookies does not change it |
| `Interceptors.NoHeaderNoCookiesNoToken` | core/src/main/java/org/picketlink/extensions/core/rest/interceptors/SecurityInterceptor.java:121-134 | with no usable header value and a null cookie map, there is no token |
| `Interceptors.CookieFallback` | core/src/main/java/org/picketlink/extensions/core/rest/interceptors/SecurityInterceptor.java:126-131 | with no usable header value, a present `Auth-Token` cookie supplies the token (its value, or none if that is null) |
| `Interceptors.NullDereferenceIff` | core/src/main/java/org/picketlink/extensions/core/rest/interceptors/SecurityInterceptor.java:126-131 | the lookup faults if and only if the header gives nothing and a non-null cookie map lacks the `Auth-Token` entry |
| `Interceptors.EmptyCookieMapFaults` | core/src/main/java/org/picketlink/extensions/core/rest/interceptors/SecurityInterceptor.java:127-130 | a request with no headers and an empty cookie map makes the lookup dereference null |
| `Interceptors.ResolveTokenGuarded` | core/src/main/java/org/picketlink/extensions/core/rest/interceptors/SecurityInterceptor.java:126-131 | the guarded resolution never faults, gives no token where the source faults, and agrees with the source everywhere else |
| `Interceptors.Gate` | core/src/main/java/org/picketlink/extensions/core/rest/interceptors/SecurityInterceptor.java:79-106 | any response returned is 403 with `loggedIn` false, and a fault can come only from the token lookup |
| `Interceptors.ProceedIff` | core/src/main/java/org/picketlink/extensions/core/rest/interceptors/SecurityInterceptor.java:82-105 | the request proceeds if and only if the endpoint is exempt, or the identity is logged in, or a token was found and the session was restored |
| `Interceptors.ExemptEndpointProceeds` | core/src/main/java/org/picketlink/extensions/core/rest/interceptors/SecurityInterceptor.java:82 | the five exempt endpoints proceed, whatever the identity, the request and the identity store |
| `Interceptors.LoggedInProceeds` | core/src/main/java/org/picketlink/extensions/core/rest/interceptors/SecurityInterceptor.java:82 | a logged-in identity proceeds even when the token lookup would fault, so that lookup is never made |
| `Interceptors.RestoreDecides` | core/src/main/java/org/picketlink/extensions/core/rest/interceptors/SecurityInterceptor.java:83-102 | once authentication is needed, no token, a false restore and an `AuthenticationException` each give the 403 response, with no exception; a true restore proceeds |
| `Interceptors.GuardedGateNeverFaults` | core/src/main/java/org/picketlink/extensions/core/rest/interceptors/SecurityInterceptor.java:84-94 | with the guarded resolution the decision never faults |
| `Interceptors.SecurityInterceptor.PreProcess` | core/src/main/java/org/picketlink/extensions/core/rest/interceptors/SecurityInterceptor.java:79-106 | the result is `Gate` of the old login state; `restoreSession` is called once, with the resolved token, exactly when authentication is needed and a token was found; otherwise the identity is untouched; the roles can change only after a successful restore |
| `PBox.PicketBoxIdentity.RestoreSession` | core/src/main/java/org/picketlink/extensions/core/rest/interceptors/SecurityInterceptor.java:88 | returns the store's verdict for the token, logs the call, leaves the identity logged in exactly when the verdict is `Ok(true)`, and leaves the roles unchanged on any other verdict |
| `Authorization.GetRestrictedRoles` | core/src/main/java/org/picketlink/extensions/core/pbox/authorization/AuthorizationManager.java:90-98 | the annotation's roles when the annotation is present, the empty list when it is absent |
| `Authorization.NoDeclaredRoles` | core/src/main/java/org/picketlink/extensions/core/pbox/authorization/AuthorizationManager.java:90-98 | a missing annotation and the annotation's default (`value() default {}`) both declare no role |
| `Authorization.RestrictRoles` | core/src/main/java/org/picketlink/extensions/core/pbox/authorization/AuthorizationManager.java:52-66 | the loop with early return grants exactly when the identity is logged in and holds some declared role |
| `Authorization.PermitsRequiresLogin` | core/src/main/java/org/picketlink/extensions/core/pbox/authorization/AuthorizationManager.java:53-55 | an identity that is not logged in is refused whatever its roles |
| `Authorization.RoleGrantImpliesUserLoggedIn` | core/src/main/java/org/picketlink/extensions/core/pbox/authorization/AuthorizationManager.java:52-79 | every `restrictRoles` grant is also an `isUserLoggedIn` grant |
| `Authorization.EmptyDeclarationDenies` | core/src/main/java/org/picketlink/extensions/core/pbox/authorization/AuthorizationManager.java:57-65 | an empty role list, a missing annotation or its default grants no one, logged in or not |
| `Authorization.PermitsIffOverlap` | core/src/main/java/org/picketlink/extensions/core/pbox/authorization/AuthorizationManager.java:59-63 | roles combine by OR: a logged-in identity is granted if and only if the declared and held role sets overlap |
| `Authorization.PermitsIgnoresOrderAndDuplicates` | core/src/main/java/org/picketlink/extensions/core/pbox/authorization/AuthorizationManager.java:59-63 | two declarations with the same roles, in any order and with any repeats, give the same answer |
| `Authorization.PermitsIffFullScan` | core/src/main/java/org/picketlink/extensions/core/pbox/authorization/AuthorizationManager.java:59-65 | the early return at the first held role agrees with a scan of the whole list that counts the held entries |
| `Authorization.IsUserLoggedIn` | core/src/main/java/org/picketlink/extensions/core/pbox/authorization/AuthorizationManager.java:77-79 | the answer is the identity's logged-in flag |
| `Authorization.IsUserLoggedInIgnoresRoles` | core/src/main/java/org/picketlink/extensions/core/pbox/authorization/AuthorizationManager.java:77-79 | the answer does not depend on the invocation context or on the roles |

## Findings

| source | as written | input that shows it | evidently intended | confidence | as-written member | corrected member |
|---|---|---|---|---|---|---|
| core/src/main/java/org/picketlink/extensions/core/rest/interceptors/SecurityInterceptor.java:129-130 | the result of `cookies.get("Auth-Token")` is dereferenced without a null check | no `Auth-Token` header and a non-null cookie map without an `Auth-Token` cookie, e.g. `HttpRequest(map[], Some(map[]))` | no token, so the request gets the 403 `loggedIn=false` response | not executed | `Interceptors.EmptyCookieMapFaults` | `Interceptors.ResolveTokenGuarded` |

`PreProcess` models the code as written. `Gate` applied to `ResolveTokenGuarded` is the
corrected decision, and `GuardedGateNeverFaults` proves that it never faults.

## Left out

- RESTEasy and JAX-RS plumbing (`HttpRequest`, `HttpHeaders`, `ResourceMethod`, `ServerResponse`, entity serialisation): these become plain datatypes. The header map is keyed by the exact name `Auth-Token`; case-insensitive header lookup is not modelled.
- CDI injection and scoping, and the DeltaSpike `@Secures` binding: the interceptor holds its identity as a constructor argument, and the authorizers take theirs as a parameter.
- The identity store behind `restoreSession` and `hasRole`: its code is not part of this model. It is represented by the `store` verdict function and the `roles` set.
- PBox.PicketBoxIdentity.RestoreSession: the provider's effect is reduced to setting `loggedIn` from the verdict. The user information it would load on a successful restore is not modelled; the roles are left unconstrained after an `Ok(true)` verdict.
- Exceptions from `restoreSession` other than `AuthenticationException`: the interceptor does not catch them, and the model has no outcome for them.
- Reflection: `getDeclaringClass` becomes the `EndpointClass` of the resource method, and `AnnotationUtil.getDeclaredAnnotation` (not part of this model) becomes the annotation recorded in `InvocationContext`.
- Logging of the authentication failure: it is observability only.
- `AuthenticationResponse`: only its `loggedIn` field is modelled. Its other fields keep their defaults in the source.
- `RolesAllowed.java`: only an annotation declaration. Its only behaviour, the empty default at line 52, is the constant `RolesAllowedDefault`.
