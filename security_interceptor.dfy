/** The RESTEasy pre-process interceptor: before an endpoint runs, it either lets the request
    through or answers it with 403 Forbidden and the body `loggedIn=false`. */
module Interceptors {
  import opened Wrappers
  import opened PBox

  /** Name of both the header and the cookie that carry the authentication token. */
  const AuthTokenName: string := "Auth-Token"

  /** HTTP 403 Forbidden (section 6.5.3 of RFC 7231). */
  const StatusForbidden: int := 403

  /** The declaring class of the invoked resource method. The five exempt endpoints are named;
      every other class, including a subclass of an exempt one, is an `ApplicationClass`. */
  datatype EndpointClass =
    | SignInEndpoint
    | LogoutEndpoint
    | AccountRegistrationEndpoint
    | CheckUserNameEndpoint
    | UserInfoEndpoint
    | ApplicationClass(name: string, superclass: Option<EndpointClass>)

  datatype ResourceMethod = ResourceMethod(declaringClass: EndpointClass)

  /** A cookie, reduced to its value (which may be `null`); it is looked up by its name as map key. */
  datatype Cookie = Cookie(value: Option<string>)

  /** A header name maps to its list of values (a missing name is a `null` list, and a list may
      hold `null`); the cookie map itself may be `null`. */
  datatype HttpRequest = HttpRequest(
    headers: map<string, seq<Option<string>>>,
    cookies: Option<map<string, Cookie>>)

  /** The entity of a denial. */
  datatype AuthenticationResponse = AuthenticationResponse(loggedIn: bool)

  datatype ServerResponse = ServerResponse(status: int, entity: AuthenticationResponse)

  /** The one response the interceptor ever builds. */
  const Forbidden: ServerResponse := ServerResponse(StatusForbidden, AuthenticationResponse(false))

  /** What `preProcess` does with a request: return `null` (the endpoint runs), return a
      response (the endpoint does not run), or throw the `NullPointerException` of `getToken`. */
  datatype InterceptResult = Proceed | Reply(response: ServerResponse) | NullPointerFault

  /** What `getToken` ends with: a token, `null`, or a dereference of a `null` cookie. */
  datatype TokenLookup = Token(value: string) | NoToken | NullDereference

  // ---------------------------------------------------------------------------------------
  // Exemption list

  const ExemptClasses: seq<EndpointClass> :=
    [SignInEndpoint, LogoutEndpoint, AccountRegistrationEndpoint, CheckUserNameEndpoint, UserInfoEndpoint]

  /** `requiresAuthentication`: exact membership of the declaring class in the exempt list, so
      only the five named endpoints are exempt and every other class -- subclasses included --
      requires authentication. */
  function RequiresAuthentication(declaringClass: EndpointClass): (r: bool)
    ensures r <==> declaringClass.ApplicationClass?
  {
    declaringClass !in ExemptClasses
  }

  /** Exemption is by exact declaring class: a method declared in a subclass of an exempt
      endpoint requires authentication (a method the subclass inherits unchanged is still
      declared by the exempt endpoint). */
  lemma SubclassOfExemptRequiresAuthentication(name: string, exempt: EndpointClass)
    requires exempt in ExemptClasses
    ensures !RequiresAuthentication(exempt)
    ensures RequiresAuthentication(ApplicationClass(name, Some(exempt)))
  {
  }

  // ---------------------------------------------------------------------------------------
  // Token resolution

  /** The first value of the `Auth-Token` header; `None` when the header is missing, has no
      values, or its first value is `null`. */
  function HeaderToken(headers: map<string, seq<Option<string>>>): Option<string>
  {
    if AuthTokenName in headers && |headers[AuthTokenName]| > 0 then headers[AuthTokenName][0] else None
  }

  /** Token resolution as the source writes it: the first header value wins; otherwise a
      non-`null` cookie map is asked for the `Auth-Token` cookie, and a missing entry is
      dereferenced. */
  function ResolveToken(request: HttpRequest): TokenLookup
  {
    match HeaderToken(request.headers)
    case Some(t) => Token(t)
    case None =>
      match request.cookies
      case None => NoToken
      case Some(jar) =>
        if AuthTokenName !in jar then NullDereference
        else if jar[AuthTokenName].value.Some? then Token(jar[AuthTokenName].value.value)
        else NoToken
  }

  /** `getToken`: the local `token` is set from the header, then, while still `null`, from the
      cookie. */
  method GetToken(request: HttpRequest) returns (lookup: TokenLookup)
    ensures lookup == ResolveToken(request)
  {
    var httpHeaders := request.headers;
    var tokenHeader: Option<seq<Option<string>>> :=
      if AuthTokenName in httpHeaders then Some(httpHeaders[AuthTokenName]) else None;
    var token: Option<string> := None;

    if tokenHeader.Some? && |tokenHeader.value| != 0 {
      token := tokenHeader.value[0];
    }

    if token.None? {
      var cookies := request.cookies;
      if cookies.Some? {
        var cookie: Option<Cookie> :=
          if AuthTokenName in cookies.value then Some(cookies.value[AuthTokenName]) else None;
        if cookie.None? {
          // `cookie.getValue()` on a null cookie
          return NullDereference;
        }
        token := cookie.value.value;
      }
    }

    lookup := if token.Some? then Token(token.value) else NoToken;
  }

  /** A non-`null` first header value is the token, whatever the cookies hold. */
  lemma HeaderTokenWins(request: HttpRequest, t: string, otherCookies: Option<map<string, Cookie>>)
    requires AuthTokenName in request.headers
    requires |request.headers[AuthTokenName]| > 0 && request.headers[AuthTokenName][0] == Some(t)
    ensures ResolveToken(request) == Token(t)
    ensures ResolveToken(request.(cookies := otherCookies)) == Token(t)
  {
  }

  /** Without a usable header value and without a cookie map there is no token. */
  lemma NoHeaderNoCookiesNoToken(request: HttpRequest)
    requires HeaderToken(request.headers) == None && request.cookies == None
    ensures ResolveToken(request) == NoToken
  {
  }

  /** Without a usable header value, a present `Auth-Token` cookie supplies the token (its
      value, which may itself be `null`). */
  lemma CookieFallback(request: HttpRequest)
    requires HeaderToken(request.headers) == None
    requires request.cookies.Some? && AuthTokenName in request.cookies.value
    ensures var v := request.cookies.value[AuthTokenName].value;
      ResolveToken(request) == if v.Some? then Token(v.value) else NoToken
  {
  }

  /** The fault arises exactly when the header gives nothing and the cookie map exists but has
      no `Auth-Token` entry. */
  lemma NullDereferenceIff(request: HttpRequest)
    ensures ResolveToken(request) == NullDereference <==>
      HeaderToken(request.headers) == None && request.cookies.Some? && AuthTokenName !in request.cookies.value
  {
  }

  /** A concrete request that makes `getToken` throw: no headers and an empty cookie map. */
  lemma EmptyCookieMapFaults()
    ensures ResolveToken(HttpRequest(map[], Some(map[]))) == NullDereference
  {
  }

  /** The guarded resolution: a missing cookie entry gives no token instead of a fault; on
      every other request it agrees with the source's resolution. */
  function ResolveTokenGuarded(request: HttpRequest): (r: TokenLookup)
    ensures r != NullDereference
    ensures ResolveToken(request) != NullDereference ==> r == ResolveToken(request)
    ensures ResolveToken(request) == NullDereference ==> r == NoToken
  {
    match HeaderToken(request.headers)
    case Some(t) => Token(t)
    case None =>
      match request.cookies
      case None => NoToken
      case Some(jar) =>
        if AuthTokenName in jar && jar[AuthTokenName].value.Some? then Token(jar[AuthTokenName].value.value)
        else NoToken
  }

  // ---------------------------------------------------------------------------------------
  // The per-request decision

  /** The decision `preProcess` reaches, from whether the endpoint requires authentication,
      whether the identity was already logged in, how the token resolved, and what the store
      says about it. A denial is always the 403 `loggedIn=false` response, and a fault can
      only come from the token lookup. */
  function Gate(required: bool, loggedIn: bool, lookup: TokenLookup, store: string -> RestoreOutcome): (r: InterceptResult)
    ensures r.Reply? ==> r.response == Forbidden
    ensures r == NullPointerFault ==> lookup == NullDereference
  {
    if !required || loggedIn then Proceed
    else
      match lookup
      case NullDereference => NullPointerFault
      case NoToken => Reply(Forbidden)
      case Token(t) => if store(t) == Ok(true) then Proceed else Reply(Forbidden)
  }

  /** The request proceeds exactly when the endpoint is exempt, the identity is already logged
      in, or a token was found and the store restored its session. */
  lemma ProceedIff(required: bool, loggedIn: bool, lookup: TokenLookup, store: string -> RestoreOutcome)
    ensures Gate(required, loggedIn, lookup, store) == Proceed <==>
      !required || loggedIn || (lookup.Token? && store(lookup.value) == Ok(true))
  {
  }

  /** The five exempt endpoints proceed whatever the identity, the request and the store. */
  lemma ExemptEndpointProceeds(m: ResourceMethod, loggedIn: bool, request: HttpRequest, store: string -> RestoreOutcome)
    requires m.declaringClass in ExemptClasses
    ensures Gate(RequiresAuthentication(m.declaringClass), loggedIn, ResolveToken(request), store) == Proceed
  {
  }

  /** An identity already logged in proceeds, even on a request whose token lookup would fault. */
  lemma LoggedInProceeds(required: bool, request: HttpRequest, store: string -> RestoreOutcome)
    ensures Gate(required, true, ResolveToken(request), store) == Proceed
  {
  }

  /** Once authentication is needed: no token, a `false` restore or an `AuthenticationException`
      each give the 403 response -- the exception is not rethrown -- and a `true` restore lets
      the request through. */
  lemma RestoreDecides(lookup: TokenLookup, store: string -> RestoreOutcome)
    requires lookup != NullDereference
    ensures lookup == NoToken ==> Gate(true, false, lookup, store) == Reply(Forbidden)
    ensures lookup.Token? && store(lookup.value) in {Ok(false), AuthFailure} ==>
      Gate(true, false, lookup, store) == Reply(Forbidden)
    ensures lookup.Token? && store(lookup.value) == Ok(true) ==> Gate(true, false, lookup, store) == Proceed
  {
  }

  /** With the guarded resolution the decision never faults. */
  lemma GuardedGateNeverFaults(required: bool, loggedIn: bool, request: HttpRequest, store: string -> RestoreOutcome)
    ensures Gate(required, loggedIn, ResolveTokenGuarded(request), store) != NullPointerFault
  {
  }

  // ---------------------------------------------------------------------------------------
  // The interceptor

  class SecurityInterceptor {
    const identity: PicketBoxIdentity

    constructor (identity: PicketBoxIdentity)
      ensures this.identity == identity
    {
      this.identity := identity;
    }

    /** `preProcess`. The session is restored, and `getToken` consulted, only when the endpoint
        requires authentication and the identity is not yet logged in. */
    method PreProcess(request: HttpRequest, m: ResourceMethod) returns (result: InterceptResult)
      modifies identity
      ensures result == Gate(RequiresAuthentication(m.declaringClass), old(identity.loggedIn),
                             ResolveToken(request), identity.store)
      ensures !(RequiresAuthentication(m.declaringClass) && !old(identity.loggedIn) && ResolveToken(request).Token?
                && identity.store(ResolveToken(request).value) == Ok(true))
        ==> identity.roles == old(identity.roles)
      ensures RequiresAuthentication(m.declaringClass) && !old(identity.loggedIn) && ResolveToken(request).Token?
        ==> identity.restoreCalls == old(identity.restoreCalls) + [ResolveToken(request).value]
            && (identity.loggedIn <==> identity.store(ResolveToken(request).value) == Ok(true))
      ensures !(RequiresAuthentication(m.declaringClass) && !old(identity.loggedIn) && ResolveToken(request).Token?)
        ==> identity.restoreCalls == old(identity.restoreCalls) && identity.loggedIn == old(identity.loggedIn)
    {
      var response: Option<ServerResponse> := None;

      if RequiresAuthentication(m.declaringClass) && !identity.IsLoggedIn() {
        var isLoggedIn := false;
        var token := GetToken(request);

        match token {
          case NullDereference =>
            return NullPointerFault;
          case Token(t) =>
            var outcome := identity.RestoreSession(t);
            match outcome {
              case Ok(restored) => isLoggedIn := restored;
              case AuthFailure => // logged and swallowed
            }
          case NoToken =>
        }

        if !isLoggedIn {
          response := Some(Forbidden);
        }
      }

      result := if response.Some? then Reply(response.value) else Proceed;
    }
  }
}
