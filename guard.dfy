/**
 * JwtAuthGuard: the access decision made before every guarded handler.
 * Route metadata is what `@Public()` and `@Roles(...)` attach to the handler
 * and to its controller class; token verification is an outcome given to
 * the guard, and `user` is what the JWT strategy put on the request.
 */
module AccessGuard {
  import opened Results
  import opened Entities

  /** The metadata set on one route, at handler level and at class level (None: not declared). */
  datatype RouteMetadata = RouteMetadata(
    handlerPublic: Option<bool>,
    classPublic: Option<bool>,
    handlerRoles: Option<seq<UserType>>,
    classRoles: Option<seq<UserType>>)

  /** `request.user` as the JWT strategy builds it. */
  datatype Principal = Principal(id: int, userType: UserType)

  /** `reflector.getAllAndOverride(key, [handler, class])`: the handler's value if declared, else the class's. */
  function GetAllAndOverride<T>(handler: Option<T>, cls: Option<T>): (r: Option<T>)
    ensures handler.Some? ==> r == handler
    ensures handler.None? ==> r == cls
  {
    if handler.Some? then handler else cls
  }

  /**
   * `isPublic`: the handler's `@Public()` flag decides when it has one, even a
   * false one over a public class; otherwise the class's flag does.
   */
  predicate IsPublic(route: RouteMetadata)
    ensures IsPublic(route) <==>
      route.handlerPublic == Some(true) || (route.handlerPublic.None? && route.classPublic == Some(true))
  {
    GetAllAndOverride(route.handlerPublic, route.classPublic) == Some(true)
  }

  /** `requiredRoles`: the handler's `@Roles(...)` when declared, else the class's, else none. */
  function RequiredRoles(route: RouteMetadata): (roles: Option<seq<UserType>>)
    ensures route.handlerRoles.Some? ==> roles == route.handlerRoles
    ensures route.handlerRoles.None? ==> roles == route.classRoles
  {
    GetAllAndOverride(route.handlerRoles, route.classRoles)
  }

  /**
   * `checkRoles`: with no roles declared any caller passes; with roles
   * declared a request without a user is refused, and one with a user
   * passes exactly when its role is among them.
   */
  function CheckRoles(route: RouteMetadata, user: Option<Principal>): (allowed: bool)
    ensures RequiredRoles(route).None? ==> allowed
    ensures RequiredRoles(route).Some? && user.None? ==> !allowed
    ensures RequiredRoles(route).Some? && user.Some? ==>
      (allowed <==> user.value.userType in RequiredRoles(route).value)
  {
    var required := RequiredRoles(route);
    if required.None? then true
    else if user.None? then false
    else user.value.userType in required.value
  }

  /**
   * `canActivate`: a public route passes untouched; otherwise a failed token
   * check refuses, and only after it succeeds are the roles checked.
   */
  function CanActivate(route: RouteMetadata, authenticated: bool, user: Option<Principal>): (allowed: bool)
    ensures IsPublic(route) ==> allowed
    ensures !IsPublic(route) && !authenticated ==> !allowed
    ensures !IsPublic(route) && authenticated ==> allowed == CheckRoles(route, user)
  {
    if IsPublic(route) then true
    else if !authenticated then false
    else CheckRoles(route, user)
  }

  /**
   * The rule stated on its own: a caller gets through a route exactly when the
   * route is public, or the token checks out and either no roles are declared
   * at the nearest level or the caller's role is one of them.
   */
  predicate Permitted(route: RouteMetadata, authenticated: bool, user: Option<Principal>)
  {
    var nearestRoles := if route.handlerRoles.Some? then route.handlerRoles else route.classRoles;
    var nearestPublic := if route.handlerPublic.Some? then route.handlerPublic else route.classPublic;
    || nearestPublic == Some(true)
    || (authenticated && (nearestRoles.None? || (user.Some? && user.value.userType in nearestRoles.value)))
  }

  lemma CanActivateIsPermitted(route: RouteMetadata, authenticated: bool, user: Option<Principal>)
    ensures CanActivate(route, authenticated, user) <==> Permitted(route, authenticated, user)
  {
  }

  /** Roles declared on the handler decide, whatever the class declares. */
  lemma HandlerRolesOverrideClass(route: RouteMetadata, classRoles: Option<seq<UserType>>, user: Option<Principal>)
    requires route.handlerRoles.Some?
    ensures CheckRoles(route.(classRoles := classRoles), user) == CheckRoles(route, user)
  {
  }

  /** `@Roles()` with no roles is truthy `[]`: it admits no authenticated caller at all. */
  lemma EmptyRolesAdmitNobody(route: RouteMetadata, user: Option<Principal>)
    requires !IsPublic(route) && RequiredRoles(route) == Some([])
    ensures !CanActivate(route, true, user)
  {
  }
}
