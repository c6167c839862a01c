/**
 * The request gate (`AutoPermission::handle`): a fixed chain of checks
 * over the signed-in user and the cached route-access row of the
 * requested route.
 */
module AccessGate {
  import opened Wrappers
  import opened Text

  /** What the route cache holds for one route name. */
  datatype CachedRoute = CachedRoute(permissionName: Option<string>, isActive: bool, isPublic: bool)

  /**
   * The signed-in user as the gate sees it. `User.php` is not part of this
   * model: the super-admin test, the active flag and the permissions the
   * user holds are inputs.
   */
  datatype User = User(isSuperAdmin: bool, isActive: bool, permissions: set<string>)

  /** The outcome: pass the request on, or abort with 403 and a message. */
  datatype Decision = Allow | Deny(message: string, loggedOut: bool)

  const Unauthorized := "Unauthorized"
  const Deactivated := "Your account has been deactivated."
  const RouteDisabled := "This route is currently disabled."
  const Forbidden := "You do not have permission to access this resource."

  /** `getRouteAccess($routeName)`: the cached row, or null. */
  function RouteAccessOf(routes: map<string, CachedRoute>, routeName: string): (r: Option<CachedRoute>)
    ensures r.Some? <==> routeName in routes
    ensures r.Some? ==> r.value == routes[routeName]
  {
    if routeName in routes then Some(routes[routeName]) else None
  }

  /** `handle($request, $next)`, in the order of its checks. */
  function Handle(user: Option<User>, routeName: Option<string>, routes: map<string, CachedRoute>): (d: Decision)
    ensures d == Allow <==> Permitted(user, routeName, routes)
    ensures d.Deny? ==> d.message in {Unauthorized, Deactivated, RouteDisabled, Forbidden}
    ensures d.Deny? && d.loggedOut <==> d == Deny(Deactivated, true)
    ensures d == Deny(Deactivated, true) <==>
      user.Some? && !user.value.isSuperAdmin && !user.value.isActive
  {
    if user.None? then Deny(Unauthorized, false)
    else if user.value.isSuperAdmin then Allow
    else if !user.value.isActive then Deny(Deactivated, true)
    else if !PhpTruthy(routeName) then Allow
    else
      match RouteAccessOf(routes, routeName.value)
      case None => Allow
      case Some(access) =>
        if !access.isActive then Deny(RouteDisabled, false)
        else if access.isPublic then Allow
        else if !PhpTruthy(access.permissionName) then Allow
        else if access.permissionName.value !in user.value.permissions then Deny(Forbidden, false)
        else Allow
  }

  /**
   * When a request gets through, stated as one formula: a signed-in user
   * who is a super-admin, or who is active and requests an unnamed route,
   * an unregistered route, or an active route that is public, needs no
   * permission, or needs one the user holds.
   */
  ghost predicate Permitted(user: Option<User>, routeName: Option<string>, routes: map<string, CachedRoute>) {
    user.Some? &&
    (user.value.isSuperAdmin ||
      (user.value.isActive &&
        (!PhpTruthy(routeName) || routeName.value !in routes ||
          (routes[routeName.value].isActive &&
            (routes[routeName.value].isPublic ||
             !PhpTruthy(routes[routeName.value].permissionName) ||
             routes[routeName.value].permissionName.value in user.value.permissions)))))
  }

  /** A super-admin passes even when inactive and even on a disabled route. */
  lemma SuperAdminAlwaysAllowed(u: User, routeName: Option<string>, routes: map<string, CachedRoute>)
    requires u.isSuperAdmin
    ensures Handle(Some(u), routeName, routes) == Allow
  {
  }

  /** The disabled check comes before the public and the permission checks. */
  lemma DisabledRouteDenied(u: User, name: string, routes: map<string, CachedRoute>)
    requires !u.isSuperAdmin && u.isActive
    requires !PhpFalsy(name) && name in routes && !routes[name].isActive
    ensures Handle(Some(u), Some(name), routes) == Deny(RouteDisabled, false)
  {
  }

  /** Fail-open: an unnamed or unregistered route is allowed for an active user. */
  lemma UnregisteredRouteAllowed(u: User, routeName: Option<string>, routes: map<string, CachedRoute>)
    requires !u.isSuperAdmin && u.isActive
    requires !PhpTruthy(routeName) || routeName.value !in routes
    ensures Handle(Some(u), routeName, routes) == Allow
  {
  }

  /**
   * On an active protected route that names a permission, the request is
   * allowed exactly when the user holds it.
   */
  lemma PermissionDecides(u: User, name: string, routes: map<string, CachedRoute>)
    requires !u.isSuperAdmin && u.isActive && !PhpFalsy(name) && name in routes
    requires routes[name].isActive && !routes[name].isPublic && PhpTruthy(routes[name].permissionName)
    ensures Handle(Some(u), Some(name), routes) == Allow <==> routes[name].permissionName.value in u.permissions
    ensures Handle(Some(u), Some(name), routes) != Allow ==> Handle(Some(u), Some(name), routes) == Deny(Forbidden, false)
  {
  }

  /** Granting a user more permissions never turns an allowed request into a denied one. */
  lemma MorePermissionsNeverHurt(u: User, more: set<string>, routeName: Option<string>, routes: map<string, CachedRoute>)
    requires u.permissions <= more
    requires Handle(Some(u), routeName, routes) == Allow
    ensures Handle(Some(u.(permissions := more)), routeName, routes) == Allow
  {
  }
}
