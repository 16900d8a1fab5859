// The route guard that admits a request only for an authenticated user whose
// role reaches the level the route requires.

module PermissionMiddleware {
  import UserRole
  import UserModel

  /** What the guard answers: a JSON error, or the downstream handler's response. */
  datatype Outcome<R> =
    | Refused(status: int, message: string)
    | Passed(response: R)

  /**
   * The guard's decision for the request's user (null when nobody is
   * authenticated), the level configured on the route, and the response the
   * next handler would produce.
   */
  function Handle<R>(user: UserModel.User?, requiredLevel: int, next: R): (r: Outcome<R>)
    reads user
    ensures user == null ==> r == Refused(401, "Unauthenticated.")
    ensures user != null && !user.HasPermissionLevel(requiredLevel) ==>
              r == Refused(403, "Insufficient permissions.")
    ensures r.Passed? <==> user != null && user.HasPermissionLevel(requiredLevel)
    ensures r.Passed? ==> r.response == next
  {
    if user == null then Refused(401, "Unauthenticated.")
    else if !user.HasPermissionLevel(requiredLevel) then Refused(403, "Insufficient permissions.")
    else Passed(next)
  }

  /** A user whose role is not one of the three is refused with 403 on every route with a level. */
  lemma UnknownRoleForbidden<R>(user: UserModel.User, requiredLevel: int, next: R)
    requires !UserRole.Exists(user.role) && requiredLevel >= 1
    ensures Handle(user, requiredLevel, next) == Refused(403, "Insufficient permissions.")
  {
    UserRole.UnknownRoleRefused(user.role, requiredLevel);
  }

  /** A user admitted to a route is admitted to every route with a lower level. */
  lemma AdmittedBelow<R>(user: UserModel.User?, m: int, n: int, next: R)
    requires Handle(user, n, next).Passed? && m <= n
    ensures Handle(user, m, next) == Passed(next)
  {
    UserRole.PermissionMonotone(user.role, m, n);
  }

  /** The unauthenticated answer does not depend on the level: 401 comes first. */
  lemma UnauthenticatedFirst<R>(m: int, n: int, next: R)
    ensures Handle<R>(null, m, next) == Handle<R>(null, n, next)
    ensures Handle<R>(null, m, next).status == 401
  {
  }
}
