/** The role gate that guards the committee pages: a pure decision on the
    (optional) logged-in user and the role a page asks for. */
module Auth {
  import opened Wrappers

  /** The role string that satisfies every gate. */
  const Administrator: string := "administrator"

  const Unauthorized401: int := 401
  const Forbidden403: int := 403
  const NotLoggedInDetail: string := "You need to be logged in to access this page."
  const WrongRoleDetail: string := "You don't have the required role to access this page."

  /** A row of the user table; `id` is the e-mail address. */
  datatype User = User(
    id: string,
    password: string,
    firstName: string,
    lastName: string,
    medicalInfo: string,
    userRole: string)

  /** Either the request goes through with the user, or it is rejected
      with an HTTP status code and a detail message. */
  datatype GateOutcome = Pass(user: User) | Reject(status: int, detail: string)

  /** What the gate promises, stated without its order of checks: a user is
      admitted exactly when they are an administrator or hold the required
      role. */
  predicate Admits(userRole: string, required: string) {
    userRole == Administrator || userRole == required
  }

  /** The checker built by `role_required(required)`, applied to the current
      user: 401 without a user, 403 for a wrong role, otherwise the user. */
  function RoleChecker(required: string, user: Option<User>): (r: GateOutcome)
    ensures user.None? <==> r == Reject(Unauthorized401, NotLoggedInDetail)
    ensures user.Some? ==> (r == Pass(user.value) <==> Admits(user.value.userRole, required))
    ensures user.Some? ==> (r == Reject(Forbidden403, WrongRoleDetail) <==> !Admits(user.value.userRole, required))
  {
    match user
    case None => Reject(Unauthorized401, NotLoggedInDetail)
    case Some(u) =>
      if u.userRole == Administrator then Pass(u)
      else if u.userRole != required then Reject(Forbidden403, WrongRoleDetail)
      else Pass(u)
  }

  /** An administrator passes every gate, whatever role it asks for. */
  lemma AdministratorPassesEveryGate(u: User, required: string)
    requires u.userRole == Administrator
    ensures RoleChecker(required, Some(u)) == Pass(u)
  {
  }

  /** A user who is not an administrator passes a gate exactly when the
      required role is spelled exactly as their own role, so they pass at
      most one gate. */
  lemma NonAdministratorPassesOnlyOwnRole(u: User, required: string)
    requires u.userRole != Administrator
    ensures RoleChecker(required, Some(u)).Pass? <==> u.userRole == required
    ensures u.userRole != required ==> RoleChecker(required, Some(u)).status == Forbidden403
  {
  }

  /** The committee gate used by the roster, event and member pages: a
      member is refused with 403, a committee member and an administrator
      are let through, and nobody logged in gets 401. */
  lemma CommitteeGate(u: User)
    ensures u.userRole == "member" ==> RoleChecker("committee", Some(u)) == Reject(Forbidden403, WrongRoleDetail)
    ensures u.userRole == "committee" ==> RoleChecker("committee", Some(u)) == Pass(u)
    ensures u.userRole == Administrator ==> RoleChecker("committee", Some(u)) == Pass(u)
    ensures RoleChecker("committee", None).status == Unauthorized401
  {
  }
}
