/** The role gate that protects server-rendered pages. */
module Rbac {
  import opened Collections
  import opened Schema
  import opened Http

  const SignInPath := "/api/auth/signin"
  const UnauthorizedPath := "/unauthorized"

  /** What `checkRole` does: redirect (ending the render) or let it go on. */
  datatype Decision = Redirect(location: string) | Pass

  /** `checkRole`: without a signed-in user, to the sign-in page; with a role
      the list does not allow, to the unauthorized page; otherwise through. */
  function CheckRole(session: Option<Session>, allowedRoles: seq<string>): (r: Decision)
    // The session check comes first: whatever the allowed roles, no user means sign in.
    ensures !SignedIn(session) <==> r == Redirect(SignInPath)
    ensures SignedIn(session) ==>
      (r == Pass <==> session.value.user.value.role in allowedRoles)
    ensures SignedIn(session) && session.value.user.value.role !in allowedRoles ==>
      r == Redirect(UnauthorizedPath)
  {
    if !(session.Some? && session.value.user.Some?) then Redirect(SignInPath)
    else if session.value.user.value.role !in allowedRoles then Redirect(UnauthorizedPath)
    else Pass
  }

  /** The roles the dashboard layout admits. */
  const DashboardRoles := [RoleAdmin, RoleEditor]

  /** The dashboard lets admins and editors in and sends ordinary users away. */
  lemma DashboardGate(session: Option<Session>)
    requires SignedIn(session)
    ensures var role := session.value.user.value.role;
      && (role == RoleUser ==> CheckRole(session, DashboardRoles) == Redirect(UnauthorizedPath))
      && (role == RoleAdmin || role == RoleEditor ==> CheckRole(session, DashboardRoles) == Pass)
  {
  }

  /** Allowing more roles never turns a pass into a redirect. */
  lemma MoreRolesStillPass(session: Option<Session>, allowed: seq<string>, more: seq<string>)
    requires CheckRole(session, allowed) == Pass
    ensures CheckRole(session, allowed + more) == Pass
  {
  }
}
