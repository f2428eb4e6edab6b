/** The admin gate: only a request whose authenticated user is an admin passes. */
module AdminMiddleware {
  import opened Wrappers
  import opened UserModel
  import opened Http

  const AdminOnlyMessage := "Access denied. Admin privileges required."

  /** `adminMiddleware` on the user the authentication gate attached, if any. */
  function AdminGate(user: Option<UserView>): (o: Outcome)
    ensures o.Proceed? <==> user.Some? && user.value.role == Admin
    ensures o.Reject? ==> o.response == Status(403, AdminOnlyMessage)
  {
    if user.Some? && user.value.role == Admin then Proceed else Reject(Status(403, AdminOnlyMessage))
  }
}
