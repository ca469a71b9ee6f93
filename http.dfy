/** What the request handlers see of a request's session and what they send back. */
module Http {
  import opened Collections

  /** A JSON response: its HTTP status and the message or error text of its body. */
  datatype Response = Response(status: nat, message: string)

  /** The answer to an exception a route handler does not catch: Next.js
      replies 500 without a JSON body. */
  const UncaughtError := Response(500, "")

  /** The user a session carries (next-auth's `session.user`). */
  datatype SessionUser = SessionUser(id: string, email: string, role: string)

  /** A session as `getServerSession` returns it; it may lack a user. */
  datatype Session = Session(user: Option<SessionUser>)

  /** The negation of the handlers' `!session || !session.user` guard. */
  predicate SignedIn(session: Option<Session>) {
    session.Some? && session.value.user.Some?
  }
}
