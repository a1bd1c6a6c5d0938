/** The `useAuthRedirect` hook (hooks/use-auth-redirect.ts): the session flags it exposes and the
    `requireAuth` guard the handlers call before acting. */
module AuthRedirect {
  import opened Wrappers
  import opened Records

  /** next-auth's session status. */
  datatype Status = Loading | Authenticated | Unauthenticated

  /** The client session; `userId` is `session.user.id`. */
  datatype Session = Session(userId: Id)

  const LoginPath := "/login"

  /** What `requireAuth` does: answer false silently, answer false after a toast and a navigation
      to `path`, or answer true. */
  datatype Decision = Wait | Redirect(path: string) | Proceed

  /** The branch `requireAuth` takes. */
  function Decide(status: Status, session: Option<Session>): (d: Decision)
    ensures d == Wait <==> status == Loading
    ensures d.Redirect? <==> status != Loading && session == None
    ensures d.Redirect? ==> d.path == LoginPath
    ensures d == Proceed <==> status != Loading && session.Some?
  {
    if status == Loading then Wait
    else if session == None then Redirect(LoginPath)
    else Proceed
  }

  /** The boolean `requireAuth` returns. */
  function RequireAuth(status: Status, session: Option<Session>): bool {
    Decide(status, session) == Proceed
  }

  /** `isAuthenticated: !!session` */
  function IsAuthenticated(session: Option<Session>): bool {
    session.Some?
  }

  /** `isLoading: status === "loading"` */
  function IsLoading(status: Status): bool {
    status == Loading
  }

  /** The guard lets an action through exactly when the hook reports an authenticated session that
      is not loading; it navigates away exactly when no session exists and loading is over. */
  lemma RequireAuthIffFlags(status: Status, session: Option<Session>)
    ensures RequireAuth(status, session) <==> IsAuthenticated(session) && !IsLoading(status)
    ensures Decide(status, session).Redirect? <==> !IsAuthenticated(session) && !IsLoading(status)
  {
  }
}
