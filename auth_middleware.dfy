/** middleware/auth.js: the two route guards, as decisions on the session. */
module AuthMiddleware {
  import opened Records

  /** What a guard does with the request: hand it to the next handler,
      redirect it, or answer 403. */
  datatype GuardResult = Next | RedirectTo(path: string) | Forbidden

  /** The status of a guard's own answer; a guard that passes sends none. */
  function StatusCode(g: GuardResult): int
    requires g != Next
  {
    if g.RedirectTo? then 302 else 403
  }

  /** `isAuthenticated`: a truthy `userId` passes, anything else is sent
      to the sign-in page. */
  function IsAuthenticated(session: Session): (r: GuardResult)
    ensures r == Next <==> session.userId != 0
    ensures r != Next ==> r == RedirectTo("/login.html")
  {
    if session.userId != 0 then Next else RedirectTo("/login.html")
  }

  /** `isAdmin`: a truthy `userId` and `isAdmin === 1` pass; anything else
      is refused with 403. */
  function IsAdmin(session: Session): (r: GuardResult)
    ensures r == Next <==> session.userId != 0 && session.isAdmin == Number(1)
    ensures r != Next ==> r == Forbidden && StatusCode(r) == 403
  {
    if session.userId != 0 && session.isAdmin == Number(1) then Next else Forbidden
  }

  /** Whoever passes the admin guard also passes the sign-in guard. */
  lemma AdminIsAuthenticated(session: Session)
    requires IsAdmin(session) == Next
    ensures IsAuthenticated(session) == Next
  {
  }

  /** The comparison is strict: a truthy flag that is not the number 1,
      such as the boolean `true` or the number 2, is refused. */
  lemma AdminFlagIsStrict(userId: nat, name: string, email: string, flag: JsValue)
    requires flag != Number(1)
    ensures IsAdmin(Session(userId, name, email, flag)) == Forbidden
    ensures IsAdmin(Session(userId, name, email, Boolean(true))) == Forbidden
  {
  }
}
