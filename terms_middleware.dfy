/** middleware/terms.js: the terms-of-use gate. The lookup of
    `terms_accepted_at` is an input, so that a failed lookup can be
    represented. */
module TermsMiddleware {
  import opened Records

  /** The outcome of `SELECT terms_accepted_at FROM users WHERE id = ?`. */
  datatype Lookup = LookupFailed | NoSuchUser | Found(termsAcceptedAt: Option<int>)

  datatype TermsDecision = Proceed | RedirectToTerms

  /** The lookup as it reads the users table. */
  function LookupTerms(users: map<int, User>, userId: nat): (l: Lookup)
    ensures l != LookupFailed
    ensures l == NoSuchUser <==> userId !in users
    ensures l.Found? ==> l.termsAcceptedAt == users[userId].termsAcceptedAt
  {
    if userId in users then Found(users[userId].termsAcceptedAt) else NoSuchUser
  }

  /** `checkTermsAcceptance`: only a signed-in user whose row exists and
      has no acceptance time is redirected, and never from a `/terms` URL;
      a failed lookup lets the request through. */
  function CheckTermsAcceptance(userId: nat, lookup: Lookup, originalUrl: string): (d: TermsDecision)
    ensures userId == 0 ==> d == Proceed
    ensures d == RedirectToTerms <==>
      userId != 0 && lookup == Found(None) && !StartsWith(originalUrl, "/terms")
  {
    if userId == 0 then Proceed
    else match lookup
      case LookupFailed => Proceed
      case NoSuchUser => Proceed
      case Found(acceptedAt) =>
        if acceptedAt.None? then
          if StartsWith(originalUrl, "/terms") then Proceed else RedirectToTerms
        else Proceed
  }

  /** A request for a `/terms` URL is never redirected, so the gate
      cannot loop. */
  lemma NoRedirectLoop(userId: nat, lookup: Lookup, originalUrl: string)
    requires StartsWith(originalUrl, "/terms")
    ensures CheckTermsAcceptance(userId, lookup, originalUrl) == Proceed
  {
  }

  /** The gate fails open: a lookup error or a missing row lets the
      request through, as does an accepted user. */
  lemma FailsOpen(userId: nat, originalUrl: string, acceptedAt: int)
    ensures CheckTermsAcceptance(userId, LookupFailed, originalUrl) == Proceed
    ensures CheckTermsAcceptance(userId, NoSuchUser, originalUrl) == Proceed
    ensures CheckTermsAcceptance(userId, Found(Some(acceptedAt)), originalUrl) == Proceed
  {
  }

  /** Against the table: a user is held at the terms page exactly when
      their row exists and carries no acceptance time. */
  lemma GateOnTable(users: map<int, User>, userId: nat, originalUrl: string)
    requires userId != 0 && !StartsWith(originalUrl, "/terms")
    ensures CheckTermsAcceptance(userId, LookupTerms(users, userId), originalUrl) == RedirectToTerms
      <==> userId in users && users[userId].termsAcceptedAt.None?
  {
  }
}
