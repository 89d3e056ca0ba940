/** Single use of the emailed links, and atomicity of refused requests. */
module AuthLinks {
  import opened AuthStore
  import opened AuthSafety

  /** The link a request tries to consume, and what for. */
  ghost predicate Consumes(request: Request, token: nat, purpose: Purpose) {
    match request
    case ResetPassword(t, _) => t == token && purpose == PasswordReset
    case VerifyEmail(t) => t == token && purpose == EmailVerification
    case _ => false
  }

  ghost predicate Spent(w: World, token: nat) {
    token < w.next && (token in w.db.verification ==> w.db.verification[token].IsUsed())
  }

  /** A link is honoured exactly when it is stored, for this purpose, unused, strictly before
      its expiry, and its account may use it; honouring it spends it. */
  lemma LinkHonouredExactly(w: World, e: Event, token: nat, purpose: Purpose)
    requires Issued(w) && Consumes(e.request, token, purpose)
    ensures Respond(w, e) == Done <==>
              && token in w.db.verification
              && w.db.verification[token].purpose == purpose
              && w.db.verification[token].usedAt.None?
              && e.now < w.db.verification[token].expiresAt
              && w.db.verification[token].user in w.db.users
              && (purpose == PasswordReset ==> w.db.users[w.db.verification[token].user].active)
    ensures Respond(w, e) != Done ==> Respond(w, e) == Failed(InvalidToken)
    ensures Respond(w, e) == Done && !e.failsLate ==> Spent(Step(w, e), token)
  {
  }

  lemma {:induction false} SpentStaysSpent(w: World, events: seq<Event>, token: nat)
    requires Valid(w) && Spent(w, token)
    ensures Spent(Run(w, events), token)
    decreases |events|
  {
    if events != [] {
      StepEvolves(w, events[0]);
      StepKeepsValid(w, events[0]);
      SpentStaysSpent(Step(w, events[0]), events[1..], token);
    }
  }

  /** No link is consumed by two committed requests of a run, whatever they use it for. */
  lemma LinkConsumedOnce(w: World, first: Event, events: seq<Event>, second: Event, token: nat, p: Purpose, q: Purpose)
    requires Valid(w)
    requires Consumes(first.request, token, p) && Consumes(second.request, token, q)
    requires Respond(w, first) == Done && !first.failsLate
    ensures Respond(Run(Step(w, first), events), second) == Failed(InvalidToken)
  {
    LinkHonouredExactly(w, first, token, p);
    StepKeepsValid(w, first);
    SpentStaysSpent(Step(w, first), events, token);
    RunKeepsValid(Step(w, first), events);
    LinkHonouredExactly(Run(Step(w, first), events), second, token, q);
  }

  /** A request that raises, for any reason and at any point, leaves the committed tables as
      they were, unless it raises because it ended a session. */
  lemma RaisingRollsBack(w: World, e: Event)
    requires Respond(w, e).Failed? || e.failsLate
    requires Respond(w, e) != Failed(TokenReuse) && Respond(w, e) != Failed(SessionIdle)
    ensures Step(w, e).db == w.db
  {
  }

  /** A reset for an inactive account marks the link used before it raises; the rollback
      makes the link usable again. */
  lemma RefusedResetKeepsLink(w: World, e: Event)
    requires e.request.ResetPassword? && LinkWorks(w.db, e.request.token, PasswordReset, e.now)
    requires Respond(w, e).Failed?
    ensures Serve(e.cfg, w.db, w.next, e.request, e.now).working.verification[e.request.token].IsUsed()
    ensures LinkWorks(Step(w, e).db, e.request.token, PasswordReset, e.now)
  {
  }

  /** Asking again leaves exactly one working link for the account and purpose: the new one. */
  lemma ResendReplacesLink(w: World, e: Event, v: nat)
    requires Valid(w) && (e.request.RequestReset? || e.request.ResendVerification?)
    requires !e.failsLate && Step(w, e).next != w.next
    requires v in Step(w, e).db.verification && !Step(w, e).db.verification[v].IsUsed()
    requires Step(w, e).db.verification[v].user == Step(w, e).db.verification[w.next].user
    requires Step(w, e).db.verification[v].purpose == Step(w, e).db.verification[w.next].purpose
    ensures v == w.next
  {
  }
}
