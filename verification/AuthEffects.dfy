/** What each request answers and leaves behind, row by row, and what that means for the
    requests that follow. */
module AuthEffects {
  import opened Prelude
  import opened AuthStore
  import opened AuthSafety

  // ---------------------------------------------------------------- refresh

  /** The answer to a refresh, by the first of the five tests that fails. */
  lemma RefreshAnswer(w: World, e: Event)
    requires e.request.Refresh?
    ensures var t, r := e.request.token, Respond(w, e);
            if t !in w.db.refresh then r == Failed(InvalidToken)
            else
              var row := w.db.refresh[t];
              if row.revokedAt != None then r == Failed(TokenReuse)
              else if e.now >= row.expiresAt then r == Failed(InvalidToken)
              else if e.now - row.lastUsedAt >= e.cfg.idleMinutes * MINUTE then r == Failed(SessionIdle)
              else if row.user !in w.db.users || !w.db.users[row.user].active then r == Failed(InvalidToken)
              else r.Tokens? && r.user == row.user
  {
  }

  /** A successful refresh rotates. The answer is a token never seen before; the one presented
      is spent and points at it; every other row of every table is as it was. */
  lemma RefreshRotates(w: World, e: Event)
    requires Issued(w) && e.request.Refresh? && Respond(w, e).Tokens? && !e.failsLate
    ensures var t, r, after := e.request.token, Respond(w, e).token, Step(w, e).db;
            && t in w.db.refresh && r !in w.db.refresh && Respond(w, e).user == w.db.refresh[t].user
            && var row := w.db.refresh[t];
               && after.refresh.Keys == w.db.refresh.Keys + {r}
               && after.refresh[r] == RefreshToken(row.user, row.family, e.now + e.cfg.refreshDays * DAY, e.now, None, None)
               && after.refresh[t] == RefreshToken(row.user, row.family, row.expiresAt, row.lastUsedAt, Some(e.now), Some(r))
               && (forall u | u in w.db.refresh && u != t :: after.refresh[u] == w.db.refresh[u])
               && after.users == w.db.users && after.emails == w.db.emails && after.verification == w.db.verification
  {
  }

  /** A spent token, as long as its row is stored, is reuse after any run. */
  lemma {:induction false} SpentIsReuse(w: World, events: seq<Event>, replay: Event, t: nat)
    requires Valid(w) && t in w.db.refresh && w.db.refresh[t].revokedAt != None
    requires replay.request == Refresh(t)
    ensures t in Run(w, events).db.refresh ==> Respond(Run(w, events), replay) == Failed(TokenReuse)
    ensures t !in Run(w, events).db.refresh ==> Respond(Run(w, events), replay) == Failed(InvalidToken)
    decreases |events|
  {
    if events != [] {
      var w' := Step(w, events[0]);
      StepEvolves(w, events[0]);
      StepKeepsValid(w, events[0]);
      if t in w'.db.refresh {
        SpentIsReuse(w', events[1..], replay, t);
      } else {
        RunKeepsIdentity(w', events[1..], t);
      }
    }
  }

  /** So the same token is never honoured twice. */
  lemma NeverHonouredTwice(w: World, first: Event, events: seq<Event>, second: Event)
    requires Valid(w) && first.request.Refresh? && Respond(w, first).Tokens? && !first.failsLate
    requires second.request == first.request
    ensures Respond(Step(w, first), second) == Failed(TokenReuse)
    ensures Respond(Run(Step(w, first), events), second).Failed?
  {
    RefreshRotates(w, first);
    StepKeepsValid(w, first);
    SpentIsReuse(Step(w, first), events, second, first.request.token);
  }

  /** The token handed out is the one to present next, for as long as it is within both windows. */
  lemma RotatedTokenWorks(w: World, e: Event, next: Event)
    requires Issued(w) && e.request.Refresh? && Respond(w, e).Tokens? && !e.failsLate
    requires next.request == Refresh(Respond(w, e).token)
    ensures Respond(Step(w, e), next).Tokens? <==>
              next.now < e.now + e.cfg.refreshDays * DAY && next.now - e.now < next.cfg.idleMinutes * MINUTE
  {
    RefreshRotates(w, e);
    RefreshAnswer(w, e);
    RefreshAnswer(Step(w, e), next);
  }

  /** The other bound of the settings validator. A client that refreshes at the moment its access
      token expires is inside the idle window if and only if the window is strictly longer; at
      equality, which the validator accepts, it is signed out. */
  lemma RefreshAtAccessExpiry(w: World, e: Event)
    requires e.request.Refresh? && e.request.token in w.db.refresh
    requires var row := w.db.refresh[e.request.token];
             row.revokedAt == None && e.now < row.expiresAt && e.now == row.lastUsedAt + e.cfg.accessMinutes * MINUTE
    ensures Respond(w, e) == Failed(SessionIdle) <==> e.cfg.idleMinutes <= e.cfg.accessMinutes
  {
    RefreshAnswer(w, e);
    MinutesOrdered(e.cfg.idleMinutes, e.cfg.accessMinutes);
  }

  lemma MinutesOrdered(a: int, b: int)
    ensures a * MINUTE <= b * MINUTE <==> a <= b
  {
  }

  // ---------------------------------------------------------------- signing in and out

  /** The first row of a family nobody has used. */
  ghost predicate OpensSession(w: World, e: Event, user: nat, t: nat) {
    && t !in w.db.refresh
    && var after := Step(w, e).db.refresh;
       && after.Keys == w.db.refresh.Keys + {t}
       && (forall u | u in w.db.refresh :: after[u] == w.db.refresh[u] && w.db.refresh[u].family != after[t].family)
       && after[t] == RefreshToken(user, after[t].family, e.now + e.cfg.refreshDays * DAY, e.now, None, None)
  }

  /** Signing in succeeds exactly with the account's password, and then opens one session. */
  lemma LoginExactly(w: World, e: Event)
    requires Issued(w) && e.request.Login?
    ensures var q := e.request;
            Respond(w, e).Tokens? <==>
              && q.email in w.db.emails && w.db.emails[q.email] in w.db.users
              && w.db.users[w.db.emails[q.email]].password == Some(q.password)
              && w.db.users[w.db.emails[q.email]].active
    ensures !Respond(w, e).Tokens? ==> Respond(w, e) == Failed(AuthenticationFailed)
    ensures Respond(w, e).Tokens? && !e.failsLate ==>
              && Respond(w, e).user == w.db.emails[e.request.email]
              && OpensSession(w, e, Respond(w, e).user, Respond(w, e).token)
              && Step(w, e).db == w.db.(refresh := Step(w, e).db.refresh)
  {
  }

  /** Registering succeeds exactly for a new address: account, session, and one link to confirm
      the address, good for the configured hours. */
  lemma RegisterExactly(w: World, e: Event)
    requires Issued(w) && AccountsSound(w) && e.request.Register?
    ensures Respond(w, e).Tokens? <==> e.request.email !in w.db.emails
    ensures !Respond(w, e).Tokens? ==> Respond(w, e) == Failed(RegistrationFailed)
    ensures Respond(w, e).Tokens? && !e.failsLate ==>
              var user, after := Respond(w, e).user, Step(w, e).db;
              && user !in w.db.users
              && after.users == w.db.users[user := User(Some(e.request.password), true, None)]
              && after.emails == w.db.emails[e.request.email := user]
              && OpensSession(w, e, user, Respond(w, e).token)
              && exists v :: IssuesLink(w, e, v, user, EmailVerification, e.cfg.verificationHours * 60)
  {
    if Respond(w, e).Tokens? && !e.failsLate {
      assert IssuesLink(w, e, w.next + 3, w.next, EmailVerification, e.cfg.verificationHours * 60);
    }
  }

  /** Signing out spends the presented token, if it is live, and touches nothing else. */
  lemma LogoutExactly(w: World, e: Event)
    requires e.request.Logout? && !e.failsLate
    ensures Respond(w, e) == Done
    ensures var t, after := e.request.token, Step(w, e).db;
            && after.refresh.Keys == w.db.refresh.Keys
            && (forall u | u in w.db.refresh ::
                  after.refresh[u] == if u == t && w.db.refresh[u].revokedAt == None
                                      then w.db.refresh[u].(revokedAt := Some(e.now)) else w.db.refresh[u])
            && after == w.db.(refresh := after.refresh)
  {
  }

  /** Its session is over for good: no later refresh is ever answered from it. */
  lemma LogoutEndsSession(w: World, out: Event, events: seq<Event>, later: Event)
    requires Valid(w) && out.request.Logout? && !out.failsLate && out.request.token in w.db.refresh
    requires w.db.refresh[out.request.token].revokedAt == None && later.request.Refresh?
    ensures var end := Run(Step(w, out), events);
            Respond(end, later).Tokens? ==>
              && later.request.token in end.db.refresh
              && end.db.refresh[later.request.token].family != w.db.refresh[out.request.token].family
  {
    var family := w.db.refresh[out.request.token].family;
    LogoutExactly(w, out);
    StepKeepsValid(w, out);
    StepEvolves(w, out);
    assert FamilyDead(Step(w, out).db, family);
    DeathIsFinal(Step(w, out), events, family);
    RefreshAnswer(Run(Step(w, out), events), later);
  }

  // ---------------------------------------------------------------- passwords

  /** Every live token of `user`, and nothing else among the tokens, is revoked at `now`. */
  ghost predicate SignsOutEverywhere(before: Db, after: Db, user: nat, now: Time) {
    && after.refresh.Keys == before.refresh.Keys
    && forall t | t in before.refresh ::
         after.refresh[t] == if before.refresh[t].user == user && before.refresh[t].revokedAt == None
                             then before.refresh[t].(revokedAt := Some(now)) else before.refresh[t]
  }

  /** A password is changed exactly by the active account that knows the current one. */
  lemma ChangeExactly(w: World, e: Event)
    requires e.request.ChangePassword?
    ensures var q := e.request;
            Respond(w, e) == Done <==>
              q.user in w.db.users && w.db.users[q.user].active && w.db.users[q.user].password == Some(q.current)
    ensures Respond(w, e) != Done ==> Respond(w, e) == Failed(AuthenticationFailed)
    ensures Respond(w, e) == Done && !e.failsLate ==>
              var user, after := e.request.user, Step(w, e).db;
              && after.users == w.db.users[user := w.db.users[user].(password := Some(e.request.replacement))]
              && SignsOutEverywhere(w.db, after, user, e.now)
              && after.emails == w.db.emails && after.verification == w.db.verification
  {
  }

  /** One link is spent at `now`; the others are as they were. */
  ghost predicate SpendsLink(before: Db, after: Db, v: nat, now: Time) {
    && v in before.verification && after.verification == before.verification[v := before.verification[v].(usedAt := Some(now))]
  }

  lemma ResetTakesEffect(w: World, e: Event)
    requires e.request.ResetPassword? && Respond(w, e) == Done && !e.failsLate
    ensures var v, after := e.request.token, Step(w, e).db;
            && SpendsLink(w.db, after, v, e.now)
            && var user := w.db.verification[v].user;
               && user in w.db.users
               && var account := w.db.users[user];
                  && after.users == w.db.users[user := User(Some(e.request.replacement), account.active,
                       if account.emailVerifiedAt == None then Some(e.now) else account.emailVerifiedAt)]
                  && SignsOutEverywhere(w.db, after, user, e.now)
                  && after.emails == w.db.emails
  {
  }

  lemma VerifyTakesEffect(w: World, e: Event)
    requires e.request.VerifyEmail? && Respond(w, e) == Done && !e.failsLate
    ensures var v, after := e.request.token, Step(w, e).db;
            && SpendsLink(w.db, after, v, e.now)
            && var user := w.db.verification[v].user;
               && user in w.db.users
               && var account := w.db.users[user];
                  && after.users == w.db.users[user := User(account.password, account.active,
                       if account.emailVerifiedAt == None then Some(e.now) else account.emailVerifiedAt)]
                  && after.refresh == w.db.refresh && after.emails == w.db.emails
  {
  }

  /** The address leads to an active account with this password. */
  ghost predicate SignsInWith(w: World, email: string, user: nat, password: string) {
    && email in w.db.emails && w.db.emails[email] == user && user in w.db.users
    && w.db.users[user].active && w.db.users[user].password == Some(password)
    && AccountsSound(w)
  }

  /** The request neither replaces the account's password nor is the operator's. */
  ghost predicate LeavesAccount(w: World, request: Request, user: nat) {
    PasswordOwner(w, request) != Some(user) && !(request.SetActive? && request.user == user)
  }

  lemma PasswordStays(w: World, e: Event, email: string, user: nat, password: string)
    requires SignsInWith(w, email, user, password) && LeavesAccount(w, e.request, user)
    ensures SignsInWith(Step(w, e), email, user, password)
  {
    StepKeepsAccounts(w, e);
    match e.request
    case Register(_, _) =>
    case Login(_, _) =>
    case Refresh(_) =>
    case Logout(_) =>
    case ChangePassword(_, _, _) =>
    case RequestReset(_) =>
    case ResetPassword(_, _) =>
    case VerifyEmail(_) =>
    case ResendVerification(_) =>
    case PurgeTokens(_) =>
    case PurgeLinks(_) =>
    case SetActive(_, _) =>
  }

  ghost predicate RunLeavesAccount(w: World, events: seq<Event>, user: nat)
    decreases |events|
  {
    events == [] || (LeavesAccount(w, events[0].request, user) && RunLeavesAccount(Step(w, events[0]), events[1..], user))
  }

  lemma {:induction false} PasswordStaysThrough(w: World, events: seq<Event>, email: string, user: nat, password: string)
    requires SignsInWith(w, email, user, password) && RunLeavesAccount(w, events, user)
    ensures SignsInWith(Run(w, events), email, user, password)
    decreases |events|
  {
    if events != [] {
      PasswordStays(w, events[0], email, user, password);
      PasswordStaysThrough(Step(w, events[0]), events[1..], email, user, password);
    }
  }

  /** After a change or reset, and any run that leaves the account alone, its address signs in
      with the new password and with no other. */
  lemma NewPasswordSignsIn(w: World, change: Event, email: string, user: nat, events: seq<Event>, login: Event)
    requires Issued(w) && AccountsSound(w) && email in w.db.emails && w.db.emails[email] == user
    requires PasswordOwner(w, change.request) == Some(user) && Respond(w, change) == Done && !change.failsLate
    requires RunLeavesAccount(Step(w, change), events, user)
    requires login.request.Login? && login.request.email == email
    ensures Respond(Run(Step(w, change), events), login).Tokens? <==> login.request.password == change.request.replacement
  {
    var w' := Step(w, change);
    if change.request.ChangePassword? {
      ChangeExactly(w, change);
    } else {
      ResetTakesEffect(w, change);
    }
    StepKeepsAccounts(w, change);
    assert SignsInWith(w', email, user, change.request.replacement);
    PasswordStaysThrough(w', events, email, user, change.request.replacement);
  }

  // ---------------------------------------------------------------- issuing links

  /** `v` is a new link of `user`, good for so many minutes; the account's earlier ones of the
      same purpose are used up, and no other link is touched. */
  ghost predicate IssuesLink(w: World, e: Event, v: nat, user: nat, purpose: Purpose, minutes: int) {
    && v !in w.db.verification
    && var after := Step(w, e).db.verification;
       && after.Keys == w.db.verification.Keys + {v}
       && after[v] == VerificationToken(user, purpose, e.now + minutes * MINUTE, None)
       && forall x | x in w.db.verification ::
            var link := w.db.verification[x];
            after[x] == if link.user == user && link.purpose == purpose && link.usedAt == None
                        then link.(usedAt := Some(e.now)) else link
  }

  /** A reset link goes out exactly for an active account with a password; the answer never says
      whether it did. */
  lemma RequestResetExactly(w: World, e: Event)
    requires Issued(w) && e.request.RequestReset? && !e.failsLate
    ensures Respond(w, e) == Done
    ensures var email, after := e.request.email, Step(w, e).db;
            if email in w.db.emails && w.db.emails[email] in w.db.users
               && w.db.users[w.db.emails[email]].active && w.db.users[w.db.emails[email]].password != None
            then (exists v :: IssuesLink(w, e, v, w.db.emails[email], PasswordReset, e.cfg.resetMinutes))
                 && after == w.db.(verification := after.verification)
            else after == w.db
  {
    if Step(w, e).next != w.next {
      assert IssuesLink(w, e, w.next, w.db.emails[e.request.email], PasswordReset, e.cfg.resetMinutes);
    }
  }

  lemma ResendExactly(w: World, e: Event)
    requires Issued(w) && e.request.ResendVerification? && !e.failsLate
    ensures var user, after := e.request.user, Step(w, e).db;
            if user !in w.db.users || !w.db.users[user].active then Respond(w, e) == Failed(AuthenticationFailed) && after == w.db
            else if w.db.users[user].emailVerifiedAt != None then Respond(w, e) == Done && after == w.db
            else
              && Respond(w, e) == Done && after == w.db.(verification := after.verification)
              && exists v :: IssuesLink(w, e, v, user, EmailVerification, e.cfg.verificationHours * 60)
  {
    if Step(w, e).next != w.next {
      assert IssuesLink(w, e, w.next, e.request.user, EmailVerification, e.cfg.verificationHours * 60);
    }
  }

  // ---------------------------------------------------------------- purging

  /** The cutoff a purge uses: the one given, or the present. */
  function Cutoff(olderThan: Option<Time>, now: Time): Time {
    match olderThan case Some(t) => t case None => now
  }

  /** A purge deletes exactly the tokens that expired before the cutoff; a survivor is as it was,
      save that a pointer to a deleted row is cleared. */
  lemma PurgeTokensExactly(w: World, e: Event)
    requires e.request.PurgeTokens? && !e.failsLate
    ensures var cutoff, after := Cutoff(e.request.olderThan, e.now), Step(w, e).db;
            && (forall t :: t in after.refresh <==> t in w.db.refresh && w.db.refresh[t].expiresAt >= cutoff)
            && (forall t | t in after.refresh ::
                  var row := w.db.refresh[t];
                  after.refresh[t] == if row.replacedBy.Some? && row.replacedBy.value !in after.refresh
                                      then row.(replacedBy := None) else row)
            && after == w.db.(refresh := after.refresh)
  {
  }

  lemma PurgeLinksExactly(w: World, e: Event)
    requires e.request.PurgeLinks? && !e.failsLate
    ensures var cutoff, after := Cutoff(e.request.olderThan, e.now), Step(w, e).db;
            && (forall v :: v in after.verification <==> v in w.db.verification && w.db.verification[v].expiresAt >= cutoff)
            && (forall v | v in after.verification :: after.verification[v] == w.db.verification[v])
            && after == w.db.(verification := after.verification)
  {
  }

  // ---------------------------------------------------------------- accounts

  /** Every address leads to an account of its own, and ids are never reused. */
  ghost predicate AccountsSound(w: World) {
    && (forall u | u in w.db.users :: u < w.next)
    && (forall email | email in w.db.emails :: w.db.emails[email] in w.db.users)
    && (forall a, b | a in w.db.emails && b in w.db.emails && w.db.emails[a] == w.db.emails[b] :: a == b)
  }

  /** Only registering adds an account or an address, and no request removes one. */
  lemma OthersKeepAccounts(w: World, e: Event)
    requires !e.request.Register?
    ensures Step(w, e).db.users.Keys == w.db.users.Keys && Step(w, e).db.emails == w.db.emails && w.next <= Step(w, e).next
  {
    match e.request
    case Login(_, _) =>
    case Refresh(_) =>
    case Logout(_) =>
    case ChangePassword(_, _, _) =>
    case RequestReset(_) =>
    case ResetPassword(_, _) =>
    case VerifyEmail(_) =>
    case ResendVerification(_) =>
    case PurgeTokens(_) =>
    case PurgeLinks(_) =>
    case SetActive(_, _) =>
  }

  lemma StepKeepsAccounts(w: World, e: Event)
    requires AccountsSound(w)
    ensures AccountsSound(Step(w, e))
  {
    if !e.request.Register? {
      OthersKeepAccounts(w, e);
    }
  }

  lemma {:induction false} RunKeepsAccounts(w: World, events: seq<Event>)
    requires AccountsSound(w)
    ensures AccountsSound(Run(w, events))
    decreases |events|
  {
    if events != [] {
      StepKeepsAccounts(w, events[0]);
      RunKeepsAccounts(Step(w, events[0]), events[1..]);
    }
  }
}
