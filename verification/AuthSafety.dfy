/** What holds in every run of the authentication service, requests taken one at a time. */
module AuthSafety {
  import opened Prelude
  import opened AuthStore

  // ---------------------------------------------------------------- what one request may change

  /** `t` was added by rotating `p`, a live token of the same session. */
  ghost predicate Rotates(before: Db, after: Db, p: nat, t: nat)
    requires t in after.refresh
  {
    && p in before.refresh && p in after.refresh
    && !before.refresh[p].IsRevoked() && after.refresh[p].IsRevoked()
    && before.refresh[p].family == after.refresh[t].family
    && before.refresh[p].user == after.refresh[t].user
  }

  /** Surviving rows keep their identity and stay revoked once revoked; at most one row is
      new, and it either starts a family or replaces the live token of one. */
  ghost predicate TokensEvolve(before: Db, after: Db, next: nat, next': nat)
  {
    && next <= next'
    && (forall t | t in after.refresh && t in before.refresh ::
          && after.refresh[t].user == before.refresh[t].user
          && after.refresh[t].family == before.refresh[t].family
          && after.refresh[t].expiresAt == before.refresh[t].expiresAt
          && after.refresh[t].lastUsedAt == before.refresh[t].lastUsedAt
          && (before.refresh[t].IsRevoked() ==> after.refresh[t].IsRevoked()))
    && (forall t | t in after.refresh && t !in before.refresh ::
          && next <= t < next'
          && (next <= after.refresh[t].family < next' || exists p :: Rotates(before, after, p, t)))
    && (forall t, u | t in after.refresh && u in after.refresh && t !in before.refresh && u !in before.refresh :: t == u)
  }

  /** The same for the emailed links: used stays used, and a new link is the only unused one
      of its account and purpose. */
  ghost predicate LinksEvolve(before: Db, after: Db, next: nat, next': nat)
  {
    && (forall v | v in after.verification && v in before.verification ::
          && after.verification[v].user == before.verification[v].user
          && after.verification[v].purpose == before.verification[v].purpose
          && after.verification[v].expiresAt == before.verification[v].expiresAt
          && (before.verification[v].IsUsed() ==> after.verification[v].IsUsed()))
    && (forall v | v in after.verification && v !in before.verification :: next <= v < next')
    && (forall v, x | v in after.verification && v !in before.verification && x in after.verification
          && after.verification[x].user == after.verification[v].user
          && after.verification[x].purpose == after.verification[v].purpose
          && !after.verification[x].IsUsed() :: x == v)
  }

  ghost predicate Evolves(before: Db, after: Db, next: nat, next': nat) {
    TokensEvolve(before, after, next, next') && LinksEvolve(before, after, next, next')
  }

  ghost predicate Issued(w: World) {
    && (forall t | t in w.db.refresh :: t < w.next && w.db.refresh[t].family < w.next)
    && (forall v | v in w.db.verification :: v < w.next)
  }

  lemma TokensUntouched(before: Db, after: Db, next: nat, next': nat)
    requires after.refresh == before.refresh && next <= next'
    ensures TokensEvolve(before, after, next, next')
  {
  }

  lemma LinksUntouched(before: Db, after: Db, next: nat, next': nat)
    requires after.verification == before.verification
    ensures LinksEvolve(before, after, next, next')
  {
  }

  lemma IssueLinkEvolves(db: Db, id: nat, user: nat, purpose: Purpose, expiresAt: Time, now: Time, next: nat, next': nat)
    requires next <= id < next' && id !in db.verification
    ensures LinksEvolve(db, IssueLink(db, id, user, purpose, expiresAt, now), next, next')
  {
  }

  lemma RegisterEvolves(cfg: Config, db: Db, next: nat, email: string, password: string, now: Time)
    requires Issued(World(db, next))
    ensures var s := RegisterSession(cfg, db, next, email, password, now);
            Evolves(db, s.working, next, s.next)
  {
    var s := RegisterSession(cfg, db, next, email, password, now);
    if email in db.emails {
      TokensUntouched(db, db, next, s.next);
      LinksUntouched(db, db, next, s.next);
    } else {
      var expiresAt := now + VerificationTtl(cfg, EmailVerification);
      IssueLinkEvolves(db, next + 3, next, EmailVerification, expiresAt, now, next, s.next);
      assert s.working.verification == IssueLink(db, next + 3, next, EmailVerification, expiresAt, now).verification;
      assert TokensEvolve(db, s.working, next, s.next);
    }
  }

  lemma LoginEvolves(cfg: Config, db: Db, next: nat, email: string, password: string, now: Time)
    requires Issued(World(db, next))
    ensures var s := LoginSession(cfg, db, next, email, password, now);
            Evolves(db, s.working, next, s.next)
  {
    var s := LoginSession(cfg, db, next, email, password, now);
    LinksUntouched(db, s.working, next, s.next);
  }

  lemma RevokeFamilyEvolves(db: Db, next: nat, family: nat, now: Time)
    ensures Evolves(db, RevokeFamily(db, family, now), next, next)
  {
    LinksUntouched(db, RevokeFamily(db, family, now), next, next);
  }

  lemma RotationEvolves(cfg: Config, db: Db, next: nat, token: nat, now: Time)
    requires Issued(World(db, next)) && token in db.refresh && !db.refresh[token].IsRevoked()
    ensures var issued := IssueRefresh(cfg, db, next, db.refresh[token].user, db.refresh[token].family, now);
            Evolves(db, Revoke(issued, token, Some(next), now), next, next + 1)
  {
    var issued := IssueRefresh(cfg, db, next, db.refresh[token].user, db.refresh[token].family, now);
    var after := Revoke(issued, token, Some(next), now);
    LinksUntouched(db, after, next, next + 1);
    assert Rotates(db, after, token, next);
  }

  lemma RefreshEvolves(cfg: Config, db: Db, next: nat, token: nat, now: Time)
    requires Issued(World(db, next))
    ensures var s := RefreshSession(cfg, db, next, token, now);
            Evolves(db, s.committed, next, s.next) && Evolves(db, s.working, next, s.next)
  {
    var s := RefreshSession(cfg, db, next, token, now);
    if s.committed == db {
      TokensUntouched(db, db, next, s.next);
      LinksUntouched(db, db, next, s.next);
    } else {
      RevokeFamilyEvolves(db, next, db.refresh[token].family, now);
    }
    if s.response.Tokens? {
      RotationEvolves(cfg, db, next, token, now);
    }
  }

  lemma LogoutEvolves(db: Db, next: nat, token: nat, now: Time)
    ensures var s := LogoutSession(db, next, token, now);
            Evolves(db, s.working, next, s.next)
  {
    LinksUntouched(db, LogoutSession(db, next, token, now).working, next, next);
  }

  lemma RevokeAllEvolves(before: Db, db: Db, next: nat, user: nat, now: Time)
    requires db.refresh == before.refresh
    ensures TokensEvolve(before, RevokeAllForUser(db, user, now), next, next)
  {
  }

  lemma ChangePasswordEvolves(db: Db, next: nat, user: nat, current: string, replacement: string, now: Time)
    ensures var s := ChangePasswordSession(db, next, user, current, replacement, now);
            Evolves(db, s.working, next, s.next)
  {
    LinksUntouched(db, ChangePasswordSession(db, next, user, current, replacement, now).working, next, next);
    TokensUntouched(db, db, next, next);
    if user in db.users {
      RevokeAllEvolves(db, SetPassword(db, user, replacement), next, user, now);
    }
  }

  lemma MarkUsedEvolves(before: Db, db: Db, next: nat, token: nat, now: Time)
    requires token in before.verification && db.verification == MarkUsed(before, token, now).verification
    ensures LinksEvolve(before, db, next, next)
  {
  }

  lemma ResetEvolves(db: Db, next: nat, token: nat, replacement: string, now: Time)
    requires Issued(World(db, next))
    ensures var s := ResetPasswordSession(db, next, token, replacement, now);
            Evolves(db, s.working, next, s.next)
  {
    var s := ResetPasswordSession(db, next, token, replacement, now);
    if s.working == db {
      LinksUntouched(db, s.working, next, next);
    } else {
      MarkUsedEvolves(db, s.working, next, token, now);
    }
    if s.response == Done {
      var user := db.verification[token].user;
      RevokeAllEvolves(db, SetPassword(MarkUsed(db, token, now), user, replacement), next, user, now);
    } else {
      TokensUntouched(db, s.working, next, next);
    }
  }

  lemma VerifyEmailEvolves(db: Db, next: nat, token: nat, now: Time)
    ensures var s := VerifyEmailSession(db, next, token, now);
            Evolves(db, s.working, next, s.next)
  {
    var s := VerifyEmailSession(db, next, token, now);
    TokensUntouched(db, s.working, next, next);
    if s.working == db {
      LinksUntouched(db, s.working, next, next);
    } else {
      MarkUsedEvolves(db, s.working, next, token, now);
    }
  }

  lemma RequestResetEvolves(cfg: Config, db: Db, next: nat, email: string, now: Time)
    requires Issued(World(db, next))
    ensures var s := RequestResetSession(cfg, db, next, email, now);
            Evolves(db, s.working, next, s.next)
  {
    var s := RequestResetSession(cfg, db, next, email, now);
    TokensUntouched(db, s.working, next, s.next);
    LinksUntouched(db, db, next, s.next);
    if email in db.emails {
      IssueLinkEvolves(db, next, db.emails[email], PasswordReset, now + VerificationTtl(cfg, PasswordReset), now, next, next + 1);
    }
  }

  lemma ResendEvolves(cfg: Config, db: Db, next: nat, user: nat, now: Time)
    requires Issued(World(db, next))
    ensures var s := ResendSession(cfg, db, next, user, now);
            Evolves(db, s.working, next, s.next)
  {
    var s := ResendSession(cfg, db, next, user, now);
    TokensUntouched(db, s.working, next, s.next);
    if s.working == db {
      LinksUntouched(db, db, next, s.next);
    } else {
      IssueLinkEvolves(db, next, user, EmailVerification, now + VerificationTtl(cfg, EmailVerification), now, next, s.next);
    }
  }

  lemma PurgesEvolve(db: Db, next: nat, cutoff: Time)
    ensures Evolves(db, PurgeRefresh(db, cutoff), next, next) && Evolves(db, PurgeVerification(db, cutoff), next, next)
  {
    LinksUntouched(db, PurgeRefresh(db, cutoff), next, next);
    TokensUntouched(db, PurgeVerification(db, cutoff), next, next);
  }

  /** Only ending a family commits before the handler returns. */
  lemma CommitsEarly(cfg: Config, db: Db, next: nat, request: Request, now: Time)
    ensures Serve(cfg, db, next, request, now).committed == db || request.Refresh?
    ensures next <= Serve(cfg, db, next, request, now).next
  {
  }

  lemma ServeEvolves(cfg: Config, db: Db, next: nat, request: Request, now: Time)
    requires Issued(World(db, next))
    ensures var s := Serve(cfg, db, next, request, now);
            Evolves(db, s.committed, next, s.next) && Evolves(db, s.working, next, s.next)
  {
    var s := Serve(cfg, db, next, request, now);
    CommitsEarly(cfg, db, next, request, now);
    TokensUntouched(db, db, next, s.next);
    LinksUntouched(db, db, next, s.next);
    match request
    case Register(email, password) => RegisterEvolves(cfg, db, next, email, password, now);
    case Login(email, password) => LoginEvolves(cfg, db, next, email, password, now);
    case Refresh(token) => RefreshEvolves(cfg, db, next, token, now);
    case Logout(token) => LogoutEvolves(db, next, token, now);
    case ChangePassword(user, current, replacement) => ChangePasswordEvolves(db, next, user, current, replacement, now);
    case RequestReset(email) => RequestResetEvolves(cfg, db, next, email, now);
    case ResetPassword(token, replacement) => ResetEvolves(db, next, token, replacement, now);
    case VerifyEmail(token) => VerifyEmailEvolves(db, next, token, now);
    case ResendVerification(user) => ResendEvolves(cfg, db, next, user, now);
    case PurgeTokens(olderThan) => PurgesEvolve(db, next, if olderThan.Some? then olderThan.value else now);
    case PurgeLinks(olderThan) => PurgesEvolve(db, next, if olderThan.Some? then olderThan.value else now);
    case SetActive(user, active) => {
      TokensUntouched(db, s.working, next, next);
      LinksUntouched(db, s.working, next, next);
    }
  }

  // ---------------------------------------------------------------- invariants of every run

  /** A session belongs to one account, and its live token, if any, is its latest: hence at
      most one row of a family is unrevoked. */
  ghost predicate FamiliesSound(db: Db) {
    forall t, u | t in db.refresh && u in db.refresh && db.refresh[t].family == db.refresh[u].family ::
      && db.refresh[t].user == db.refresh[u].user
      && (!db.refresh[t].IsRevoked() ==> u <= t)
  }

  ghost predicate OneOutstandingLink(db: Db) {
    forall v, x | v in db.verification && x in db.verification
      && db.verification[v].user == db.verification[x].user
      && db.verification[v].purpose == db.verification[x].purpose
      && !db.verification[v].IsUsed() && !db.verification[x].IsUsed() :: v == x
  }

  ghost predicate Valid(w: World) {
    Issued(w) && FamiliesSound(w.db) && OneOutstandingLink(w.db)
  }

  lemma StepEvolves(w: World, e: Event)
    requires Issued(w)
    ensures TokensEvolve(w.db, Step(w, e).db, w.next, Step(w, e).next)
    ensures LinksEvolve(w.db, Step(w, e).db, w.next, Step(w, e).next)
    ensures Issued(Step(w, e))
  {
    ServeEvolves(e.cfg, w.db, w.next, e.request, e.now);
    var w' := Step(w, e);
    forall t | t in w'.db.refresh ensures t < w'.next && w'.db.refresh[t].family < w'.next {
      if t !in w.db.refresh && !(w.next <= w'.db.refresh[t].family < w'.next) {
        var p :| Rotates(w.db, w'.db, p, t);
      }
    }
  }

  lemma FamiliesStaySound(before: Db, after: Db, next: nat, next': nat)
    requires Issued(World(before, next)) && FamiliesSound(before)
    requires TokensEvolve(before, after, next, next')
    ensures FamiliesSound(after)
  {
    forall t, u | t in after.refresh && u in after.refresh && after.refresh[t].family == after.refresh[u].family
      ensures after.refresh[t].user == after.refresh[u].user
      ensures !after.refresh[t].IsRevoked() ==> u <= t
    {
      if t !in before.refresh && u in before.refresh {
        var p :| Rotates(before, after, p, t);
        assert before.refresh[p].family == before.refresh[u].family;
      } else if t in before.refresh && u !in before.refresh {
        var p :| Rotates(before, after, p, u);
        assert before.refresh[p].family == before.refresh[t].family;
      }
    }
  }

  lemma StepKeepsValid(w: World, e: Event)
    requires Valid(w)
    ensures Valid(Step(w, e))
  {
    StepEvolves(w, e);
    FamiliesStaySound(w.db, Step(w, e).db, w.next, Step(w, e).next);
  }

  lemma {:induction false} RunKeepsValid(w: World, events: seq<Event>)
    requires Valid(w)
    ensures Valid(Run(w, events)) && w.next <= Run(w, events).next
    decreases |events|
  {
    if events != [] {
      StepKeepsValid(w, events[0]);
      StepEvolves(w, events[0]);
      RunKeepsValid(Step(w, events[0]), events[1..]);
    }
  }

  /** From the empty tables on, in every run: a session has at most one live token, and an
      account at most one unused link of each purpose. */
  lemma OneLiveTokenPerSession(history: seq<Event>)
    ensures var db := Run(EMPTY, history).db;
            && (forall t, u | t in db.refresh && u in db.refresh && db.refresh[t].family == db.refresh[u].family
                  && !db.refresh[t].IsRevoked() && !db.refresh[u].IsRevoked() :: t == u)
            && OneOutstandingLink(db)
  {
    RunKeepsValid(EMPTY, history);
  }

  // ---------------------------------------------------------------- reuse, idleness and finality

  ghost predicate FamilyDead(db: Db, family: nat) {
    forall t | t in db.refresh && db.refresh[t].family == family :: db.refresh[t].IsRevoked()
  }

  /** The live rows of `family` were revoked at `now`; nothing else differs. */
  ghost predicate OnlyRevokes(before: Db, after: Db, family: nat, now: Time) {
    && after.users == before.users && after.emails == before.emails && after.verification == before.verification
    && after.refresh.Keys == before.refresh.Keys
    && (forall t | t in before.refresh && before.refresh[t].family != family :: after.refresh[t] == before.refresh[t])
    && (forall t | t in before.refresh && before.refresh[t].family == family ::
          after.refresh[t] == if before.refresh[t].IsRevoked() then before.refresh[t]
                              else before.refresh[t].(revokedAt := Some(now)))
  }

  lemma StepKeepsDead(w: World, e: Event, family: nat)
    requires Valid(w) && family < w.next && FamilyDead(w.db, family)
    ensures FamilyDead(Step(w, e).db, family)
  {
    StepEvolves(w, e);
    // A new row of the family would need a live parent in it.
    assert forall t | t in Step(w, e).db.refresh && Step(w, e).db.refresh[t].family == family :: t in w.db.refresh;
  }

  /** A session without a live token never gets one again. */
  lemma {:induction false} DeathIsFinal(w: World, events: seq<Event>, family: nat)
    requires Valid(w) && family < w.next && FamilyDead(w.db, family)
    ensures FamilyDead(Run(w, events).db, family)
    decreases |events|
  {
    if events != [] {
      StepKeepsDead(w, events[0], family);
      StepKeepsValid(w, events[0]);
      StepEvolves(w, events[0]);
      DeathIsFinal(Step(w, events[0]), events[1..], family);
    }
  }

  /** Presenting a spent token, or a live one past the idle window, is refused; although the
      request raises, its session is ended in the committed tables and no other row changes. */
  lemma EndsFamily(w: World, e: Event)
    requires e.request.Refresh? && e.request.token in w.db.refresh
    requires var stored := w.db.refresh[e.request.token];
             stored.IsRevoked() || (!stored.IsExpired(e.now) && stored.IsIdle(e.cfg.IdleWindow(), e.now))
    ensures var stored := w.db.refresh[e.request.token];
            && Respond(w, e) == Failed(if stored.IsRevoked() then TokenReuse else SessionIdle)
            && OnlyRevokes(w.db, Step(w, e).db, stored.family, e.now)
            && FamilyDead(Step(w, e).db, stored.family)
  {
  }

  /** Reuse detection and idle timeout end to end: after any run, such a refusal, and then any
      further run, no token of that session (not even one rotated to since) is accepted. */
  lemma RefusedSessionIsOver(history: seq<Event>, replay: Event, events: seq<Event>, later: Event)
    requires var w := Run(EMPTY, history);
             && replay.request.Refresh? && replay.request.token in w.db.refresh
             && var stored := w.db.refresh[replay.request.token];
                stored.IsRevoked() || (!stored.IsExpired(replay.now) && stored.IsIdle(replay.cfg.IdleWindow(), replay.now))
    requires later.request.Refresh?
    ensures var w := Run(EMPTY, history);
            var family := w.db.refresh[replay.request.token].family;
            var w' := Run(Step(w, replay), events);
            && Respond(w, replay).Failed?
            && (Respond(w', later).Tokens? ==>
                  later.request.token in w'.db.refresh && w'.db.refresh[later.request.token].family != family)
  {
    RunKeepsValid(EMPTY, history);
    var w := Run(EMPTY, history);
    EndsFamily(w, replay);
    StepKeepsValid(w, replay);
    StepEvolves(w, replay);
    DeathIsFinal(Step(w, replay), events, w.db.refresh[replay.request.token].family);
  }

  // ---------------------------------------------------------------- signing out everywhere

  /** No session of `user` started before `bound` is alive. */
  ghost predicate OldSessionsOver(db: Db, user: nat, bound: nat) {
    forall t | t in db.refresh && db.refresh[t].user == user && db.refresh[t].family < bound :: db.refresh[t].IsRevoked()
  }

  lemma {:induction false} OldSessionsStayOver(w: World, events: seq<Event>, user: nat, bound: nat)
    requires Valid(w) && bound <= w.next && OldSessionsOver(w.db, user, bound)
    ensures OldSessionsOver(Run(w, events).db, user, bound)
    decreases |events|
  {
    if events != [] {
      var w' := Step(w, events[0]);
      StepEvolves(w, events[0]);
      StepKeepsValid(w, events[0]);
      assert OldSessionsOver(w'.db, user, bound);
      OldSessionsStayOver(w', events[1..], user, bound);
    }
  }

  /** The account whose password a request replaces. */
  ghost function PasswordOwner(w: World, request: Request): Option<nat> {
    match request
    case ChangePassword(user, _, _) => Some(user)
    case ResetPassword(token, _) => if token in w.db.verification then Some(w.db.verification[token].user) else None
    case _ => None
  }

  /** After a committed change or reset, every refresh token ever accepted for the account
      belongs to a session started afterwards. */
  lemma NewPasswordEndsSessions(w: World, change: Event, user: nat, events: seq<Event>, later: Event)
    requires Valid(w) && PasswordOwner(w, change.request) == Some(user)
    requires Respond(w, change) == Done && !change.failsLate
    requires later.request.Refresh?
    ensures var w1 := Step(w, change);
            var w2 := Run(w1, events);
            var token := later.request.token;
            && (token in w1.db.refresh && w1.db.refresh[token].user == user ==> !Respond(w2, later).Tokens?)
            && (Respond(w2, later).Tokens? && Respond(w2, later).user == user ==>
                  token in w2.db.refresh && w2.db.refresh[token].family >= w1.next)
  {
    var w1 := Step(w, change);
    StepKeepsValid(w, change);
    OldSessionsStayOver(w1, events, user, w1.next);
    if later.request.token in w1.db.refresh {
      RunKeepsIdentity(w1, events, later.request.token);
    }
  }

  /** Ids are never reused: a row still present later is the same token. */
  lemma {:induction false} RunKeepsIdentity(w: World, events: seq<Event>, t: nat)
    requires Valid(w) && t < w.next
    ensures var after := Run(w, events).db;
            t in after.refresh ==>
              && t in w.db.refresh
              && after.refresh[t].user == w.db.refresh[t].user
              && after.refresh[t].family == w.db.refresh[t].family
              && after.refresh[t].expiresAt == w.db.refresh[t].expiresAt
    decreases |events|
  {
    if events != [] {
      StepEvolves(w, events[0]);
      StepKeepsValid(w, events[0]);
      RunKeepsIdentity(Step(w, events[0]), events[1..], t);
    }
  }
}
