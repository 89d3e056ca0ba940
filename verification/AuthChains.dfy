/** The shape of a rotation family, and what the configured windows guarantee. */
module AuthChains {
  import opened Prelude
  import opened AuthStore
  import opened AuthSafety

  // ---------------------------------------------------------------- linear chains

  /** `r` is the next row of `t`'s session in order of issue. */
  ghost predicate IsNext(db: Db, t: nat, r: nat)
    requires t in db.refresh
  {
    && r in db.refresh && t < r
    && db.refresh[r].family == db.refresh[t].family && db.refresh[r].user == db.refresh[t].user
    && (forall u | u in db.refresh && db.refresh[u].family == db.refresh[t].family :: u <= t || r <= u)
  }

  ghost predicate IsLast(db: Db, t: nat)
    requires t in db.refresh
  {
    forall u | u in db.refresh && db.refresh[u].family == db.refresh[t].family :: u <= t
  }

  /** Every family is one chain: a row points at the next one, and only the last at none. */
  ghost predicate Chained(db: Db) {
    forall t | t in db.refresh ::
      match db.refresh[t].replacedBy
      case None => IsLast(db, t)
      case Some(r) => IsNext(db, t, r) && db.refresh[t].IsRevoked()
  }

  ghost predicate ExpiryOrdered(db: Db) {
    forall t, u | t in db.refresh && u in db.refresh && t <= u :: db.refresh[t].expiresAt <= db.refresh[u].expiresAt
  }

  /** The rows and pointers are the same; only revocations may have been added. */
  ghost predicate SameLinks(before: Db, after: Db) {
    && after.refresh.Keys == before.refresh.Keys
    && forall t | t in before.refresh ::
         && after.refresh[t].family == before.refresh[t].family
         && after.refresh[t].user == before.refresh[t].user
         && after.refresh[t].replacedBy == before.refresh[t].replacedBy
         && after.refresh[t].expiresAt == before.refresh[t].expiresAt
         && after.refresh[t].lastUsedAt == before.refresh[t].lastUsedAt
         && (before.refresh[t].IsRevoked() ==> after.refresh[t].IsRevoked())
  }

  lemma RevokingKeepsChain(before: Db, after: Db)
    requires Chained(before) && SameLinks(before, after)
    ensures Chained(after)
  {
    forall t | t in after.refresh
      ensures match after.refresh[t].replacedBy
              case None => IsLast(after, t)
              case Some(r) => IsNext(after, t, r) && after.refresh[t].IsRevoked()
    {
      assert t in before.refresh;
    }
  }

  lemma RotationKeepsChain(cfg: Config, db: Db, next: nat, token: nat, now: Time)
    requires Valid(World(db, next)) && Chained(db)
    requires token in db.refresh && !db.refresh[token].IsRevoked()
    ensures var stored := db.refresh[token];
            Chained(Revoke(IssueRefresh(cfg, db, next, stored.user, stored.family, now), token, Some(next), now))
  {
    var stored := db.refresh[token];
    var after := Revoke(IssueRefresh(cfg, db, next, stored.user, stored.family, now), token, Some(next), now);
    forall t | t in after.refresh
      ensures match after.refresh[t].replacedBy
              case None => IsLast(after, t)
              case Some(r) => IsNext(after, t, r) && after.refresh[t].IsRevoked()
    {
      if t == token {
        assert IsLast(db, token);
      } else if t != next {
        assert after.refresh[t] == db.refresh[t];
      }
    }
  }

  lemma SignInKeepsChain(cfg: Config, db: Db, next: nat, id: nat, user: nat, now: Time)
    requires Valid(World(db, next)) && Chained(db) && next < id
    ensures Chained(IssueRefresh(cfg, db, id, user, next, now))
  {
    var after := IssueRefresh(cfg, db, id, user, next, now);
    forall t | t in after.refresh
      ensures match after.refresh[t].replacedBy
              case None => IsLast(after, t)
              case Some(r) => IsNext(after, t, r) && after.refresh[t].IsRevoked()
    {
      if t != id {
        assert after.refresh[t] == db.refresh[t];
      }
    }
  }

  /** Rows are deleted oldest first, so no pointer is left dangling and none is set to null. */
  lemma PurgeKeepsChain(db: Db, cutoff: Time)
    requires Chained(db) && ExpiryOrdered(db)
    ensures Chained(PurgeRefresh(db, cutoff))
    ensures forall t | t in PurgeRefresh(db, cutoff).refresh :: t in db.refresh && PurgeRefresh(db, cutoff).refresh[t] == db.refresh[t]
  {
    var after := PurgeRefresh(db, cutoff);
    forall t | t in after.refresh
      ensures after.refresh[t] == db.refresh[t]
      ensures match after.refresh[t].replacedBy
              case None => IsLast(after, t)
              case Some(r) => IsNext(after, t, r) && after.refresh[t].IsRevoked()
    {
      match db.refresh[t].replacedBy
      case None =>
      case Some(r) => assert IsNext(db, t, r) && r in after.refresh;
    }
  }

  /** Every request but sign-in, rotation and purge at most adds revocations. */
  lemma PlainRequestKeepsLinks(cfg: Config, db: Db, next: nat, request: Request, now: Time)
    requires !request.Register? && !request.Login? && !request.Refresh? && !request.PurgeTokens?
    ensures SameLinks(db, Serve(cfg, db, next, request, now).committed)
    ensures SameLinks(db, Serve(cfg, db, next, request, now).working)
  {
    match request
    case Logout(token) =>
    case ChangePassword(user, current, replacement) =>
    case ResetPassword(token, replacement) =>
    case SetActive(user, active) =>
    case RequestReset(email) => assert RequestResetSession(cfg, db, next, email, now).working.refresh == db.refresh;
    case VerifyEmail(token) => assert VerifyEmailSession(db, next, token, now).working.refresh == db.refresh;
    case ResendVerification(user) => assert ResendSession(cfg, db, next, user, now).working.refresh == db.refresh;
    case PurgeLinks(olderThan) =>
    case _ =>
  }

  lemma RegisterKeepsChain(cfg: Config, db: Db, next: nat, email: string, password: string, now: Time)
    requires Valid(World(db, next)) && Chained(db)
    ensures Chained(RegisterSession(cfg, db, next, email, password, now).working)
  {
    var s := RegisterSession(cfg, db, next, email, password, now);
    if s.response.Tokens? {
      SignInKeepsChain(cfg, db, next + 1, next + 2, next, now);
      SameTokensSameChain(IssueRefresh(cfg, db, next + 2, next, next + 1, now), s.working);
    }
  }

  lemma SameTokensSameChain(before: Db, after: Db)
    requires Chained(before) && after.refresh == before.refresh
    ensures Chained(after)
  {
    RevokingKeepsChain(before, after);
  }

  lemma RefreshKeepsChain(cfg: Config, db: Db, next: nat, token: nat, now: Time)
    requires Valid(World(db, next)) && Chained(db)
    ensures Chained(RefreshSession(cfg, db, next, token, now).committed)
    ensures Chained(RefreshSession(cfg, db, next, token, now).working)
  {
    if token in db.refresh {
      RevokingKeepsChain(db, RevokeFamily(db, db.refresh[token].family, now));
      if !db.refresh[token].IsRevoked() {
        RotationKeepsChain(cfg, db, next, token, now);
      }
    }
  }

  lemma ServeKeepsChain(cfg: Config, db: Db, next: nat, request: Request, now: Time)
    requires Valid(World(db, next)) && Chained(db)
    requires request.PurgeTokens? ==> ExpiryOrdered(db)
    ensures Chained(Serve(cfg, db, next, request, now).committed)
    ensures Chained(Serve(cfg, db, next, request, now).working)
  {
    match request
    case Register(email, password) => RegisterKeepsChain(cfg, db, next, email, password, now);
    case Login(email, password) =>
      if LoginSession(cfg, db, next, email, password, now).response.Tokens? {
        SignInKeepsChain(cfg, db, next, next + 1, db.emails[email], now);
      }
    case Refresh(token) => RefreshKeepsChain(cfg, db, next, token, now);
    case PurgeTokens(olderThan) => PurgeKeepsChain(db, if olderThan.Some? then olderThan.value else now);
    case _ =>
      PlainRequestKeepsLinks(cfg, db, next, request, now);
      RevokingKeepsChain(db, Serve(cfg, db, next, request, now).committed);
      RevokingKeepsChain(db, Serve(cfg, db, next, request, now).working);
  }

  /** Without purging, under settings that may change at every request. */
  lemma {:induction false} RunKeepsChain(w: World, events: seq<Event>)
    requires Valid(w) && Chained(w.db)
    requires forall i | 0 <= i < |events| :: !events[i].request.PurgeTokens?
    ensures Chained(Run(w, events).db)
    decreases |events|
  {
    if events != [] {
      var e := events[0];
      ServeKeepsChain(e.cfg, w.db, w.next, e.request, e.now);
      StepKeepsValid(w, e);
      RunKeepsChain(Step(w, e), events[1..]);
    }
  }

  lemma ReplacementIsNeverShared(db: Db, t: nat, u: nat)
    requires Chained(db) && t in db.refresh && u in db.refresh && t != u
    ensures db.refresh[t].replacedBy.None? || db.refresh[t].replacedBy != db.refresh[u].replacedBy
  {
    // Each lies strictly between the other and the shared target, or past it.
    assert t < u || u < t;
  }

  // ---------------------------------------------------------------- one configuration

  /** Rows carry the configured lifetime and are issued in clock order, and a rotation follows
      the one before it by less than the idle window. */
  ghost predicate Timed(cfg: Config, clock: Time, db: Db) {
    && (forall t | t in db.refresh ::
          db.refresh[t].expiresAt == db.refresh[t].lastUsedAt + cfg.Lifetime() && db.refresh[t].lastUsedAt <= clock)
    && (forall t, u | t in db.refresh && u in db.refresh && t <= u :: db.refresh[t].lastUsedAt <= db.refresh[u].lastUsedAt)
    && (forall t | t in db.refresh && db.refresh[t].replacedBy.Some? && db.refresh[t].replacedBy.value in db.refresh ::
          db.refresh[db.refresh[t].replacedBy.value].lastUsedAt - db.refresh[t].lastUsedAt < cfg.IdleWindow())
  }

  /** What holds when every request so far read the settings `cfg` and a clock up to `clock`. */
  ghost predicate Steady(cfg: Config, clock: Time, db: Db) {
    Chained(db) && Timed(cfg, clock, db)
  }

  /** Events that read one configuration and a clock that never runs backwards. */
  ghost predicate InOrder(cfg: Config, clock: Time, events: seq<Event>)
    decreases |events|
  {
    events == [] || (events[0].cfg == cfg && clock <= events[0].now && InOrder(cfg, events[0].now, events[1..]))
  }

  lemma SignInKeepsTimed(cfg: Config, clock: Time, db: Db, next: nat, id: nat, user: nat, family: nat, now: Time)
    requires Valid(World(db, next)) && Timed(cfg, clock, db) && Chained(db) && clock <= now && next <= id
    ensures Timed(cfg, now, IssueRefresh(cfg, db, id, user, family, now))
  {
    var after := IssueRefresh(cfg, db, id, user, family, now);
    assert forall t | t in db.refresh :: after.refresh[t] == db.refresh[t];
  }

  lemma RotationKeepsTimed(cfg: Config, clock: Time, db: Db, next: nat, token: nat, now: Time)
    requires Valid(World(db, next)) && Timed(cfg, clock, db) && Chained(db) && clock <= now
    requires token in db.refresh && !db.refresh[token].IsIdle(cfg.IdleWindow(), now)
    ensures var stored := db.refresh[token];
            Timed(cfg, now, Revoke(IssueRefresh(cfg, db, next, stored.user, stored.family, now), token, Some(next), now))
  {
    var stored := db.refresh[token];
    var issued := IssueRefresh(cfg, db, next, stored.user, stored.family, now);
    SignInKeepsTimed(cfg, clock, db, next, next, stored.user, stored.family, now);
    LinkingKeepsTimed(cfg, issued, token, next, now);
  }

  lemma LinkingKeepsTimed(cfg: Config, db: Db, token: nat, id: nat, now: Time)
    requires Timed(cfg, now, db) && token in db.refresh && id in db.refresh
    requires db.refresh[id].lastUsedAt - db.refresh[token].lastUsedAt < cfg.IdleWindow()
    ensures Timed(cfg, now, Revoke(db, token, Some(id), now))
  {
    var after := Revoke(db, token, Some(id), now);
    assert forall t | t in db.refresh && t != token :: after.refresh[t] == db.refresh[t];
  }

  lemma RevokingKeepsTimed(cfg: Config, clock: Time, before: Db, after: Db, now: Time)
    requires Timed(cfg, clock, before) && SameLinks(before, after) && clock <= now
    ensures Timed(cfg, now, after)
  {
  }

  lemma RegisterKeepsTimed(cfg: Config, clock: Time, db: Db, next: nat, email: string, password: string, now: Time)
    requires Valid(World(db, next)) && Steady(cfg, clock, db) && clock <= now
    ensures Timed(cfg, now, RegisterSession(cfg, db, next, email, password, now).working)
  {
    SignInKeepsTimed(cfg, clock, db, next, next + 2, next, next + 1, now);
    var signedIn := IssueRefresh(cfg, db, next + 2, next, next + 1, now);
    var s := RegisterSession(cfg, db, next, email, password, now);
    assert s.response.Tokens? ==> s.working.refresh == signedIn.refresh;
  }

  lemma RefreshKeepsTimed(cfg: Config, clock: Time, db: Db, next: nat, token: nat, now: Time)
    requires Valid(World(db, next)) && Steady(cfg, clock, db) && clock <= now
    ensures Timed(cfg, now, RefreshSession(cfg, db, next, token, now).committed)
    ensures Timed(cfg, now, RefreshSession(cfg, db, next, token, now).working)
  {
    RevokingKeepsTimed(cfg, clock, db, db, now);
    var s := RefreshSession(cfg, db, next, token, now);
    if s.response.Tokens? {
      RotationKeepsTimed(cfg, clock, db, next, token, now);
    } else if s.committed != db {
      var ended := RevokeFamily(db, db.refresh[token].family, now);
      assert s.committed == s.working == ended;
      RevokingKeepsTimed(cfg, clock, db, ended, now);
    }
  }

  lemma PurgeKeepsTimed(cfg: Config, clock: Time, db: Db, cutoff: Time, now: Time)
    requires Steady(cfg, clock, db) && clock <= now
    ensures Timed(cfg, now, PurgeRefresh(db, cutoff))
  {
    PurgeKeepsChain(db, cutoff);
  }

  lemma ServeKeepsTimed(cfg: Config, clock: Time, db: Db, next: nat, request: Request, now: Time)
    requires Valid(World(db, next)) && Steady(cfg, clock, db) && clock <= now
    ensures Timed(cfg, now, Serve(cfg, db, next, request, now).committed)
    ensures Timed(cfg, now, Serve(cfg, db, next, request, now).working)
  {
    match request
    case Register(email, password) => RegisterKeepsTimed(cfg, clock, db, next, email, password, now);
    case Login(email, password) =>
      if LoginSession(cfg, db, next, email, password, now).response.Tokens? {
        SignInKeepsTimed(cfg, clock, db, next, next + 1, db.emails[email], next, now);
      }
    case Refresh(token) => RefreshKeepsTimed(cfg, clock, db, next, token, now);
    case PurgeTokens(olderThan) => PurgeKeepsTimed(cfg, clock, db, if olderThan.Some? then olderThan.value else now, now);
    case _ =>
      PlainRequestKeepsLinks(cfg, db, next, request, now);
      RevokingKeepsTimed(cfg, clock, db, Serve(cfg, db, next, request, now).committed, now);
      RevokingKeepsTimed(cfg, clock, db, Serve(cfg, db, next, request, now).working, now);
  }

  lemma {:induction false} RunKeepsSteady(cfg: Config, clock: Time, w: World, events: seq<Event>) returns (end: Time)
    requires Valid(w) && Steady(cfg, clock, w.db) && InOrder(cfg, clock, events)
    ensures end == if events == [] then clock else events[|events| - 1].now
    ensures Steady(cfg, end, Run(w, events).db) && Valid(Run(w, events))
    decreases |events|
  {
    end := clock;
    if events != [] {
      var e := events[0];
      ServeKeepsTimed(cfg, clock, w.db, w.next, e.request, e.now);
      ServeKeepsChain(cfg, w.db, w.next, e.request, e.now);
      StepKeepsValid(w, e);
      end := RunKeepsSteady(cfg, e.now, Step(w, e), events[1..]);
    }
  }

  lemma WindowWithinLifetime(cfg: Config)
    requires cfg.Coherent()
    ensures cfg.IdleWindow() <= cfg.Lifetime()
  {
    assert cfg.Lifetime() == (cfg.refreshDays * 1440) * MINUTE;
  }

  lemma AcceptedWhenSteady(clock: Time, w: World, e: Event)
    requires e.cfg.Coherent() && Steady(e.cfg, clock, w.db) && e.request.Refresh?
    ensures var t := e.request.token;
            Respond(w, e).Tokens? <==>
              && t in w.db.refresh && w.db.refresh[t].revokedAt.None?
              && e.now - w.db.refresh[t].lastUsedAt < e.cfg.IdleWindow()
              && w.db.refresh[t].user in w.db.users && w.db.users[w.db.refresh[t].user].active
  {
    WindowWithinLifetime(e.cfg);
  }

  /** Under a configuration the validator accepts, absolute expiry never decides: a token is
      accepted exactly when it is unrevoked, inside the idle window, and its account active. */
  lemma AcceptedExactly(cfg: Config, clock: Time, history: seq<Event>, e: Event)
    requires cfg.Coherent() && InOrder(cfg, clock, history + [e]) && e.request.Refresh?
    ensures var w := Run(EMPTY, history);
            var t := e.request.token;
            Respond(w, e).Tokens? <==>
              && t in w.db.refresh && w.db.refresh[t].revokedAt.None?
              && e.now - w.db.refresh[t].lastUsedAt < cfg.IdleWindow()
              && w.db.refresh[t].user in w.db.users && w.db.users[w.db.refresh[t].user].active
  {
    InOrderPrefix(cfg, clock, history, e);
    var end := RunKeepsSteady(cfg, clock, EMPTY, history);
    AcceptedWhenSteady(end, Run(EMPTY, history), e);
  }

  lemma {:induction false} InOrderPrefix(cfg: Config, clock: Time, history: seq<Event>, e: Event)
    requires InOrder(cfg, clock, history + [e])
    ensures InOrder(cfg, clock, history) && e.cfg == cfg
    decreases |history|
  {
    if history == [] {
      assert ([] + [e])[0] == e;
    } else {
      assert (history + [e])[1..] == history[1..] + [e];
      InOrderPrefix(cfg, history[0].now, history[1..], e);
    }
  }

  ghost predicate IdleIfExpired(cfg: Config, issued: Time, now: Time) {
    now >= issued + cfg.Lifetime() ==> now - issued >= cfg.IdleWindow()
  }

  /** The validator's upper bound is exactly what makes this true: with a wider idle window
      some instant is past a token's expiry while the token is not idle. */
  lemma BoundIsExact(cfg: Config)
    ensures cfg.idleMinutes <= cfg.refreshDays * 1440 <==> forall issued: Time, now: Time :: IdleIfExpired(cfg, issued, now)
  {
    assert cfg.Lifetime() == (cfg.refreshDays * 1440) * MINUTE;
    if cfg.idleMinutes > cfg.refreshDays * 1440 {
      assert !IdleIfExpired(cfg, 0, cfg.Lifetime());
    }
  }

  ghost predicate AwakeWhileAccess(cfg: Config, issued: Time, now: Time) {
    now < issued + cfg.accessMinutes * MINUTE ==> now - issued < cfg.idleMinutes * MINUTE
  }

  /** The validator accepts exactly the settings under which a session is never idle while its
      access token is good, and always idle once its refresh token has expired. */
  lemma CoherentExactly(cfg: Config)
    ensures cfg.Coherent() <==>
              && (forall issued: Time, now: Time :: AwakeWhileAccess(cfg, issued, now))
              && (forall issued: Time, now: Time :: IdleIfExpired(cfg, issued, now))
  {
    BoundIsExact(cfg);
    if cfg.accessMinutes > cfg.idleMinutes {
      assert !AwakeWhileAccess(cfg, 0, cfg.accessMinutes * MINUTE - 1);
    }
  }

  /** A purge up to `cutoff` never changes the answer any refresh gets at or after it. */
  lemma PurgeIsHarmless(w: World, cutoff: Time, e: Event)
    requires e.request.Refresh? && cutoff <= e.now
    ensures var purged := World(PurgeRefresh(w.db, cutoff), w.next);
            Respond(purged, e).Tokens? <==> Respond(w, e).Tokens?
  {
  }

  /** A row such a purge deletes could not have been accepted at or after the cutoff anyway,
      whatever had happened in the meantime had it been kept. */
  lemma PurgedWasWorthless(w: World, cutoff: Time, events: seq<Event>, e: Event)
    requires Valid(w) && e.request.Refresh? && cutoff <= e.now
    requires e.request.token in w.db.refresh && e.request.token !in PurgeRefresh(w.db, cutoff).refresh
    ensures !Respond(Run(w, events), e).Tokens?
  {
    RunKeepsIdentity(w, events, e.request.token);
  }
}
