/** The authentication service, statement by statement, over a session that can commit early.

    `committed` is what every other session sees, `working` what the current request sees.
    Handlers change `working`; only `EndFamily` and the session dependency touch `committed`. */
module Authentication {
  import opened Prelude
  import opened AuthStore

  class AuthService {
    var committed: Db
    var working: Db
    var next: nat

    constructor ()
      ensures World(committed, next) == EMPTY && working == committed
    {
      committed := EMPTY.db;
      working := EMPTY.db;
      next := 0;
    }

    ghost predicate Idle()
      reads this
    {
      working == committed
    }

    /** What the session holds, as the specification's value. */
    ghost function State(response: Response): Session
      reads this
    {
      Session(committed, working, next, response)
    }

    method FreshId() returns (id: nat)
      modifies this`next
      ensures id == old(next) && next == old(next) + 1
    {
      id := next;
      next := next + 1;
    }

    method Commit()
      modifies this`committed
      ensures committed == working
    {
      committed := working;
    }

    method Rollback()
      modifies this`working
      ensures working == committed
    {
      working := committed;
    }

    method IssueTokenPair(cfg: Config, user: nat, family: nat, replacing: Option<nat>, now: Time) returns (token: nat)
      requires replacing.Some? ==> replacing.value in working.refresh
      modifies this`working, this`next
      ensures token == old(next) && next == old(next) + 1
      ensures var issued := IssueRefresh(cfg, old(working), token, user, family, now);
              working == if replacing.Some? then Revoke(issued, replacing.value, Some(token), now) else issued
    {
      token := FreshId();
      // The insert reaches the table before the old row points at it.
      working := IssueRefresh(cfg, working, token, user, family, now);
      if replacing.Some? {
        working := Revoke(working, replacing.value, Some(token), now);
      }
    }

    method IssueVerificationToken(cfg: Config, user: nat, purpose: Purpose, now: Time)
      modifies this`working, this`next
      ensures working == IssueLink(old(working), old(next), user, purpose, now + VerificationTtl(cfg, purpose), now)
      ensures next == old(next) + 1
    {
      working := InvalidateOutstanding(working, user, purpose, now);
      var id := FreshId();
      working := AddVerification(working, id, user, purpose, now + VerificationTtl(cfg, purpose));
    }

    /** Marks the token used before the caller has looked at the account. */
    method ConsumeVerificationToken(token: nat, purpose: Purpose, now: Time) returns (r: Result<VerificationToken, Error>)
      modifies this`working
      ensures LinkWorks(old(working), token, purpose, now) ==>
                working == MarkUsed(old(working), token, now) && r == Ok(working.verification[token])
      ensures !LinkWorks(old(working), token, purpose, now) ==> working == old(working) && r == Err(InvalidToken)
    {
      if token !in working.verification {
        return Err(InvalidToken);
      }
      var stored := working.verification[token];
      if stored.purpose != purpose {
        return Err(InvalidToken);
      }
      if !stored.IsUsable(now) {
        return Err(InvalidToken);
      }
      working := MarkUsed(working, token, now);
      return Ok(working.verification[token]);
    }

    /** Revokes the family and commits, so that it survives the caller's raise. */
    method EndFamily(family: nat, now: Time)
      modifies this`working, this`committed
      ensures working == RevokeFamily(old(working), family, now) && committed == working
    {
      working := RevokeFamily(working, family, now);
      Commit();
    }

    method Register(cfg: Config, email: string, password: string, now: Time) returns (r: Response)
      requires Idle()
      modifies this
      ensures State(r) == RegisterSession(cfg, old(working), old(next), email, password, now)
    {
      if email in working.emails {
        return Failed(RegistrationFailed);
      }
      var user := FreshId();
      working := working.(users := working.users[user := User(Some(password), true, None)],
                          emails := working.emails[email := user]);
      var family := FreshId();
      var token := IssueTokenPair(cfg, user, family, None, now);
      IssueVerificationToken(cfg, user, EmailVerification, now);
      r := Tokens(user, token);
    }

    method Login(cfg: Config, email: string, password: string, now: Time) returns (r: Response)
      requires Idle()
      modifies this
      ensures State(r) == LoginSession(cfg, old(working), old(next), email, password, now)
    {
      if email !in working.emails || working.emails[email] !in working.users {
        return Failed(AuthenticationFailed);
      }
      var user := working.emails[email];
      if working.users[user].password != Some(password) {
        return Failed(AuthenticationFailed);
      }
      if !working.users[user].active {
        return Failed(AuthenticationFailed);
      }
      var family := FreshId();
      var token := IssueTokenPair(cfg, user, family, None, now);
      r := Tokens(user, token);
    }

    method Refresh(cfg: Config, token: nat, now: Time) returns (r: Response)
      requires Idle()
      modifies this
      ensures State(r) == RefreshSession(cfg, old(working), old(next), token, now)
    {
      if token !in working.refresh {
        return Failed(InvalidToken);
      }
      var stored := working.refresh[token];
      if stored.IsRevoked() {
        EndFamily(stored.family, now);
        return Failed(TokenReuse);
      }
      if stored.IsExpired(now) {
        return Failed(InvalidToken);
      }
      if stored.IsIdle(cfg.IdleWindow(), now) {
        EndFamily(stored.family, now);
        return Failed(SessionIdle);
      }
      if stored.user !in working.users || !working.users[stored.user].active {
        return Failed(InvalidToken);
      }
      var issued := IssueTokenPair(cfg, stored.user, stored.family, Some(token), now);
      r := Tokens(stored.user, issued);
    }

    method Logout(token: nat, now: Time) returns (r: Response)
      requires Idle()
      modifies this
      ensures State(r) == LogoutSession(old(working), old(next), token, now)
    {
      if token in working.refresh && !working.refresh[token].IsRevoked() {
        working := Revoke(working, token, None, now);
      }
      r := Done;
    }

    method ChangePassword(user: nat, current: string, replacement: string, now: Time) returns (r: Response)
      requires Idle()
      modifies this
      ensures State(r) == ChangePasswordSession(old(working), old(next), user, current, replacement, now)
    {
      // The caller comes from an access token, which names an active account.
      if user !in working.users || !working.users[user].active {
        return Failed(AuthenticationFailed);
      }
      if working.users[user].password != Some(current) {
        return Failed(AuthenticationFailed);
      }
      working := SetPassword(working, user, replacement);
      working := RevokeAllForUser(working, user, now);
      r := Done;
    }

    method RequestPasswordReset(cfg: Config, email: string, now: Time) returns (r: Response)
      requires Idle()
      modifies this
      ensures State(r) == RequestResetSession(cfg, old(working), old(next), email, now)
    {
      r := Done;
      if email !in working.emails || working.emails[email] !in working.users {
        return;
      }
      var user := working.emails[email];
      if !working.users[user].active {
        return;
      }
      if working.users[user].password.None? {
        return;
      }
      IssueVerificationToken(cfg, user, PasswordReset, now);
    }

    method ResetPassword(token: nat, replacement: string, now: Time) returns (r: Response)
      requires Idle()
      modifies this
      ensures State(r) == ResetPasswordSession(old(working), old(next), token, replacement, now)
    {
      var consumed := ConsumeVerificationToken(token, PasswordReset, now);
      if consumed.Err? {
        return Failed(consumed.error);
      }
      var user := consumed.value.user;
      if user !in working.users || !working.users[user].active {
        return Failed(InvalidToken);
      }
      working := SetPassword(working, user, replacement);
      working := RevokeAllForUser(working, user, now);
      working := ConfirmEmail(working, user, now);
      r := Done;
    }

    method VerifyEmail(token: nat, now: Time) returns (r: Response)
      requires Idle()
      modifies this
      ensures State(r) == VerifyEmailSession(old(working), old(next), token, now)
    {
      var consumed := ConsumeVerificationToken(token, EmailVerification, now);
      if consumed.Err? {
        return Failed(consumed.error);
      }
      var user := consumed.value.user;
      if user !in working.users {
        return Failed(InvalidToken);
      }
      working := ConfirmEmail(working, user, now);
      r := Done;
    }

    method ResendVerification(cfg: Config, user: nat, now: Time) returns (r: Response)
      requires Idle()
      modifies this
      ensures State(r) == ResendSession(cfg, old(working), old(next), user, now)
    {
      if user !in working.users || !working.users[user].active {
        return Failed(AuthenticationFailed);
      }
      r := Done;
      if working.users[user].emailVerifiedAt.Some? {
        return;
      }
      IssueVerificationToken(cfg, user, EmailVerification, now);
    }

    method Dispatch(cfg: Config, request: Request, now: Time) returns (r: Response)
      requires Idle()
      modifies this
      ensures State(r) == Serve(cfg, old(working), old(next), request, now)
    {
      match request
      case Register(email, password) => r := Register(cfg, email, password, now);
      case Login(email, password) => r := Login(cfg, email, password, now);
      case Refresh(token) => r := Refresh(cfg, token, now);
      case Logout(token) => r := Logout(token, now);
      case ChangePassword(user, current, replacement) => r := ChangePassword(user, current, replacement, now);
      case RequestReset(email) => r := RequestPasswordReset(cfg, email, now);
      case ResetPassword(token, replacement) => r := ResetPassword(token, replacement, now);
      case VerifyEmail(token) => r := VerifyEmail(token, now);
      case ResendVerification(user) => r := ResendVerification(cfg, user, now);
      case PurgeTokens(olderThan) =>
        working := PurgeRefresh(working, if olderThan.Some? then olderThan.value else now);
        r := Done;
      case PurgeLinks(olderThan) =>
        working := PurgeVerification(working, if olderThan.Some? then olderThan.value else now);
        r := Done;
      case SetActive(user, active) =>
        if user in working.users {
          working := working.(users := working.users[user := working.users[user].(active := active)]);
        }
        r := Done;
    }

    /** One request inside the session dependency: commit on return, roll back on a raise. */
    method Handle(e: Event) returns (r: Response)
      requires Idle()
      modifies this
      ensures Idle() && World(committed, next) == Step(World(old(committed), old(next)), e)
      ensures r == Respond(World(old(committed), old(next)), e)
    {
      r := Dispatch(e.cfg, e.request, e.now);
      if r.Failed? || e.failsLate {
        Rollback();
      } else {
        Commit();
      }
    }

    /** Any number of requests, one at a time. */
    method HandleAll(events: seq<Event>) returns (responses: seq<Response>)
      requires Idle()
      modifies this
      ensures Idle() && World(committed, next) == Run(World(old(committed), old(next)), events)
      ensures Answers(World(old(committed), old(next)), events, responses)
    {
      ghost var start := World(committed, next);
      responses := [];
      for i := 0 to |events|
        invariant Idle() && World(committed, next) == Run(start, events[..i])
        invariant Answers(start, events[..i], responses)
      {
        var r := Handle(events[i]);
        RunSnoc(start, events[..i], events[i]);
        AnswersSnoc(start, events[..i], responses, events[i], r);
        responses := responses + [r];
        assert events[..i + 1] == events[..i] + [events[i]];
      }
      assert events[..|events|] == events;
    }
  }

  /** Each request is answered in the state the ones before it left. */
  ghost predicate Answers(w: World, events: seq<Event>, responses: seq<Response>) {
    |responses| == |events| && forall i | 0 <= i < |events| :: responses[i] == Respond(Run(w, events[..i]), events[i])
  }

  lemma AnswersSnoc(w: World, events: seq<Event>, responses: seq<Response>, e: Event, r: Response)
    requires Answers(w, events, responses) && r == Respond(Run(w, events), e)
    ensures Answers(w, events + [e], responses + [r])
  {
    assert (events + [e])[..|events|] == events;
    assert forall i | 0 <= i < |events| :: (events + [e])[..i] == events[..i];
  }

  lemma {:induction false} RunSnoc(w: World, events: seq<Event>, e: Event)
    ensures Run(w, events + [e]) == Step(Run(w, events), e)
    decreases |events|
  {
    if events == [] {
      assert Run(Step(w, e), []) == Step(w, e);
    } else {
      assert (events + [e])[1..] == events[1..] + [e];
      RunSnoc(Step(w, events[0]), events[1..], e);
    }
  }
}
