/** The tables the authentication service works on, the configuration it reads, and what
    each repository statement does to the tables.

    The tables are maps keyed by row id. A refresh or verification token is presented as a
    plaintext whose hash is looked up in a unique column; hash, plaintext and row id are all
    fresh when the row is issued, so one number names all three. */
module AuthStore {
  import opened Prelude

  /** Instants and durations, in the microseconds a datetime counts. */
  type Time = int

  const MINUTE: Time := 60_000_000
  const DAY: Time := 1440 * MINUTE

  datatype Purpose = EmailVerification | PasswordReset

  datatype User = User(password: Option<string>, active: bool, emailVerifiedAt: Option<Time>)

  datatype RefreshToken = RefreshToken(
    user: nat,
    family: nat,
    expiresAt: Time,
    lastUsedAt: Time,
    revokedAt: Option<Time>,
    replacedBy: Option<nat>)
  {
    predicate IsRevoked() {
      revokedAt.Some?
    }

    predicate IsExpired(now: Time) {
      now >= expiresAt
    }

    predicate IsIdle(timeout: Time, now: Time) {
      now - lastUsedAt >= timeout
    }
  }

  datatype VerificationToken = VerificationToken(
    user: nat,
    purpose: Purpose,
    expiresAt: Time,
    usedAt: Option<Time>)
  {
    predicate IsUsed() {
      usedAt.Some?
    }

    predicate IsUsable(now: Time) {
      !IsUsed() && now < expiresAt
    }
  }

  /** `emails` is the unique index from a (case-folded) address to its account. */
  datatype Db = Db(
    users: map<nat, User>,
    emails: map<string, nat>,
    refresh: map<nat, RefreshToken>,
    verification: map<nat, VerificationToken>)

  datatype Config = Config(
    accessMinutes: int,
    refreshDays: int,
    idleMinutes: int,
    resetMinutes: int,
    verificationHours: int)
  {
    function Lifetime(): Time {
      refreshDays * DAY
    }

    function IdleWindow(): Time {
      idleMinutes * MINUTE
    }

    /** What the settings validator accepts. */
    predicate Coherent() {
      accessMinutes <= idleMinutes <= refreshDays * 1440
    }
  }

  // ---------------------------------------------------------------- refresh tokens

  /** UPDATE ... SET revoked_at WHERE family_id = family AND revoked_at IS NULL */
  function RevokeFamily(db: Db, family: nat, now: Time): Db {
    db.(refresh := map t | t in db.refresh ::
      if db.refresh[t].family == family && !db.refresh[t].IsRevoked()
      then db.refresh[t].(revokedAt := Some(now)) else db.refresh[t])
  }

  /** UPDATE ... SET revoked_at WHERE user_id = user AND revoked_at IS NULL */
  function RevokeAllForUser(db: Db, user: nat, now: Time): Db {
    db.(refresh := map t | t in db.refresh ::
      if db.refresh[t].user == user && !db.refresh[t].IsRevoked()
      then db.refresh[t].(revokedAt := Some(now)) else db.refresh[t])
  }

  function Revoke(db: Db, token: nat, replacedBy: Option<nat>, now: Time): Db
    requires token in db.refresh
  {
    var row := db.refresh[token].(revokedAt := Some(now));
    db.(refresh := db.refresh[token := if replacedBy.Some? then row.(replacedBy := replacedBy) else row])
  }

  function IssueRefresh(cfg: Config, db: Db, id: nat, user: nat, family: nat, now: Time): Db {
    db.(refresh := db.refresh[id := RefreshToken(user, family, now + cfg.Lifetime(), now, None, None)])
  }

  /** DELETE WHERE expires_at < cutoff. The foreign key on replaced_by_id is ON DELETE SET NULL. */
  function PurgeRefresh(db: Db, cutoff: Time): Db {
    var kept := map t | t in db.refresh && db.refresh[t].expiresAt >= cutoff :: db.refresh[t];
    db.(refresh := map t | t in kept ::
      if kept[t].replacedBy.Some? && kept[t].replacedBy.value !in kept
      then kept[t].(replacedBy := None) else kept[t])
  }

  // ---------------------------------------------------------------- verification tokens

  /** UPDATE ... SET used_at WHERE user_id AND purpose match AND used_at IS NULL */
  function InvalidateOutstanding(db: Db, user: nat, purpose: Purpose, now: Time): Db {
    db.(verification := map v | v in db.verification ::
      if db.verification[v].user == user && db.verification[v].purpose == purpose && !db.verification[v].IsUsed()
      then db.verification[v].(usedAt := Some(now)) else db.verification[v])
  }

  function AddVerification(db: Db, id: nat, user: nat, purpose: Purpose, expiresAt: Time): Db {
    db.(verification := db.verification[id := VerificationToken(user, purpose, expiresAt, None)])
  }

  function MarkUsed(db: Db, token: nat, now: Time): Db
    requires token in db.verification
  {
    db.(verification := db.verification[token := db.verification[token].(usedAt := Some(now))])
  }

  function PurgeVerification(db: Db, cutoff: Time): Db {
    db.(verification := map v | v in db.verification && db.verification[v].expiresAt >= cutoff :: db.verification[v])
  }

  // ---------------------------------------------------------------- users

  function SetPassword(db: Db, user: nat, password: string): Db
    requires user in db.users
  {
    db.(users := db.users[user := db.users[user].(password := Some(password))])
  }

  function ConfirmEmail(db: Db, user: nat, now: Time): Db
    requires user in db.users
  {
    if db.users[user].emailVerifiedAt.Some? then db
    else db.(users := db.users[user := db.users[user].(emailVerifiedAt := Some(now))])
  }

  // ---------------------------------------------------------------- requests

  datatype Request =
    | Register(email: string, password: string)
    | Login(email: string, password: string)
    | Refresh(token: nat)
    | Logout(token: nat)
    | ChangePassword(user: nat, current: string, replacement: string)
    | RequestReset(email: string)
    | ResetPassword(token: nat, replacement: string)
    | VerifyEmail(token: nat)
    | ResendVerification(user: nat)
    | PurgeTokens(olderThan: Option<Time>)
    | PurgeLinks(olderThan: Option<Time>)
    | SetActive(user: nat, active: bool) // no code in the repository does this; an operator may

  datatype Error = AuthenticationFailed | InvalidToken | TokenReuse | SessionIdle | RegistrationFailed

  datatype Response = Tokens(user: nat, token: nat) | Done | Failed(error: Error)

  /** One request's database session when its handler finishes: what it has committed so far,
      what it sees itself, and the next fresh id. */
  datatype Session = Session(committed: Db, working: Db, next: nat, response: Response)

  function Begin(db: Db, next: nat, response: Response): Session {
    Session(db, db, next, response)
  }

  function SignIn(cfg: Config, db: Db, next: nat, user: nat, now: Time): Session
  {
    Session(db, IssueRefresh(cfg, db, next + 1, user, next, now), next + 2, Tokens(user, next + 1))
  }

  function IssueLink(db: Db, id: nat, user: nat, purpose: Purpose, expiresAt: Time, now: Time): Db {
    AddVerification(InvalidateOutstanding(db, user, purpose, now), id, user, purpose, expiresAt)
  }

  function VerificationTtl(cfg: Config, purpose: Purpose): Time {
    if purpose == EmailVerification then cfg.verificationHours * 60 * MINUTE else cfg.resetMinutes * MINUTE
  }

  function RegisterSession(cfg: Config, db: Db, next: nat, email: string, password: string, now: Time): Session {
    if email in db.emails then Begin(db, next, Failed(RegistrationFailed))
    else
      var user := next;
      var created := db.(users := db.users[user := User(Some(password), true, None)], emails := db.emails[email := user]);
      var signedIn := IssueRefresh(cfg, created, next + 2, user, next + 1, now);
      var linked := IssueLink(signedIn, next + 3, user, EmailVerification,
                              now + VerificationTtl(cfg, EmailVerification), now);
      Session(db, linked, next + 4, Tokens(user, next + 2))
  }

  function LoginSession(cfg: Config, db: Db, next: nat, email: string, password: string, now: Time): Session {
    if email !in db.emails || db.emails[email] !in db.users then Begin(db, next, Failed(AuthenticationFailed))
    else
      var user := db.users[db.emails[email]];
      if user.password == Some(password) && user.active then SignIn(cfg, db, next, db.emails[email], now)
      else Begin(db, next, Failed(AuthenticationFailed))
  }

  /** Ending a family commits before the handler raises. */
  function EndFamilySession(db: Db, next: nat, family: nat, now: Time, error: Error): Session {
    var ended := RevokeFamily(db, family, now);
    Session(ended, ended, next, Failed(error))
  }

  function RefreshSession(cfg: Config, db: Db, next: nat, token: nat, now: Time): Session {
    if token !in db.refresh then Begin(db, next, Failed(InvalidToken))
    else
      var stored := db.refresh[token];
      if stored.IsRevoked() then EndFamilySession(db, next, stored.family, now, TokenReuse)
      else if stored.IsExpired(now) then Begin(db, next, Failed(InvalidToken))
      else if stored.IsIdle(cfg.IdleWindow(), now) then EndFamilySession(db, next, stored.family, now, SessionIdle)
      else if stored.user !in db.users || !db.users[stored.user].active then Begin(db, next, Failed(InvalidToken))
      else
        var issued := IssueRefresh(cfg, db, next, stored.user, stored.family, now);
        Session(db, Revoke(issued, token, Some(next), now), next + 1, Tokens(stored.user, next))
  }

  function LogoutSession(db: Db, next: nat, token: nat, now: Time): Session {
    if token in db.refresh && !db.refresh[token].IsRevoked()
    then Session(db, Revoke(db, token, None, now), next, Done)
    else Begin(db, next, Done)
  }

  function ChangePasswordSession(db: Db, next: nat, user: nat, current: string, replacement: string, now: Time): Session {
    if user in db.users && db.users[user].active && db.users[user].password == Some(current)
    then Session(db, RevokeAllForUser(SetPassword(db, user, replacement), user, now), next, Done)
    else Begin(db, next, Failed(AuthenticationFailed))
  }

  function RequestResetSession(cfg: Config, db: Db, next: nat, email: string, now: Time): Session {
    if email in db.emails && db.emails[email] in db.users
       && db.users[db.emails[email]].active && db.users[db.emails[email]].password.Some?
    then Session(db, IssueLink(db, next, db.emails[email], PasswordReset, now + VerificationTtl(cfg, PasswordReset), now),
                 next + 1, Done)
    else Begin(db, next, Done)
  }

  predicate LinkWorks(db: Db, token: nat, purpose: Purpose, now: Time) {
    token in db.verification && db.verification[token].purpose == purpose && db.verification[token].IsUsable(now)
  }

  function ResetPasswordSession(db: Db, next: nat, token: nat, replacement: string, now: Time): Session {
    if !LinkWorks(db, token, PasswordReset, now) then Begin(db, next, Failed(InvalidToken))
    else
      var user := db.verification[token].user;
      var used := MarkUsed(db, token, now);
      if user !in db.users || !db.users[user].active then Session(db, used, next, Failed(InvalidToken))
      else Session(db, ConfirmEmail(RevokeAllForUser(SetPassword(used, user, replacement), user, now), user, now), next, Done)
  }

  function VerifyEmailSession(db: Db, next: nat, token: nat, now: Time): Session {
    if !LinkWorks(db, token, EmailVerification, now) then Begin(db, next, Failed(InvalidToken))
    else
      var user := db.verification[token].user;
      var used := MarkUsed(db, token, now);
      if user !in db.users then Session(db, used, next, Failed(InvalidToken))
      else Session(db, ConfirmEmail(used, user, now), next, Done)
  }

  function ResendSession(cfg: Config, db: Db, next: nat, user: nat, now: Time): Session {
    if user !in db.users || !db.users[user].active then Begin(db, next, Failed(AuthenticationFailed))
    else if db.users[user].emailVerifiedAt.Some? then Begin(db, next, Done)
    else Session(db, IssueLink(db, next, user, EmailVerification, now + VerificationTtl(cfg, EmailVerification), now),
                 next + 1, Done)
  }

  function Serve(cfg: Config, db: Db, next: nat, request: Request, now: Time): Session {
    match request
    case Register(email, password) => RegisterSession(cfg, db, next, email, password, now)
    case Login(email, password) => LoginSession(cfg, db, next, email, password, now)
    case Refresh(token) => RefreshSession(cfg, db, next, token, now)
    case Logout(token) => LogoutSession(db, next, token, now)
    case ChangePassword(user, current, replacement) => ChangePasswordSession(db, next, user, current, replacement, now)
    case RequestReset(email) => RequestResetSession(cfg, db, next, email, now)
    case ResetPassword(token, replacement) => ResetPasswordSession(db, next, token, replacement, now)
    case VerifyEmail(token) => VerifyEmailSession(db, next, token, now)
    case ResendVerification(user) => ResendSession(cfg, db, next, user, now)
    case PurgeTokens(olderThan) =>
      Session(db, PurgeRefresh(db, if olderThan.Some? then olderThan.value else now), next, Done)
    case PurgeLinks(olderThan) =>
      Session(db, PurgeVerification(db, if olderThan.Some? then olderThan.value else now), next, Done)
    case SetActive(user, active) =>
      if user in db.users then Session(db, db.(users := db.users[user := db.users[user].(active := active)]), next, Done)
      else Begin(db, next, Done)
  }

  // ---------------------------------------------------------------- runs

  /** The committed tables, and the next id nobody has ever been given. */
  datatype World = World(db: Db, next: nat)

  /** One request: the settings and the clock it reads, and whether something fails after the
      service has returned (serialising the response, say), which also rolls back. */
  datatype Event = Event(cfg: Config, request: Request, now: Time, failsLate: bool)

  function Respond(w: World, e: Event): Response {
    Serve(e.cfg, w.db, w.next, e.request, e.now).response
  }

  /** The session dependency: commit on a normal return, roll back on a raise. */
  function Step(w: World, e: Event): World {
    var s := Serve(e.cfg, w.db, w.next, e.request, e.now);
    World(if s.response.Failed? || e.failsLate then s.committed else s.working, s.next)
  }

  function Run(w: World, events: seq<Event>): World
    decreases |events|
  {
    if events == [] then w else Run(Step(w, events[0]), events[1..])
  }

  const EMPTY := World(Db(map[], map[], map[], map[]), 0)
}
