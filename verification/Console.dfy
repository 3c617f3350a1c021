/** The web console's login, lockout and session rows.

    A handler is one atomic step with one clock reading.  Times and durations are integers of one
    unit; the stored RFC 3339 strings of one offset sort as the times they denote. */
module Console {
  import opened Options

  type Time = int

  datatype Config = Config(
    secretSet: bool,
    maxAttempts: int,
    lockout: int,
    sessionTtl: int,
    idleTimeout: int,
    verify: (string, string) -> bool)

  datatype Attempt = Attempt(username: string, ip: Option<string>, at: Time)

  datatype User = User(disabled: bool, passwordHash: Option<string>, lockedUntil: Option<Time>, lastLogin: Option<Time>)

  datatype Session = Session(user: string, expiresAt: Time, lastSeenAt: Time, csrf: Option<string>)

  datatype Db = Db(users: map<string, User>, attempts: seq<Attempt>, sessions: map<string, Session>)

  // ----- Login attempts

  function CountByUser(attempts: seq<Attempt>, username: string, since: Time): nat {
    if attempts == [] then 0
    else CountByUser(attempts[1..], username, since) +
         (if attempts[0].username == username && attempts[0].at > since then 1 else 0)
  }

  function CountByIp(attempts: seq<Attempt>, ip: string, since: Time): nat {
    if attempts == [] then 0
    else CountByIp(attempts[1..], ip, since) +
         (if attempts[0].ip == Some(ip) && attempts[0].at > since then 1 else 0)
  }

  /** DELETE ... WHERE username = ? */
  function Without(attempts: seq<Attempt>, username: string): seq<Attempt> {
    if attempts == [] then []
    else (if attempts[0].username == username then [] else [attempts[0]]) + Without(attempts[1..], username)
  }

  /** DELETE ... WHERE attempted_at < ? */
  function From(attempts: seq<Attempt>, cutoff: Time): seq<Attempt> {
    if attempts == [] then []
    else (if attempts[0].at < cutoff then [] else [attempts[0]]) + From(attempts[1..], cutoff)
  }

  // ----- Login

  datatype LoginRequest = LoginRequest(username: string, password: string, ip: Option<string>, sessionId: string, csrf: string)

  datatype LoginReply =
    | Unavailable
    | TooManyFromIp
    | InvalidCredentials
    | AccountLocked
    | AccountDisabled
    | SessionCreationFailed
    | LoggedIn

  datatype LoginResult = LoginResult(db: Db, reply: LoginReply)

  predicate IpBlocked(cfg: Config, db: Db, ip: Option<string>, now: Time) {
    ip.Some? && CountByIp(db.attempts, ip.value, now - cfg.lockout) >= cfg.maxAttempts
  }

  predicate Locked(user: User, now: Time) {
    user.lockedUntil.Some? && now < user.lockedUntil.value
  }

  /** The login gets as far as comparing the password with the stored hash. */
  predicate ReachesCheck(cfg: Config, db: Db, r: LoginRequest, now: Time) {
    && cfg.secretSet
    && !IpBlocked(cfg, db, r.ip, now)
    && r.username in db.users
    && !Locked(db.users[r.username], now)
    && !db.users[r.username].disabled
    && db.users[r.username].passwordHash.Some?
  }

  predicate PasswordOk(cfg: Config, db: Db, r: LoginRequest)
    requires r.username in db.users && db.users[r.username].passwordHash.Some?
  {
    cfg.verify(r.password, db.users[r.username].passwordHash.value)
  }

  predicate FailsCheck(cfg: Config, db: Db, r: LoginRequest, now: Time) {
    ReachesCheck(cfg, db, r, now) && !PasswordOk(cfg, db, r)
  }

  predicate PassesCheck(cfg: Config, db: Db, r: LoginRequest, now: Time) {
    ReachesCheck(cfg, db, r, now) && PasswordOk(cfg, db, r)
  }

  function Record(db: Db, r: LoginRequest, now: Time): Db {
    db.(attempts := db.attempts + [Attempt(r.username, r.ip, now)])
  }

  function SetLock(db: Db, username: string, until: Option<Time>): Db
    requires username in db.users
  {
    db.(users := db.users[username := db.users[username].(lockedUntil := until)])
  }

  function SetLastLogin(db: Db, username: string, now: Time): Db
    requires username in db.users
  {
    db.(users := db.users[username := db.users[username].(lastLogin := Some(now))])
  }

  function WrongPassword(cfg: Config, db: Db, r: LoginRequest, now: Time): LoginResult
    requires r.username in db.users
  {
    var recorded := Record(db, r, now);
    if CountByUser(recorded.attempts, r.username, now - cfg.lockout) >= cfg.maxAttempts then
      LoginResult(SetLock(recorded, r.username, Some(now + cfg.lockout)), AccountLocked)
    else
      LoginResult(recorded, InvalidCredentials)
  }

  function RightPassword(cfg: Config, db: Db, r: LoginRequest, now: Time): LoginResult
    requires r.username in db.users
  {
    var unlocked := SetLock(db.(attempts := Without(db.attempts, r.username)), r.username, None);
    var cleared := SetLastLogin(unlocked, r.username, now);
    if r.sessionId in cleared.sessions then LoginResult(cleared, SessionCreationFailed)
    else
      var session := Session(r.username, now + cfg.sessionTtl, now, Some(r.csrf));
      LoginResult(cleared.(sessions := cleared.sessions[r.sessionId := session]), LoggedIn)
  }

  function Login(cfg: Config, db: Db, r: LoginRequest, now: Time): LoginResult {
    if !cfg.secretSet then LoginResult(db, Unavailable)
    else if IpBlocked(cfg, db, r.ip, now) then LoginResult(db, TooManyFromIp)
    else if r.username !in db.users then LoginResult(Record(db, r, now), InvalidCredentials)
    else if Locked(db.users[r.username], now) then LoginResult(db, AccountLocked)
    else if db.users[r.username].disabled then LoginResult(db, AccountDisabled)
    else if db.users[r.username].passwordHash.None? then LoginResult(Record(db, r, now), InvalidCredentials)
    else if PasswordOk(cfg, db, r) then RightPassword(cfg, db, r, now)
    else WrongPassword(cfg, db, r, now)
  }

  // ----- Sessions

  datatype AuthReply =
    | SessionExpired
    | UserNotFound
    | UserDisabled
    | CsrfMissingFromSession
    | CsrfMissing
    | CsrfMismatch
    | Accepted(username: string)

  datatype AuthResult = AuthResult(db: Db, reply: AuthReply)

  predicate Dead(cfg: Config, s: Session, now: Time) {
    now > s.expiresAt || s.lastSeenAt < now - cfg.idleTimeout
  }

  /** The part both extractors share: expiry, idle timeout, touch, user lookup. */
  function Authenticate(cfg: Config, db: Db, sid: string, now: Time): AuthResult {
    if sid !in db.sessions then AuthResult(db, SessionExpired)
    else if Dead(cfg, db.sessions[sid], now) then AuthResult(db.(sessions := db.sessions - {sid}), SessionExpired)
    else
      var s := db.sessions[sid];
      var touched := db.(sessions := db.sessions[sid := s.(lastSeenAt := now)]);
      if s.user !in db.users then AuthResult(touched, UserNotFound)
      else if db.users[s.user].disabled then AuthResult(touched, UserDisabled)
      else AuthResult(touched, Accepted(s.user))
  }

  /** What a mutating handler may do once it is let in. */
  datatype Action =
    | RotateCsrf(token: string)
    | CloseSessions(user: string)
    | SetDisabled(user: string, disabled: bool)
    | CreateUser(user: string, hash: string)
    | ResetPassword(user: string, hash: string)

  function CloseAll(db: Db, user: string): Db {
    db.(sessions := map k | k in db.sessions && db.sessions[k].user != user :: db.sessions[k])
  }

  function Perform(db: Db, sid: string, a: Action): Db {
    match a
    case RotateCsrf(token) =>
      if sid in db.sessions then db.(sessions := db.sessions[sid := db.sessions[sid].(csrf := Some(token))]) else db
    case CloseSessions(user) => CloseAll(db, user)
    case SetDisabled(user, disabled) =>
      if user in db.users then db.(users := db.users[user := db.users[user].(disabled := disabled)]) else db
    case CreateUser(user, hash) =>
      if user in db.users then db else db.(users := db.users[user := User(false, Some(hash), None, None)])
    case ResetPassword(user, hash) =>
      if user in db.users then
        CloseAll(db.(users := db.users[user := db.users[user].(passwordHash := Some(hash))]), user)
      else db
  }

  function Mutate(cfg: Config, db: Db, sid: string, header: Option<string>, a: Action, now: Time): AuthResult {
    var auth := Authenticate(cfg, db, sid, now);
    if !auth.reply.Accepted? then auth
    else
      var stored := db.sessions[sid].csrf;
      if stored.None? then AuthResult(auth.db, CsrfMissingFromSession)
      else if header.None? then AuthResult(auth.db, CsrfMissing)
      else if header != stored then AuthResult(auth.db, CsrfMismatch)
      else AuthResult(Perform(auth.db, sid, a), auth.reply)
  }

  // ----- The background pruning

  function PruneExpired(db: Db, now: Time): Db {
    db.(sessions := map k | k in db.sessions && !(db.sessions[k].expiresAt < now) :: db.sessions[k])
  }

  function PruneIdle(cfg: Config, db: Db, now: Time): Db {
    db.(sessions := map k | k in db.sessions && !(db.sessions[k].lastSeenAt < now - cfg.idleTimeout) :: db.sessions[k])
  }

  function PruneAttempts(cfg: Config, db: Db, now: Time): Db {
    db.(attempts := From(db.attempts, now - cfg.lockout * 2))
  }

  // ----- The handlers as they are programmed

  class ConsoleDb {
    var users: map<string, User>
    var attempts: seq<Attempt>
    var sessions: map<string, Session>
    const cfg: Config

    constructor (cfg: Config, users: map<string, User>)
      ensures this.cfg == cfg && State() == Db(users, [], map[])
    {
      this.cfg, this.users := cfg, users;
      attempts, sessions := [], map[];
    }

    function State(): Db
      reads this
    {
      Db(users, attempts, sessions)
    }

    method RecordLoginAttempt(username: string, ip: Option<string>, now: Time)
      modifies this`attempts
      ensures attempts == old(attempts) + [Attempt(username, ip, now)]
    {
      attempts := attempts + [Attempt(username, ip, now)];
    }

    method SetLockedUntil(username: string, until: Option<Time>)
      requires username in users
      modifies this`users
      ensures users == old(users)[username := old(users)[username].(lockedUntil := until)]
    {
      users := users[username := users[username].(lockedUntil := until)];
    }

    method ApiLogin(r: LoginRequest, now: Time) returns (reply: LoginReply)
      modifies this
      ensures LoginResult(State(), reply) == Login(cfg, old(State()), r, now)
    {
      if !cfg.secretSet {
        return Unavailable;
      }
      if r.ip.Some? {
        var ipCount := CountByIp(attempts, r.ip.value, now - cfg.lockout);
        if ipCount >= cfg.maxAttempts {
          return TooManyFromIp;
        }
      }
      if r.username !in users {
        RecordLoginAttempt(r.username, r.ip, now);
        return InvalidCredentials;
      }
      var user := users[r.username];
      if user.lockedUntil.Some? && now < user.lockedUntil.value {
        return AccountLocked;
      }
      if user.disabled {
        return AccountDisabled;
      }
      if user.passwordHash.None? {
        RecordLoginAttempt(r.username, r.ip, now);
        return InvalidCredentials;
      }
      if !cfg.verify(r.password, user.passwordHash.value) {
        RecordLoginAttempt(r.username, r.ip, now);
        var count := CountByUser(attempts, r.username, now - cfg.lockout);
        if count >= cfg.maxAttempts {
          SetLockedUntil(r.username, Some(now + cfg.lockout));
          return AccountLocked;
        }
        return InvalidCredentials;
      }
      attempts := Without(attempts, r.username);
      SetLockedUntil(r.username, None);
      users := users[r.username := users[r.username].(lastLogin := Some(now))];
      if r.sessionId in sessions {
        return SessionCreationFailed;
      }
      sessions := sessions[r.sessionId := Session(r.username, now + cfg.sessionTtl, now, Some(r.csrf))];
      return LoggedIn;
    }

    method CurrentUser(sid: string, now: Time) returns (reply: AuthReply)
      modifies this`sessions
      ensures AuthResult(State(), reply) == Authenticate(cfg, old(State()), sid, now)
    {
      if sid !in sessions {
        return SessionExpired;
      }
      var session := sessions[sid];
      if now > session.expiresAt {
        sessions := sessions - {sid};
        return SessionExpired;
      }
      if session.lastSeenAt < now - cfg.idleTimeout {
        sessions := sessions - {sid};
        return SessionExpired;
      }
      sessions := sessions[sid := session.(lastSeenAt := now)];
      if session.user !in users {
        return UserNotFound;
      }
      if users[session.user].disabled {
        return UserDisabled;
      }
      return Accepted(session.user);
    }

    method MutatingUser(sid: string, header: Option<string>, a: Action, now: Time) returns (reply: AuthReply)
      modifies this
      ensures AuthResult(State(), reply) == Mutate(cfg, old(State()), sid, header, a, now)
    {
      var stored := if sid in sessions then sessions[sid].csrf else None;
      reply := CurrentUser(sid, now);
      if !reply.Accepted? {
        return;
      }
      if stored.None? {
        return CsrfMissingFromSession;
      }
      if header.None? {
        return CsrfMissing;
      }
      if header.value != stored.value {
        return CsrfMismatch;
      }
      var db := Perform(State(), sid, a);
      users, attempts, sessions := db.users, db.attempts, db.sessions;
    }

    /** One round of background pruning. */
    method PruneRound(now: Time)
      modifies this
      ensures State() == PruneAttempts(cfg, PruneIdle(cfg, PruneExpired(old(State()), now), now), now)
    {
      sessions := map k | k in sessions && !(sessions[k].expiresAt < now) :: sessions[k];
      sessions := map k | k in sessions && !(sessions[k].lastSeenAt < now - cfg.idleTimeout) :: sessions[k];
      attempts := From(attempts, now - cfg.lockout * 2);
    }
  }
}
