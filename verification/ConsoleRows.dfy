/** What the console's handlers decide and change, said of the rows, and what that means for runs: no
    access without a login, and no change of an account without the session's token. */
module ConsoleRows {
  import opened Seqs
  import opened Options
  import opened Console
  import opened ConsoleRuns

  // ----- Sessions

  /** The session exists, is not past its expiry and was seen within the idle timeout. */
  predicate Live(cfg: Config, db: Db, sid: string, now: Time) {
    sid in db.sessions && now <= db.sessions[sid].expiresAt && now - db.sessions[sid].lastSeenAt <= cfg.idleTimeout
  }

  /** The user of the session exists and is enabled. */
  predicate Enabled(db: Db, sid: string, u: string) {
    sid in db.sessions && db.sessions[sid].user == u && u in db.users && !db.users[u].disabled
  }

  /** A token is stored with the session and the header carries it. */
  predicate TokenShown(db: Db, sid: string, header: Option<string>) {
    sid in db.sessions && db.sessions[sid].csrf.Some? && header == db.sessions[sid].csrf
  }

  lemma VisitAccepts(cfg: Config, db: Db, sid: string, now: Time, u: string)
    ensures Authenticate(cfg, db, sid, now).reply == Accepted(u) <==> Live(cfg, db, sid, now) && Enabled(db, sid, u)
  {
  }

  /** A mutating request is let in exactly with a live session of an enabled user and its token. */
  lemma MutateAccepts(cfg: Config, db: Db, sid: string, header: Option<string>, a: Action, now: Time, u: string)
    ensures Mutate(cfg, db, sid, header, a, now).reply == Accepted(u) <==>
            Live(cfg, db, sid, now) && Enabled(db, sid, u) && TokenShown(db, sid, header)
  {
    VisitAccepts(cfg, db, sid, now, u);
  }

  /** What a request does to the rows whether or not it is let in: users and attempts stay, other
      sessions stay, and the session is touched if it is live and gone if it is not. */
  ghost predicate OnlyTouched(cfg: Config, db: Db, after: Db, sid: string, now: Time) {
    && after.users == db.users && after.attempts == db.attempts
    && (forall k | k != sid :: k in after.sessions <==> k in db.sessions)
    && (forall k | k in db.sessions && k != sid :: after.sessions[k] == db.sessions[k])
    && (sid in after.sessions <==> Live(cfg, db, sid, now))
    && (Live(cfg, db, sid, now) ==> after.sessions[sid] == db.sessions[sid].(lastSeenAt := now))
  }

  lemma VisitRows(cfg: Config, db: Db, sid: string, now: Time)
    ensures OnlyTouched(cfg, db, Authenticate(cfg, db, sid, now).db, sid, now)
  {
  }

  /** A mutating request that is not let in changes nothing else. */
  lemma RejectedRows(cfg: Config, db: Db, sid: string, header: Option<string>, a: Action, now: Time)
    requires !Mutate(cfg, db, sid, header, a, now).reply.Accepted?
    ensures OnlyTouched(cfg, db, Mutate(cfg, db, sid, header, a, now).db, sid, now)
  {
    VisitRows(cfg, db, sid, now);
  }

  /** The rejection names the first condition that failed. */
  lemma RejectedBecause(cfg: Config, db: Db, sid: string, header: Option<string>, a: Action, now: Time)
    ensures var r := Mutate(cfg, db, sid, header, a, now).reply;
            && (r == SessionExpired <==> !Live(cfg, db, sid, now))
            && (Live(cfg, db, sid, now) ==>
                var s := db.sessions[sid];
                && (r == UserNotFound <==> s.user !in db.users)
                && (r == UserDisabled <==> s.user in db.users && db.users[s.user].disabled)
                && (Enabled(db, sid, s.user) ==>
                    && (r == CsrfMissingFromSession <==> s.csrf.None?)
                    && (r == CsrfMissing <==> s.csrf.Some? && header.None?)
                    && (r == CsrfMismatch <==> s.csrf.Some? && header.Some? && header != s.csrf)))
  {
  }

  // ----- What an action does

  /** Exactly the sessions of `u` go. */
  ghost predicate SessionsClosed(before: map<string, Session>, after: map<string, Session>, u: string) {
    && (forall k :: k in after <==> k in before && before[k].user != u)
    && (forall k | k in after :: after[k] == before[k])
  }

  /** One user's row changes to `row`. */
  predicate RowSet(before: map<string, User>, after: map<string, User>, u: string, row: User) {
    && after.Keys == before.Keys + {u} && after[u] == row
    && (forall v | v in before && v != u :: after[v] == before[v])
  }

  ghost predicate ActionRows(db: Db, after: Db, sid: string, a: Action)
    requires sid in db.sessions
  {
    && after.attempts == db.attempts
    && match a
       case RotateCsrf(token) =>
         && after.users == db.users && after.sessions.Keys == db.sessions.Keys
         && after.sessions[sid] == db.sessions[sid].(csrf := Some(token))
         && (forall k | k in db.sessions && k != sid :: after.sessions[k] == db.sessions[k])
       case CloseSessions(u) => after.users == db.users && SessionsClosed(db.sessions, after.sessions, u)
       case SetDisabled(u, disabled) =>
         && after.sessions == db.sessions
         && (if u in db.users then RowSet(db.users, after.users, u, db.users[u].(disabled := disabled)) else after.users == db.users)
       case CreateUser(u, hash) =>
         && after.sessions == db.sessions
         && (if u in db.users then after.users == db.users
             else RowSet(db.users, after.users, u, User(false, Some(hash), None, None)))
       case ResetPassword(u, hash) =>
         if u in db.users then
           && RowSet(db.users, after.users, u, db.users[u].(passwordHash := Some(hash)))
           && SessionsClosed(db.sessions, after.sessions, u)
         else after == db
  }

  /** A mutating request that is let in touches its session and then does exactly its action. */
  lemma AcceptedRows(cfg: Config, db: Db, sid: string, header: Option<string>, a: Action, now: Time)
    requires Mutate(cfg, db, sid, header, a, now).reply.Accepted?
    ensures Live(cfg, db, sid, now)
    ensures var touched := db.(sessions := db.sessions[sid := db.sessions[sid].(lastSeenAt := now)]);
            ActionRows(touched, Mutate(cfg, db, sid, header, a, now).db, sid, a)
  {
  }

  // ----- Logins

  /** The rows that are wanted, by their index. */
  function Rows(attempts: seq<Attempt>, wanted: Attempt -> bool): set<int> {
    set i | 0 <= i < |attempts| && wanted(attempts[i])
  }

  /** The attempts under a name, and from an address, after `since`. */
  function ByUser(attempts: seq<Attempt>, u: string, since: Time): set<int> {
    Rows(attempts, (a: Attempt) => a.username == u && a.at > since)
  }

  function ByIp(attempts: seq<Attempt>, ip: string, since: Time): set<int> {
    Rows(attempts, (a: Attempt) => a.ip == Some(ip) && a.at > since)
  }

  lemma RowsSnoc(before: seq<Attempt>, a: Attempt, wanted: Attempt -> bool)
    ensures |Rows(before + [a], wanted)| == |Rows(before, wanted)| + (if wanted(a) then 1 else 0)
  {
    var n, all := |before|, before + [a];
    assert all[n] == a && forall i | 0 <= i < n :: all[i] == before[i];
    assert Rows(all, wanted) == Rows(before, wanted) + (if wanted(a) then {n} else {});
  }

  lemma {:induction false} CountIpAppend(attempts: seq<Attempt>, a: Attempt, ip: string, since: Time)
    ensures CountByIp(attempts + [a], ip, since) ==
            CountByIp(attempts, ip, since) + (if a.ip == Some(ip) && a.at > since then 1 else 0)
  {
    if attempts == [] {
      assert attempts + [a] == [a] && [a][1..] == [];
    } else {
      CountIpAppend(attempts[1..], a, ip, since);
      HeadTail(attempts, [a]);
    }
  }

  /** The counts are the numbers of those rows. */
  lemma {:induction false} CountsRows(attempts: seq<Attempt>, key: string, since: Time)
    ensures CountByUser(attempts, key, since) == |ByUser(attempts, key, since)|
    ensures CountByIp(attempts, key, since) == |ByIp(attempts, key, since)|
    decreases |attempts|
  {
    if attempts != [] {
      var n := |attempts| - 1;
      var before := attempts[..n];
      CountsRows(before, key, since);
      assert attempts == before + [attempts[n]];
      CountAppend(before, attempts[n], key, since);
      CountIpAppend(before, attempts[n], key, since);
      RowsSnoc(before, attempts[n], (a: Attempt) => a.username == key && a.at > since);
      RowsSnoc(before, attempts[n], (a: Attempt) => a.ip == Some(key) && a.at > since);
    }
  }

  /** The address has used up its attempts within the lockout's length. */
  predicate AddressBlocked(cfg: Config, db: Db, ip: Option<string>, now: Time) {
    ip.Some? && |ByIp(db.attempts, ip.value, now - cfg.lockout)| >= cfg.maxAttempts
  }

  /** The account can be logged into: it exists, is enabled, has a password and no lock in force. */
  predicate Open(db: Db, u: string, now: Time) {
    && u in db.users && !db.users[u].disabled && db.users[u].passwordHash.Some?
    && (db.users[u].lockedUntil.Some? ==> db.users[u].lockedUntil.value <= now)
  }

  /** A login reaches the password exactly for an open account from an address that is not blocked, and
      passes exactly if the password fits the stored hash. */
  lemma LoginPasses(cfg: Config, db: Db, r: LoginRequest, now: Time)
    ensures PassesCheck(cfg, db, r, now) <==>
            && cfg.secretSet && !AddressBlocked(cfg, db, r.ip, now) && Open(db, r.username, now)
            && cfg.verify(r.password, db.users[r.username].passwordHash.value)
    ensures Login(cfg, db, r, now).reply == LoggedIn <==> PassesCheck(cfg, db, r, now) && r.sessionId !in db.sessions
    ensures Login(cfg, db, r, now).reply == TooManyFromIp <==> cfg.secretSet && AddressBlocked(cfg, db, r.ip, now)
  {
    if r.ip.Some? {
      CountsRows(db.attempts, r.ip.value, now - cfg.lockout);
    }
  }

  /** The rows after a successful login: a session of this user until the end of its time, seen now,
      with the token; no attempt of this user and all those of others; no lock. */
  lemma LoggedInRows(cfg: Config, db: Db, r: LoginRequest, now: Time)
    requires Login(cfg, db, r, now).reply == LoggedIn
    ensures var after := Login(cfg, db, r, now).db;
            && r.username in db.users
            && after.sessions == db.sessions[r.sessionId := Session(r.username, now + cfg.sessionTtl, now, Some(r.csrf))]
            && RowSet(db.users, after.users, r.username, db.users[r.username].(lockedUntil := None, lastLogin := Some(now)))
            && forall a :: multiset(after.attempts)[a] == if a.username == r.username then 0 else multiset(db.attempts)[a]
  {
    forall a
      ensures multiset(Without(db.attempts, r.username))[a] == if a.username == r.username then 0 else multiset(db.attempts)[a]
    {
      WithoutRows(db.attempts, r.username, a);
    }
  }

  lemma {:induction false} WithoutRows(attempts: seq<Attempt>, u: string, a: Attempt)
    ensures multiset(Without(attempts, u))[a] == if a.username == u then 0 else multiset(attempts)[a]
  {
    if attempts != [] {
      WithoutRows(attempts[1..], u, a);
      assert attempts == [attempts[0]] + attempts[1..];
    }
  }

  /** The rows after a wrong password: one more attempt, and a lock for the lockout's length exactly if
      the attempts under this name have then reached their number. */
  lemma WrongPasswordRows(cfg: Config, db: Db, r: LoginRequest, now: Time)
    requires FailsCheck(cfg, db, r, now)
    ensures var after, u := Login(cfg, db, r, now), r.username;
            var attempts := db.attempts + [Attempt(u, r.ip, now)];
            && after.db.attempts == attempts && after.db.sessions == db.sessions
            && (if |ByUser(attempts, u, now - cfg.lockout)| >= cfg.maxAttempts then
                  after.reply == AccountLocked && RowSet(db.users, after.db.users, u, db.users[u].(lockedUntil := Some(now + cfg.lockout)))
                else after.reply == InvalidCredentials && after.db.users == db.users)
  {
    CountsRows(db.attempts + [Attempt(r.username, r.ip, now)], r.username, now - cfg.lockout);
  }

  /** A login that does not get as far changes nothing, but for one more attempt under a name that does
      not exist or has no password. */
  lemma TurnedAwayRows(cfg: Config, db: Db, r: LoginRequest, now: Time)
    requires !ReachesCheck(cfg, db, r, now)
    ensures var after := Login(cfg, db, r, now);
            && after.db.users == db.users && after.db.sessions == db.sessions
            && after.db.attempts == db.attempts + (if after.reply == InvalidCredentials then [Attempt(r.username, r.ip, now)] else [])
            && (after.reply == InvalidCredentials ==> r.username !in db.users || db.users[r.username].passwordHash.None?)
  {
    Whole(db.attempts);
  }

  /** A round of pruning keeps exactly the sessions that are neither expired nor idle and the attempts
      of the last two lockout lengths. */
  lemma PrunedRows(cfg: Config, db: Db, now: Time)
    ensures var after := PruneAttempts(cfg, PruneIdle(cfg, PruneExpired(db, now), now), now);
            && after.users == db.users
            && (forall k :: k in after.sessions <==>
                  k in db.sessions && now <= db.sessions[k].expiresAt && now - db.sessions[k].lastSeenAt <= cfg.idleTimeout)
            && (forall k | k in after.sessions :: after.sessions[k] == db.sessions[k])
            && forall a :: multiset(after.attempts)[a] == if a.at >= now - cfg.lockout * 2 then multiset(db.attempts)[a] else 0
  {
    forall a
      ensures multiset(From(db.attempts, now - cfg.lockout * 2))[a] == if a.at >= now - cfg.lockout * 2 then multiset(db.attempts)[a] else 0
    {
      FromRows(db.attempts, now - cfg.lockout * 2, a);
    }
  }

  lemma {:induction false} FromRows(attempts: seq<Attempt>, cutoff: Time, a: Attempt)
    ensures multiset(From(attempts, cutoff))[a] == if a.at >= cutoff then multiset(attempts)[a] else 0
  {
    if attempts != [] {
      FromRows(attempts[1..], cutoff, a);
      assert attempts == [attempts[0]] + attempts[1..];
    }
  }

  // ----- Runs

  /** The rows after a run. */
  function After(cfg: Config, db: Db, steps: seq<Step>): Db {
    if steps == [] then db else Next(cfg, After(cfg, db, steps[..|steps| - 1]), steps[|steps| - 1])
  }

  /** The session was created by a successful login, for its user and until its expiry. */
  ghost predicate CreatedBy(cfg: Config, db: Db, steps: seq<Step>, sid: string, s: Session, j: int) {
    && 0 <= j < |steps| && steps[j].DoLogin? && steps[j].r.sessionId == sid && steps[j].r.username == s.user
    && Login(cfg, After(cfg, db, steps[..j]), steps[j].r, steps[j].now).reply == LoggedIn
    && s.expiresAt == steps[j].now + cfg.sessionTtl
  }

  /** A step keeps user and expiry of every session that is not new. */
  lemma NextKeepsSessions(cfg: Config, db: Db, s: Step, sid: string)
    requires sid in Next(cfg, db, s).sessions
    ensures if sid in db.sessions then
              var before, after := db.sessions[sid], Next(cfg, db, s).sessions[sid];
              after.user == before.user && after.expiresAt == before.expiresAt
            else s.DoLogin? && s.r.sessionId == sid && Login(cfg, db, s.r, s.now).reply == LoggedIn
  {
    match s
    case DoLogin(r, now) => LoginKeepsSessions(cfg, db, r, now);
    case DoMutate(sid', header, a, now) => MutateKeepsSessions(cfg, db, sid', header, a, now, sid);
    case _ =>
  }

  lemma LoginKeepsSessions(cfg: Config, db: Db, r: LoginRequest, now: Time)
    ensures var after := Login(cfg, db, r, now);
            && (forall k | k in db.sessions :: k in after.db.sessions && after.db.sessions[k] == db.sessions[k])
            && (forall k | k in after.db.sessions && k !in db.sessions :: k == r.sessionId && after.reply == LoggedIn)
  {
  }

  lemma MutateKeepsSessions(cfg: Config, db: Db, sid: string, header: Option<string>, a: Action, now: Time, k: string)
    requires k in Mutate(cfg, db, sid, header, a, now).db.sessions
    ensures k in db.sessions
    ensures Mutate(cfg, db, sid, header, a, now).db.sessions[k].user == db.sessions[k].user
    ensures Mutate(cfg, db, sid, header, a, now).db.sessions[k].expiresAt == db.sessions[k].expiresAt
  {
    VisitRows(cfg, db, sid, now);
  }

  lemma {:induction false} SessionOrigin(cfg: Config, db: Db, steps: seq<Step>, sid: string) returns (j: nat)
    requires db.sessions == map[] && sid in After(cfg, db, steps).sessions
    ensures CreatedBy(cfg, db, steps, sid, After(cfg, db, steps).sessions[sid], j)
    decreases |steps|
  {
    var n := |steps| - 1;
    var before, last := After(cfg, db, steps[..n]), steps[n];
    NextKeepsSessions(cfg, before, last, sid);
    if sid in before.sessions {
      j := SessionOrigin(cfg, db, steps[..n], sid);
      assert steps[..n][..j] == steps[..j];
    } else {
      LoggedInRows(cfg, before, last.r, last.now);
      j := n;
    }
  }

  /** No access without a login: in every run from a database without sessions, a visit or a mutation
      accepted for `u` shows a session id that an earlier login of `u`, with the right password, was
      given, and comes within the session's time after it. */
  lemma AccessNeedsLogin(cfg: Config, db: Db, steps: seq<Step>, i: nat, u: string) returns (j: nat)
    requires db.sessions == map[] && i < |steps| && (steps[i].Visit? || steps[i].DoMutate?)
    requires Observe(cfg, After(cfg, db, steps[..i]), steps[i]) == AuthSeen(Accepted(u))
    ensures j < i && steps[j].DoLogin? && steps[j].r.sessionId == steps[i].sid && steps[j].r.username == u
    ensures PassesCheck(cfg, After(cfg, db, steps[..j]), steps[j].r, steps[j].now)
    ensures steps[i].now <= steps[j].now + cfg.sessionTtl
  {
    var now := After(cfg, db, steps[..i]);
    if steps[i].Visit? {
      VisitAccepts(cfg, now, steps[i].sid, steps[i].now, u);
    } else {
      MutateAccepts(cfg, now, steps[i].sid, steps[i].header, steps[i].action, steps[i].now, u);
    }
    j := SessionOrigin(cfg, db, steps[..i], steps[i].sid);
    assert steps[..i][..j] == steps[..j];
    LoginPasses(cfg, After(cfg, db, steps[..j]), steps[j].r, steps[j].now);
  }

  /** The part of a user's row that only actions write. */
  datatype Account = Account(disabled: bool, passwordHash: Option<string>)

  function Accounts(db: Db): map<string, Account> {
    map u | u in db.users :: Account(db.users[u].disabled, db.users[u].passwordHash)
  }

  /** A mutating request with a live session and its token. */
  predicate Authorized(cfg: Config, db: Db, s: Step) {
    s.DoMutate? && Live(cfg, db, s.sid, s.now) && TokenShown(db, s.sid, s.header)
  }

  lemma LoginKeepsAccounts(cfg: Config, db: Db, r: LoginRequest, now: Time)
    ensures Accounts(Login(cfg, db, r, now).db) == Accounts(db)
  {
  }

  lemma UnauthorizedStep(cfg: Config, db: Db, s: Step)
    requires !Authorized(cfg, db, s)
    ensures Accounts(Next(cfg, db, s)) == Accounts(db)
    ensures !s.DoLogin? ==> Next(cfg, db, s).users == db.users
  {
    match s
    case DoLogin(r, now) => LoginKeepsAccounts(cfg, db, r, now);
    case DoMutate(sid, header, a, now) =>
      var reply := Mutate(cfg, db, sid, header, a, now).reply;
      if reply.Accepted? {
        MutateAccepts(cfg, db, sid, header, a, now, reply.username);
      } else {
        RejectedRows(cfg, db, sid, header, a, now);
      }
    case _ =>
  }

  /** No account is created, disabled, enabled or given a password in a run in which no mutating
      request shows the token of its live session. */
  lemma {:induction false} AccountsNeedToken(cfg: Config, db: Db, steps: seq<Step>)
    requires forall i | 0 <= i < |steps| :: !Authorized(cfg, After(cfg, db, steps[..i]), steps[i])
    ensures Accounts(After(cfg, db, steps)) == Accounts(db)
    decreases |steps|
  {
    if steps != [] {
      var n := |steps| - 1;
      forall i | 0 <= i < n
        ensures !Authorized(cfg, After(cfg, db, steps[..n][..i]), steps[..n][i])
      {
        assert steps[..n][..i] == steps[..i];
      }
      AccountsNeedToken(cfg, db, steps[..n]);
      UnauthorizedStep(cfg, After(cfg, db, steps[..n]), steps[n]);
    }
  }
}
