/** Whole runs of console handlers: the lockout's rate bound, and the invisibility of pruning. */
module ConsoleRuns {
  import opened Seqs
  import opened Options
  import opened Console

  datatype Step =
    | DoLogin(r: LoginRequest, now: Time)
    | Visit(sid: string, now: Time)
    | DoMutate(sid: string, header: Option<string>, action: Action, now: Time)
    | DoPruneExpired(now: Time)
    | DoPruneIdle(now: Time)
    | DoPruneAttempts(now: Time)
  {
    predicate Prunes() {
      DoPruneExpired? || DoPruneIdle? || DoPruneAttempts?
    }
  }

  datatype Observation = LoginSeen(login: LoginReply) | AuthSeen(auth: AuthReply)

  function Next(cfg: Config, db: Db, s: Step): Db {
    match s
    case DoLogin(r, now) => Login(cfg, db, r, now).db
    case Visit(sid, now) => Authenticate(cfg, db, sid, now).db
    case DoMutate(sid, header, a, now) => Mutate(cfg, db, sid, header, a, now).db
    case DoPruneExpired(now) => PruneExpired(db, now)
    case DoPruneIdle(now) => PruneIdle(cfg, db, now)
    case DoPruneAttempts(now) => PruneAttempts(cfg, db, now)
  }

  // ----- Counting rows

  lemma {:induction false} CountAppend(attempts: seq<Attempt>, a: Attempt, u: string, since: Time)
    ensures CountByUser(attempts + [a], u, since) ==
            CountByUser(attempts, u, since) + (if a.username == u && a.at > since then 1 else 0)
  {
    if attempts == [] {
      assert attempts + [a] == [a] && [a][1..] == [];
    } else {
      CountAppend(attempts[1..], a, u, since);
      assert (attempts + [a])[1..] == attempts[1..] + [a];
    }
  }

  lemma {:induction false} CountMonotone(attempts: seq<Attempt>, u: string, since: Time, earlier: Time)
    requires earlier <= since
    ensures CountByUser(attempts, u, earlier) >= CountByUser(attempts, u, since)
  {
    if attempts != [] {
      CountMonotone(attempts[1..], u, since, earlier);
    }
  }

  lemma {:induction false} CountWithoutOther(attempts: seq<Attempt>, other: string, u: string, since: Time)
    requires other != u
    ensures CountByUser(Without(attempts, other), u, since) == CountByUser(attempts, u, since)
  {
    if attempts != [] {
      CountWithoutOther(attempts[1..], other, u, since);
      if attempts[0].username != other {
        assert Without(attempts, other)[1..] == Without(attempts[1..], other);
      } else {
        assert Without(attempts, other) == Without(attempts[1..], other);
      }
    }
  }

  lemma {:induction false} CountFrom(attempts: seq<Attempt>, cutoff: Time, u: string, since: Time)
    requires cutoff <= since + 1
    ensures CountByUser(From(attempts, cutoff), u, since) == CountByUser(attempts, u, since)
  {
    if attempts != [] {
      CountFrom(attempts[1..], cutoff, u, since);
      if attempts[0].at >= cutoff {
        assert From(attempts, cutoff)[1..] == From(attempts[1..], cutoff);
      } else {
        assert From(attempts, cutoff) == From(attempts[1..], cutoff);
      }
    }
  }

  // ----- The lockout's rate bound

  predicate Fails(cfg: Config, db: Db, s: Step, u: string) {
    s.DoLogin? && s.r.username == u && FailsCheck(cfg, db, s.r, s.now)
  }

  predicate Succeeds(cfg: Config, db: Db, s: Step, u: string) {
    s.DoLogin? && s.r.username == u && PassesCheck(cfg, db, s.r, s.now)
  }

  /** Failed password checks of `u` in a run. */
  function Failures(cfg: Config, db: Db, steps: seq<Step>, u: string): nat
    decreases |steps|
  {
    if steps == [] then 0
    else (if Fails(cfg, db, steps[0], u) then 1 else 0) + Failures(cfg, Next(cfg, db, steps[0]), steps[1..], u)
  }

  predicate NoSuccess(cfg: Config, db: Db, steps: seq<Step>, u: string)
    decreases |steps|
  {
    steps != [] ==> !Succeeds(cfg, db, steps[0], u) && NoSuccess(cfg, Next(cfg, db, steps[0]), steps[1..], u)
  }

  function Bound(cfg: Config): int {
    if cfg.maxAttempts >= 1 then cfg.maxAttempts else 1
  }

  /** After `c` failures since `w`: their rows are still there, and at the bound the account is
      locked past the window. */
  predicate Charged(cfg: Config, db: Db, u: string, w: Time, c: nat) {
    && c <= Bound(cfg)
    && CountByUser(db.attempts, u, w - 1) >= c
    && (c >= Bound(cfg) ==> u in db.users && Locked(db.users[u], w + cfg.lockout - 1))
  }

  predicate InWindow(cfg: Config, s: Step, w: Time) {
    w <= s.now < w + cfg.lockout
  }

  /** While charged to the bound, the password is not even looked at. */
  lemma LockedThroughout(cfg: Config, db: Db, s: Step, u: string, w: Time, c: nat)
    requires Charged(cfg, db, u, w, c) && InWindow(cfg, s, w) && Fails(cfg, db, s, u)
    ensures c < Bound(cfg)
  {
  }

  lemma FailureCharges(cfg: Config, db: Db, s: Step, u: string, w: Time, c: nat)
    requires Charged(cfg, db, u, w, c) && InWindow(cfg, s, w) && Fails(cfg, db, s, u)
    ensures Charged(cfg, Next(cfg, db, s), u, w, c + 1)
  {
    LockedThroughout(cfg, db, s, u, w, c);
    var recorded := Record(db, s.r, s.now);
    CountAppend(db.attempts, Attempt(u, s.r.ip, s.now), u, w - 1);
    CountMonotone(recorded.attempts, u, w - 1, s.now - cfg.lockout);
  }

  lemma LoginKeepsCharge(cfg: Config, db: Db, s: Step, u: string, w: Time, c: nat)
    requires s.DoLogin? && Charged(cfg, db, u, w, c) && InWindow(cfg, s, w)
    requires !Fails(cfg, db, s, u) && !Succeeds(cfg, db, s, u)
    ensures Charged(cfg, Next(cfg, db, s), u, w, c)
  {
    CountAppend(db.attempts, Attempt(s.r.username, s.r.ip, s.now), u, w - 1);
    if s.r.username != u {
      CountWithoutOther(db.attempts, s.r.username, u, w - 1);
      OthersLogin(cfg, db, s.r, s.now, u);
    }
  }

  /** A login of someone else leaves this user's row alone. */
  lemma OthersLogin(cfg: Config, db: Db, r: LoginRequest, now: Time, u: string)
    requires r.username != u
    ensures u in db.users ==> u in Login(cfg, db, r, now).db.users && Login(cfg, db, r, now).db.users[u] == db.users[u]
  {
  }

  /** No action of a mutating handler touches locks or attempts. */
  lemma PerformKeepsLocks(db: Db, sid: string, a: Action, u: string)
    ensures Perform(db, sid, a).attempts == db.attempts
    ensures u in db.users ==>
              u in Perform(db, sid, a).users && Perform(db, sid, a).users[u].lockedUntil == db.users[u].lockedUntil
  {
  }

  lemma MutateKeepsCharge(cfg: Config, db: Db, s: Step, u: string, w: Time, c: nat)
    requires s.DoMutate? && Charged(cfg, db, u, w, c)
    ensures Charged(cfg, Next(cfg, db, s), u, w, c)
  {
    PerformKeepsLocks(Authenticate(cfg, db, s.sid, s.now).db, s.sid, s.action, u);
  }

  lemma OtherKeepsCharge(cfg: Config, db: Db, s: Step, u: string, w: Time, c: nat)
    requires !s.DoLogin? && Charged(cfg, db, u, w, c) && InWindow(cfg, s, w)
    ensures Charged(cfg, Next(cfg, db, s), u, w, c)
  {
    if s.DoPruneAttempts? {
      CountFrom(db.attempts, s.now - cfg.lockout * 2, u, w - 1);
    } else if s.DoMutate? {
      MutateKeepsCharge(cfg, db, s, u, w, c);
    }
  }

  lemma {:induction false} ChargedRun(cfg: Config, db: Db, steps: seq<Step>, u: string, w: Time, c: nat)
    requires forall i | 0 <= i < |steps| :: InWindow(cfg, steps[i], w)
    requires NoSuccess(cfg, db, steps, u) && Charged(cfg, db, u, w, c)
    ensures c + Failures(cfg, db, steps, u) <= Bound(cfg)
    decreases |steps|
  {
    if steps != [] {
      var s := steps[0];
      assert InWindow(cfg, s, w);
      if Fails(cfg, db, s, u) {
        FailureCharges(cfg, db, s, u, w, c);
        ChargedRun(cfg, Next(cfg, db, s), steps[1..], u, w, c + 1);
      } else {
        if s.DoLogin? {
          LoginKeepsCharge(cfg, db, s, u, w, c);
        } else {
          OtherKeepsCharge(cfg, db, s, u, w, c);
        }
        ChargedRun(cfg, Next(cfg, db, s), steps[1..], u, w, c);
      }
    }
  }

  /** From any database, for any interleaving of logins of any users, visits, mutations and prunes
      inside one window of the lockout's length: without a successful login of `u` in between, at
      most `maxAttempts` password checks of `u` fail (one, if the setting is below one). */
  lemma LockoutBound(cfg: Config, db: Db, steps: seq<Step>, u: string, w: Time)
    requires forall i | 0 <= i < |steps| :: InWindow(cfg, steps[i], w)
    requires NoSuccess(cfg, db, steps, u)
    ensures Failures(cfg, db, steps, u) <= Bound(cfg)
  {
    ChargedRun(cfg, db, steps, u, w, 0);
  }

  /** The bound is attained: wrong passwords for an account with a clean record all reach the check
      until there are `maxAttempts` of them. */
  lemma LockoutBoundAttained(cfg: Config, db: Db, r: LoginRequest, w: Time)
    requires cfg.maxAttempts >= 1 && cfg.lockout >= 1
    requires r.ip == None && db.attempts == [] && FailsCheck(cfg, db, r, w)
    ensures var steps := seq(cfg.maxAttempts, _ => DoLogin(r, w));
            Failures(cfg, db, steps, r.username) == cfg.maxAttempts
  {
    Attempts(cfg, db, r, w, 0, cfg.maxAttempts);
  }

  lemma {:induction false} Attempts(cfg: Config, db: Db, r: LoginRequest, w: Time, done: nat, n: nat)
    requires cfg.lockout >= 1 && r.ip == None && FailsCheck(cfg, db, r, w)
    requires CountByUser(db.attempts, r.username, w - cfg.lockout) == done && done + n == cfg.maxAttempts && n >= 1
    ensures Failures(cfg, db, seq(n, _ => DoLogin(r, w)), r.username) == n
    decreases n
  {
    var steps := seq(n, _ => DoLogin(r, w));
    var next := Next(cfg, db, steps[0]);
    CountAppend(db.attempts, Attempt(r.username, r.ip, w), r.username, w - cfg.lockout);
    assert steps[1..] == seq(n - 1, _ => DoLogin(r, w));
    if n > 1 {
      Attempts(cfg, next, r, w, done + 1, n - 1);
    } else {
      assert steps[1..] == [];
    }
  }

  // ----- Pruning cannot be observed

  /** Rows after `floor`. */
  function Recent(attempts: seq<Attempt>, floor: Time): seq<Attempt> {
    if attempts == [] then []
    else (if attempts[0].at > floor then [attempts[0]] else []) + Recent(attempts[1..], floor)
  }

  lemma {:induction false} RecentAppend(attempts: seq<Attempt>, a: Attempt, floor: Time)
    ensures Recent(attempts + [a], floor) == Recent(attempts, floor) + (if a.at > floor then [a] else [])
  {
    if attempts == [] {
      assert attempts + [a] == [a] && [a][1..] == [];
    } else {
      RecentAppend(attempts[1..], a, floor);
      HeadTail(attempts, [a]);
      Assoc(if attempts[0].at > floor then [attempts[0]] else [], Recent(attempts[1..], floor), if a.at > floor then [a] else []);
    }
  }

  lemma {:induction false} RecentLater(attempts: seq<Attempt>, floor: Time, later: Time)
    requires floor <= later
    ensures Recent(Recent(attempts, floor), later) == Recent(attempts, later)
  {
    if attempts != [] {
      RecentLater(attempts[1..], floor, later);
      if attempts[0].at > floor {
        assert Recent(attempts, floor)[1..] == Recent(attempts[1..], floor);
      } else {
        assert Recent(attempts, floor) == Recent(attempts[1..], floor);
      }
    }
  }

  lemma {:induction false} RecentCounts(attempts: seq<Attempt>, floor: Time, key: string)
    ensures CountByUser(attempts, key, floor) == CountByUser(Recent(attempts, floor), key, floor)
    ensures CountByIp(attempts, key, floor) == CountByIp(Recent(attempts, floor), key, floor)
  {
    if attempts != [] {
      RecentCounts(attempts[1..], floor, key);
      if attempts[0].at > floor {
        assert Recent(attempts, floor)[1..] == Recent(attempts[1..], floor);
      } else {
        assert Recent(attempts, floor) == Recent(attempts[1..], floor);
      }
    }
  }

  lemma {:induction false} RecentWithout(attempts: seq<Attempt>, floor: Time, u: string)
    ensures Recent(Without(attempts, u), floor) == Without(Recent(attempts, floor), u)
  {
    if attempts != [] {
      RecentWithout(attempts[1..], floor, u);
      var a, rest := attempts[0], attempts[1..];
      if a.username != u {
        assert Without(attempts, u)[1..] == Without(rest, u);
      } else {
        assert Without(attempts, u) == Without(rest, u);
      }
      if a.at > floor {
        assert Recent(attempts, floor)[1..] == Recent(rest, floor);
      } else {
        assert Recent(attempts, floor) == Recent(rest, floor);
      }
    }
  }

  lemma {:induction false} RecentFrom(attempts: seq<Attempt>, cutoff: Time, floor: Time)
    requires forall i | 0 <= i < |attempts| && attempts[i].at > floor :: attempts[i].at >= cutoff
    ensures Recent(From(attempts, cutoff), floor) == Recent(attempts, floor)
  {
    if attempts != [] {
      RecentFrom(attempts[1..], cutoff, floor);
      if attempts[0].at >= cutoff {
        assert From(attempts, cutoff)[1..] == From(attempts[1..], cutoff);
      } else {
        assert From(attempts, cutoff) == From(attempts[1..], cutoff);
      }
    }
  }

  /** No row carries a time after `t`. */
  predicate Past(attempts: seq<Attempt>, t: Time) {
    forall i | 0 <= i < |attempts| :: attempts[i].at <= t
  }

  lemma {:induction false} FromPast(attempts: seq<Attempt>, cutoff: Time, t: Time)
    requires Past(attempts, t)
    ensures Past(From(attempts, cutoff), t)
  {
    if attempts != [] {
      FromPast(attempts[1..], cutoff, t);
    }
  }

  lemma {:induction false} WithoutPast(attempts: seq<Attempt>, u: string, t: Time)
    requires Past(attempts, t)
    ensures Past(Without(attempts, u), t)
  {
    if attempts != [] {
      WithoutPast(attempts[1..], u, t);
    }
  }

  /** `b` is `a` with nothing missing but dead sessions and attempts outside every window. */
  predicate Similar(cfg: Config, a: Db, b: Db, t: Time) {
    && a.users == b.users
    && SimilarSessions(cfg, a.sessions, b.sessions, t)
    && SimilarAttempts(cfg, a.attempts, b.attempts, t)
  }

  predicate SimilarSessions(cfg: Config, a: map<string, Session>, b: map<string, Session>, t: Time) {
    && (forall k | k in b :: k in a && a[k] == b[k])
    && (forall k | k in a && k !in b :: Dead(cfg, a[k], t))
  }

  predicate SimilarAttempts(cfg: Config, a: seq<Attempt>, b: seq<Attempt>, t: Time) {
    && Past(a, t) && Past(b, t)
    && SameRecent(a, b, t - cfg.lockout)
  }

  predicate SameRecent(a: seq<Attempt>, b: seq<Attempt>, floor: Time) {
    Recent(a, floor) == Recent(b, floor)
  }

  lemma SimilarLater(cfg: Config, a: Db, b: Db, t: Time, now: Time)
    requires Similar(cfg, a, b, t) && t <= now
    ensures Similar(cfg, a, b, now)
  {
    SimilarAttemptsLater(cfg, a.attempts, b.attempts, t, now);
  }

  lemma SimilarAttemptsLater(cfg: Config, a: seq<Attempt>, b: seq<Attempt>, t: Time, now: Time)
    requires SimilarAttempts(cfg, a, b, t) && t <= now
    ensures SimilarAttempts(cfg, a, b, now)
  {
    SameRecentLater(a, b, t - cfg.lockout, now - cfg.lockout);
  }

  lemma SameRecentLater(a: seq<Attempt>, b: seq<Attempt>, floor: Time, later: Time)
    requires SameRecent(a, b, floor) && floor <= later
    ensures SameRecent(a, b, later)
  {
    RecentLater(a, floor, later);
    RecentLater(b, floor, later);
  }

  lemma SimilarRecord(cfg: Config, a: seq<Attempt>, b: seq<Attempt>, x: Attempt, now: Time)
    requires SimilarAttempts(cfg, a, b, now) && x.at == now
    ensures SimilarAttempts(cfg, a + [x], b + [x], now)
  {
    RecentAppend(a, x, now - cfg.lockout);
    RecentAppend(b, x, now - cfg.lockout);
    PastAppend(a, x, now);
    PastAppend(b, x, now);
  }

  lemma PastAppend(a: seq<Attempt>, x: Attempt, t: Time)
    requires Past(a, t) && x.at <= t
    ensures Past(a + [x], t)
  {
  }

  lemma SimilarCounts(cfg: Config, a: seq<Attempt>, b: seq<Attempt>, now: Time, key: string)
    requires SimilarAttempts(cfg, a, b, now)
    ensures CountByUser(a, key, now - cfg.lockout) == CountByUser(b, key, now - cfg.lockout)
    ensures CountByIp(a, key, now - cfg.lockout) == CountByIp(b, key, now - cfg.lockout)
  {
    RecentCounts(a, now - cfg.lockout, key);
    RecentCounts(b, now - cfg.lockout, key);
  }

  lemma ClearRecent(a: seq<Attempt>, b: seq<Attempt>, u: string, floor: Time)
    requires SameRecent(a, b, floor)
    ensures SameRecent(Without(a, u), Without(b, u), floor)
  {
    RecentWithout(a, floor, u);
    RecentWithout(b, floor, u);
  }

  lemma SimilarClear(cfg: Config, a: seq<Attempt>, b: seq<Attempt>, u: string, now: Time)
    requires SimilarAttempts(cfg, a, b, now)
    ensures SimilarAttempts(cfg, Without(a, u), Without(b, u), now)
  {
    ClearRecent(a, b, u, now - cfg.lockout);
    WithoutPast(a, u, now);
    WithoutPast(b, u, now);
  }

  lemma WrongPasswordSimilar(cfg: Config, a: Db, b: Db, r: LoginRequest, now: Time)
    requires Similar(cfg, a, b, now) && r.username in a.users
    ensures WrongPassword(cfg, a, r, now).reply == WrongPassword(cfg, b, r, now).reply
    ensures Similar(cfg, WrongPassword(cfg, a, r, now).db, WrongPassword(cfg, b, r, now).db, now)
  {
    var x := Attempt(r.username, r.ip, now);
    SimilarRecord(cfg, a.attempts, b.attempts, x, now);
    SimilarCounts(cfg, a.attempts + [x], b.attempts + [x], now, r.username);
  }

  lemma RightPasswordSimilar(cfg: Config, a: Db, b: Db, r: LoginRequest, now: Time)
    requires Similar(cfg, a, b, now) && r.username in a.users && r.sessionId !in a.sessions
    ensures RightPassword(cfg, a, r, now).reply == RightPassword(cfg, b, r, now).reply
    ensures Similar(cfg, RightPassword(cfg, a, r, now).db, RightPassword(cfg, b, r, now).db, now)
  {
    SimilarClear(cfg, a.attempts, b.attempts, r.username, now);
  }

  lemma RecordSimilar(cfg: Config, a: Db, b: Db, r: LoginRequest, now: Time)
    requires Similar(cfg, a, b, now)
    ensures Similar(cfg, Record(a, r, now), Record(b, r, now), now)
  {
    SimilarRecord(cfg, a.attempts, b.attempts, Attempt(r.username, r.ip, now), now);
  }

  lemma LoginSimilar(cfg: Config, a: Db, b: Db, r: LoginRequest, now: Time)
    requires Similar(cfg, a, b, now) && r.sessionId !in a.sessions
    ensures Login(cfg, a, r, now).reply == Login(cfg, b, r, now).reply
    ensures Similar(cfg, Login(cfg, a, r, now).db, Login(cfg, b, r, now).db, now)
  {
    if r.ip.Some? {
      SimilarCounts(cfg, a.attempts, b.attempts, now, r.ip.value);
    }
    assert IpBlocked(cfg, a, r.ip, now) == IpBlocked(cfg, b, r.ip, now);
    if ReachesCheck(cfg, a, r, now) {
      if PasswordOk(cfg, a, r) {
        RightPasswordSimilar(cfg, a, b, r, now);
      } else {
        WrongPasswordSimilar(cfg, a, b, r, now);
      }
    } else {
      RecordSimilar(cfg, a, b, r, now);
    }
  }

  lemma AuthenticateSimilar(cfg: Config, a: Db, b: Db, sid: string, now: Time)
    requires Similar(cfg, a, b, now)
    ensures Authenticate(cfg, a, sid, now).reply == Authenticate(cfg, b, sid, now).reply
    ensures Similar(cfg, Authenticate(cfg, a, sid, now).db, Authenticate(cfg, b, sid, now).db, now)
  {
  }

  lemma MutateSimilar(cfg: Config, a: Db, b: Db, sid: string, header: Option<string>, act: Action, now: Time)
    requires Similar(cfg, a, b, now)
    ensures Mutate(cfg, a, sid, header, act, now).reply == Mutate(cfg, b, sid, header, act, now).reply
    ensures Similar(cfg, Mutate(cfg, a, sid, header, act, now).db, Mutate(cfg, b, sid, header, act, now).db, now)
  {
    AuthenticateSimilar(cfg, a, b, sid, now);
  }

  lemma PruneSimilar(cfg: Config, a: Db, b: Db, s: Step)
    requires Similar(cfg, a, b, s.now) && s.Prunes()
    ensures Similar(cfg, a, Next(cfg, b, s), s.now)
  {
    match s
    case DoPruneExpired(now) => PruneExpiredSimilar(cfg, a, b, now);
    case DoPruneIdle(now) => PruneIdleSimilar(cfg, a, b, now);
    case DoPruneAttempts(now) => PruneAttemptsSimilar(cfg, a, b, now);
  }

  lemma PruneExpiredSimilar(cfg: Config, a: Db, b: Db, now: Time)
    requires Similar(cfg, a, b, now)
    ensures Similar(cfg, a, PruneExpired(b, now), now)
  {
  }

  lemma PruneIdleSimilar(cfg: Config, a: Db, b: Db, now: Time)
    requires Similar(cfg, a, b, now)
    ensures Similar(cfg, a, PruneIdle(cfg, b, now), now)
  {
  }

  lemma PruneAttemptsSimilar(cfg: Config, a: Db, b: Db, now: Time)
    requires Similar(cfg, a, b, now)
    ensures Similar(cfg, a, PruneAttempts(cfg, b, now), now)
  {
    RecentFrom(b.attempts, now - cfg.lockout * 2, now - cfg.lockout);
    FromPast(b.attempts, now - cfg.lockout * 2, now);
  }

  function Observe(cfg: Config, db: Db, s: Step): Observation
    requires !s.Prunes()
  {
    match s
    case DoLogin(r, now) => LoginSeen(Login(cfg, db, r, now).reply)
    case Visit(sid, now) => AuthSeen(Authenticate(cfg, db, sid, now).reply)
    case DoMutate(sid, header, a, now) => AuthSeen(Mutate(cfg, db, sid, header, a, now).reply)
  }

  /** Everything a client is told in a run. */
  function Trace(cfg: Config, db: Db, steps: seq<Step>): seq<Observation>
    decreases |steps|
  {
    if steps == [] then []
    else if steps[0].Prunes() then Trace(cfg, Next(cfg, db, steps[0]), steps[1..])
    else [Observe(cfg, db, steps[0])] + Trace(cfg, Next(cfg, db, steps[0]), steps[1..])
  }

  function WithoutPrunes(steps: seq<Step>): seq<Step> {
    if steps == [] then []
    else (if steps[0].Prunes() then [] else [steps[0]]) + WithoutPrunes(steps[1..])
  }

  /** The clock never goes back. */
  predicate Ordered(steps: seq<Step>, t: Time) {
    steps != [] ==> t <= steps[0].now && Ordered(steps[1..], steps[0].now)
  }

  /** Session ids are drawn fresh: none is in use, none is drawn twice. */
  predicate FreshIds(steps: seq<Step>, used: set<string>)
    decreases |steps|
  {
    steps != [] ==>
      if steps[0].DoLogin? then steps[0].r.sessionId !in used && FreshIds(steps[1..], used + {steps[0].r.sessionId})
      else FreshIds(steps[1..], used)
  }

  lemma NextSessions(cfg: Config, db: Db, s: Step)
    ensures Next(cfg, db, s).sessions.Keys <= db.sessions.Keys + (if s.DoLogin? then {s.r.sessionId} else {})
  {
  }

  lemma StepSimilar(cfg: Config, a: Db, b: Db, s: Step)
    requires Similar(cfg, a, b, s.now) && !s.Prunes()
    requires s.DoLogin? ==> s.r.sessionId !in a.sessions
    ensures Observe(cfg, a, s) == Observe(cfg, b, s)
    ensures Similar(cfg, Next(cfg, a, s), Next(cfg, b, s), s.now)
  {
    match s
    case DoLogin(r, now) => LoginSimilar(cfg, a, b, r, now);
    case Visit(sid, now) => AuthenticateSimilar(cfg, a, b, sid, now);
    case DoMutate(sid, header, act, now) => MutateSimilar(cfg, a, b, sid, header, act, now);
    case _ =>
  }

  lemma {:induction false} SimilarRuns(cfg: Config, a: Db, b: Db, steps: seq<Step>, t: Time, used: set<string>)
    requires Similar(cfg, a, b, t) && Ordered(steps, t)
    requires a.sessions.Keys <= used && FreshIds(steps, used)
    ensures Trace(cfg, b, steps) == Trace(cfg, a, WithoutPrunes(steps))
    decreases |steps|
  {
    if steps != [] {
      var s, rest := steps[0], WithoutPrunes(steps[1..]);
      SimilarLater(cfg, a, b, t, s.now);
      if s.Prunes() {
        PruneSimilar(cfg, a, b, s);
        SimilarRuns(cfg, a, Next(cfg, b, s), steps[1..], s.now, used);
        assert WithoutPrunes(steps) == rest;
      } else {
        StepSimilar(cfg, a, b, s);
        NextSessions(cfg, a, s);
        var used' := if s.DoLogin? then used + {s.r.sessionId} else used;
        SimilarRuns(cfg, Next(cfg, a, s), Next(cfg, b, s), steps[1..], s.now, used');
        assert WithoutPrunes(steps)[0] == s && WithoutPrunes(steps)[1..] == rest;
      }
    }
  }

  /** Wherever prune statements are placed in a run, every login decision and every session
      decision is the one of the run without them. */
  lemma PruningUnobservable(cfg: Config, db: Db, steps: seq<Step>, start: Time)
    requires Past(db.attempts, start) && Ordered(steps, start) && FreshIds(steps, db.sessions.Keys)
    ensures Trace(cfg, db, steps) == Trace(cfg, db, WithoutPrunes(steps))
  {
    SimilarRuns(cfg, db, db, steps, start, db.sessions.Keys);
  }
}
