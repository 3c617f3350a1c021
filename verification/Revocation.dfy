/** Token lookup through the cache while tokens are being revoked.

    A lookup is three separate steps (cache get, table read, cache insert) and a revocation is two
    (table update, cache invalidation); they interleave in any way. */
module Revocation {
  import opened Options
  import opened ClientCache

  datatype Row = Row(id: int, userId: int, hash: string, revokedAt: Option<Time>)

  /** The `client_tokens` table; prefixes are unique. */
  type Table = map<string, Row>

  function RevokedRow(r: Row, now: Time): Row {
    if r.revokedAt.None? then r.(revokedAt := Some(now)) else r
  }

  /** UPDATE ... SET revoked_at WHERE id = ? AND revoked_at IS NULL */
  function Revoke(t: Table, id: int, now: Time): Table {
    map p | p in t :: if t[p].id == id then RevokedRow(t[p], now) else t[p]
  }

  /** UPDATE ... SET revoked_at WHERE user_id = ? AND revoked_at IS NULL */
  function RevokeAllForUser(t: Table, userId: int, now: Time): Table {
    map p | p in t :: if t[p].userId == userId then RevokedRow(t[p], now) else t[p]
  }

  /** The rows that are not chosen stay as they are; a chosen row becomes revoked now, or stays revoked
      since when it was, and keeps everything else. */
  ghost predicate RevokesRows(t: Table, after: Table, chosen: set<string>, now: Time) {
    && after.Keys == t.Keys
    && (forall p | p in t && p !in chosen :: after[p] == t[p])
    && (forall p | p in t && p in chosen ::
          && after[p].revokedAt == (if t[p].revokedAt.Some? then t[p].revokedAt else Some(now))
          && after[p].id == t[p].id && after[p].userId == t[p].userId && after[p].hash == t[p].hash)
  }

  lemma RevokeRows(t: Table, id: int, now: Time)
    ensures RevokesRows(t, Revoke(t, id, now), (set p | p in t && t[p].id == id), now)
  {
  }

  lemma RevokeAllRows(t: Table, userId: int, now: Time)
    ensures RevokesRows(t, RevokeAllForUser(t, userId, now), (set p | p in t && t[p].userId == userId), now)
  {
  }

  /** Revoking again leaves the first revocation in place. */
  lemma RevokeIdempotent(t: Table, id: int, now: Time, later: Time)
    ensures Revoke(Revoke(t, id, now), id, later) == Revoke(t, id, now)
  {
  }

  /** Ids are primary keys. */
  predicate UniqueIds(t: Table) {
    forall p, q | p in t && q in t && t[p].id == t[q].id :: p == q
  }

  // ----- The handlers run alone

  class ClientAuth {
    var table: Table
    const cache: TokenCache<Row>

    constructor (capacity: nat, ttl: int)
      ensures table == map[] && fresh(cache)
    {
      table := map[];
      cache := new TokenCache<Row>(capacity, ttl);
    }

    /** A fresh cache entry if there is one, otherwise the table row, which is then cached. */
    method Lookup(prefix: string, now: Time) returns (row: Option<Row>)
      modifies cache
      ensures var f := Fetch(cache.lim, old(cache.State()), prefix, now);
              if f.token.Some? || prefix !in table then
                row == f.token && cache.State() == f.cache
              else
                row == Some(table[prefix]) && Inserts(cache.lim, f.cache, prefix, table[prefix], now, cache.State())
    {
      var cached := cache.Get(prefix, now);
      if cached.Some? {
        return cached;
      }
      if prefix !in table {
        return None;
      }
      cache.Insert(prefix, table[prefix], now);
      return Some(table[prefix]);
    }

    /** The row is revoked and its prefix is gone from the cache. */
    method RevokeClient(id: int, now: Time)
      requires UniqueIds(table)
      modifies this, cache
      ensures table == Revoke(old(table), id, now)
      ensures RevokesRows(old(table), table, (set p | p in old(table) && old(table)[p].id == id), now)
      ensures forall p | p in table && table[p].id == id :: p !in cache.entries
      ensures forall p | p in old(cache.entries) && !(p in table && table[p].id == id) ::
                p in cache.entries && cache.entries[p] == old(cache.entries)[p]
    {
      var target: Option<string> := None;
      if p :| p in table && table[p].id == id {
        target := Some(p);
      }
      RevokeRows(table, id, now);
      table := Revoke(table, id, now);
      if target.Some? {
        cache.Invalidate(target.value);
      }
    }
  }

  // ----- Interleaved steps

  /** How far a lookup has come. */
  datatype Pc = Missed(prefix: string) | Holding(prefix: string, row: Row)

  datatype State = State(table: Table, cache: Cache<Row>, lookups: map<nat, Pc>, now: Time)

  datatype Label =
    | Tick
    | Hit(prefix: string, served: Row)
    | Miss(thread: nat, prefix: string)
    | ReadRow(thread: nat)
    | ReadNothing(thread: nat)
    | Fill(thread: nat)
    | RevokeId(id: int)
    | RevokeUser(userId: int)
    | InvalidatePrefix(prefix: string)
    | ClearCache
    | Mint(prefix: string, row: Row)

  ghost predicate Step(lim: Limits, s: State, l: Label, t: State) {
    match l
    case Tick => s.now <= t.now && t == s.(now := t.now)
    case Hit(p, served) =>
      var f := Fetch(lim, s.cache, p, s.now);
      f.token == Some(served) && t == s.(cache := f.cache)
    case Miss(i, p) =>
      var f := Fetch(lim, s.cache, p, s.now);
      f.token == None && i !in s.lookups && t == s.(cache := f.cache, lookups := s.lookups[i := Missed(p)])
    case ReadRow(i) =>
      && i in s.lookups && s.lookups[i].Missed? && s.lookups[i].prefix in s.table
      && t == s.(lookups := s.lookups[i := Holding(s.lookups[i].prefix, s.table[s.lookups[i].prefix])])
    case ReadNothing(i) =>
      && i in s.lookups && s.lookups[i].Missed? && s.lookups[i].prefix !in s.table
      && t == s.(lookups := s.lookups - {i})
    case Fill(i) =>
      && i in s.lookups && s.lookups[i].Holding?
      && Inserts(lim, s.cache, s.lookups[i].prefix, s.lookups[i].row, s.now, t.cache)
      && t == s.(cache := t.cache, lookups := s.lookups - {i})
    case RevokeId(id) => t == s.(table := Revoke(s.table, id, s.now))
    case RevokeUser(u) => t == s.(table := RevokeAllForUser(s.table, u, s.now))
    case InvalidatePrefix(p) => t == s.(cache := Drop(s.cache, p))
    case ClearCache => t == s.(cache := Emptied(s.cache))
    case Mint(p, row) => p !in s.table && t == s.(table := s.table[p := row])
  }

  ghost predicate IsRun(lim: Limits, labels: seq<Label>, states: seq<State>) {
    |states| == |labels| + 1 && forall i | 0 <= i < |labels| :: Step(lim, states[i], labels[i], states[i + 1])
  }

  predicate Revoked(r: Row) { r.revokedAt.Some? }

  predicate RevokedInTable(s: State, p: string) { p in s.table && Revoked(s.table[p]) }

  /** Lookups that still hold a row of `p` from before its revocation. */
  function StaleHolders(s: State, p: string): set<nat> {
    set i | i in s.lookups && s.lookups[i].Holding? && s.lookups[i].prefix == p && !Revoked(s.lookups[i].row)
  }

  predicate StaleEntry(s: State, p: string) {
    p in s.cache.entries && !Revoked(s.cache.entries[p].token)
  }

  lemma RevocationIsForever(lim: Limits, s: State, l: Label, t: State, p: string)
    requires Step(lim, s, l, t) && RevokedInTable(s, p)
    ensures RevokedInTable(t, p)
  {
  }

  lemma FillKeepsOthers(lim: Limits, s: State, t: State, i: nat, p: string)
    requires Step(lim, s, Fill(i), t) && p != s.lookups[i].prefix && p in t.cache.entries
    ensures p in s.cache.entries && t.cache.entries[p] == s.cache.entries[p]
  {
    var q := s.lookups[i].prefix;
    MakesRoomSmaller(lim, s.cache.entries, q, s.now, t.cache.entries - {q});
    assert p in t.cache.entries - {q};
  }

  /** A lookup puts a row from before the revocation into the cache and serves it. */
  predicate StaleFill(s: State, l: Label, p: string) {
    l.Fill? && l.thread in s.lookups && s.lookups[l.thread].Holding? &&
    s.lookups[l.thread].prefix == p && !Revoked(s.lookups[l.thread].row)
  }

  // ----- No stale holder at invalidation: the revocation is final

  predicate Final(s: State, p: string) {
    RevokedInTable(s, p) && !StaleEntry(s, p) && StaleHolders(s, p) == {}
  }

  lemma HoldersAfter(lim: Limits, s: State, l: Label, t: State, p: string)
    requires Step(lim, s, l, t) && RevokedInTable(s, p)
    ensures StaleHolders(t, p) == StaleHolders(s, p) - (if l.Fill? then {l.thread} else {})
  {
    forall i: nat
      ensures i in StaleHolders(t, p) <==> i in StaleHolders(s, p) && !(l.Fill? && i == l.thread)
    {
      HolderAfter(lim, s, l, t, p, i);
    }
  }

  lemma HolderAfter(lim: Limits, s: State, l: Label, t: State, p: string, i: nat)
    requires Step(lim, s, l, t) && RevokedInTable(s, p)
    ensures i in StaleHolders(t, p) <==> i in StaleHolders(s, p) && !(l.Fill? && i == l.thread)
  {
  }

  lemma FinalStep(lim: Limits, s: State, l: Label, t: State, p: string)
    requires Step(lim, s, l, t) && Final(s, p)
    ensures Final(t, p)
    ensures l.Hit? && l.prefix == p ==> Revoked(l.served)
    ensures !StaleFill(s, l, p)
  {
    RevocationIsForever(lim, s, l, t, p);
    HoldersAfter(lim, s, l, t, p);
    if l.Fill? {
      assert l.thread !in StaleHolders(s, p);
      if s.lookups[l.thread].prefix != p && p in t.cache.entries {
        FillKeepsOthers(lim, s, t, l.thread, p);
      }
    }
  }

  /** After a revoke and an invalidation that no stale lookup overlaps, every row served for the
      prefix, by a cache hit or by a table read, is revoked: in every continuation of the run. */
  lemma {:induction false} RevocationIsFinal(lim: Limits, labels: seq<Label>, states: seq<State>, p: string, i: nat)
    requires IsRun(lim, labels, states) && 0 < |labels| && i < |labels|
    requires RevokedInTable(states[0], p) && StaleHolders(states[0], p) == {}
    requires labels[0] == InvalidatePrefix(p) || labels[0] == ClearCache
    ensures labels[i].Hit? && labels[i].prefix == p ==> Revoked(labels[i].served)
    ensures !StaleFill(states[i], labels[i], p)
  {
    assert Step(lim, states[0], labels[0], states[1]);
    RevocationIsForever(lim, states[0], labels[0], states[1], p);
    HoldersAfter(lim, states[0], labels[0], states[1], p);
    if i > 0 {
      FinalAlways(lim, labels, states, p, i);
      assert Step(lim, states[i], labels[i], states[i + 1]);
      FinalStep(lim, states[i], labels[i], states[i + 1], p);
    }
  }

  lemma {:induction false} FinalAlways(lim: Limits, labels: seq<Label>, states: seq<State>, p: string, i: nat)
    requires IsRun(lim, labels, states) && 1 <= i <= |labels| && Final(states[1], p)
    ensures Final(states[i], p)
    decreases i
  {
    if i > 1 {
      FinalAlways(lim, labels, states, p, i - 1);
      assert Step(lim, states[i - 1], labels[i - 1], states[i]);
      FinalStep(lim, states[i - 1], labels[i - 1], states[i], p);
    }
  }

  // ----- A stale holder at invalidation: the revocation can be undone in the cache

  /** Entry `k` is used least recently. */
  predicate IsOldest(m: map<string, Entry<Row>>, k: string) {
    k in m && forall j | j in m :: m[k].lastUsed <= m[j].lastUsed
  }

  lemma {:induction false} OldestExists(m: map<string, Entry<Row>>)
    requires m.Keys != {}
    ensures exists k | k in m :: IsOldest(m, k)
    decreases |m|
  {
    var i :| i in m.Keys;
    var rest := m - {i};
    assert rest.Keys == m.Keys - {i};
    if rest.Keys == {} {
      assert forall x | x in m.Keys :: x == i || x in rest.Keys;
      assert IsOldest(m, i);
    } else {
      OldestExists(rest);
      var j :| j in rest && IsOldest(rest, j);
      assert forall x | x in m && x != i :: x in rest;
      assert IsOldest(m, if m[j].lastUsed < m[i].lastUsed then j else i);
    }
  }

  /** Some entry is a possible victim. */
  lemma VictimExists(lim: Limits, m: map<string, Entry<Row>>, now: Time)
    requires m.Keys != {}
    ensures exists k | k in m :: Victim(lim, m, now, k)
  {
    if j :| j in m && Expired(lim, m[j], now) {
      assert Victim(lim, m, now, j);
    } else {
      OldestExists(m);
      var k :| k in m && IsOldest(m, k);
      assert Victim(lim, m, now, k);
    }
  }

  /** An insert is always possible. */
  lemma InsertExists(lim: Limits, c: Cache<Row>, p: string, row: Row, now: Time) returns (d: Cache<Row>)
    ensures Inserts(lim, c, p, row, now, d)
  {
    var room := RoomExists(lim, c.entries, p, now);
    d := Cache(room[p := Entry(row, now, c.counter + 1)], c.counter + 1);
    PutRemoves(room, p, Entry(row, now, c.counter + 1));
  }

  lemma RoomExists(lim: Limits, m: map<string, Entry<Row>>, p: string, now: Time) returns (room: map<string, Entry<Row>>)
    ensures MakesRoom(lim, m, p, now, room) && p !in room
  {
    room := m - {p};
    if p !in m && |m| >= lim.capacity && m != map[] {
      assert m.Keys != {};
      VictimExists(lim, m, now);
      var k :| k in m && Victim(lim, m, now, k);
      room := m - {k};
    }
  }

  /** From any state in which a lookup still holds a stale row, the invalidation can be followed by
      that lookup's insert and then by a hit that serves the stale row. */
  lemma StaleHolderUndoes(lim: Limits, s: State, p: string, i: nat) returns (labels: seq<Label>, states: seq<State>)
    requires lim.ttl > 0 && i in StaleHolders(s, p)
    ensures IsRun(lim, labels, states) && |labels| == 3
    ensures states[0] == s && labels[0] == InvalidatePrefix(p)
    ensures labels[2].Hit? && labels[2].prefix == p && !Revoked(labels[2].served)
  {
    var row := s.lookups[i].row;
    var s1 := s.(cache := Drop(s.cache, p));
    var d := InsertExists(lim, s1.cache, p, row, s.now);
    var s2 := s1.(cache := d, lookups := s1.lookups - {i});
    var s3 := s2.(cache := Fetch(lim, d, p, s.now).cache);
    labels := [InvalidatePrefix(p), Fill(i), Hit(p, row)];
    states := [s, s1, s2, s3];
    assert Step(lim, s, labels[0], s1) && Step(lim, s1, labels[1], s2) && Step(lim, s2, labels[2], s3);
  }

  /** One run after another. */
  lemma RunsJoin(lim: Limits, labels: seq<Label>, states: seq<State>, more: seq<Label>, later: seq<State>)
    requires IsRun(lim, labels, states) && IsRun(lim, more, later) && later[0] == states[|labels|]
    ensures IsRun(lim, labels + more, states + later[1..])
  {
    var ls, ss := labels + more, states + later[1..];
    forall i | 0 <= i < |ls|
      ensures Step(lim, ss[i], ls[i], ss[i + 1])
    {
      if i < |labels| {
        assert Step(lim, states[i], labels[i], states[i + 1]);
      } else {
        var k := i - |labels|;
        assert Step(lim, later[k], more[k], later[k + 1]);
        assert ss[i + 1] == later[k + 1];
        assert ss[i] == later[k] by {
          if k == 0 {
            assert ss[i] == states[|labels|];
          }
        }
      }
    }
  }

  function Start(now: Time): State {
    State(map[], Cache(map[], 0), map[], now)
  }

  /** A lookup that read the row of a freshly minted token before its revocation. */
  lemma HolderReached(lim: Limits, p: string, row: Row, now: Time) returns (labels: seq<Label>, states: seq<State>)
    requires !Revoked(row)
    ensures IsRun(lim, labels, states) && states[0] == Start(now)
    ensures labels == [Mint(p, row), Miss(0, p), ReadRow(0), RevokeId(row.id)]
    ensures RevokedInTable(states[4], p) && 0 in StaleHolders(states[4], p)
  {
    var s0 := Start(now);
    var s1 := s0.(table := s0.table[p := row]);
    var s2 := s1.(cache := Fetch(lim, s1.cache, p, now).cache, lookups := s1.lookups[0 := Missed(p)]);
    var s3 := s2.(lookups := s2.lookups[0 := Holding(p, row)]);
    var s4 := s3.(table := Revoke(s3.table, row.id, now));
    labels := [Mint(p, row), Miss(0, p), ReadRow(0), RevokeId(row.id)];
    states := [s0, s1, s2, s3, s4];
    assert Step(lim, s0, labels[0], s1) && Step(lim, s1, labels[1], s2);
    assert Step(lim, s2, labels[2], s3) && Step(lim, s3, labels[3], s4);
  }

  /** For every prefix and unrevoked row there is a run from the empty state in which the token is
      minted, revoked and invalidated, and a hit still serves the unrevoked row. */
  lemma RevocationUndone(lim: Limits, p: string, row: Row, now: Time) returns (labels: seq<Label>, states: seq<State>)
    requires lim.ttl > 0 && !Revoked(row)
    ensures IsRun(lim, labels, states) && |labels| == 7 && states[0] == Start(now)
    ensures labels[3] == RevokeId(row.id) && labels[4] == InvalidatePrefix(p)
    ensures RevokedInTable(states[6], p)
    ensures labels[6].Hit? && labels[6].prefix == p && !Revoked(labels[6].served)
  {
    var before, reached := HolderReached(lim, p, row, now);
    var after, undone := StaleHolderUndoes(lim, reached[4], p, 0);
    RunsJoin(lim, before, reached, after, undone);
    assert Step(lim, undone[0], after[0], undone[1]) && Step(lim, undone[1], after[1], undone[2]);
    RevocationIsForever(lim, undone[0], after[0], undone[1], p);
    RevocationIsForever(lim, undone[1], after[1], undone[2], p);
    labels, states := before + after, reached + undone[1..];
  }

  // ----- Otherwise: stale rows die out within one TTL of the last stale insert

  /** The time of the last stale insert among the first `i` steps, or of the start. */
  ghost function LastStale(labels: seq<Label>, states: seq<State>, p: string, i: nat): Time
    requires |states| == |labels| + 1 && i <= |labels|
  {
    if i == 0 then states[0].now
    else if StaleFill(states[i - 1], labels[i - 1], p) then states[i - 1].now
    else LastStale(labels, states, p, i - 1)
  }

  ghost function StaleFills(labels: seq<Label>, states: seq<State>, p: string, i: nat): nat
    requires |states| == |labels| + 1 && i <= |labels|
  {
    if i == 0 then 0
    else StaleFills(labels, states, p, i - 1) + (if StaleFill(states[i - 1], labels[i - 1], p) then 1 else 0)
  }

  predicate StaleUntil(s: State, p: string, last: Time) {
    RevokedInTable(s, p) && (StaleEntry(s, p) ==> s.cache.entries[p].insertedAt <= last)
  }

  lemma StaleStep(lim: Limits, s: State, l: Label, t: State, p: string, last: Time)
    requires Step(lim, s, l, t) && StaleUntil(s, p, last)
    ensures StaleUntil(t, p, if StaleFill(s, l, p) then s.now else last)
  {
    RevocationIsForever(lim, s, l, t, p);
    if l.Fill? && s.lookups[l.thread].prefix != p && p in t.cache.entries {
      FillKeepsOthers(lim, s, t, l.thread, p);
    }
  }

  lemma {:induction false} StaleAlways(lim: Limits, labels: seq<Label>, states: seq<State>, p: string, i: nat)
    requires IsRun(lim, labels, states) && i <= |labels| && StaleUntil(states[0], p, states[0].now)
    ensures StaleUntil(states[i], p, LastStale(labels, states, p, i))
    ensures StaleFills(labels, states, p, i) + |StaleHolders(states[i], p)| == |StaleHolders(states[0], p)|
    decreases i
  {
    if i > 0 {
      StaleAlways(lim, labels, states, p, i - 1);
      var s, l, t := states[i - 1], labels[i - 1], states[i];
      assert Step(lim, s, l, t);
      StaleStep(lim, s, l, t, p, LastStale(labels, states, p, i - 1));
      HolderCount(lim, s, l, t, p);
    }
  }

  lemma HolderCount(lim: Limits, s: State, l: Label, t: State, p: string)
    requires Step(lim, s, l, t) && RevokedInTable(s, p)
    ensures |StaleHolders(t, p)| + (if StaleFill(s, l, p) then 1 else 0) == |StaleHolders(s, p)|
  {
    HoldersAfter(lim, s, l, t, p);
    if StaleFill(s, l, p) {
      assert l.thread in StaleHolders(s, p);
    } else {
      assert StaleHolders(t, p) == StaleHolders(s, p);
    }
  }

  /** In every run after a revoke: a hit that still serves an unrevoked row comes less than one TTL
      after the last stale insert (or after the start), and there are at most as many stale inserts
      as there were lookups holding a stale row at the start. */
  lemma StalenessBound(lim: Limits, labels: seq<Label>, states: seq<State>, p: string, i: nat)
    requires IsRun(lim, labels, states) && i < |labels|
    requires RevokedInTable(states[0], p)
    requires p in states[0].cache.entries ==> states[0].cache.entries[p].insertedAt <= states[0].now
    ensures labels[i].Hit? && labels[i].prefix == p && !Revoked(labels[i].served) ==>
              states[i].now < LastStale(labels, states, p, i) + lim.ttl
    ensures StaleFills(labels, states, p, i) <= |StaleHolders(states[0], p)|
  {
    StaleAlways(lim, labels, states, p, i);
    assert Step(lim, states[i], labels[i], states[i + 1]);
  }
}
