/** The verification cache for client tokens: bounded, with a time to live and LRU eviction. */
module ClientCache {
  import opened Options

  type Time = int

  datatype Entry<+V> = Entry(token: V, insertedAt: Time, lastUsed: nat)

  /** The cache's map and its use counter. */
  datatype Cache<V> = Cache(entries: map<string, Entry<V>>, counter: nat)

  datatype Limits = Limits(capacity: nat, ttl: int)

  predicate Expired<V>(lim: Limits, e: Entry<V>, now: Time) {
    now - e.insertedAt >= lim.ttl
  }

  // ----- Operations

  datatype Fetched<V> = Fetched(cache: Cache<V>, token: Option<V>)

  function Fetch<V>(lim: Limits, c: Cache<V>, prefix: string, now: Time): Fetched<V> {
    if prefix !in c.entries then Fetched(c, None)
    else if Expired(lim, c.entries[prefix], now) then Fetched(c.(entries := c.entries - {prefix}), None)
    else
      var e := c.entries[prefix];
      Fetched(Cache(c.entries[prefix := e.(lastUsed := c.counter + 1)], c.counter + 1), Some(e.token))
  }

  /** An entry that may be evicted: an expired one, or the least recently used if none is expired. */
  predicate Victim<V>(lim: Limits, m: map<string, Entry<V>>, now: Time, k: string) {
    && k in m
    && (|| Expired(lim, m[k], now)
        || (forall j | j in m :: !Expired(lim, m[j], now) && m[k].lastUsed <= m[j].lastUsed))
  }

  /** A hash map lists its entries in an arbitrary order, so which expired entry goes is open. */
  ghost predicate Evicts<V>(lim: Limits, m: map<string, Entry<V>>, now: Time, n: map<string, Entry<V>>) {
    if m == map[] then n == m else exists k | k in m :: Victim(lim, m, now, k) && n == m - {k}
  }

  /** `n` is `m` without `prefix`, after making room for it. */
  ghost predicate MakesRoom<V>(lim: Limits, m: map<string, Entry<V>>, prefix: string, now: Time, n: map<string, Entry<V>>) {
    if prefix in m || |m| < lim.capacity then n == m - {prefix} else Evicts(lim, m, now, n)
  }

  ghost predicate Inserts<V>(lim: Limits, c: Cache<V>, prefix: string, token: V, now: Time, d: Cache<V>) {
    && MakesRoom(lim, c.entries, prefix, now, d.entries - {prefix})
    && d.counter == c.counter + 1
    && prefix in d.entries && d.entries[prefix] == Entry(token, now, d.counter)
  }

  function Drop<V>(c: Cache<V>, prefix: string): Cache<V> {
    c.(entries := c.entries - {prefix})
  }

  function Emptied<V>(c: Cache<V>): Cache<V> {
    c.(entries := map[])
  }

  class TokenCache<V> {
    var entries: map<string, Entry<V>>
    var counter: nat
    const lim: Limits

    constructor (capacity: nat, ttl: int)
      ensures lim == Limits(capacity, ttl) && State() == Cache(map[], 0)
    {
      lim := Limits(capacity, ttl);
      entries, counter := map[], 0;
    }

    function State(): Cache<V>
      reads this
    {
      Cache(entries, counter)
    }

    method Get(prefix: string, now: Time) returns (token: Option<V>)
      modifies this
      ensures Fetched(State(), token) == Fetch(lim, old(State()), prefix, now)
    {
      if prefix !in entries {
        return None;
      }
      if now - entries[prefix].insertedAt >= lim.ttl {
        entries := entries - {prefix};
        return None;
      }
      counter := counter + 1;
      entries := entries[prefix := entries[prefix].(lastUsed := counter)];
      return Some(entries[prefix].token);
    }

    method Insert(prefix: string, token: V, now: Time)
      modifies this
      ensures Inserts(lim, old(State()), prefix, token, now, State())
    {
      counter := counter + 1;
      if prefix in entries {
        PutRemoves(entries, prefix, Entry(token, now, counter));
        entries := entries[prefix := Entry(token, now, counter)];
        return;
      }
      if |entries| >= lim.capacity {
        EvictOne(now);
      }
      assert prefix !in entries by {
        if |old(entries)| >= lim.capacity {
          EvictsSmaller(lim, old(entries), now, entries);
        }
      }
      PutRemoves(entries, prefix, Entry(token, now, counter));
      entries := entries[prefix := Entry(token, now, counter)];
    }

    method EvictOne(now: Time)
      modifies this`entries
      ensures Evicts(lim, old(entries), now, entries)
    {
      if k :| k in entries && now - entries[k].insertedAt >= lim.ttl {
        assert Victim(lim, entries, now, k);
        entries := entries - {k};
        return;
      }
      var victim := LeastRecentlyUsed(entries);
      if victim.Some? {
        assert Victim(lim, entries, now, victim.value);
        entries := entries - {victim.value};
      }
    }

    static method LeastRecentlyUsed(m: map<string, Entry<V>>) returns (victim: Option<string>)
      ensures victim.None? <==> m == map[]
      ensures victim.Some? ==> victim.value in m && forall j | j in m :: m[victim.value].lastUsed <= m[j].lastUsed
    {
      victim := None;
      var todo := m.Keys;
      while todo != {}
        invariant todo <= m.Keys
        invariant victim.None? ==> todo == m.Keys
        invariant victim.Some? ==> victim.value in m && forall j | j in m && j !in todo :: m[victim.value].lastUsed <= m[j].lastUsed
        decreases todo
      {
        var k :| k in todo;
        todo := todo - {k};
        if victim.None? || m[k].lastUsed < m[victim.value].lastUsed {
          victim := Some(k);
        }
      }
      if victim.None? {
        assert m.Keys == {};
      }
    }

    method Invalidate(prefix: string)
      modifies this
      ensures State() == Drop(old(State()), prefix)
    {
      entries := entries - {prefix};
    }

    method Clear()
      modifies this
      ensures State() == Emptied(old(State()))
    {
      entries := map[];
    }
  }

  // ----- Runs

  datatype Op<V> =
    | OpGet(prefix: string, now: Time)
    | OpInsert(prefix: string, token: V, now: Time)
    | OpInvalidate(prefix: string)
    | OpClear

  ghost predicate OpStep<V>(lim: Limits, c: Cache<V>, op: Op<V>, d: Cache<V>) {
    match op
    case OpGet(p, now) => d == Fetch(lim, c, p, now).cache
    case OpInsert(p, v, now) => Inserts(lim, c, p, v, now, d)
    case OpInvalidate(p) => d == Drop(c, p)
    case OpClear => d == Emptied(c)
  }

  /** `caches` are the states of a run of `ops` on a new cache. */
  ghost predicate IsRun<V>(lim: Limits, ops: seq<Op<V>>, caches: seq<Cache<V>>) {
    && |caches| == |ops| + 1
    && caches[0] == Cache(map[], 0)
    && forall i | 0 <= i < |ops| :: OpStep(lim, caches[i], ops[i], caches[i + 1])
  }

  function Room(lim: Limits): nat {
    if lim.capacity >= 1 then lim.capacity else 1
  }

  /** Stamps are distinct and not beyond the counter. */
  predicate Stamped<V>(c: Cache<V>) {
    && (forall k | k in c.entries :: c.entries[k].lastUsed <= c.counter)
    && (forall j, k | j in c.entries && k in c.entries && j != k :: c.entries[j].lastUsed != c.entries[k].lastUsed)
  }

  /** The last value inserted for `p` that was not invalidated or cleared since. */
  function Latest<V>(ops: seq<Op<V>>, p: string): Option<(V, Time)> {
    if ops == [] then None
    else
      var before, op := Latest(ops[..|ops| - 1], p), ops[|ops| - 1];
      match op
      case OpInsert(q, v, now) => if q == p then Some((v, now)) else before
      case OpInvalidate(q) => if q == p then None else before
      case OpClear => None
      case OpGet(_, _) => before
  }

  /** Every entry is the latest insert of its prefix. */
  ghost predicate Current<V>(ops: seq<Op<V>>, c: Cache<V>) {
    forall p | p in c.entries :: Latest(ops, p) == Some((c.entries[p].token, c.entries[p].insertedAt))
  }

  lemma EvictsSmaller<V>(lim: Limits, m: map<string, Entry<V>>, now: Time, n: map<string, Entry<V>>)
    requires Evicts(lim, m, now, n)
    ensures n.Keys <= m.Keys && (forall k | k in n :: n[k] == m[k])
    ensures |n| == if m == map[] then 0 else |m| - 1
  {
    if m != map[] {
      var k :| k in m && Victim(lim, m, now, k) && n == m - {k};
      assert n.Keys == m.Keys - {k};
      assert |n.Keys| == |m.Keys| - 1;
    }
  }

  lemma MakesRoomSmaller<V>(lim: Limits, m: map<string, Entry<V>>, prefix: string, now: Time, n: map<string, Entry<V>>)
    requires MakesRoom(lim, m, prefix, now, n)
    ensures n.Keys <= m.Keys && (forall k | k in n :: n[k] == m[k]) && prefix !in n
    ensures |m| <= Room(lim) ==> |n| < Room(lim)
  {
    if prefix in m || |m| < lim.capacity {
      assert n.Keys == m.Keys - {prefix};
    } else {
      EvictsSmaller(lim, m, now, n);
    }
  }

  lemma PutRemoves<T>(m: map<string, T>, k: string, v: T)
    ensures m[k := v] - {k} == m - {k}
    ensures k !in m ==> m - {k} == m
  {
  }

  lemma UpdateSize<V>(m: map<string, V>, k: string, v: V)
    ensures |m[k := v]| == if k in m then |m| else |m| + 1
  {
    assert m[k := v].Keys == m.Keys + {k};
  }

  lemma RemoveSize<V>(m: map<string, V>, k: string)
    ensures |m - {k}| <= |m|
  {
    assert (m - {k}).Keys == m.Keys - {k};
  }

  lemma FetchSize<V>(lim: Limits, c: Cache<V>, p: string, now: Time)
    ensures |Fetch(lim, c, p, now).cache.entries| <= |c.entries|
  {
    RemoveSize(c.entries, p);
    if p in c.entries {
      UpdateSize(c.entries, p, c.entries[p].(lastUsed := c.counter + 1));
    }
  }

  lemma InsertSize<V>(lim: Limits, c: Cache<V>, p: string, v: V, now: Time, d: Cache<V>)
    requires Inserts(lim, c, p, v, now, d) && |c.entries| <= Room(lim)
    ensures |d.entries| <= Room(lim)
  {
    var room := d.entries - {p};
    MakesRoomSmaller(lim, c.entries, p, now, room);
    assert d.entries.Keys == room.Keys + {p};
  }

  lemma StepSize<V>(lim: Limits, c: Cache<V>, op: Op<V>, d: Cache<V>)
    requires OpStep(lim, c, op, d) && |c.entries| <= Room(lim)
    ensures |d.entries| <= Room(lim)
  {
    match op
    case OpGet(p, now) => FetchSize(lim, c, p, now);
    case OpInsert(p, v, now) => InsertSize(lim, c, p, v, now, d);
    case OpInvalidate(p) => RemoveSize(c.entries, p);
    case OpClear =>
  }

  /** A fresh stamp on one entry keeps stamps distinct. */
  lemma StampOne<V>(c: Cache<V>, d: Cache<V>, p: string)
    requires Stamped(c) && d.counter == c.counter + 1
    requires p in d.entries && d.entries[p].lastUsed == d.counter
    requires forall k | k in d.entries && k != p :: k in c.entries && d.entries[k] == c.entries[k]
    ensures Stamped(d)
  {
  }

  lemma StepStamps<V>(lim: Limits, c: Cache<V>, op: Op<V>, d: Cache<V>)
    requires OpStep(lim, c, op, d) && Stamped(c)
    ensures Stamped(d)
  {
    match op
    case OpGet(p, now) =>
      if Fetch(lim, c, p, now).token.Some? {
        StampOne(c, d, p);
      } else {
        FewerStamps(c, d);
      }
    case OpInsert(p, v, now) => InsertStamps(lim, c, p, v, now, d);
    case OpInvalidate(p) => FewerStamps(c, d);
    case OpClear => FewerStamps(c, d);
  }

  lemma FewerStamps<V>(c: Cache<V>, d: Cache<V>)
    requires Stamped(c) && d.counter == c.counter
    requires forall k | k in d.entries :: k in c.entries && d.entries[k] == c.entries[k]
    ensures Stamped(d)
  {
  }

  lemma InsertStamps<V>(lim: Limits, c: Cache<V>, p: string, v: V, now: Time, d: Cache<V>)
    requires Inserts(lim, c, p, v, now, d) && Stamped(c)
    ensures Stamped(d)
  {
    MakesRoomSmaller(lim, c.entries, p, now, d.entries - {p});
    assert forall k | k in d.entries && k != p :: k in d.entries - {p};
    StampOne(c, d, p);
  }

  lemma StepCurrent<V>(lim: Limits, ops: seq<Op<V>>, c: Cache<V>, op: Op<V>, d: Cache<V>)
    requires OpStep(lim, c, op, d) && Current(ops, c)
    ensures Current(ops + [op], d)
  {
    assert (ops + [op])[..|ops|] == ops;
    match op
    case OpInsert(p, v, now) =>
      MakesRoomSmaller(lim, c.entries, p, now, d.entries - {p});
      assert forall k | k in d.entries && k != p :: k in d.entries - {p};
    case _ =>
  }

  /** Over every run: the size stays within the capacity (at least one), stamps stay distinct and
      within the counter, and every entry is the latest insert of its prefix. */
  lemma {:induction false} RunInvariants<V>(lim: Limits, ops: seq<Op<V>>, caches: seq<Cache<V>>)
    requires IsRun(lim, ops, caches)
    ensures var c := caches[|ops|];
            |c.entries| <= Room(lim) && Stamped(c) && Current(ops, c)
    decreases |ops|
  {
    if ops != [] {
      var n := |ops| - 1;
      RunInvariants(lim, ops[..n], caches[..n + 1]);
      assert OpStep(lim, caches[n], ops[n], caches[n + 1]);
      assert ops == ops[..n] + [ops[n]];
      StepSize(lim, caches[n], ops[n], caches[n + 1]);
      StepStamps(lim, caches[n], ops[n], caches[n + 1]);
      StepCurrent(lim, ops[..n], caches[n], ops[n], caches[n + 1]);
    }
  }

  /** Whatever happened before, a hit is the latest insert of that prefix, younger than the TTL. */
  lemma HitIsLatest<V>(lim: Limits, ops: seq<Op<V>>, caches: seq<Cache<V>>, p: string, now: Time)
    requires IsRun(lim, ops, caches)
    ensures var hit := Fetch(lim, caches[|ops|], p, now).token;
            hit.Some? ==>
              && Latest(ops, p).Some?
              && hit.value == Latest(ops, p).value.0
              && now - Latest(ops, p).value.1 < lim.ttl
  {
    RunInvariants(lim, ops, caches);
  }

  /** Some insert of another prefix drops `p`. */
  ghost predicate EvictedAt<V>(ops: seq<Op<V>>, caches: seq<Cache<V>>, p: string, k: int)
    requires |caches| == |ops| + 1
  {
    0 <= k < |ops| && ops[k].OpInsert? && p in caches[k].entries && p !in caches[k + 1].entries
  }

  ghost predicate NeverEvicted<V>(ops: seq<Op<V>>, caches: seq<Cache<V>>, p: string)
    requires |caches| == |ops| + 1
  {
    forall k | 0 <= k < |ops| :: !EvictedAt(ops, caches, p, k)
  }

  predicate NoLaterThan<V>(op: Op<V>, now: Time) {
    op.OpGet? ==> op.now <= now
  }

  /** An entry younger than the TTL is still there, unless an insert evicted it. */
  lemma {:induction false} StaysUntilEvicted<V>(lim: Limits, ops: seq<Op<V>>, caches: seq<Cache<V>>, p: string, now: Time)
    requires IsRun(lim, ops, caches) && Latest(ops, p).Some? && now - Latest(ops, p).value.1 < lim.ttl
    requires forall k | 0 <= k < |ops| :: NoLaterThan(ops[k], now)
    requires NeverEvicted(ops, caches, p)
    ensures p in caches[|ops|].entries
    decreases |ops|
  {
    var n := |ops| - 1;
    assert OpStep(lim, caches[n], ops[n], caches[n + 1]);
    if !(ops[n].OpInsert? && ops[n].prefix == p) {
      RunPrefix(lim, ops, caches, p);
      StaysUntilEvicted(lim, ops[..n], caches[..n + 1], p, now);
      RunInvariants(lim, ops[..n], caches[..n + 1]);
      assert NoLaterThan(ops[n], now);
      assert !EvictedAt(ops, caches, p, n);
    }
  }

  lemma RunPrefix<V>(lim: Limits, ops: seq<Op<V>>, caches: seq<Cache<V>>, p: string)
    requires IsRun(lim, ops, caches) && ops != []
    ensures IsRun(lim, ops[..|ops| - 1], caches[..|ops|])
    ensures NeverEvicted(ops, caches, p) ==> NeverEvicted(ops[..|ops| - 1], caches[..|ops|], p)
  {
    var n := |ops| - 1;
    var before, states := ops[..n], caches[..n + 1];
    forall i | 0 <= i < n
      ensures OpStep(lim, states[i], before[i], states[i + 1])
    {
      assert OpStep(lim, caches[i], ops[i], caches[i + 1]);
    }
    forall k | 0 <= k < n
      ensures EvictedAt(before, states, p, k) ==> EvictedAt(ops, caches, p, k)
    {
    }
  }

  /** A get within one TTL of the latest insert is a hit, unless an insert evicted the entry. */
  lemma YoungIsHit<V>(lim: Limits, ops: seq<Op<V>>, caches: seq<Cache<V>>, p: string, now: Time)
    requires IsRun(lim, ops, caches) && Latest(ops, p).Some? && now - Latest(ops, p).value.1 < lim.ttl
    requires forall k | 0 <= k < |ops| :: NoLaterThan(ops[k], now)
    requires NeverEvicted(ops, caches, p)
    ensures Fetch(lim, caches[|ops|], p, now).token == Some(Latest(ops, p).value.0)
  {
    StaysUntilEvicted(lim, ops, caches, p, now);
    RunInvariants(lim, ops, caches);
  }

  /** An insert evicts an entry only to make room for a new prefix in a full cache, and a fresh one only
      if nothing has expired and nothing was used less recently. */
  lemma EvictedOnlyWhenFull<V>(lim: Limits, c: Cache<V>, q: string, v: V, now: Time, d: Cache<V>, p: string)
    requires Inserts(lim, c, q, v, now, d) && p in c.entries && p !in d.entries
    ensures q !in c.entries && |c.entries| >= lim.capacity
    ensures now - c.entries[p].insertedAt >= lim.ttl ||
            forall k | k in c.entries :: now - c.entries[k].insertedAt < lim.ttl && c.entries[p].lastUsed <= c.entries[k].lastUsed
  {
    var room := d.entries - {q};
    assert p !in room && p in c.entries - {q};
    assert room != c.entries - {q};
    var k :| k in c.entries && Victim(lim, c.entries, now, k) && room == c.entries - {k};
    assert p in room || p == k;
  }

  // ----- The stamped map is a queue ordered by last use

  /** `queue` lists the prefixes from the least to the most recently used. */
  predicate Queued<V>(c: Cache<V>, queue: seq<string>) {
    && (forall i | 0 <= i < |queue| :: queue[i] in c.entries && c.entries[queue[i]].lastUsed <= c.counter)
    && (forall i, j | 0 <= i < j < |queue| :: c.entries[queue[i]].lastUsed < c.entries[queue[j]].lastUsed)
    && (forall k | k in c.entries :: k in queue)
  }

  function Remove(queue: seq<string>, p: string): (r: seq<string>)
    ensures p !in r
    ensures forall k | k in queue && k != p :: k in r
    ensures forall k | k in r :: k in queue
  {
    if queue == [] then []
    else if queue[0] == p then Remove(queue[1..], p)
    else [queue[0]] + Remove(queue[1..], p)
  }

  lemma {:induction false} RemoveQueued<V>(c: Cache<V>, queue: seq<string>, p: string)
    requires Queued(c, queue)
    ensures Queued(Drop(c, p), Remove(queue, p))
  {
    RemoveSorted(c.entries, queue, p);
    var d, r := Drop(c, p), Remove(queue, p);
    forall i | 0 <= i < |r|
      ensures r[i] in d.entries && d.entries[r[i]].lastUsed <= d.counter
    {
      assert r[i] in r && r[i] in queue;
    }
    forall i, j | 0 <= i < j < |r|
      ensures d.entries[r[i]].lastUsed < d.entries[r[j]].lastUsed
    {
      assert r[i] in r && r[j] in r;
    }
  }

  predicate SortedBy<V>(m: map<string, Entry<V>>, queue: seq<string>) {
    && (forall i | 0 <= i < |queue| :: queue[i] in m)
    && (forall i, j | 0 <= i < j < |queue| :: m[queue[i]].lastUsed < m[queue[j]].lastUsed)
  }

  lemma {:induction false} RemoveSorted<V>(m: map<string, Entry<V>>, queue: seq<string>, p: string)
    requires SortedBy(m, queue)
    ensures SortedBy(m, Remove(queue, p))
  {
    if queue != [] {
      RemoveSorted(m, queue[1..], p);
      var rest := Remove(queue[1..], p);
      forall j | 0 <= j < |rest|
        ensures rest[j] in m && m[queue[0]].lastUsed < m[rest[j]].lastUsed
      {
        assert rest[j] in queue[1..];
      }
    }
  }

  function Touch(queue: seq<string>, p: string): seq<string> {
    Remove(queue, p) + [p]
  }

  /** Using a prefix moves it to the back. */
  lemma TouchQueued<V>(c: Cache<V>, queue: seq<string>, d: Cache<V>, p: string)
    requires Queued(c, queue) && d.counter == c.counter + 1
    requires p in d.entries && d.entries[p].lastUsed == d.counter && d.entries - {p} == c.entries - {p}
    ensures Queued(d, Touch(queue, p))
  {
    RemoveQueued(c, queue, p);
    var r, q := Remove(queue, p), Touch(queue, p);
    forall k | k in d.entries && k != p
      ensures k in c.entries && d.entries[k] == c.entries[k]
    {
      assert k in d.entries - {p} && (d.entries - {p})[k] == (c.entries - {p})[k];
    }
    forall i | 0 <= i < |r|
      ensures r[i] != p && r[i] in d.entries && d.entries[r[i]] == c.entries[r[i]]
    {
      assert r[i] in r;
      assert r[i] in c.entries - {p};
    }
    forall k | k in d.entries
      ensures k in q
    {
      if k != p {
        assert k in r;
      } else {
        assert q[|r|] == p;
      }
    }
  }

  /** A hit moves the prefix to the back, a miss on an expired entry removes it. */
  lemma GetQueued<V>(lim: Limits, c: Cache<V>, queue: seq<string>, p: string, now: Time)
    requires Queued(c, queue) && p in c.entries
    ensures var f := Fetch(lim, c, p, now);
            Queued(f.cache, if f.token.Some? then Touch(queue, p) else Remove(queue, p))
  {
    var f := Fetch(lim, c, p, now);
    if f.token.Some? {
      assert f.cache.entries - {p} == c.entries - {p};
      TouchQueued(c, queue, f.cache, p);
    } else {
      RemoveQueued(c, queue, p);
    }
  }

  lemma RemoveFront(queue: seq<string>)
    requires queue != [] && queue[0] !in queue[1..]
    ensures Remove(queue, queue[0]) == queue[1..]
  {
    RemoveAbsent(queue[1..], queue[0]);
  }

  lemma {:induction false} RemoveAbsent(queue: seq<string>, p: string)
    requires p !in queue
    ensures Remove(queue, p) == queue
  {
    if queue != [] {
      RemoveAbsent(queue[1..], p);
    }
  }

  /** When nothing is expired, the only possible victim is the front of the queue. */
  lemma VictimIsFront<V>(lim: Limits, c: Cache<V>, queue: seq<string>, now: Time, k: string)
    requires Queued(c, queue) && Victim(lim, c.entries, now, k)
    requires forall j | j in c.entries :: !Expired(lim, c.entries[j], now)
    ensures queue != [] && k == queue[0] && Remove(queue, k) == queue[1..]
  {
    var i :| 0 <= i < |queue| && queue[i] == k;
    assert queue[0] in c.entries;
    assert c.entries[k].lastUsed <= c.entries[queue[0]].lastUsed;
    assert i == 0;
    forall j | 1 <= j < |queue|
      ensures queue[j] != queue[0]
    {
      assert c.entries[queue[0]].lastUsed < c.entries[queue[j]].lastUsed;
    }
    RemoveFront(queue);
  }

  /** Inserting into a full cache with nothing expired loses the front of the queue. */
  lemma InsertFull<V>(lim: Limits, c: Cache<V>, queue: seq<string>, p: string, token: V, now: Time, d: Cache<V>)
    requires Queued(c, queue) && Inserts(lim, c, p, token, now, d)
    requires p !in c.entries && |c.entries| >= lim.capacity && c.entries != map[]
    requires forall j | j in c.entries :: !Expired(lim, c.entries[j], now)
    ensures queue != [] && Queued(d, Touch(queue[1..], p))
  {
    var k :| k in c.entries && Victim(lim, c.entries, now, k) && d.entries - {p} == c.entries - {k};
    assert Drop(c, k).entries - {p} == c.entries - {k};
    VictimIsFront(lim, c, queue, now, k);
    RemoveQueued(c, queue, k);
    TouchQueued(Drop(c, k), queue[1..], d, p);
  }

  /** Inserting with nothing expired is insertion into an LRU queue: the prefix goes to the back,
      and a full cache loses exactly the front. */
  lemma InsertQueued<V>(lim: Limits, c: Cache<V>, queue: seq<string>, p: string, token: V, now: Time, d: Cache<V>)
    requires Queued(c, queue) && Inserts(lim, c, p, token, now, d)
    requires forall j | j in c.entries :: !Expired(lim, c.entries[j], now)
    ensures var full := p !in c.entries && |c.entries| >= lim.capacity && c.entries != map[];
            (full ==> queue != []) && Queued(d, Touch(if full then queue[1..] else queue, p))
  {
    if p in c.entries || |c.entries| < lim.capacity {
      TouchQueued(c, queue, d, p);
    } else if c.entries == map[] {
      assert c.entries - {p} == d.entries - {p};
      TouchQueued(c, queue, d, p);
    } else {
      InsertFull(lim, c, queue, p, token, now, d);
    }
  }

  /** A full cache with an expired entry loses one expired entry and nothing else. */
  lemma InsertDropsExpired<V>(lim: Limits, c: Cache<V>, p: string, token: V, now: Time, d: Cache<V>, j: string)
    requires Inserts(lim, c, p, token, now, d) && p !in c.entries && |c.entries| >= lim.capacity
    requires j in c.entries && Expired(lim, c.entries[j], now)
    ensures exists k | k in c.entries :: Expired(lim, c.entries[k], now) && d.entries - {p} == c.entries - {k}
  {
  }

  // ----- Whole runs

  /** An LRU queue of this capacity (of one, if the setting is zero). */
  function LruStep<V>(lim: Limits, queue: seq<string>, op: Op<V>): seq<string> {
    match op
    case OpGet(p, _) => if p in queue then Touch(queue, p) else queue
    case OpInsert(p, _, _) =>
      if p in queue || |queue| < lim.capacity || queue == [] then Touch(queue, p) else Touch(queue[1..], p)
    case OpInvalidate(p) => Remove(queue, p)
    case OpClear => []
  }

  function Lru<V>(lim: Limits, ops: seq<Op<V>>): seq<string> {
    if ops == [] then [] else LruStep(lim, Lru(lim, ops[..|ops| - 1]), ops[|ops| - 1])
  }

  /** Nothing in the cache is expired when the operation happens. */
  predicate AllFresh<V>(lim: Limits, c: Cache<V>, op: Op<V>) {
    (op.OpGet? || op.OpInsert?) ==> forall j | j in c.entries :: !Expired(lim, c.entries[j], op.now)
  }

  lemma QueueSize<V>(c: Cache<V>, queue: seq<string>)
    requires Queued(c, queue)
    ensures |queue| == |c.entries| && forall k :: k in queue <==> k in c.entries
  {
    forall i, j | 0 <= i < j < |queue|
      ensures queue[i] != queue[j]
    {
      assert c.entries[queue[i]].lastUsed < c.entries[queue[j]].lastUsed;
    }
    DistinctSize(queue);
    assert (set k | k in queue) == c.entries.Keys;
  }

  lemma {:induction false} DistinctSize(queue: seq<string>)
    requires forall i, j | 0 <= i < j < |queue| :: queue[i] != queue[j]
    ensures |set k | k in queue| == |queue|
  {
    if queue != [] {
      DistinctSize(queue[1..]);
      assert queue == [queue[0]] + queue[1..];
      assert (set k | k in queue) == (set k | k in queue[1..]) + {queue[0]};
    }
  }

  lemma LruStepQueued<V>(lim: Limits, c: Cache<V>, queue: seq<string>, op: Op<V>, d: Cache<V>)
    requires Queued(c, queue) && OpStep(lim, c, op, d) && AllFresh(lim, c, op)
    ensures Queued(d, LruStep(lim, queue, op))
  {
    QueueSize(c, queue);
    match op
    case OpGet(p, now) =>
      if p in c.entries {
        GetQueued(lim, c, queue, p, now);
      }
    case OpInsert(p, token, now) => InsertQueued(lim, c, queue, p, token, now, d);
    case OpInvalidate(p) => RemoveQueued(c, queue, p);
    case OpClear =>
  }

  /** Over every run in which nothing has expired, the cache is an LRU queue: it holds the queue's
      prefixes, in the queue's order of last use. */
  lemma {:induction false} RunIsLru<V>(lim: Limits, ops: seq<Op<V>>, caches: seq<Cache<V>>)
    requires IsRun(lim, ops, caches) && forall i | 0 <= i < |ops| :: AllFresh(lim, caches[i], ops[i])
    ensures Queued(caches[|ops|], Lru(lim, ops))
    decreases |ops|
  {
    if ops != [] {
      var n := |ops| - 1;
      RunIsLru(lim, ops[..n], caches[..n + 1]);
      assert OpStep(lim, caches[n], ops[n], caches[n + 1]);
      LruStepQueued(lim, caches[n], Lru(lim, ops[..n]), ops[n], caches[n + 1]);
    }
  }
}
