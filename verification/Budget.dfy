/** Token budgets: a check before a request is forwarded, a spend recorded after the reply. */
module Budget {
  import opened Seqs
  import opened Options

  datatype Spend = Spend(apiKey: string, promptTokens: nat, completionTokens: nat, total: nat, model: string)

  datatype Store = Store(limits: map<string, nat>, usage: map<string, nat>, logs: seq<Spend>)

  datatype BudgetCheck = Unlimited | Within(usage: nat, limit: nat) | Exceeded(usage: nat, limit: nat)

  function GetUsage(s: Store, key: string): nat {
    if key in s.usage then s.usage[key] else 0
  }

  function Checked(s: Store, key: string): BudgetCheck {
    if key !in s.limits then Unlimited
    else if GetUsage(s, key) >= s.limits[key] then Exceeded(GetUsage(s, key), s.limits[key])
    else Within(GetUsage(s, key), s.limits[key])
  }

  function Recorded(s: Store, key: string, prompt: nat, completion: nat, model: string): Store {
    var total := prompt + completion;
    s.(logs := s.logs + [Spend(key, prompt, completion, total, model)],
       usage := s.usage[key := GetUsage(s, key) + total])
  }

  function Limited(s: Store, key: string, limit: nat): Store {
    s.(limits := s.limits[key := limit])
  }

  /** UPDATE: a key without a usage row stays without one. */
  function Zeroed(s: Store, key: string): Store {
    if key in s.usage then s.(usage := s.usage[key := 0]) else s
  }

  class BudgetStore {
    var limits: map<string, nat>
    var usage: map<string, nat>
    var logs: seq<Spend>

    constructor ()
      ensures State() == Store(map[], map[], [])
    {
      limits, usage, logs := map[], map[], [];
    }

    function State(): Store
      reads this
    {
      Store(limits, usage, logs)
    }

    method RecordSpend(key: string, prompt: nat, completion: nat, model: string)
      modifies this
      ensures State() == Recorded(old(State()), key, prompt, completion, model)
    {
      var total := prompt + completion;
      logs := logs + [Spend(key, prompt, completion, total, model)];
      if key in usage {
        usage := usage[key := usage[key] + total];
      } else {
        usage := usage[key := total];
      }
    }

    method ResetUsage(key: string)
      modifies this
      ensures State() == Zeroed(old(State()), key)
    {
      if key in usage {
        usage := usage[key := 0];
      }
    }

    method SetLimit(key: string, limit: nat)
      modifies this
      ensures State() == Limited(old(State()), key, limit)
    {
      limits := limits[key := limit];
    }

    method Check(key: string) returns (r: BudgetCheck)
      ensures r == Checked(State(), key)
      ensures r.Unlimited? <==> key !in limits
      ensures !r.Unlimited? ==> r.limit == limits[key] && r.usage == GetUsage(State(), key)
      ensures r.Exceeded? <==> key in limits && limits[key] <= GetUsage(State(), key)
    {
      if key !in limits {
        return Unlimited;
      }
      var limit := limits[key];
      var used := if key in usage then usage[key] else 0;
      if used >= limit {
        return Exceeded(used, limit);
      } else {
        return Within(used, limit);
      }
    }
  }

  // ----- Requests in flight

  /** The store and, for each request between its check and its record, the key it runs under. */
  datatype State = State(store: Store, flying: map<nat, string>)

  datatype Label =
    | Admit(id: nat, key: string)
    | Refuse(key: string)
    | Record(id: nat, prompt: nat, completion: nat, model: string)
    | Abandon(id: nat)
    | Limit(key: string, limit: nat)
    | Reset(key: string)

  predicate Step(s: State, l: Label, t: State) {
    match l
    case Admit(id, key) =>
      id !in s.flying && !Checked(s.store, key).Exceeded? && t == s.(flying := s.flying[id := key])
    case Refuse(key) => Checked(s.store, key).Exceeded? && t == s
    case Record(id, prompt, completion, model) =>
      id in s.flying &&
      t == State(Recorded(s.store, s.flying[id], prompt, completion, model), s.flying - {id})
    case Abandon(id) => id in s.flying && t == s.(flying := s.flying - {id})
    case Limit(key, limit) => t == s.(store := Limited(s.store, key, limit))
    case Reset(key) => t == s.(store := Zeroed(s.store, key))
  }

  predicate IsRun(labels: seq<Label>, states: seq<State>) {
    |states| == |labels| + 1 && forall i | 0 <= i < |labels| :: Step(states[i], labels[i], states[i + 1])
  }

  function Flying(s: State, key: string): set<nat> {
    set id | id in s.flying && s.flying[id] == key
  }

  // ----- The overshoot bound

  /** No record spends more than `m` tokens, and the limit of `key` is never lowered. */
  predicate Modest(s: State, l: Label, key: string, m: nat) {
    && (l.Record? && l.id in s.flying && s.flying[l.id] == key ==> l.prompt + l.completion <= m)
    && (l.Limit? && l.key == key ==> key in s.store.limits && s.store.limits[key] <= l.limit)
  }

  /** What is spent, plus what is in flight, is within the bound. */
  predicate Bounded(s: State, key: string, n: nat, m: nat) {
    && key in s.store.limits && s.store.limits[key] >= 1
    && GetUsage(s.store, key) + |Flying(s, key)| * m <= s.store.limits[key] - 1 + n * m
  }

  lemma MulMonotone(a: nat, b: nat, m: nat)
    requires a <= b
    ensures a * m <= b * m
  {
  }

  lemma LandedRequest(s: State, id: nat, key: string)
    requires id in s.flying
    ensures var landed := Flying(s.(flying := s.flying - {id}), key);
            if s.flying[id] == key then |landed| + 1 == |Flying(s, key)| else landed == Flying(s, key)
  {
    assert Flying(s.(flying := s.flying - {id}), key) == Flying(s, key) - {id};
    assert id in Flying(s, key) <==> s.flying[id] == key;
  }

  /** Admission only happens below the limit, whatever is already in flight. */
  lemma BoundedAdmit(s: State, id: nat, t: State, key: string, n: nat, m: nat)
    requires Step(s, Admit(id, key), t) && Bounded(s, key, n, m) && |Flying(t, key)| <= n
    ensures Bounded(t, key, n, m)
  {
    MulMonotone(|Flying(t, key)|, n, m);
  }

  lemma BoundedRecord(s: State, l: Label, t: State, key: string, n: nat, m: nat)
    requires l.Record? && Step(s, l, t) && Bounded(s, key, n, m) && Modest(s, l, key, m)
    ensures Bounded(t, key, n, m)
  {
    LandedRequest(s, l.id, key);
    if s.flying[l.id] == key {
      MulSucc(|Flying(t, key)|, m);
    }
  }

  lemma MulSucc(a: nat, m: nat)
    ensures (a + 1) * m == a * m + m
  {
  }

  lemma BoundedAbandon(s: State, id: nat, t: State, key: string, n: nat, m: nat)
    requires Step(s, Abandon(id), t) && Bounded(s, key, n, m)
    ensures Bounded(t, key, n, m)
  {
    LandedRequest(s, id, key);
    assert t == s.(flying := s.flying - {id});
    Shrinks(Flying(s, key), id);
    MulMonotone(|Flying(t, key)|, |Flying(s, key)|, m);
  }

  lemma Shrinks(a: set<nat>, x: nat)
    ensures |a - {x}| <= |a|
  {
  }

  lemma BoundedStep(s: State, l: Label, t: State, key: string, n: nat, m: nat)
    requires Step(s, l, t) && Bounded(s, key, n, m) && Modest(s, l, key, m)
    requires |Flying(t, key)| <= n
    ensures Bounded(t, key, n, m)
  {
    match l
    case Admit(id, k) =>
      if k == key {
        BoundedAdmit(s, id, t, key, n, m);
      } else {
        assert Flying(t, key) == Flying(s, key);
      }
    case Record(_, _, _, _) => BoundedRecord(s, l, t, key, n, m);
    case Abandon(id) => BoundedAbandon(s, id, t, key, n, m);
    case _ =>
      assert Flying(t, key) == Flying(s, key);
  }

  /** In every run in which at most `n` requests of a key are in flight at once, none spends more
      than `m` tokens, and the key's limit is set before anything is spent and never lowered:
      usage never exceeds limit - 1 + n * m. */
  lemma {:induction false} OvershootBound(labels: seq<Label>, states: seq<State>, key: string, n: nat, m: nat, i: nat)
    requires IsRun(labels, states) && i <= |labels|
    requires key in states[0].store.limits && states[0].store.limits[key] >= 1
    requires GetUsage(states[0].store, key) == 0 && Flying(states[0], key) == {}
    requires forall k | 0 <= k <= |labels| :: |Flying(states[k], key)| <= n
    requires forall k | 0 <= k < |labels| :: Modest(states[k], labels[k], key, m)
    ensures Bounded(states[i], key, n, m)
    ensures GetUsage(states[i].store, key) <= states[i].store.limits[key] - 1 + n * m
    decreases i
  {
    if i == 0 {
      MulMonotone(0, n, m);
    } else {
      OvershootBound(labels, states, key, n, m, i - 1);
      assert Step(states[i - 1], labels[i - 1], states[i]);
      BoundedStep(states[i - 1], labels[i - 1], states[i], key, n, m);
    }
    MulMonotone(0, |Flying(states[i], key)|, m);
  }

  /** The bound is attained: from no usage at all there is a run within the conditions of the bound
      that brings usage to limit - 1 + n * m.  (With n or m zero nothing is ever spent.) */
  lemma OvershootAttained(s: State, key: string, n: nat, m: nat) returns (labels: seq<Label>, states: seq<State>)
    requires s.flying == map[] && key in s.store.limits && s.store.limits[key] >= 1
    requires GetUsage(s.store, key) == 0 && n >= 1 && m >= 1
    ensures IsRun(labels, states) && states[0] == s && Flying(s, key) == {}
    ensures forall k | 0 <= k < |labels| :: Modest(states[k], labels[k], key, m)
    ensures forall k | 0 <= k < |states| :: |Flying(states[k], key)| <= n
    ensures var last := states[|labels|];
            last.store.limits == s.store.limits && GetUsage(last.store, key) == s.store.limits[key] - 1 + n * m
  {
    var warm, before := WarmUp(s, key, n, m);
    var rush, after := CrowdRun(before[|warm|], key, n, m);
    JoinRuns(warm, before, rush, after, key, n, m);
    labels, states := warm + rush, before + after[1..];
  }

  /** Requests of one token, one after the other, up to one token below the limit. */
  lemma WarmUp(s: State, key: string, n: nat, m: nat) returns (labels: seq<Label>, states: seq<State>)
    requires s.flying == map[] && key in s.store.limits && s.store.limits[key] >= 1
    requires GetUsage(s.store, key) == 0 && n >= 1 && m >= 1
    ensures InBounds(labels, states, key, n, m) && states[0] == s
    ensures states[|labels|].flying == map[] && states[|labels|].store.limits == s.store.limits
    ensures GetUsage(states[|labels|].store, key) == s.store.limits[key] - 1
  {
    labels, states := [], [s];
    for k := 0 to s.store.limits[key] - 1
      invariant InBounds(labels, states, key, n, m) && states[0] == s
      invariant states[|labels|].flying == map[] && states[|labels|].store.limits == s.store.limits
      invariant GetUsage(states[|labels|].store, key) == k
    {
      var now := states[|labels|];
      var mid := now.(flying := map[0 := key]);
      ExtendWithin(labels, states, Admit(0, key), mid, key, n, m);
      labels, states := labels + [Admit(0, key)], states + [mid];
      var after := State(Recorded(now.store, key, 1, 0, ""), map[]);
      assert mid.flying - {0} == map[];
      ExtendWithin(labels, states, Record(0, 1, 0, ""), after, key, n, m);
      labels, states := labels + [Record(0, 1, 0, "")], states + [after];
    }
  }

  /** A run that stays within the conditions of the bound. */
  predicate InBounds(labels: seq<Label>, states: seq<State>, key: string, n: nat, m: nat) {
    && IsRun(labels, states)
    && (forall k | 0 <= k < |labels| :: Modest(states[k], labels[k], key, m))
    && (forall k | 0 <= k < |states| :: |Flying(states[k], key)| <= n)
  }

  lemma ExtendWithin(labels: seq<Label>, states: seq<State>, l: Label, t: State, key: string, n: nat, m: nat)
    requires InBounds(labels, states, key, n, m) && Step(states[|labels|], l, t) && Modest(states[|labels|], l, key, m)
    requires n >= 1 && (t.flying == map[] || t.flying == map[0 := key])
    ensures InBounds(labels + [l], states + [t], key, n, m)
  {
    Extend(labels, states, l, t);
    assert Flying(t, key) <= {0};
    assert |Flying(t, key)| <= 1 by {
      assert Flying(t, key) == {} || Flying(t, key) == {0};
    }
  }

  lemma JoinRuns(a: seq<Label>, ss: seq<State>, b: seq<Label>, ts: seq<State>, key: string, n: nat, m: nat)
    requires InBounds(a, ss, key, n, m) && InBounds(b, ts, key, n, m) && ss[|a|] == ts[0]
    ensures InBounds(a + b, ss + ts[1..], key, n, m) && (ss + ts[1..])[|a + b|] == ts[|b|]
  {
    var ls, us := a + b, ss + ts[1..];
    assert forall k | 0 <= k <= |a| :: us[k] == ss[k];
    assert forall k | 0 <= k <= |b| :: us[|a| + k] == ts[k];
    forall i | 0 <= i < |ls|
      ensures Step(us[i], ls[i], us[i + 1]) && Modest(us[i], ls[i], key, m)
    {
      if i < |a| {
        assert Step(ss[i], a[i], ss[i + 1]);
      } else {
        assert us[i] == ts[i - |a|] && us[i + 1] == ts[i - |a| + 1] && ls[i] == b[i - |a|];
        assert Step(ts[i - |a|], b[i - |a|], ts[i - |a| + 1]);
      }
    }
    forall k | 0 <= k < |us|
      ensures |Flying(us[k], key)| <= n
    {
      if k > |a| {
        assert us[k] == ts[k - |a|];
      }
    }
  }

  /** From one token below the limit, `n` requests admitted together and then recorded with `m`
      tokens each. */
  lemma CrowdRun(s: State, key: string, n: nat, m: nat) returns (labels: seq<Label>, states: seq<State>)
    requires s.flying == map[] && key in s.store.limits && s.store.limits[key] >= 1
    requires GetUsage(s.store, key) == s.store.limits[key] - 1
    ensures IsRun(labels, states) && states[0] == s
    ensures forall k | 0 <= k < |labels| :: Modest(states[k], labels[k], key, m)
    ensures forall k | 0 <= k < |states| :: |Flying(states[k], key)| <= n
    ensures var last := states[|labels|];
            last.store.limits == s.store.limits && GetUsage(last.store, key) == s.store.limits[key] - 1 + n * m
  {
    labels, states := [], [s];
    for k := 0 to n
      invariant IsRun(labels, states) && states[0] == s
      invariant states[|labels|] == State(s.store, Crowd(key, k))
      invariant forall j | 0 <= j < |labels| :: Modest(states[j], labels[j], key, m)
      invariant forall j | 0 <= j < |states| :: |Flying(states[j], key)| <= k
    {
      var now := states[|labels|];
      var after := now.(flying := now.flying[k := key]);
      assert after.flying == Crowd(key, k + 1);
      AllFlying(after, key, k + 1);
      Extend(labels, states, Admit(k, key), after);
      labels, states := labels + [Admit(k, key)], states + [after];
    }
    var left := n;
    AllFlying(states[|labels|], key, n);
    while left > 0
      invariant 0 <= left <= n
      invariant IsRun(labels, states) && states[0] == s
      invariant states[|labels|].flying == Crowd(key, left)
      invariant states[|labels|].store.limits == s.store.limits
      invariant GetUsage(states[|labels|].store, key) == s.store.limits[key] - 1 + (n - left) * m
      invariant forall j | 0 <= j < |labels| :: Modest(states[j], labels[j], key, m)
      invariant forall j | 0 <= j < |states| :: |Flying(states[j], key)| <= n
    {
      left := left - 1;
      var now := states[|labels|];
      var l := Record(left, m, 0, "");
      var after := State(Recorded(now.store, key, m, 0, ""), now.flying - {left});
      assert Crowd(key, left + 1) - {left} == Crowd(key, left);
      AllFlying(after, key, left);
      Extend(labels, states, l, after);
      assert (n - left) * m == (n - left - 1) * m + m;
      labels, states := labels + [l], states + [after];
    }
  }

  /** Requests 0 up to `k`, all under `key`. */
  function Crowd(key: string, k: nat): (m: map<nat, string>)
    ensures forall id | id in m :: id < k && m[id] == key
  {
    if k == 0 then map[] else Crowd(key, k - 1)[k - 1 := key]
  }

  lemma {:induction false} AllFlying(s: State, key: string, k: nat)
    requires s.flying == Crowd(key, k)
    ensures |Flying(s, key)| == k
    decreases k
  {
    if k > 0 {
      var before := s.(flying := Crowd(key, k - 1));
      AllFlying(before, key, k - 1);
      assert Flying(s, key) == Flying(before, key) + {k - 1};
    } else {
      assert Flying(s, key) == {};
    }
  }

  lemma Extend(labels: seq<Label>, states: seq<State>, l: Label, t: State)
    requires IsRun(labels, states) && Step(states[|labels|], l, t)
    ensures IsRun(labels + [l], states + [t])
  {
    var ls, ss := labels + [l], states + [t];
    forall i | 0 <= i < |ls|
      ensures Step(ss[i], ls[i], ss[i + 1])
    {
      if i < |labels| {
        assert ss[i] == states[i] && ss[i + 1] == states[i + 1] && ls[i] == labels[i];
      }
    }
  }

  // ----- Usage is the logged spend since the last reset

  /** Tokens logged for `key` in entries `from` and later. */
  function Logged(logs: seq<Spend>, key: string, from: nat): nat {
    if |logs| <= from then 0
    else
      var n := |logs| - 1;
      Logged(logs[..n], key, from) + (if logs[n].apiKey == key then logs[n].total else 0)
  }

  /** How long the log was at the last reset of `key` in the run. */
  function ResetMark(labels: seq<Label>, states: seq<State>, key: string, i: nat): nat
    requires |states| == |labels| + 1 && i <= |labels|
  {
    if i == 0 then |states[0].store.logs|
    else if labels[i - 1] == Reset(key) then |states[i - 1].store.logs|
    else ResetMark(labels, states, key, i - 1)
  }

  lemma LoggedAppend(logs: seq<Spend>, x: Spend, key: string, from: nat)
    requires from <= |logs|
    ensures Logged(logs + [x], key, from) == Logged(logs, key, from) + (if x.apiKey == key then x.total else 0)
  {
    assert (logs + [x])[..|logs|] == logs;
  }

  /** In every run from a store without usage, a key's usage is the sum of its logged totals since
      its last reset, and the log only grows. */
  lemma {:induction false} UsageIsLogged(labels: seq<Label>, states: seq<State>, key: string, i: nat)
    requires IsRun(labels, states) && i <= |labels| && GetUsage(states[0].store, key) == 0
    ensures ResetMark(labels, states, key, i) <= |states[i].store.logs|
    ensures GetUsage(states[i].store, key) == Logged(states[i].store.logs, key, ResetMark(labels, states, key, i))
    ensures states[0].store.logs <= states[i].store.logs
    decreases i
  {
    if i > 0 {
      UsageIsLogged(labels, states, key, i - 1);
      var s, l, t := states[i - 1], labels[i - 1], states[i];
      assert Step(s, l, t);
      if l.Record? {
        var x := Spend(s.flying[l.id], l.prompt, l.completion, l.prompt + l.completion, l.model);
        LoggedAppend(s.store.logs, x, key, ResetMark(labels, states, key, i - 1));
      }
    }
  }

  // ----- The store, told by the labels of a run alone

  /** The key that request `id` runs under: that of its last admission. */
  function KeyOf(s: State, labels: seq<Label>, id: nat): Option<string> {
    if labels == [] then (if id in s.flying then Some(s.flying[id]) else None)
    else
      var l := labels[|labels| - 1];
      if l.Admit? && l.id == id then Some(l.key) else KeyOf(s, labels[..|labels| - 1], id)
  }

  /** Prompt and completion tokens recorded for `key` since its last reset. */
  function Spent(s: State, labels: seq<Label>, key: string): nat {
    if labels == [] then GetUsage(s.store, key)
    else
      var l, before := labels[|labels| - 1], labels[..|labels| - 1];
      if l == Reset(key) then 0
      else if l.Record? && KeyOf(s, before, l.id) == Some(key) then Spent(s, before, key) + l.prompt + l.completion
      else Spent(s, before, key)
  }

  /** The last limit set for `key`. */
  function LastLimit(s: State, labels: seq<Label>, key: string): Option<nat> {
    if labels == [] then LimitOf(s, key)
    else
      var l := labels[|labels| - 1];
      if l.Limit? && l.key == key then Some(l.limit) else LastLimit(s, labels[..|labels| - 1], key)
  }

  lemma {:induction false} FlyingIsAdmitted(labels: seq<Label>, states: seq<State>, id: nat, i: nat)
    requires IsRun(labels, states) && i <= |labels| && id in states[i].flying
    ensures KeyOf(states[0], labels[..i], id) == Some(states[i].flying[id])
    decreases i
  {
    if i > 0 {
      assert Step(states[i - 1], labels[i - 1], states[i]);
      Advance(labels, i - 1);
      if id in states[i - 1].flying {
        FlyingIsAdmitted(labels, states, id, i - 1);
      }
    }
  }

  /** Usage and limits are what the labels say. */
  lemma {:induction false} StoreIsTold(labels: seq<Label>, states: seq<State>, key: string, i: nat)
    requires IsRun(labels, states) && i <= |labels|
    ensures GetUsage(states[i].store, key) == Spent(states[0], labels[..i], key)
    ensures LimitOf(states[i], key) == LastLimit(states[0], labels[..i], key)
    decreases i
  {
    if i > 0 {
      StoreIsTold(labels, states, key, i - 1);
      assert Step(states[i - 1], labels[i - 1], states[i]);
      if labels[i - 1].Record? {
        FlyingIsAdmitted(labels, states, labels[i - 1].id, i - 1);
      }
      Advance(labels, i - 1);
      StoreStep(states[0], labels[..i - 1], labels[i - 1], states[i - 1], states[i], key);
    }
  }

  function LimitOf(s: State, key: string): Option<nat> {
    if key in s.store.limits then Some(s.store.limits[key]) else None
  }

  lemma StoreStep(first: State, before: seq<Label>, l: Label, s: State, t: State, key: string)
    requires Step(s, l, t) && GetUsage(s.store, key) == Spent(first, before, key) && LimitOf(s, key) == LastLimit(first, before, key)
    requires l.Record? ==> KeyOf(first, before, l.id) == Some(s.flying[l.id])
    ensures GetUsage(t.store, key) == Spent(first, before + [l], key) && LimitOf(t, key) == LastLimit(first, before + [l], key)
  {
    Snoc(before, l);
  }

  /** In every run: a request is admitted only while what its key spent since the last reset is below
      the key's last limit, if there is one, and is refused only otherwise. */
  lemma AdmittedBelowLimit(labels: seq<Label>, states: seq<State>, i: nat)
    requires IsRun(labels, states) && i < |labels| && (labels[i].Admit? || labels[i].Refuse?)
    ensures var key := labels[i].key;
            var limit := LastLimit(states[0], labels[..i], key);
            labels[i].Admit? <==> limit.None? || Spent(states[0], labels[..i], key) < limit.value
  {
    StoreIsTold(labels, states, labels[i].key, i);
    assert Step(states[i], labels[i], states[i + 1]);
  }

  /** The rows that the records of a run write, in order. */
  function RowsOf(s: State, labels: seq<Label>): seq<Spend> {
    if labels == [] then []
    else
      var l, before := labels[|labels| - 1], labels[..|labels| - 1];
      if l.Record? && KeyOf(s, before, l.id).Some? then
        RowsOf(s, before) + [Spend(KeyOf(s, before, l.id).value, l.prompt, l.completion, l.prompt + l.completion, l.model)]
      else RowsOf(s, before)
  }

  /** The log grows by exactly one row per record, with the key it was admitted under and its tokens. */
  lemma {:induction false} LogIsTold(labels: seq<Label>, states: seq<State>, i: nat)
    requires IsRun(labels, states) && i <= |labels|
    ensures states[i].store.logs == states[0].store.logs + RowsOf(states[0], labels[..i])
    decreases i
  {
    if i == 0 {
      Whole(states[0].store.logs);
    } else {
      LogIsTold(labels, states, i - 1);
      assert Step(states[i - 1], labels[i - 1], states[i]);
      if labels[i - 1].Record? {
        FlyingIsAdmitted(labels, states, labels[i - 1].id, i - 1);
      }
      Advance(labels, i - 1);
      LogStep(states[0], labels[..i - 1], labels[i - 1], states[i - 1], states[i]);
    }
  }

  lemma LogStep(first: State, before: seq<Label>, l: Label, s: State, t: State)
    requires Step(s, l, t) && s.store.logs == first.store.logs + RowsOf(first, before)
    requires l.Record? ==> KeyOf(first, before, l.id) == Some(s.flying[l.id])
    ensures t.store.logs == first.store.logs + RowsOf(first, before + [l])
  {
    Snoc(before, l);
    if l.Record? {
      var row := Spend(s.flying[l.id], l.prompt, l.completion, l.prompt + l.completion, l.model);
      Assoc(first.store.logs, RowsOf(first, before), [row]);
    }
  }

  lemma Snoc(before: seq<Label>, l: Label)
    ensures var all := before + [l]; all[..|all| - 1] == before && all[|all| - 1] == l
  {
  }
}
