/** Backend routing: accepting a configuration, resolving a model to a chain of backends, and
    failing over along the chain. */
module Routing {
  import opened Seqs
  import opened Options

  datatype Backend = Backend(provider: string, endpoint: string)

  datatype Rule = Rule(model: string, backend: string, fallback: seq<string>)

  datatype RoutingConfig = RoutingConfig(default_: Option<string>, rules: seq<Rule>)

  datatype Config = Config(backends: map<string, Backend>, legacy: Option<Backend>, routing: RoutingConfig)

  datatype Pool = Pool(backends: map<string, Backend>, rules: seq<Rule>, defaultBackend: string)

  datatype Error =
    | NoBackend
    | UnknownBackend(rule: nat)
    | UnknownFallback(rule: nat)
    | FallbackIsPrimary(rule: nat)
    | DuplicateFallback(rule: nat)
    | UnknownDefault
    | DefaultRequired

  datatype Result<+T> = Ok(value: T) | Err(error: Error)

  // ----- Accepting a configuration

  function Backends(cfg: Config): map<string, Backend> {
    if cfg.backends == map[] && cfg.legacy.Some? then map["default" := cfg.legacy.value] else cfg.backends
  }

  predicate Distinct(labels: seq<string>) {
    forall i, j | 0 <= i < j < |labels| :: labels[i] != labels[j]
  }

  /** The chain of a rule: its backend, then its fallbacks. */
  function ChainOf(r: Rule): seq<string> {
    [r.backend] + r.fallback
  }

  /** All labels of the chain exist and none repeats. */
  predicate RuleOk(labels: set<string>, r: Rule) {
    Distinct(ChainOf(r)) && forall i | 0 <= i < |ChainOf(r)| :: ChainOf(r)[i] in labels
  }

  predicate DefaultOk(labels: set<string>, d: Option<string>) {
    match d
    case Some(name) => name in labels
    case None => |labels| == 1
  }

  predicate Accepted(cfg: Config) {
    var labels := Backends(cfg).Keys;
    && labels != {}
    && (forall i | 0 <= i < |cfg.routing.rules| :: RuleOk(labels, cfg.routing.rules[i]))
    && DefaultOk(labels, cfg.routing.default_)
  }

  predicate PoolOk(p: Pool) {
    && p.defaultBackend in p.backends
    && forall i | 0 <= i < |p.rules| :: RuleOk(p.backends.Keys, p.rules[i])
  }

  /** `Config::pool`: it succeeds exactly on the accepted configurations. */
  method ResolvePool(cfg: Config) returns (r: Result<Pool>)
    ensures r.Ok? <==> Accepted(cfg)
    ensures r.Ok? ==> PoolOk(r.value) && r.value.backends == Backends(cfg) && r.value.rules == cfg.routing.rules
    ensures r.Ok? && cfg.routing.default_.Some? ==> r.value.defaultBackend == cfg.routing.default_.value
  {
    var backends := cfg.backends;
    if backends == map[] && cfg.legacy.Some? {
      backends := backends["default" := cfg.legacy.value];
    }
    if backends == map[] {
      return Err(NoBackend);
    }
    assert backends.Keys != {};
    for i := 0 to |cfg.routing.rules|
      invariant forall k | 0 <= k < i :: RuleOk(backends.Keys, cfg.routing.rules[k])
    {
      var err := CheckRule(backends.Keys, cfg.routing.rules[i], i);
      if err.Some? {
        return Err(err.value);
      }
    }
    var default_;
    if cfg.routing.default_.Some? {
      default_ := cfg.routing.default_.value;
      if default_ !in backends {
        return Err(UnknownDefault);
      }
    } else if |backends| == 1 {
      assert |backends.Keys| == 1;
      default_ :| default_ in backends;
    } else {
      assert |backends.Keys| != 1;
      return Err(DefaultRequired);
    }
    return Ok(Pool(backends, cfg.routing.rules, default_));
  }

  /** One rule: the primary exists, every fallback exists, is not the primary and is new. */
  method CheckRule(labels: set<string>, r: Rule, n: nat) returns (err: Option<Error>)
    ensures err.None? <==> RuleOk(labels, r)
  {
    var chain := ChainOf(r);
    if r.backend !in labels {
      assert chain[0] == r.backend;
      return Some(UnknownBackend(n));
    }
    var seen: set<string> := {};
    for i := 0 to |r.fallback|
      invariant forall s :: s in seen <==> s in r.fallback[..i]
      invariant forall k | 0 <= k < i :: r.fallback[k] in labels && r.fallback[k] != r.backend
      invariant Distinct(r.fallback[..i])
    {
      var fb := r.fallback[i];
      assert chain[i + 1] == fb && chain[0] == r.backend;
      if fb !in labels {
        return Some(UnknownFallback(n));
      }
      if fb == r.backend {
        return Some(FallbackIsPrimary(n));
      }
      if fb in seen {
        ghost var j :| 0 <= j < i && r.fallback[..i][j] == fb;
        assert chain[j + 1] == fb;
        return Some(DuplicateFallback(n));
      }
      seen := seen + {fb};
      assert r.fallback[..i + 1] == r.fallback[..i] + [fb];
    }
    assert r.fallback[..|r.fallback|] == r.fallback;
    assert forall k | 1 <= k < |chain| :: chain[k] == r.fallback[k - 1];
    return None;
  }

  // ----- The console's check of a routing edit

  datatype Edit = Edit(default_: string, rules: seq<Rule>)

  /** `str::trim`, of which only idempotence matters. */
  ghost predicate TrimOk(trim: string -> string) {
    forall s :: trim(trim(s)) == trim(s)
  }

  function TrimAll(trim: string -> string, labels: seq<string>): (r: seq<string>)
    ensures |r| == |labels| && forall i | 0 <= i < |labels| :: r[i] == trim(labels[i])
  {
    seq(|labels|, i requires 0 <= i < |labels| => trim(labels[i]))
  }

  function NonEmpty(labels: seq<string>): seq<string> {
    if labels == [] then [] else (if labels[0] == "" then [] else [labels[0]]) + NonEmpty(labels[1..])
  }

  function NormalRule(trim: string -> string, r: Rule): Rule {
    Rule(trim(r.model), trim(r.backend), NonEmpty(TrimAll(trim, r.fallback)))
  }

  /** What the handler does to an edit before anything else looks at it. */
  function Normalized(trim: string -> string, e: Edit): Edit {
    Edit(trim(e.default_), seq(|e.rules|, i requires 0 <= i < |e.rules| => NormalRule(trim, e.rules[i])))
  }

  /** The trimmed form of a rule, as the check compares it. */
  function TrimRule(trim: string -> string, r: Rule): Rule {
    Rule(trim(r.model), trim(r.backend), TrimAll(trim, r.fallback))
  }

  predicate RuleValid(trim: string -> string, labels: set<string>, r: Rule) {
    var t := TrimRule(trim, r);
    && t.model != "" && t.backend != ""
    && (forall i | 0 <= i < |t.fallback| :: t.fallback[i] != "")
    && RuleOk(labels, t)
  }

  /** The first `n` rules have different models. */
  predicate DistinctModels(trim: string -> string, rules: seq<Rule>, n: nat)
    requires n <= |rules|
  {
    forall i, j | 0 <= i < j < n :: trim(rules[i].model) != trim(rules[j].model)
  }

  predicate EditValid(trim: string -> string, cfg: Config, e: Edit) {
    && trim(e.default_) != "" && trim(e.default_) in cfg.backends
    && (forall i | 0 <= i < |e.rules| :: RuleValid(trim, cfg.backends.Keys, e.rules[i]))
    && DistinctModels(trim, e.rules, |e.rules|)
  }

  /** `validate_routing_body`: it accepts exactly the valid edits. */
  method ValidateRoutingBody(trim: string -> string, cfg: Config, e: Edit) returns (ok: bool)
    ensures ok <==> EditValid(trim, cfg, e)
  {
    var default_ := trim(e.default_);
    if default_ == "" || default_ !in cfg.backends {
      return false;
    }
    var seenModels: set<string> := {};
    for i := 0 to |e.rules|
      invariant forall k | 0 <= k < i :: RuleValid(trim, cfg.backends.Keys, e.rules[k])
      invariant Seen(trim, e.rules, i, seenModels)
      invariant DistinctModels(trim, e.rules, i)
    {
      var model := trim(e.rules[i].model);
      var valid := ValidateRule(trim, cfg.backends.Keys, e.rules[i]);
      if !valid {
        return false;
      }
      SeenNext(trim, e.rules, i, seenModels);
      if model in seenModels {
        return false;
      }
      seenModels := seenModels + {model};
    }
    return true;
  }

  ghost predicate Seen(trim: string -> string, rules: seq<Rule>, n: nat, models: set<string>)
    requires n <= |rules|
  {
    && (forall k | 0 <= k < n :: trim(rules[k].model) in models)
    && (forall m | m in models :: exists k | 0 <= k < n :: trim(rules[k].model) == m)
  }

  lemma SeenNext(trim: string -> string, rules: seq<Rule>, n: nat, models: set<string>)
    requires n < |rules| && Seen(trim, rules, n, models)
    ensures Seen(trim, rules, n + 1, models + {trim(rules[n].model)})
    ensures DistinctModels(trim, rules, n + 1) <==> DistinctModels(trim, rules, n) && trim(rules[n].model) !in models
  {
  }

  method ValidateRule(trim: string -> string, labels: set<string>, r: Rule) returns (ok: bool)
    ensures ok <==> RuleValid(trim, labels, r)
  {
    ghost var t := TrimRule(trim, r);
    ghost var chain := ChainOf(t);
    var backend := trim(r.backend);
    assert chain[0] == backend;
    if trim(r.model) == "" || backend == "" || backend !in labels {
      return false;
    }
    var seen: set<string> := {};
    for i := 0 to |r.fallback|
      invariant forall s :: s in seen <==> s in t.fallback[..i]
      invariant forall k | 0 <= k < i :: t.fallback[k] != "" && t.fallback[k] in labels && t.fallback[k] != backend
      invariant Distinct(t.fallback[..i])
    {
      var fb := trim(r.fallback[i]);
      assert t.fallback[i] == fb && chain[i + 1] == fb;
      if fb == "" || fb !in labels || fb == backend {
        return false;
      }
      if fb in seen {
        ghost var j :| 0 <= j < i && t.fallback[..i][j] == fb;
        assert chain[j + 1] == fb;
        return false;
      }
      seen := seen + {fb};
      assert t.fallback[..i + 1] == t.fallback[..i] + [fb];
    }
    assert t.fallback[..|t.fallback|] == t.fallback;
    assert forall k | 1 <= k < |chain| :: chain[k] == t.fallback[k - 1];
    return true;
  }

  /** The configuration after an edit was written to disk. */
  function Written(cfg: Config, e: Edit): Config {
    cfg.(routing := RoutingConfig(Some(e.default_), e.rules))
  }

  predicate Trimmed(trim: string -> string, labels: seq<string>) {
    forall i | 0 <= i < |labels| :: labels[i] == trim(labels[i])
  }

  lemma {:induction false} NonEmptyTrimmed(trim: string -> string, labels: seq<string>)
    requires Trimmed(trim, labels)
    ensures Trimmed(trim, NonEmpty(labels))
  {
    if labels != [] {
      var rest := NonEmpty(labels[1..]);
      NonEmptyTrimmed(trim, labels[1..]);
      assert Trimmed(trim, [labels[0]] + rest);
    }
  }

  lemma NormalRuleTrimmed(trim: string -> string, r: Rule)
    requires TrimOk(trim)
    ensures TrimRule(trim, NormalRule(trim, r)) == NormalRule(trim, r)
  {
    assert Trimmed(trim, TrimAll(trim, r.fallback));
    NonEmptyTrimmed(trim, TrimAll(trim, r.fallback));
    var fallback := NormalRule(trim, r).fallback;
    assert TrimAll(trim, fallback) == fallback;
  }

  /** Every routing edit that the console accepts and writes yields a configuration that the proxy
      accepts on reload. */
  lemma AcceptedEditBoots(trim: string -> string, cfg: Config, e: Edit)
    requires TrimOk(trim) && EditValid(trim, cfg, Normalized(trim, e))
    ensures Accepted(Written(cfg, Normalized(trim, e)))
  {
    var n := Normalized(trim, e);
    forall i | 0 <= i < |n.rules|
      ensures RuleOk(cfg.backends.Keys, n.rules[i])
    {
      assert RuleValid(trim, cfg.backends.Keys, n.rules[i]);
      NormalRuleTrimmed(trim, e.rules[i]);
    }
    assert trim(n.default_) == n.default_;
    assert Backends(cfg) == cfg.backends;
  }

  lemma {:induction false} NonEmptyConcat(a: seq<string>, b: seq<string>)
    ensures NonEmpty(a + b) == NonEmpty(a) + NonEmpty(b)
  {
    if a == [] {
      assert a + b == b;
    } else {
      NonEmptyConcat(a[1..], b);
      HeadTail(a, b);
      Assoc(if a[0] == "" then [] else [a[0]], NonEmpty(a[1..]), NonEmpty(b));
    }
  }

  /** A fallback that is blank is dropped from the edit, and any other is kept, trimmed, in its place. */
  lemma FallbackNormalized(trim: string -> string, model: string, backend: string, a: seq<string>, x: string, b: seq<string>)
    ensures var kept := if trim(x) == "" then [] else [trim(x)];
            NormalRule(trim, Rule(model, backend, a + [x] + b)) ==
            Rule(trim(model), trim(backend), NonEmpty(TrimAll(trim, a)) + kept + NonEmpty(TrimAll(trim, b)))
  {
    var ta, tb := TrimAll(trim, a), TrimAll(trim, b);
    assert TrimAll(trim, a + [x] + b) == ta + [trim(x)] + tb;
    NonEmptyConcat(ta + [trim(x)], tb);
    NonEmptyConcat(ta, [trim(x)]);
    assert [trim(x)][1..] == [];
  }

  /** A legacy configuration with one backend and nothing else is accepted under the name `default`; with
      named backends the legacy one plays no part. */
  lemma LegacyBackend(cfg: Config)
    ensures cfg.backends == map[] && cfg.legacy.Some? && cfg.routing == RoutingConfig(None, []) ==>
              Accepted(cfg) && Backends(cfg).Keys == {"default"} && Backends(cfg)["default"] == cfg.legacy.value
    ensures cfg.backends != map[] ==> Backends(cfg) == cfg.backends
  {
  }

  // ----- Resolving a model

  predicate RuleMatches(pattern: string, model: string) {
    if pattern != "" && pattern[|pattern| - 1] == '*' then
      var prefix := pattern[..|pattern| - 1]; |prefix| <= |model| && model[..|prefix|] == prefix
    else pattern == model
  }

  /** A trailing `*` stands for any ending; without it only the model itself matches. */
  lemma RuleMatchesExactly(prefix: string, model: string)
    ensures RuleMatches(prefix + "*", model) <==> exists rest :: model == prefix + rest
    ensures prefix == "" || prefix[|prefix| - 1] != '*' ==> (RuleMatches(prefix, model) <==> model == prefix)
  {
    var pattern := prefix + "*";
    assert pattern[..|pattern| - 1] == prefix;
    if |prefix| <= |model| && model[..|prefix|] == prefix {
      assert model == prefix + model[|prefix|..];
    }
    assert forall rest :: (prefix + rest)[..|prefix|] == prefix;
  }

  /** The first rule that matches, by index; the number of rules if none does. */
  function FirstMatch(rules: seq<Rule>, model: string): (i: nat)
    ensures i <= |rules|
    ensures i < |rules| ==> RuleMatches(rules[i].model, model)
    ensures forall k | 0 <= k < i :: !RuleMatches(rules[k].model, model)
  {
    if rules == [] then 0
    else if RuleMatches(rules[0].model, model) then 0
    else 1 + FirstMatch(rules[1..], model)
  }

  /** `BackendPool::route` and `BackendPoolRuntime::route_name`. */
  method Route(p: Pool, model: Option<string>) returns (name: string)
    ensures name == RouteLabel(p, model)
  {
    if model.None? {
      return p.defaultBackend;
    }
    for i := 0 to |p.rules|
      invariant forall k | 0 <= k < i :: !RuleMatches(p.rules[k].model, model.value)
    {
      if RuleMatches(p.rules[i].model, model.value) {
        return p.rules[i].backend;
      }
    }
    return p.defaultBackend;
  }

  function RouteLabel(p: Pool, model: Option<string>): string {
    if model.None? then p.defaultBackend
    else
      var i := FirstMatch(p.rules, model.value);
      if i < |p.rules| then p.rules[i].backend else p.defaultBackend
  }

  /** `route_chain`: unknown labels are skipped. */
  method RouteChain(p: Pool, model: Option<string>) returns (chain: seq<string>)
    ensures chain == Known(p, FullChain(p, model))
  {
    chain := [];
    if model.Some? {
      for i := 0 to |p.rules|
        invariant forall k | 0 <= k < i :: !RuleMatches(p.rules[k].model, model.value)
        invariant chain == []
      {
        var r := p.rules[i];
        if RuleMatches(r.model, model.value) {
          chain := RuleChain(p, r);
          return;
        }
      }
    }
    if p.defaultBackend in p.backends {
      chain := chain + [p.defaultBackend];
    }
  }

  /** The known backends of one rule, in order. */
  method RuleChain(p: Pool, r: Rule) returns (chain: seq<string>)
    ensures chain == Known(p, ChainOf(r))
  {
    chain := if r.backend in p.backends then [r.backend] else [];
    KnownConcat(p, [r.backend], []);
    for j := 0 to |r.fallback|
      invariant chain == Known(p, [r.backend] + r.fallback[..j])
    {
      var fb := r.fallback[j];
      assert [r.backend] + r.fallback[..j + 1] == ([r.backend] + r.fallback[..j]) + [fb];
      KnownConcat(p, [r.backend] + r.fallback[..j], [fb]);
      if fb in p.backends {
        chain := chain + [fb];
      }
    }
    assert r.fallback[..|r.fallback|] == r.fallback;
  }

  function Known(p: Pool, labels: seq<string>): seq<string> {
    if labels == [] then []
    else (if labels[0] in p.backends then [labels[0]] else []) + Known(p, labels[1..])
  }

  lemma {:induction false} KnownConcat(p: Pool, a: seq<string>, b: seq<string>)
    ensures Known(p, a + b) == Known(p, a) + Known(p, b)
    decreases |a|
  {
    if a == [] {
      assert a + b == b;
    } else {
      KnownConcat(p, a[1..], b);
      assert (a + b)[0] == a[0] && (a + b)[1..] == a[1..] + b;
    }
  }

  function FullChain(p: Pool, model: Option<string>): seq<string> {
    if model.None? then [p.defaultBackend]
    else
      var i := FirstMatch(p.rules, model.value);
      if i < |p.rules| then ChainOf(p.rules[i]) else [p.defaultBackend]
  }

  lemma {:induction false} KnownAll(p: Pool, labels: seq<string>)
    requires forall i | 0 <= i < |labels| :: labels[i] in p.backends
    ensures Known(p, labels) == labels
  {
    if labels != [] {
      KnownAll(p, labels[1..]);
    }
  }

  /** In an accepted pool, every model resolves to a chain that is not empty, names no backend
      twice, and starts with the backend that `route` names. */
  lemma ChainIsSound(p: Pool, model: Option<string>)
    requires PoolOk(p)
    ensures var chain := Known(p, FullChain(p, model));
            chain != [] && Distinct(chain) && chain[0] == RouteLabel(p, model) &&
            forall i | 0 <= i < |chain| :: chain[i] in p.backends
  {
    var full := FullChain(p, model);
    if model.Some? && FirstMatch(p.rules, model.value) < |p.rules| {
      assert RuleOk(p.backends.Keys, p.rules[FirstMatch(p.rules, model.value)]);
    }
    KnownAll(p, full);
  }

  /** Unknown labels are skipped and the others stay. */
  lemma {:induction false} KnownMembers(p: Pool, labels: seq<string>, x: string)
    ensures x in Known(p, labels) <==> x in labels && x in p.backends
    ensures |labels| == 1 ==> Known(p, labels) == if labels[0] in p.backends then labels else []
  {
    if labels != [] {
      KnownMembers(p, labels[1..], x);
      assert x in labels <==> x == labels[0] || x in labels[1..];
    }
  }

  /** Once an accepted edit is written and loaded, a model goes to the backend of the first rule of the
      edit that matches it, after trimming, and otherwise to the edit's default. */
  lemma EditTakesEffect(trim: string -> string, cfg: Config, e: Edit, p: Pool, model: string, i: nat)
    requires p.rules == Written(cfg, Normalized(trim, e)).routing.rules
    requires Written(cfg, Normalized(trim, e)).routing.default_ == Some(p.defaultBackend)
    requires i <= |e.rules| && forall k | 0 <= k < i :: !RuleMatches(trim(e.rules[k].model), model)
    requires i < |e.rules| ==> RuleMatches(trim(e.rules[i].model), model)
    ensures RouteLabel(p, Some(model)) == if i < |e.rules| then trim(e.rules[i].backend) else trim(e.default_)
  {
    var n := FirstMatch(p.rules, model);
    assert forall k | 0 <= k < |e.rules| :: p.rules[k] == NormalRule(trim, e.rules[k]);
    assert n == i;
  }

  // ----- Failover

  datatype Reply = Reply(status: nat, body: string) | NetworkError(message: string)

  predicate ServerError(r: Reply) {
    r.Reply? && 500 <= r.status < 600
  }

  /** The replies of the 500s. */
  lemma ServerErrorExactly(r: Reply)
    ensures ServerError(r) <==> r.Reply? && r.status / 100 == 5
  {
  }

  predicate Good(r: Reply) {
    r.Reply? && !ServerError(r)
  }

  datatype Response = Upstream(reply: Reply) | BadGateway(message: string)

  /** The request body, which the last attempt consumes. */
  datatype Body = Body(json: string) | Taken

  datatype Attempt = Attempt(backend: string, body: Body)

  /** The retry loop.  Each backend answers once, as `send` says, and sees the original body.  The
      response is the first good reply, else the last server error, and a 502 only if no backend
      replied; nothing is sent after a good reply. */
  method Failover(chain: seq<string>, request: string, send: (string, Body) -> Reply)
    returns (response: Response, attempts: seq<Attempt>)
    requires chain != []
    ensures |attempts| <= |chain| && forall i | 0 <= i < |attempts| :: attempts[i] == Attempt(chain[i], Body(request))
    ensures forall i | 0 <= i < |attempts| - 1 :: !Good(send(chain[i], Body(request)))
    ensures response.Upstream? && Good(response.reply) ==>
              attempts != [] && response.reply == send(chain[|attempts| - 1], Body(request))
    ensures !(response.Upstream? && Good(response.reply)) ==>
              |attempts| == |chain| && forall i | 0 <= i < |chain| :: !Good(send(chain[i], Body(request)))
    ensures response.Upstream? && !Good(response.reply) ==>
              exists i | 0 <= i < |chain| :: IsLastServerError(chain, request, send, i) && response.reply == send(chain[i], Body(request))
    ensures response.BadGateway? <==> forall i | 0 <= i < |chain| :: send(chain[i], Body(request)).NetworkError?
    ensures response.BadGateway? ==> send(chain[|chain| - 1], Body(request)) == NetworkError(response.message)
  {
    var body := Body(request);
    var lastErr: Option<string> := None;
    var last5xx: Option<Reply> := None;
    attempts := [];
    for idx := 0 to |chain|
      invariant idx < |chain| ==> body == Body(request)
      invariant |attempts| == idx && forall i | 0 <= i < idx :: attempts[i] == Attempt(chain[i], Body(request))
      invariant forall i | 0 <= i < idx :: !Good(send(chain[i], Body(request)))
      invariant last5xx.None? ==> forall i | 0 <= i < idx :: send(chain[i], Body(request)).NetworkError?
      invariant last5xx.None? && idx > 0 ==>
                  lastErr.Some? && send(chain[idx - 1], Body(request)) == NetworkError(lastErr.value)
      invariant last5xx.Some? ==> exists i | 0 <= i < idx ::
                  IsLastServerErrorOf(chain, request, send, i, idx) && last5xx.value == send(chain[i], Body(request))
    {
      var attemptBody := body;
      if idx + 1 == |chain| {
        body := Taken;
      }
      attempts := attempts + [Attempt(chain[idx], attemptBody)];
      var r := send(chain[idx], attemptBody);
      if r.Reply? {
        if ServerError(r) && idx + 1 < |chain| {
          last5xx := Some(r);
          assert IsLastServerErrorOf(chain, request, send, idx, idx + 1);
          continue;
        }
        response := Upstream(r);
        assert ServerError(r) ==> IsLastServerError(chain, request, send, idx);
        return;
      } else {
        lastErr := Some(r.message);
        if last5xx.Some? {
          ghost var i :| 0 <= i < idx && IsLastServerErrorOf(chain, request, send, i, idx) && last5xx.value == send(chain[i], Body(request));
          assert IsLastServerErrorOf(chain, request, send, i, idx + 1);
        }
      }
    }
    if last5xx.Some? {
      response := Upstream(last5xx.value);
    } else {
      response := BadGateway(if lastErr.Some? then lastErr.value else "all backends failed");
    }
  }

  predicate IsLastServerErrorOf(chain: seq<string>, request: string, send: (string, Body) -> Reply, i: nat, n: nat)
    requires n <= |chain|
  {
    i < n && ServerError(send(chain[i], Body(request))) &&
    forall j | i < j < n :: send(chain[j], Body(request)).NetworkError?
  }

  predicate IsLastServerError(chain: seq<string>, request: string, send: (string, Body) -> Reply, i: nat) {
    IsLastServerErrorOf(chain, request, send, i, |chain|)
  }
}
