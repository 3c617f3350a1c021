/** The tool gate: allow, deny or sanitize the tool calls of a reply, whole or streamed.

    The JSON parser and printer, the schema validators and the entity scanner are parameters. */
module ToolGate {
  import opened Seqs
  import opened Options

  // ----- Names and decisions

  predicate IsPrefixOf(p: string, s: string) { |p| <= |s| && s[..|p|] == p }

  predicate IsSuffixOf(p: string, s: string) { |p| <= |s| && s[|s| - |p|..] == p }

  /** A trailing `*` matches any continuation, otherwise a leading `*` any beginning. */
  predicate Matches(pattern: string, name: string) {
    if pattern != "" && pattern[|pattern| - 1] == '*' then IsPrefixOf(pattern[..|pattern| - 1], name)
    else if pattern != "" && pattern[0] == '*' then IsSuffixOf(pattern[1..], name)
    else pattern == name
  }

  predicate AnyMatches(patterns: seq<string>, name: string) {
    exists i | 0 <= i < |patterns| :: Matches(patterns[i], name)
  }

  datatype Reason =
    | MissingFunction
    | MissingName
    | OnDenyList(name: string)
    | NotOnAllowList(name: string)
    | NotJson(name: string, error: string)
    | SchemaFailed(name: string, errors: seq<string>)
    | RejectedEntity(name: string)

  datatype Decision<J> = Allow | Deny(reason: Reason) | Sanitize(redacted: J)

  datatype Gate<!J> = Gate(
    allow: Option<seq<string>>,
    deny: seq<string>,
    parse: string -> Option<J>,
    parseError: string -> string,
    schemaErrors: (string, J) -> seq<string>,
    containsRejected: string -> bool,
    containsMasked: string -> bool,
    redact: J -> J,
    render: J -> string)

  function Evaluate<J>(g: Gate<J>, name: string, args: string): Decision<J> {
    if AnyMatches(g.deny, name) then Deny(OnDenyList(name))
    else if g.allow.Some? && !AnyMatches(g.allow.value, name) then Deny(NotOnAllowList(name))
    else
      match g.parse(args)
      case None => Deny(NotJson(name, g.parseError(args)))
      case Some(json) =>
        var errors := g.schemaErrors(name, json);
        if errors != [] then Deny(SchemaFailed(name, errors))
        else if g.containsRejected(args) then Deny(RejectedEntity(name))
        else if g.containsMasked(args) then Sanitize(g.redact(json))
        else Allow
  }

  datatype Function = Function(name: Option<string>, arguments: Option<string>)

  datatype ToolCall = ToolCall(id: Option<string>, function_: Option<Function>)

  function EvaluateCall<J>(g: Gate<J>, tc: ToolCall): Decision<J> {
    if tc.function_.None? then Deny(MissingFunction)
    else if tc.function_.value.name.None? then Deny(MissingName)
    else
      var args := tc.function_.value.arguments;
      Evaluate(g, tc.function_.value.name.value, if args.Some? then args.value else "{}")
  }

  predicate Denies<J>(g: Gate<J>, tc: ToolCall) { EvaluateCall(g, tc).Deny? }

  // ----- What the gate lets through

  /** `name` is what comes before a trailing `*` and anything after it, or anything and then what
      comes after a leading `*`, or the pattern itself. */
  lemma MatchesExactly(pattern: string, name: string)
    ensures Matches(pattern + "*", name) <==> exists rest :: name == pattern + rest
    ensures (pattern == "" || pattern[|pattern| - 1] != '*') ==>
              (Matches("*" + pattern, name) <==> exists rest :: name == rest + pattern)
    ensures (pattern == "" || (pattern[|pattern| - 1] != '*' && pattern[0] != '*')) ==>
              (Matches(pattern, name) <==> name == pattern)
  {
    var p := pattern + "*";
    assert p[..|p| - 1] == pattern;
    if IsPrefixOf(pattern, name) {
      assert name == pattern + name[|pattern|..];
    }
    assert forall rest :: (pattern + rest)[..|pattern|] == pattern;
    LeadingStar(pattern, name);
  }

  lemma LeadingStar(pattern: string, name: string)
    ensures (pattern == "" || pattern[|pattern| - 1] != '*') ==>
              (Matches("*" + pattern, name) <==> exists rest :: name == rest + pattern)
  {
    var p := "*" + pattern;
    assert p[1..] == pattern;
    if pattern == "" {
      assert p[..|p| - 1] == "" && name == name + pattern;
      assert Matches(p, name);
    } else {
      assert p[|p| - 1] == pattern[|pattern| - 1];
      if IsSuffixOf(pattern, name) {
        assert name == name[..|name| - |pattern|] + pattern;
      }
      assert forall rest :: (rest + pattern)[|rest + pattern| - |pattern|..] == pattern;
    }
  }

  /** The arguments as the gate reads them. */
  function ArgumentsRead(f: Function): string {
    if f.arguments.Some? then f.arguments.value else "{}"
  }

  /** A call is let through exactly if it has a function with a name that no deny pattern and, in
      closed mode, some allow pattern matches, and arguments that are JSON, fit the schema and hold no
      rejected entity. */
  lemma LetThrough<J>(g: Gate<J>, tc: ToolCall)
    ensures !Denies(g, tc) <==>
            && tc.function_.Some? && tc.function_.value.name.Some?
            && var name, args := tc.function_.value.name.value, ArgumentsRead(tc.function_.value);
               && (forall i | 0 <= i < |g.deny| :: !Matches(g.deny[i], name))
               && (g.allow.Some? ==> exists i | 0 <= i < |g.allow.value| :: Matches(g.allow.value[i], name))
               && g.parse(args).Some? && g.schemaErrors(name, g.parse(args).value) == []
               && !g.containsRejected(args)
  {
  }

  /** The reason of a denial says which of these failed first. */
  lemma DeniedBecause<J>(g: Gate<J>, name: string, id: Option<string>, arguments: Option<string>)
    ensures var args := ArgumentsRead(Function(Some(name), arguments));
            var d := EvaluateCall(g, ToolCall(id, Some(Function(Some(name), arguments))));
            && (d == Deny(OnDenyList(name)) <==> AnyMatches(g.deny, name))
            && (d == Deny(NotOnAllowList(name)) <==>
                !AnyMatches(g.deny, name) && g.allow.Some? && !AnyMatches(g.allow.value, name))
            && (d.Deny? && d.reason.NotJson? ==> g.parse(args).None? && d.reason == NotJson(name, g.parseError(args)))
            && (d.Deny? && d.reason.SchemaFailed? ==>
                g.parse(args).Some? && d.reason == SchemaFailed(name, g.schemaErrors(name, g.parse(args).value)))
            && (d.Deny? && d.reason.RejectedEntity? ==> g.containsRejected(args) && d.reason.name == name)
  {
  }

  /** A call that is let through keeps its id and name; its arguments are the printed redaction of what
      was parsed exactly if they hold an entity to mask, and otherwise what they were. */
  lemma GatedArguments<J>(g: Gate<J>, tc: ToolCall)
    requires !Denies(g, tc)
    ensures tc.function_.Some?
    ensures var f, out := tc.function_.value, Gated(g, tc);
            && out.id == tc.id && out.function_.Some? && out.function_.value.name == f.name
            && (if g.containsMasked(ArgumentsRead(f)) then
                  g.parse(ArgumentsRead(f)).Some? &&
                  out.function_.value.arguments == Some(g.render(g.redact(g.parse(ArgumentsRead(f)).value)))
                else out == tc)
  {
  }

  // ----- The whole reply

  datatype Denial = Denial(name: string, reason: Reason)

  function DenialOf<J>(g: Gate<J>, tc: ToolCall): Denial
    requires Denies(g, tc)
  {
    var name := if tc.function_.Some? && tc.function_.value.name.Some? then tc.function_.value.name.value else "?";
    Denial(name, EvaluateCall(g, tc).reason)
  }

  /** What the client gets for a call that is not denied. */
  function Gated<J>(g: Gate<J>, tc: ToolCall): ToolCall {
    match EvaluateCall(g, tc)
    case Sanitize(redacted) =>
      if tc.function_.Some? then tc.(function_ := Some(tc.function_.value.(arguments := Some(g.render(redacted))))) else tc
    case _ => tc
  }

  /** Denied calls among the first `n`. */
  function DeniedBefore<J>(g: Gate<J>, calls: seq<ToolCall>, n: nat): (d: nat)
    requires n <= |calls|
    ensures d <= n
  {
    if n == 0 then 0 else DeniedBefore(g, calls, n - 1) + (if Denies(g, calls[n - 1]) then 1 else 0)
  }

  /** Every call ends up in exactly one of the two lists, at the place its order gives it. */
  ghost predicate IsSplit<J>(g: Gate<J>, calls: seq<ToolCall>, n: nat, kept: seq<ToolCall>, denials: seq<Denial>)
    requires n <= |calls|
  {
    && |denials| == DeniedBefore(g, calls, n)
    && |kept| == n - DeniedBefore(g, calls, n)
    && forall i | 0 <= i < n :: Placed(g, calls, i, kept, denials)
  }

  ghost predicate Placed<J>(g: Gate<J>, calls: seq<ToolCall>, i: nat, kept: seq<ToolCall>, denials: seq<Denial>)
    requires i < |calls|
  {
    var d := DeniedBefore(g, calls, i);
    if Denies(g, calls[i]) then d < |denials| && denials[d] == DenialOf(g, calls[i])
    else i - d < |kept| && kept[i - d] == Gated(g, calls[i])
  }

  method ApplyToolGate<J>(g: Gate<J>, calls: seq<ToolCall>) returns (kept: seq<ToolCall>, denials: seq<Denial>)
    ensures IsSplit(g, calls, |calls|, kept, denials)
  {
    kept, denials := [], [];
    for n := 0 to |calls|
      invariant IsSplit(g, calls, n, kept, denials)
    {
      var tc := calls[n];
      ghost var k, d := kept, denials;
      match EvaluateCall(g, tc) {
        case Allow => kept := kept + [tc];
        case Sanitize(redacted) =>
          var newTc := tc;
          if tc.function_.Some? {
            newTc := tc.(function_ := Some(tc.function_.value.(arguments := Some(g.render(redacted)))));
          }
          kept := kept + [newTc];
        case Deny(reason) =>
          var name := if tc.function_.Some? && tc.function_.value.name.Some? then tc.function_.value.name.value else "?";
          denials := denials + [Denial(name, reason)];
      }
      forall i | 0 <= i < n
        ensures Placed(g, calls, i, kept, denials)
      {
        assert Placed(g, calls, i, k, d);
      }
      assert Placed(g, calls, n, kept, denials);
    }
  }

  /** The reasons of the denied calls, in order. */
  function Reasons<J>(g: Gate<J>, calls: seq<ToolCall>): seq<Reason> {
    if calls == [] then []
    else (if Denies(g, calls[0]) then [EvaluateCall(g, calls[0]).reason] else []) + Reasons(g, calls[1..])
  }

  // ----- The streamed reply

  datatype DeltaCall = DeltaCall(index: Option<nat>, id: Option<string>, name: Option<string>, arguments: Option<string>)

  datatype Choice = Choice(deltas: seq<DeltaCall>, finish: Option<string>)

  type Event = seq<Choice>

  datatype Partial = Partial(id: Option<string>, name: Option<string>, arguments: string)

  const BLANK := Partial(None, None, "")

  function MergeDelta(p: Partial, d: DeltaCall): Partial {
    Partial(
      if d.id.Some? then d.id else p.id,
      if d.name.Some? then d.name else p.name,
      p.arguments + (if d.arguments.Some? then d.arguments.value else ""))
  }

  function IndexOf(d: DeltaCall): nat {
    if d.index.Some? then d.index.value else 0
  }

  function Collect(partials: map<nat, Partial>, d: DeltaCall): map<nat, Partial> {
    var idx := IndexOf(d);
    partials[idx := MergeDelta(if idx in partials then partials[idx] else BLANK, d)]
  }

  function CollectAll(partials: map<nat, Partial>, deltas: seq<DeltaCall>): map<nat, Partial> {
    if deltas == [] then partials
    else Collect(CollectAll(partials, deltas[..|deltas| - 1]), deltas[|deltas| - 1])
  }

  function IntoCall(p: Partial): Option<ToolCall> {
    if p.name.None? then None
    else
      var args := if p.arguments == "" then "{}" else p.arguments;
      Some(ToolCall(Some(if p.id.Some? then p.id.value else ""), Some(Function(p.name, Some(args)))))
  }

  function Least(s: set<nat>): (m: nat)
    requires s != {}
    ensures m in s && forall k | k in s :: m <= k
  {
    LeastExists(s);
    var m :| m in s && forall k | k in s :: m <= k;
    m
  }

  lemma LeastExists(s: set<nat>)
    requires s != {}
    ensures exists m | m in s :: forall k | k in s :: m <= k
  {
    var m :| m in s;
    var todo := s;
    while todo != {}
      invariant todo <= s && m in s
      invariant forall k | k in s && k !in todo :: m <= k
      decreases todo
    {
      var k :| k in todo;
      todo := todo - {k};
      m := if k < m then k else m;
    }
  }

  /** The indices in ascending order. */
  function Sorted(s: set<nat>): (r: seq<nat>)
    ensures forall k :: k in r <==> k in s
    ensures forall i, j | 0 <= i < j < |r| :: r[i] < r[j]
    decreases s
  {
    if s == {} then [] else [Least(s)] + Sorted(s - {Least(s)})
  }

  /** The completed calls, by ascending index; calls that were never named are skipped. */
  function Completed(partials: map<nat, Partial>, indices: seq<nat>): seq<ToolCall>
    requires forall i | 0 <= i < |indices| :: indices[i] in partials
  {
    if indices == [] then []
    else
      var tc := IntoCall(partials[indices[0]]);
      (if tc.Some? then [tc.value] else []) + Completed(partials, indices[1..])
  }

  datatype Outcome = Pass | Stop(reasons: seq<Reason>)

  function OutcomeOf(reasons: seq<Reason>): Outcome {
    if reasons == [] then Pass else Stop(reasons)
  }

  /** The deltas of an event, up to the choice that finishes with tool calls. */
  function EventDeltas(e: Event): seq<DeltaCall> {
    if e == [] then []
    else if e[0].finish == Some("tool_calls") then e[0].deltas
    else e[0].deltas + EventDeltas(e[1..])
  }

  predicate Finishes(e: Event) {
    exists i | 0 <= i < |e| :: e[i].finish == Some("tool_calls")
  }

  datatype GateState = GateState(partials: map<nat, Partial>, denied: seq<Reason>)

  datatype Observed = Observed(state: GateState, outcome: Outcome)

  /** One event: fragments are collected, and a finishing choice puts all collected calls to the gate. */
  function GateStep<J>(g: Gate<J>, s: GateState, e: Event): Observed {
    var all := CollectAll(s.partials, EventDeltas(e));
    if Finishes(e) then
      var reasons := Reasons(g, Completed(all, Sorted(all.Keys)));
      Observed(GateState(map[], s.denied + reasons), OutcomeOf(reasons))
    else Observed(GateState(all, s.denied), Pass)
  }

  class StreamingToolGate<J> {
    const gate: Gate<J>
    var partials: map<nat, Partial>
    var denied: seq<Reason>

    constructor (gate: Gate<J>)
      ensures this.gate == gate && partials == map[] && denied == []
    {
      this.gate := gate;
      partials, denied := map[], [];
    }

    function State(): GateState
      reads this
    {
      GateState(partials, denied)
    }

    method Observe(event: Event) returns (outcome: Outcome)
      modifies this
      ensures Observed(State(), outcome) == GateStep(gate, old(State()), event)
    {
      ghost var start := partials;
      for i := 0 to |event|
        invariant forall j | 0 <= j < i :: event[j].finish != Some("tool_calls")
        invariant CollectAll(start, EventDeltas(event)) == CollectAll(partials, EventDeltas(event[i..]))
        invariant denied == old(denied)
      {
        ghost var before := partials;
        CollectChoice(event[i].deltas);
        assert event[i..][1..] == event[i + 1..];
        if event[i].finish == Some("tool_calls") {
          outcome := EvaluateCollected();
          return;
        }
        CollectConcat(before, event[i].deltas, EventDeltas(event[i + 1..]));
      }
      outcome := Pass;
    }

    method CollectChoice(deltas: seq<DeltaCall>)
      modifies this`partials
      ensures partials == CollectAll(old(partials), deltas)
    {
      ghost var start := partials;
      for k := 0 to |deltas|
        invariant partials == CollectAll(start, deltas[..k])
      {
        assert deltas[..k + 1][..k] == deltas[..k];
        var delta := deltas[k];
        var idx := if delta.index.Some? then delta.index.value else 0;
        var entry := if idx in partials then partials[idx] else BLANK;
        partials := partials[idx := MergeDelta(entry, delta)];
      }
      assert deltas[..|deltas|] == deltas;
    }

    method EvaluateCollected() returns (outcome: Outcome)
      modifies this
      ensures var reasons := Reasons(gate, Completed(old(partials), Sorted(old(partials).Keys)));
              outcome == OutcomeOf(reasons) && State() == GateState(map[], old(denied) + reasons)
    {
      var indices := Sorted(partials.Keys);
      assert forall i | 0 <= i < |indices| :: indices[i] in indices;
      var reasons := EvaluateAll(gate, partials, indices);
      partials := map[];
      outcome := OutcomeOf(reasons);
      if reasons != [] {
        denied := denied + reasons;
      }
    }
  }

  /** The loop over the accumulated calls in index order. */
  method EvaluateAll<J>(g: Gate<J>, partials: map<nat, Partial>, indices: seq<nat>) returns (reasons: seq<Reason>)
    requires forall i | 0 <= i < |indices| :: indices[i] in partials
    ensures reasons == Reasons(g, Completed(partials, indices))
  {
    reasons := [];
    ghost var all := Reasons(g, Completed(partials, indices));
    assert indices[0..] == indices;
    for n := 0 to |indices|
      invariant all == reasons + Reasons(g, Completed(partials, indices[n..]))
    {
      NextReason(g, partials, indices, n);
      var piece := Judge(g, partials[indices[n]]);
      Assoc(reasons, piece, Reasons(g, Completed(partials, indices[n + 1..])));
      reasons := reasons + piece;
    }
    assert indices[|indices|..] == [];
  }

  /** One accumulated call: skipped if unnamed, otherwise put to the gate. */
  method Judge<J>(g: Gate<J>, p: Partial) returns (reasons: seq<Reason>)
    ensures reasons == ReasonOf(g, p)
  {
    var tc := IntoCall(p);
    if tc.None? {
      return [];
    }
    var decision := EvaluateCall(g, tc.value);
    if decision.Deny? {
      return [decision.reason];
    }
    return [];
  }

  function ReasonOf<J>(g: Gate<J>, p: Partial): seq<Reason> {
    var tc := IntoCall(p);
    if tc.Some? && Denies(g, tc.value) then [EvaluateCall(g, tc.value).reason] else []
  }

  /** The reason, if any, that call `n` adds. */
  lemma NextReason<J>(g: Gate<J>, partials: map<nat, Partial>, indices: seq<nat>, n: nat)
    requires n < |indices| && forall i | 0 <= i < |indices| :: indices[i] in partials
    ensures Reasons(g, Completed(partials, indices[n..])) ==
            ReasonOf(g, partials[indices[n]]) + Reasons(g, Completed(partials, indices[n + 1..]))
  {
    assert indices[n..][0] == indices[n] && indices[n..][1..] == indices[n + 1..];
    var tc, rest := IntoCall(partials[indices[n]]), Completed(partials, indices[n + 1..]);
    if tc.Some? {
      ReasonsCons(g, tc.value, rest);
    } else {
      assert [] + rest == rest;
    }
  }

  lemma ReasonsCons<J>(g: Gate<J>, tc: ToolCall, calls: seq<ToolCall>)
    ensures Reasons(g, [tc] + calls) == (if Denies(g, tc) then [EvaluateCall(g, tc).reason] else []) + Reasons(g, calls)
  {
    assert ([tc] + calls)[1..] == calls;
  }

  lemma {:induction false} CollectConcat(partials: map<nat, Partial>, a: seq<DeltaCall>, b: seq<DeltaCall>)
    ensures CollectAll(partials, a + b) == CollectAll(CollectAll(partials, a), b)
    decreases |b|
  {
    if b == [] {
      assert a + b == a;
    } else {
      var n := |b| - 1;
      CollectConcat(partials, a, b[..n]);
      assert (a + b)[..|a + b| - 1] == a + b[..n];
    }
  }

  // ----- Streaming agrees with the whole reply

  /** How many choices of an event are looked at: those up to the first that finishes its tool calls. */
  function Looked(e: Event): (n: nat)
    ensures n <= |e| && forall i | 0 <= i < n - 1 :: e[i].finish != Some("tool_calls")
    ensures if Finishes(e) then n > 0 && e[n - 1].finish == Some("tool_calls") else n == |e|
  {
    LookedFrom(e, 0)
  }

  function LookedFrom(e: Event, i: nat): (n: nat)
    requires i <= |e| && forall j | 0 <= j < i :: e[j].finish != Some("tool_calls")
    ensures n <= |e| && forall j | 0 <= j < n - 1 :: e[j].finish != Some("tool_calls")
    ensures if Finishes(e) then n > 0 && e[n - 1].finish == Some("tool_calls") else n == |e|
    decreases |e| - i
  {
    if i == |e| then i else if e[i].finish == Some("tool_calls") then i + 1 else LookedFrom(e, i + 1)
  }

  /** The choices a run looks at, in order. */
  function Choices(events: seq<Event>): seq<Choice> {
    if events == [] then []
    else
      var last := events[|events| - 1];
      Choices(events[..|events| - 1]) + last[..Looked(last)]
  }

  /** The fragments of some choices, one choice after the other. */
  function DeltasOf(choices: seq<Choice>): seq<DeltaCall> {
    if choices == [] then [] else DeltasOf(choices[..|choices| - 1]) + choices[|choices| - 1].deltas
  }

  /** The fragments a run is sent. */
  function AllDeltas(events: seq<Event>): seq<DeltaCall> {
    DeltasOf(Choices(events))
  }

  lemma {:induction false} DeltasOfConcat(a: seq<Choice>, b: seq<Choice>)
    ensures DeltasOf(a + b) == DeltasOf(a) + DeltasOf(b)
    decreases |b|
  {
    if b == [] {
      Whole(a);
    } else {
      var n := |b| - 1;
      DeltasOfConcat(a, b[..n]);
      assert (a + b)[..|a + b| - 1] == a + b[..n];
      Assoc(DeltasOf(a), DeltasOf(b[..n]), b[n].deltas);
    }
  }

  lemma DeltasOfOne(c: Choice)
    ensures DeltasOf([c]) == c.deltas
  {
    assert [c][..0] == [];
    Whole(c.deltas);
  }

  lemma LookedTail(e: Event)
    requires e != [] && e[0].finish != Some("tool_calls")
    ensures Finishes(e) == Finishes(e[1..]) && Looked(e) == 1 + Looked(e[1..])
  {
    var t := e[1..];
    assert forall i | 0 <= i < |t| :: t[i] == e[i + 1];
    if Finishes(e) {
      var i :| 0 <= i < |e| && e[i].finish == Some("tool_calls");
      assert t[i - 1].finish == Some("tool_calls");
      assert t[Looked(t) - 1] == e[Looked(t)] && e[Looked(e) - 1] == t[Looked(e) - 2];
    } else {
      assert forall i | 0 <= i < |t| :: t[i].finish != Some("tool_calls");
    }
  }

  /** What is collected from one event are the fragments of the choices looked at. */
  lemma {:induction false} EventDeltasAre(e: Event)
    ensures EventDeltas(e) == DeltasOf(e[..Looked(e)])
  {
    if e == [] {
    } else if e[0].finish == Some("tool_calls") {
      assert Finishes(e);
      assert Looked(e) == 1;
      assert e[..1] == [e[0]];
      DeltasOfOne(e[0]);
    } else {
      LookedTail(e);
      EventDeltasAre(e[1..]);
      assert e[..Looked(e)] == [e[0]] + e[1..][..Looked(e) - 1];
      DeltasOfConcat([e[0]], e[1..][..Looked(e) - 1]);
      DeltasOfOne(e[0]);
    }
  }

  lemma AllDeltasStep(events: seq<Event>)
    requires events != []
    ensures AllDeltas(events) == AllDeltas(events[..|events| - 1]) + EventDeltas(events[|events| - 1])
  {
    var last := events[|events| - 1];
    EventDeltasAre(last);
    DeltasOfConcat(Choices(events[..|events| - 1]), last[..Looked(last)]);
  }

  /** With one choice per event a run looks at all of them. */
  lemma {:induction false} OneChoiceEach(events: seq<Event>)
    requires forall i | 0 <= i < |events| :: |events[i]| == 1
    ensures |Choices(events)| == |events| && forall i | 0 <= i < |events| :: Choices(events)[i] == events[i][0]
    decreases |events|
  {
    if events != [] {
      var n := |events| - 1;
      var last := events[n];
      OneChoiceEach(events[..n]);
      assert Looked(last) == 1;
      forall i | 0 <= i < |events|
        ensures Choices(events)[i] == events[i][0]
      {
        if i < n {
          assert events[..n][i] == events[i];
        }
      }
    }
  }

  /** The name of call `idx`: the last one sent for it. */
  function NameOf(deltas: seq<DeltaCall>, idx: nat): Option<string> {
    if deltas == [] then None
    else
      var d := deltas[|deltas| - 1];
      if IndexOf(d) == idx && d.name.Some? then d.name else NameOf(deltas[..|deltas| - 1], idx)
  }

  function IdOf(deltas: seq<DeltaCall>, idx: nat): Option<string> {
    if deltas == [] then None
    else
      var d := deltas[|deltas| - 1];
      if IndexOf(d) == idx && d.id.Some? then d.id else IdOf(deltas[..|deltas| - 1], idx)
  }

  /** The arguments of call `idx`: its fragments in order of arrival, whatever arrived between. */
  function ArgumentsOf(deltas: seq<DeltaCall>, idx: nat): string {
    if deltas == [] then ""
    else
      var d := deltas[|deltas| - 1];
      ArgumentsOf(deltas[..|deltas| - 1], idx) +
      (if IndexOf(d) == idx && d.arguments.Some? then d.arguments.value else "")
  }

  function Indices(deltas: seq<DeltaCall>): set<nat> {
    set i | 0 <= i < |deltas| :: IndexOf(deltas[i])
  }

  /** The accumulator holds exactly the reassembled calls. */
  lemma {:induction false} CollectAssembles(deltas: seq<DeltaCall>)
    ensures var ps := CollectAll(map[], deltas);
            && ps.Keys == Indices(deltas)
            && forall idx | idx in ps :: ps[idx] == Partial(IdOf(deltas, idx), NameOf(deltas, idx), ArgumentsOf(deltas, idx))
    decreases |deltas|
  {
    if deltas != [] {
      var n := |deltas| - 1;
      var d, before := deltas[n], deltas[..n];
      CollectAssembles(before);
      IndicesSnoc(deltas);
      AbsentIsBlank(before, IndexOf(d));
      var ps := CollectAll(map[], deltas);
      forall idx | idx in ps
        ensures ps[idx] == Partial(IdOf(deltas, idx), NameOf(deltas, idx), ArgumentsOf(deltas, idx))
      {
        if idx != IndexOf(d) {
          assert ArgumentsOf(before, idx) + "" == ArgumentsOf(before, idx);
        }
      }
    }
  }

  lemma IndicesSnoc(deltas: seq<DeltaCall>)
    requires deltas != []
    ensures Indices(deltas) == Indices(deltas[..|deltas| - 1]) + {IndexOf(deltas[|deltas| - 1])}
  {
    var n := |deltas| - 1;
    forall x | x in Indices(deltas)
      ensures x in Indices(deltas[..n]) + {IndexOf(deltas[n])}
    {
      var i :| 0 <= i < |deltas| && IndexOf(deltas[i]) == x;
      if i < n {
        assert deltas[..n][i] == deltas[i];
      }
    }
    forall x | x in Indices(deltas[..n])
      ensures x in Indices(deltas)
    {
      var i :| 0 <= i < n && IndexOf(deltas[..n][i]) == x;
      assert deltas[i] == deltas[..n][i];
    }
  }

  lemma {:induction false} AbsentIsBlank(deltas: seq<DeltaCall>, idx: nat)
    ensures idx !in Indices(deltas) ==>
              IdOf(deltas, idx) == None && NameOf(deltas, idx) == None && ArgumentsOf(deltas, idx) == ""
    decreases |deltas|
  {
    if deltas != [] {
      AbsentIsBlank(deltas[..|deltas| - 1], idx);
      IndicesSnoc(deltas);
    }
  }

  function PartialOf(deltas: seq<DeltaCall>, idx: nat): Partial {
    Partial(IdOf(deltas, idx), NameOf(deltas, idx), ArgumentsOf(deltas, idx))
  }

  /** The calls that a run of deltas spells out, in index order. */
  function Assembled(deltas: seq<DeltaCall>, indices: seq<nat>): seq<ToolCall> {
    if indices == [] then []
    else
      var tc := IntoCall(PartialOf(deltas, indices[0]));
      (if tc.Some? then [tc.value] else []) + Assembled(deltas, indices[1..])
  }

  lemma {:induction false} CompletedIsAssembled(deltas: seq<DeltaCall>, indices: seq<nat>)
    requires forall i | 0 <= i < |indices| :: indices[i] in CollectAll(map[], deltas)
    ensures Completed(CollectAll(map[], deltas), indices) == Assembled(deltas, indices)
    decreases |indices|
  {
    if indices != [] {
      CollectAssembles(deltas);
      CompletedIsAssembled(deltas, indices[1..]);
    }
  }

  /** The indices of a run of deltas, in ascending order. */
  function Order(deltas: seq<DeltaCall>): seq<nat> {
    Sorted(Indices(deltas))
  }

  /** However a reply's tool calls are fragmented and interleaved by index, what is evaluated at the
      end are the reassembled calls in index order. */
  lemma CompletedCalls(deltas: seq<DeltaCall>)
    ensures var all := CollectAll(map[], deltas);
            Completed(all, Sorted(all.Keys)) == Assembled(deltas, Order(deltas))
  {
    CollectAssembles(deltas);
    CompletedIsAssembled(deltas, Order(deltas));
  }

  // ----- Runs of the streaming gate

  datatype Ran = Ran(state: GateState, outcomes: seq<Outcome>)

  /** The gate on one event after the other. */
  function GateRun<J>(g: Gate<J>, s: GateState, events: seq<Event>): (r: Ran)
    ensures |r.outcomes| == |events|
  {
    if events == [] then Ran(s, [])
    else
      var before := GateRun(g, s, events[..|events| - 1]);
      var o := GateStep(g, before.state, events[|events| - 1]);
      Ran(o.state, before.outcomes + [o.outcome])
  }

  const START := GateState(map[], [])

  /** Before the reply finishes its tool calls, everything passes and is collected. */
  lemma {:induction false} PassingRun<J>(g: Gate<J>, events: seq<Event>)
    requires forall i | 0 <= i < |events| :: !Finishes(events[i])
    ensures var r := GateRun(g, START, events);
            && r.state == GateState(CollectAll(map[], AllDeltas(events)), [])
            && forall i | 0 <= i < |events| :: r.outcomes[i] == Pass
    decreases |events|
  {
    if events != [] {
      var n := |events| - 1;
      PassingRun(g, events[..n]);
      AllDeltasStep(events);
      CollectConcat(map[], AllDeltas(events[..n]), EventDeltas(events[n]));
    }
  }

  /** The last event is the one that finishes the tool calls. */
  predicate FinishesLast(events: seq<Event>) {
    && events != [] && Finishes(events[|events| - 1])
    && forall i | 0 <= i < |events| - 1 :: !Finishes(events[i])
  }

  /** Every event but the last passes; at the last one the reassembled calls are judged in index
      order and the accumulator is emptied. */
  lemma FinishedRun<J>(g: Gate<J>, events: seq<Event>)
    requires FinishesLast(events)
    ensures var r := GateRun(g, START, events);
            var reasons := Reasons(g, Assembled(AllDeltas(events), Order(AllDeltas(events))));
            && (forall i | 0 <= i < |events| - 1 :: r.outcomes[i] == Pass)
            && r.outcomes[|events| - 1] == OutcomeOf(reasons)
            && r.state == GateState(map[], reasons)
  {
    var n := |events| - 1;
    PassingRun(g, events[..n]);
    AllDeltasStep(events);
    FinishingStep(g, AllDeltas(events[..n]), events[n]);
  }

  lemma FinishingStep<J>(g: Gate<J>, deltas: seq<DeltaCall>, e: Event)
    requires Finishes(e)
    ensures var all := deltas + EventDeltas(e);
            var reasons := Reasons(g, Assembled(all, Order(all)));
            GateStep(g, GateState(CollectAll(map[], deltas), []), e)
            == Observed(GateState(map[], reasons), OutcomeOf(reasons))
  {
    var all := deltas + EventDeltas(e);
    CollectConcat(map[], deltas, EventDeltas(e));
    CompletedCalls(all);
    Whole(Reasons(g, Assembled(all, Order(all))));
  }

  // ----- Streaming and whole replies

  /** Some fragment of call `idx` has an arguments field. */
  predicate HasArguments(deltas: seq<DeltaCall>, idx: nat) {
    exists i | 0 <= i < |deltas| :: IndexOf(deltas[i]) == idx && deltas[i].arguments.Some?
  }

  lemma {:induction false} NoArguments(deltas: seq<DeltaCall>, idx: nat)
    ensures !HasArguments(deltas, idx) ==> ArgumentsOf(deltas, idx) == ""
    decreases |deltas|
  {
    if deltas != [] {
      var n := |deltas| - 1;
      NoArguments(deltas[..n], idx);
      assert forall i | 0 <= i < n :: deltas[..n][i] == deltas[i];
    }
  }

  /** The call of index `idx` as a reply that is not streamed carries it: with an arguments field
      exactly if one was sent. */
  function WholeCall(deltas: seq<DeltaCall>, idx: nat): ToolCall {
    var args := if HasArguments(deltas, idx) then Some(ArgumentsOf(deltas, idx)) else None;
    ToolCall(IdOf(deltas, idx), Some(Function(NameOf(deltas, idx), args)))
  }

  function WholeCalls(deltas: seq<DeltaCall>, indices: seq<nat>): seq<ToolCall> {
    if indices == [] then [] else [WholeCall(deltas, indices[0])] + WholeCalls(deltas, indices[1..])
  }

  /** The denial in a decision, if any. */
  function DenialIn<J>(d: Decision<J>): (r: seq<Reason>)
    ensures |r| <= 1
  {
    if d.Deny? then [d.reason] else []
  }

  function StreamedDenial<J>(g: Gate<J>, deltas: seq<DeltaCall>, idx: nat): seq<Reason> {
    ReasonOf(g, PartialOf(deltas, idx))
  }

  function WholeDenial<J>(g: Gate<J>, deltas: seq<DeltaCall>, idx: nat): seq<Reason> {
    DenialIn(EvaluateCall(g, WholeCall(deltas, idx)))
  }

  /** The call is named, and its arguments were not sent, are not empty, or are judged like an empty
      object. */
  predicate Agrees<J>(g: Gate<J>, deltas: seq<DeltaCall>, idx: nat) {
    && NameOf(deltas, idx).Some?
    && (|| !HasArguments(deltas, idx)
        || ArgumentsOf(deltas, idx) != ""
        || var name := NameOf(deltas, idx).value;
           DenialIn(Evaluate(g, name, "")) == DenialIn(Evaluate(g, name, "{}")))
  }

  /** One call is denied alike, streamed and whole, exactly under that condition: a call without a
      name is skipped on streams, and empty arguments are read as an empty object there. */
  lemma CallAgrees<J>(g: Gate<J>, deltas: seq<DeltaCall>, idx: nat)
    ensures StreamedDenial(g, deltas, idx) == WholeDenial(g, deltas, idx) <==> Agrees(g, deltas, idx)
  {
    NoArguments(deltas, idx);
    if NameOf(deltas, idx).None? {
      assert WholeDenial(g, deltas, idx) == [MissingName];
    }
  }

  /** Empty arguments are no JSON text (section 2 of RFC 8259). */
  predicate EmptyIsNotJson<J>(g: Gate<J>) {
    g.parse("").None?
  }

  /** Nothing is denied on a stream that is not denied whole. */
  lemma StreamedDeniesLess<J>(g: Gate<J>, deltas: seq<DeltaCall>, idx: nat)
    requires EmptyIsNotJson(g)
    ensures |StreamedDenial(g, deltas, idx)| <= |WholeDenial(g, deltas, idx)| <= 1
  {
    NoArguments(deltas, idx);
  }

  lemma AppendSame(a: seq<Reason>, b: seq<Reason>, x: seq<Reason>, y: seq<Reason>)
    requires |a| <= |b| && |x| <= |y|
    ensures a + x == b + y <==> a == b && x == y
  {
    if a + x == b + y {
      assert |a| == |b|;
      assert a == (a + x)[..|a|] && b == (b + y)[..|a|];
      assert x == (a + x)[|a|..] && y == (b + y)[|a|..];
    }
  }

  lemma {:induction false} ReasonsAgree<J>(g: Gate<J>, deltas: seq<DeltaCall>, indices: seq<nat>)
    requires EmptyIsNotJson(g)
    ensures var streamed, whole := Reasons(g, Assembled(deltas, indices)), Reasons(g, WholeCalls(deltas, indices));
            && |streamed| <= |whole|
            && (streamed == whole <==> forall i | 0 <= i < |indices| :: Agrees(g, deltas, indices[i]))
    decreases |indices|
  {
    if indices != [] {
      var k, rest := indices[0], indices[1..];
      ReasonsAgree(g, deltas, rest);
      AssembledReasons(g, deltas, indices);
      ReasonsCons(g, WholeCall(deltas, k), WholeCalls(deltas, rest));
      CallAgrees(g, deltas, k);
      StreamedDeniesLess(g, deltas, k);
      AppendSame(StreamedDenial(g, deltas, k), WholeDenial(g, deltas, k),
                 Reasons(g, Assembled(deltas, rest)), Reasons(g, WholeCalls(deltas, rest)));
      AllAgree(g, deltas, indices);
    }
  }

  lemma AssembledReasons<J>(g: Gate<J>, deltas: seq<DeltaCall>, indices: seq<nat>)
    requires indices != []
    ensures Reasons(g, Assembled(deltas, indices)) ==
            StreamedDenial(g, deltas, indices[0]) + Reasons(g, Assembled(deltas, indices[1..]))
  {
    var tc, rest := IntoCall(PartialOf(deltas, indices[0])), Assembled(deltas, indices[1..]);
    if tc.Some? {
      ReasonsCons(g, tc.value, rest);
    } else {
      Whole(rest);
      Whole(Reasons(g, rest));
    }
  }

  lemma AllAgree<J>(g: Gate<J>, deltas: seq<DeltaCall>, indices: seq<nat>)
    requires indices != []
    ensures (forall i | 0 <= i < |indices| :: Agrees(g, deltas, indices[i]))
            <==> Agrees(g, deltas, indices[0]) && forall i | 0 <= i < |indices[1..]| :: Agrees(g, deltas, indices[1..][i])
  {
    assert forall i | 1 <= i < |indices| :: indices[i] == indices[1..][i - 1];
    assert forall i | 0 <= i < |indices[1..]| :: indices[1..][i] == indices[i + 1];
  }

  function ReasonsIn(denials: seq<Denial>): (r: seq<Reason>)
    ensures |r| == |denials| && forall d | 0 <= d < |denials| :: r[d] == denials[d].reason
  {
    seq(|denials|, d requires 0 <= d < |denials| => denials[d].reason)
  }

  /** The denials of the whole reply are listed with these reasons. */
  lemma {:induction false} DenialReasons<J>(g: Gate<J>, calls: seq<ToolCall>, n: nat, kept: seq<ToolCall>, denials: seq<Denial>)
    requires n <= |calls| && forall i | 0 <= i < |calls| :: Placed(g, calls, i, kept, denials)
    ensures DeniedBefore(g, calls, n) <= |denials|
    ensures Reasons(g, calls[..n]) == ReasonsIn(denials)[..DeniedBefore(g, calls, n)]
    decreases n
  {
    if n > 0 {
      DenialReasons(g, calls, n - 1, kept, denials);
      Advance(calls, n - 1);
      ReasonsSnoc(g, calls[..n - 1], calls[n - 1]);
      assert Placed(g, calls, n - 1, kept, denials);
      if Denies(g, calls[n - 1]) {
        Advance(ReasonsIn(denials), DeniedBefore(g, calls, n - 1));
      } else {
        Whole(Reasons(g, calls[..n - 1]));
      }
    }
  }

  lemma {:induction false} ReasonsSnoc<J>(g: Gate<J>, calls: seq<ToolCall>, tc: ToolCall)
    ensures Reasons(g, calls + [tc]) == Reasons(g, calls) + (if Denies(g, tc) then [EvaluateCall(g, tc).reason] else [])
    decreases |calls|
  {
    if calls == [] {
      assert calls + [tc] == [tc] && [tc][1..] == [];
    } else {
      ReasonsSnoc(g, calls[1..], tc);
      assert (calls + [tc])[1..] == calls[1..] + [tc];
    }
  }

  /** For every run of the streaming gate whose last event finishes the tool calls, and every
      fragmentation and interleaving: all earlier events pass, the accumulator ends empty, and the
      last outcome is the one that the denials of the whole reply call for, with their reasons in
      their order, if and only if every call is named and is not sent with empty arguments, or with
      such as are judged like an empty object. */
  lemma StreamGateAgrees<J>(g: Gate<J>, events: seq<Event>, kept: seq<ToolCall>, denials: seq<Denial>)
    requires EmptyIsNotJson(g) && FinishesLast(events)
    requires var deltas := AllDeltas(events);
             var whole := WholeCalls(deltas, Order(deltas));
             IsSplit(g, whole, |whole|, kept, denials)
    ensures var deltas, run := AllDeltas(events), GateRun(g, START, events);
            && (forall i | 0 <= i < |events| - 1 :: run.outcomes[i] == Pass)
            && run.state.partials == map[]
            && (run.outcomes[|events| - 1] == OutcomeOf(ReasonsIn(denials))
                <==> forall k | k in Indices(deltas) :: Agrees(g, deltas, k))
  {
    var deltas := AllDeltas(events);
    var whole := WholeCalls(deltas, Order(deltas));
    FinishedRun(g, events);
    ReasonsAgree(g, deltas, Order(deltas));
    SplitReasons(g, whole, kept, denials);
    AgreeInOrder(g, deltas);
  }

  lemma SplitReasons<J>(g: Gate<J>, calls: seq<ToolCall>, kept: seq<ToolCall>, denials: seq<Denial>)
    requires IsSplit(g, calls, |calls|, kept, denials)
    ensures Reasons(g, calls) == ReasonsIn(denials)
  {
    DenialReasons(g, calls, |calls|, kept, denials);
    Whole(calls);
    Whole(ReasonsIn(denials));
  }

  lemma AgreeInOrder<J>(g: Gate<J>, deltas: seq<DeltaCall>)
    ensures (forall k | k in Indices(deltas) :: Agrees(g, deltas, k))
            <==> forall i | 0 <= i < |Order(deltas)| :: Agrees(g, deltas, Order(deltas)[i])
  {
    assert forall k | k in Indices(deltas) :: k in Order(deltas);
    assert forall i | 0 <= i < |Order(deltas)| :: Order(deltas)[i] in Order(deltas);
  }

  lemma {:induction false} DeniedAmong<J>(g: Gate<J>, deltas: seq<DeltaCall>, indices: seq<nat>, k: nat)
    requires k in indices && NameOf(deltas, k).Some? && AnyMatches(g.deny, NameOf(deltas, k).value)
    ensures OnDenyList(NameOf(deltas, k).value) in Reasons(g, Assembled(deltas, indices))
    decreases |indices|
  {
    AssembledReasons(g, deltas, indices);
    if indices[0] == k {
      assert StreamedDenial(g, deltas, k)[0] == OnDenyList(NameOf(deltas, k).value);
    } else {
      DeniedAmong(g, deltas, indices[1..], k);
    }
  }

  /** However a call is fragmented over the choices and events of a run: if a deny pattern matches the
      last name sent for it, the run is stopped at the end and says so. */
  lemma DeniedToolStops<J>(g: Gate<J>, events: seq<Event>, k: nat)
    requires FinishesLast(events)
    requires var deltas := AllDeltas(events);
             k in Indices(deltas) && NameOf(deltas, k).Some? && AnyMatches(g.deny, NameOf(deltas, k).value)
    ensures var last := GateRun(g, START, events).outcomes[|events| - 1];
            last.Stop? && OnDenyList(NameOf(AllDeltas(events), k).value) in last.reasons
  {
    var deltas := AllDeltas(events);
    FinishedRun(g, events);
    assert k in Order(deltas);
    DeniedAmong(g, deltas, Order(deltas), k);
  }

  // ----- The two kinds of calls on which the gates differ

  /** One event that carries one call and finishes. */
  function OneCall(d: DeltaCall): seq<Event> {
    [[Choice([d], Some("tool_calls"))]]
  }

  lemma OneCallParts(d: DeltaCall)
    ensures FinishesLast(OneCall(d)) && AllDeltas(OneCall(d)) == [d] && Order([d]) == [IndexOf(d)]
    ensures PartialOf([d], IndexOf(d)) == MergeDelta(BLANK, d)
  {
    var e := [Choice([d], Some("tool_calls"))];
    assert e[0].finish == Some("tool_calls");
    AllDeltasStep(OneCall(d));
    assert OneCall(d)[..0] == [] && AllDeltas([]) + EventDeltas(e) == [d];
    assert Indices([d]) == {IndexOf(d)} by {
      assert [d][0] == d;
    }
    assert Sorted({IndexOf(d)} - {IndexOf(d)}) == [];
    assert [d][..0] == [];
  }

  /** What both gates say about one call. */
  lemma OneCallRun<J>(g: Gate<J>, d: DeltaCall)
    ensures GateRun(g, START, OneCall(d)).outcomes == [OutcomeOf(StreamedDenial(g, [d], IndexOf(d)))]
    ensures Reasons(g, WholeCalls([d], Order([d]))) == WholeDenial(g, [d], IndexOf(d))
  {
    OneCallParts(d);
    FinishedRun(g, OneCall(d));
    AssembledReasons(g, [d], [IndexOf(d)]);
    ReasonsCons(g, WholeCall([d], IndexOf(d)), []);
    assert WholeCalls([d], []) == [] && Assembled([d], []) == [];
    assert [IndexOf(d)][1..] == [];
    Whole(StreamedDenial(g, [d], IndexOf(d)));
    assert |GateRun(g, START, OneCall(d)).outcomes| == 1;
  }

  /** A call without a name passes on a stream and is denied in a whole reply. */
  lemma UnnamedDiffers<J>(g: Gate<J>, d: DeltaCall)
    requires d.name == None
    ensures GateRun(g, START, OneCall(d)).outcomes == [Pass]
    ensures Reasons(g, WholeCalls([d], Order([d]))) == [MissingName]
  {
    OneCallParts(d);
    OneCallRun(g, d);
  }

  /** A call with empty arguments whose tool accepts an empty object passes on a stream and is denied
      in a whole reply, because the empty text is no JSON. */
  lemma EmptyArgumentsDiffer<J>(g: Gate<J>, d: DeltaCall)
    requires d.name.Some? && d.arguments == Some("")
    requires EmptyIsNotJson(g) && !Evaluate(g, d.name.value, "{}").Deny?
    ensures GateRun(g, START, OneCall(d)).outcomes == [Pass]
    ensures Reasons(g, WholeCalls([d], Order([d]))) == [NotJson(d.name.value, g.parseError(""))]
  {
    OneCallRun(g, d);
    EmptyArgumentsJudged(g, d);
  }

  lemma EmptyArgumentsJudged<J>(g: Gate<J>, d: DeltaCall)
    requires d.name.Some? && d.arguments == Some("")
    requires EmptyIsNotJson(g) && !Evaluate(g, d.name.value, "{}").Deny?
    ensures StreamedDenial(g, [d], IndexOf(d)) == []
    ensures WholeDenial(g, [d], IndexOf(d)) == [NotJson(d.name.value, g.parseError(""))]
  {
    OneCallParts(d);
    assert HasArguments([d], IndexOf(d)) by {
      assert [d][0] == d;
    }
  }
}
