/** The entity redactor: rules find matches, matches become placeholders, right to left and in
    place.  Regular expressions are parameters: a rule carries any function from a text to the
    list of matched spans. */
module Redact {
  import opened Seqs
  import opened Vault

  datatype Span = Span(start: nat, end: nat)

  datatype Rule = Rule(entity: string, find: string -> seq<Span>)

  /** What `find_iter` promises: spans in bounds, left to right, not overlapping. */
  predicate SpansOk(spans: seq<Span>, len: nat) {
    && (forall i | 0 <= i < |spans| :: spans[i].start <= spans[i].end <= len)
    && (forall i, j | 0 <= i < j < |spans| :: spans[i].end <= spans[j].start)
  }

  ghost predicate RuleOk(r: Rule) {
    forall s: string :: SpansOk(r.find(s), |s|)
  }

  ghost predicate RulesOk(rules: seq<Rule>) {
    forall i | 0 <= i < |rules| :: RuleOk(rules[i])
  }

  // ----- Reference: all matches replaced at once

  /** `text[from..]` with every span replaced by its replacement, simultaneously. */
  function Splice(text: string, spans: seq<Span>, reps: seq<string>, from: nat): string
    requires SpansOk(spans, |text|) && |reps| == |spans|
    requires from <= |text| && (spans != [] ==> from <= spans[0].start)
    decreases |spans|
  {
    if spans == [] then text[from..]
    else text[from..spans[0].start] + reps[0] + Splice(text, spans[1..], reps[1..], spans[0].end)
  }

  function Values(text: string, spans: seq<Span>): (vs: seq<string>)
    requires SpansOk(spans, |text|)
    ensures |vs| == |spans|
  {
    seq(|spans|, i requires 0 <= i < |spans| => text[spans[i].start..spans[i].end])
  }

  datatype Assigned = Assigned(vault: VaultState, reps: seq<string>)

  /** Placeholders for the matched values; the rightmost value is stored first. */
  function Assign(v: VaultState, entity: string, values: seq<string>): (a: Assigned)
    ensures |a.reps| == |values|
    decreases |values|
  {
    if values == [] then Assigned(v, [])
    else
      var rest := Assign(v, entity, values[1..]);
      var s := Issue(rest.vault, entity, values[0]);
      Assigned(s.vault, [s.placeholder] + rest.reps)
  }

  /** The values as requests to the vault, from the last to the first. */
  function Backwards(entity: string, values: seq<string>): (r: seq<Request>)
    ensures |r| == |values| && forall i | 0 <= i < |r| :: r[i] == Request(entity, values[|values| - 1 - i])
  {
    seq(|values|, i requires 0 <= i < |values| => Request(entity, values[|values| - 1 - i]))
  }

  /** `a` is `b` read from the end. */
  predicate Mirrors(a: seq<string>, b: seq<string>) {
    |a| == |b| && forall i | 0 <= i < |a| :: a[i] == b[|a| - 1 - i]
  }

  /** The vault after a rule is that of storing its matches from the last to the first, and each match
      gets the placeholder of its store. */
  lemma {:induction false} AssignStoresBackwards(v: VaultState, entity: string, values: seq<string>)
    ensures var run, a := StoreAll(v, Backwards(entity, values)), Assign(v, entity, values);
            a.vault == run.vault && Mirrors(a.reps, run.placeholders)
    decreases |values|
  {
    if values != [] {
      var rest := Backwards(entity, values[1..]);
      AssignStoresBackwards(v, entity, values[1..]);
      BackwardsTail(entity, values);
      StoreAllSnoc(v, rest, Request(entity, values[0]));
      MirrorsCons(Assign(v, entity, values[1..]).reps, StoreAll(v, rest).placeholders,
                  Issue(StoreAll(v, rest).vault, entity, values[0]).placeholder);
    }
  }

  lemma BackwardsTail(entity: string, values: seq<string>)
    requires values != []
    ensures Backwards(entity, values) == Backwards(entity, values[1..]) + [Request(entity, values[0])]
  {
  }

  lemma StoreAllSnoc(v: VaultState, requests: seq<Request>, r: Request)
    ensures var before := StoreAll(v, requests);
            var s := Issue(before.vault, r.entity, r.original);
            StoreAll(v, requests + [r]) == Run(s.vault, before.placeholders + [s.placeholder])
  {
    assert (requests + [r])[..|requests|] == requests;
  }

  lemma MirrorsCons(a: seq<string>, b: seq<string>, p: string)
    requires Mirrors(a, b)
    ensures Mirrors([p] + a, b + [p])
  {
    forall i | 1 <= i < |a| + 1
      ensures ([p] + a)[i] == (b + [p])[|a| - i]
    {
      assert a[i - 1] == b[|a| - i];
    }
  }

  datatype Redacted = Redacted(vault: VaultState, text: string)

  function ApplyRule(v: VaultState, r: Rule, text: string): Redacted
    requires SpansOk(r.find(text), |text|)
  {
    var spans := r.find(text);
    var a := Assign(v, r.entity, Values(text, spans));
    Redacted(a.vault, Splice(text, spans, a.reps, 0))
  }

  /** One rule, skipped when its entity is not selected. */
  function TryRule(v: VaultState, r: Rule, entities: set<string>, text: string): Redacted
    requires SpansOk(r.find(text), |text|)
  {
    if r.entity in entities then ApplyRule(v, r, text) else Redacted(v, text)
  }

  /** All rules whose entity is selected, in declaration order. */
  ghost function ApplyRules(v: VaultState, rules: seq<Rule>, entities: set<string>, text: string): Redacted
    requires RulesOk(rules)
    decreases |rules|
  {
    if rules == [] then Redacted(v, text)
    else
      assert RuleOk(rules[0]);
      var r := TryRule(v, rules[0], entities, text);
      ApplyRules(r.vault, rules[1..], entities, r.text)
  }

  // ----- The in-place edit equals the simultaneous splice

  lemma SplitSlice(text: string, a: nat, b: nat, c: nat)
    requires a <= b <= c <= |text|
    ensures text[a..c] == text[a..b] + text[b..c]
  {
  }

  /** Text before the first span is passed through. */
  lemma SpliceFrom(text: string, spans: seq<Span>, reps: seq<string>, from: nat, mid: nat)
    requires SpansOk(spans, |text|) && |reps| == |spans|
    requires from <= mid <= |text| && (spans != [] ==> mid <= spans[0].start)
    ensures Splice(text, spans, reps, from) == text[from..mid] + Splice(text, spans, reps, mid)
  {
    if spans == [] {
      assert text[from..] == text[from..mid] + text[mid..];
    } else {
      var a := spans[0].start;
      var rest := Splice(text, spans[1..], reps[1..], spans[0].end);
      SplitSlice(text, from, mid, a);
      Assoc(text[from..mid], text[mid..a], reps[0]);
      Assoc(text[from..mid], text[mid..a] + reps[0], rest);
    }
  }

  /** One `replace_range` in front of spans that are already replaced. */
  lemma ReplaceRange(text: string, spans: seq<Span>, reps: seq<string>, rep: string)
    requires spans != [] && SpansOk(spans, |text|) && |reps| == |spans| - 1
    ensures var out := Splice(text, spans[1..], reps, 0);
            var s := spans[0];
            && s.end <= |out| && out[s.start..s.end] == text[s.start..s.end]
            && Splice(text, spans, [rep] + reps, 0) == out[..s.start] + rep + out[s.end..]
  {
    var s, out := spans[0], Splice(text, spans[1..], reps, 0);
    SpliceFrom(text, spans[1..], reps, 0, s.end);
    var tail := Splice(text, spans[1..], reps, s.end);
    assert text[0..s.end] == text[..s.end];
    assert out == text[..s.end] + tail;
    assert out[..s.start] == text[..s.start];
    assert out[s.end..] == tail;
    assert ([rep] + reps)[1..] == reps;
    assert text[0..s.start] == text[..s.start];
  }

  /** One rule: matches collected first, then replaced from the last to the first. */
  method RedactOneRule(text: string, r: Rule, vault: LocalVault) returns (out: string)
    requires SpansOk(r.find(text), |text|)
    modifies vault
    ensures Redacted(vault.State(), out) == ApplyRule(old(vault.State()), r, text)
  {
    var matches := r.find(text);
    var values := Values(text, matches);
    out := text;
    ghost var reps: seq<string> := [];
    var k := |matches|;
    assert text[0..] == text;
    while k > 0
      invariant 0 <= k <= |matches|
      invariant |reps| == |matches| - k
      invariant Assigned(vault.State(), reps) == Assign(old(vault.State()), r.entity, values[k..])
      invariant out == Splice(text, matches[k..], reps, 0)
    {
      k := k - 1;
      var start, end := matches[k].start, matches[k].end;
      MatchStep(text, matches, old(vault.State()), r.entity, k, vault.State(), reps);
      var placeholder := vault.Store(r.entity, values[k]);
      reps := [placeholder] + reps;
      out := out[..start] + placeholder + out[end..];
    }
    Whole(matches);
    Whole(values);
  }

  /** One match: its value is stored and its placeholder put in front of the replaced ones. */
  lemma MatchStep(text: string, matches: seq<Span>, v0: VaultState, entity: string, k: nat, v: VaultState, reps: seq<string>)
    requires SpansOk(matches, |text|) && k < |matches| && |reps| == |matches| - k - 1
    requires Assigned(v, reps) == Assign(v0, entity, Values(text, matches)[k + 1..])
    ensures var s, out := Issue(v, entity, Values(text, matches)[k]), Splice(text, matches[k + 1..], reps, 0);
            && Assigned(s.vault, [s.placeholder] + reps) == Assign(v0, entity, Values(text, matches)[k..])
            && matches[k].end <= |out|
            && Splice(text, matches[k..], [s.placeholder] + reps, 0)
               == out[..matches[k].start] + s.placeholder + out[matches[k].end..]
  {
    Advance(matches, k);
    Advance(Values(text, matches), k);
    ReplaceRange(text, matches[k..], reps, Issue(v, entity, Values(text, matches)[k]).placeholder);
  }

  method RedactTextWithVault(rules: seq<Rule>, text: string, entities: set<string>, vault: LocalVault)
    returns (out: string)
    requires RulesOk(rules)
    modifies vault
    ensures Redacted(vault.State(), out) == ApplyRules(old(vault.State()), rules, entities, text)
  {
    out := text;
    var k := 0;
    assert rules[0..] == rules;
    while k < |rules|
      invariant 0 <= k <= |rules|
      invariant ApplyRules(vault.State(), rules[k..], entities, out)
             == ApplyRules(old(vault.State()), rules, entities, text)
    {
      Advance(rules, k);
      assert RuleOk(rules[k]);
      if rules[k].entity in entities {
        out := RedactOneRule(out, rules[k], vault);
      }
      k := k + 1;
    }
  }

  // ----- The non-reversible path: an indexer instead of a vault

  datatype IndexerState = IndexerState(style: Template, seen: map<(string, string), nat>, next: map<string, nat>)

  datatype Named = Named(indexer: IndexerState, placeholder: string)

  function Name(ix: IndexerState, entity: string, value: string): Named {
    var key := (entity, value);
    if key in ix.seen then Named(ix, Format(ix.style, entity, ix.seen[key]))
    else
      var counter := (if entity in ix.next then ix.next[entity] else 0) + 1;
      Named(IndexerState(ix.style, ix.seen[key := counter], ix.next[entity := counter]), Format(ix.style, entity, counter))
  }

  class Indexer {
    var seen: map<(string, string), nat>
    var next: map<string, nat>
    const style: Template

    constructor (style: Template)
      ensures State() == IndexerState(style, map[], map[])
    {
      seen, next := map[], map[];
      this.style := style;
    }

    function State(): IndexerState
      reads this
    {
      IndexerState(style, seen, next)
    }

    method Placeholder(entity: string, value: string) returns (placeholder: string)
      modifies this
      ensures Named(State(), placeholder) == Name(old(State()), entity, value)
    {
      var key := (entity, value);
      var idx;
      if key in seen {
        idx := seen[key];
      } else {
        if entity !in next {
          next := next[entity := 0];
        }
        next := next[entity := next[entity] + 1];
        idx := next[entity];
        seen := seen[key := idx];
        assert next == old(next)[entity := idx];
      }
      placeholder := Format(style, entity, idx);
    }
  }

  /** What the indexer and a vault have in common. */
  function IndexOf(v: VaultState): IndexerState {
    IndexerState(v.style, v.seen, v.next)
  }

  /** The indexer is the vault without its entries, step for step. */
  lemma NameIsIssue(v: VaultState, entity: string, value: string)
    ensures var s := Issue(v, entity, value);
            Name(IndexOf(v), entity, value) == Named(IndexOf(s.vault), s.placeholder)
  {
  }

  method IndexOneRule(text: string, r: Rule, ix: Indexer, ghost v: VaultState) returns (out: string)
    requires SpansOk(r.find(text), |text|)
    requires ix.State() == IndexOf(v)
    modifies ix
    ensures ix.State() == IndexOf(ApplyRule(v, r, text).vault)
    ensures out == ApplyRule(v, r, text).text
  {
    var matches := r.find(text);
    var values := Values(text, matches);
    out := text;
    ghost var reps: seq<string> := [];
    ghost var now := v;
    var k := |matches|;
    assert text[0..] == text;
    while k > 0
      invariant 0 <= k <= |matches|
      invariant |reps| == |matches| - k
      invariant ix.State() == IndexOf(now)
      invariant Assigned(now, reps) == Assign(v, r.entity, values[k..])
      invariant out == Splice(text, matches[k..], reps, 0)
    {
      k := k - 1;
      var start, end := matches[k].start, matches[k].end;
      MatchStep(text, matches, v, r.entity, k, now, reps);
      NameIsIssue(now, r.entity, values[k]);
      var placeholder := ix.Placeholder(r.entity, values[k]);
      now := Issue(now, r.entity, values[k]).vault;
      reps := [placeholder] + reps;
      out := out[..start] + placeholder + out[end..];
    }
    Whole(matches);
    Whole(values);
  }

  /** The indexed redactor gives the text that the vault redactor gives with a fresh vault. */
  method RedactTextIn(rules: seq<Rule>, text: string, entities: set<string>, style: Template) returns (out: string)
    requires RulesOk(rules)
    ensures out == ApplyRules(Empty(style), rules, entities, text).text
  {
    var ix := new Indexer(style);
    ghost var now := Empty(style);
    out := text;
    var k := 0;
    assert rules[0..] == rules;
    while k < |rules|
      invariant 0 <= k <= |rules|
      invariant ix.State() == IndexOf(now)
      invariant fresh(ix)
      invariant ApplyRules(now, rules[k..], entities, out) == ApplyRules(Empty(style), rules, entities, text)
    {
      assert rules[k..][1..] == rules[k + 1..] && rules[k..][0] == rules[k];
      assert RuleOk(rules[k]);
      if rules[k].entity in entities {
        ghost var r := ApplyRule(now, rules[k], out);
        out := IndexOneRule(out, rules[k], ix, now);
        now := r.vault;
      }
      k := k + 1;
    }
  }
}
