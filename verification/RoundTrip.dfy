/** Redacting prompts and restoring them: what goes out comes back, for every entry order and every
    chunking, exactly if no rule matches into a placeholder that an earlier rule inserted. */
module RoundTrip {
  import opened Seqs
  import opened Brackets
  import opened Deanonymize
  import opened Vault
  import opened Redact
  import opened DeanonStream
  import opened KnownText
  import opened UnknownText

  // ----- Matches that leave placeholders alone

  /** The span starts outside every window and covers no bracket. */
  predicate CleanSpan(text: string, s: Span)
    requires s.start <= s.end <= |text|
  {
    !Inside(text, s.start) && BracketFree(text[s.start..s.end])
  }

  predicate CleanSpans(text: string, spans: seq<Span>)
    requires SpansOk(spans, |text|)
  {
    forall i | 0 <= i < |spans| :: CleanSpan(text, spans[i])
  }

  /** No rule of the run matches into a placeholder already inserted. */
  ghost predicate CleanRun(v: VaultState, rules: seq<Rule>, entities: set<string>, text: string)
    requires RulesOk(rules)
    decreases |rules|
  {
    rules != [] ==>
      assert RuleOk(rules[0]);
      && (rules[0].entity in entities ==> CleanSpans(text, rules[0].find(text)))
      && var r := TryRule(v, rules[0], entities, text);
         CleanRun(r.vault, rules[1..], entities, r.text)
  }

  // ----- Replacing spans of a text

  /** Every replacement is a placeholder of the text it replaced. */
  predicate StandFor(m: map<string, string>, text: string, spans: seq<Span>, reps: seq<string>)
    requires SpansOk(spans, |text|) && |reps| == |spans|
  {
    forall i | 0 <= i < |spans| ::
      IsWindow(reps[i]) && reps[i] in m && m[reps[i]] == text[spans[i].start..spans[i].end]
  }

  /** Placeholders over clean spans: the text stays known and stands for the same. */
  lemma {:induction false} SpliceKeepsMeaning(m: map<string, string>, text: string, spans: seq<Span>, reps: seq<string>, from: nat)
    requires SpansOk(spans, |text|) && |reps| == |spans|
    requires from <= |text| && (spans != [] ==> from <= spans[0].start)
    requires Known(m, text[from..]) && CleanSpans(text, spans) && StandFor(m, text, spans, reps)
    ensures Known(m, Splice(text, spans, reps, from))
    ensures ResolveMap(m, Splice(text, spans, reps, from)) == ResolveMap(m, text[from..])
    decreases |spans|
  {
    if spans != [] {
      var a, b := spans[0].start, spans[0].end;
      assert CleanSpan(text, spans[0]);
      MeaningAt(m, text, from, a, b);
      SpliceKeepsMeaning(m, text, spans[1..], reps[1..], b);
      KnownReplaced(m, text[from..a], reps[0], Splice(text, spans[1..], reps[1..], b));
    }
  }

  lemma MeaningAt(m: map<string, string>, text: string, from: nat, a: nat, b: nat)
    requires from <= a <= b <= |text| && Known(m, text[from..]) && CleanSpan(text, Span(a, b))
    ensures Known(m, text[from..a]) && Known(m, text[b..])
    ensures ResolveMap(m, text[from..]) == ResolveMap(m, text[from..a]) + (text[a..b] + ResolveMap(m, text[b..]))
  {
    CutAt(m, text, from, a);
    KnownConcat(m, text[from..a], text[a..]);
    SubSlices(text, from, a);
    Cut(text[from..], a - from);
    KnownValue(m, text, a, b);
  }

  lemma KnownReplaced(m: map<string, string>, head: string, rep: string, rest: string)
    requires Known(m, head) && Known(m, rest) && KnownWindow(m, rep)
    ensures Known(m, head + rep + rest)
    ensures ResolveMap(m, head + rep + rest) == ResolveMap(m, head) + (m[rep] + ResolveMap(m, rest))
  {
    KnownAtWindow(m, rep, rest);
    KnownConcat(m, head, rep + rest);
    Assoc(head, rep, rest);
  }

  lemma KnownValue(m: map<string, string>, text: string, a: nat, b: nat)
    requires a <= b <= |text| && BracketFree(text[a..b])
    ensures Known(m, text[a..]) <==> Known(m, text[b..])
    ensures ResolveMap(m, text[a..]) == text[a..b] + ResolveMap(m, text[b..])
  {
    SubSlices(text, a, b);
    Cut(text[a..], b - a);
    KnownPlain(m, text[a..b], text[b..]);
  }

  lemma CutAt(m: map<string, string>, text: string, from: nat, a: nat)
    requires from <= a <= |text| && Known(m, text[from..]) && !Inside(text, a)
    ensures Known(m, text[from..a]) && Known(m, text[a..])
  {
    InsideWhole(text, from, a - from);
    SubSlices(text, from, a);
    KnownSplit(m, text[from..], a - from);
  }

  /** Around a window a known text falls apart into known texts. */
  lemma {:induction false} KnownAround(m: map<string, string>, h: string, w: string, r: string)
    requires IsWindow(w) && Known(m, h + w + r)
    ensures Known(m, h) && KnownWindow(m, w) && Known(m, r)
    decreases |h|
  {
    Assoc(h, w, r);
    if h == "" {
      Whole(w + r);
      KnownAtWindow(m, w, r);
    } else {
      var c := if h[0] != '[' then 1 else Close(h) + 1;
      if h[0] == '[' {
        FrontWindow(h, w, r);
      }
      Cut(h, c);
      Assoc(h[..c], h[c..], w);
      Assoc(h[..c], h[c..] + w, r);
      if h[0] != '[' {
        KnownPlain(m, h[..c], h[c..] + w + r);
      } else {
        KnownAtWindow(m, h[..c], h[c..] + w + r);
      }
      KnownAround(m, h[c..], w, r);
    }
  }

  /** A window that starts before another one ends before it. */
  lemma FrontWindow(h: string, w: string, r: string)
    requires IsWindow(w) && h != "" && h[0] == '['
    ensures var t := h + w + r;
            Close(t) < |t| && IsWindow(t[..Close(t) + 1]) ==>
              Close(h) == Close(t) < |h| && h[..Close(h) + 1] == t[..Close(t) + 1]
  {
    var t := h + w + r;
    assert t[|h|] == '[';
    var e := Close(t);
    if e < |h| {
      assert forall i | 0 <= i < |h| :: h[i] == t[i];
      CloseUnique(h, e);
      assert h[..e + 1] == t[..e + 1];
    } else if e < |t| {
      assert t[..e + 1][1..e][|h| - 1] == '[' || e == |h|;
    }
  }

  lemma {:induction false} KnownOutside(m: map<string, string>, t: string)
    requires Known(m, t)
    ensures !Inside(t, |t|)
    decreases |t|
  {
    if t != "" {
      var c := if t[0] != '[' then 1 else Close(t) + 1;
      Cut(t, c);
      KnownOutside(m, t[c..]);
      OutsideAfter(t[..c], t[c..]);
    }
  }

  lemma OutsideAfter(a: string, t: string)
    requires !Inside(t, |t|) && (BracketFree(a) || IsWindow(a))
    ensures !Inside(a + t, |a + t|)
  {
    InsideTail(a, t, |t|);
  }

  lemma InsideOfPrefix(text: string, a: nat)
    requires a <= |text|
    ensures Inside(text, a) ==> Inside(text[..a], a)
  {
    if Inside(text, a) {
      var k :| 0 <= k < a && text[k] == '[' && forall j | k < j < a :: text[j] != '[' && text[j] != ']';
      assert text[..a][k] == '[';
      assert forall j | k < j < a :: text[..a][j] == text[j];
    }
  }

  /** A known result means a known text and clean spans. */
  lemma {:induction false} SpliceWasClean(m: map<string, string>, text: string, spans: seq<Span>, reps: seq<string>, from: nat)
    requires SpansOk(spans, |text|) && |reps| == |spans|
    requires from <= |text| && (spans != [] ==> from <= spans[0].start)
    requires StandFor(m, text, spans, reps) && Known(m, text[..from]) && Known(m, Splice(text, spans, reps, from))
    ensures Known(m, text[from..]) && CleanSpans(text, spans)
    decreases |spans|
  {
    if spans != [] {
      var a, b := spans[0].start, spans[0].end;
      KnownAround(m, text[from..a], reps[0], Splice(text, spans[1..], reps[1..], b));
      KnownUpTo(m, text, from, a, b);
      SpliceWasClean(m, text, spans[1..], reps[1..], b);
      KnownValue(m, text, a, b);
      KnownConcat(m, text[from..a], text[a..]);
      SubSlices(text, from, a);
      Cut(text[from..], a - from);
      forall i | 0 <= i < |spans|
        ensures CleanSpan(text, spans[i])
      {
        assert i > 0 ==> CleanSpan(text, spans[1..][i - 1]);
      }
    }
  }

  lemma KnownUpTo(m: map<string, string>, text: string, from: nat, a: nat, b: nat)
    requires from <= a <= b <= |text| && Known(m, text[..from]) && Known(m, text[from..a]) && BracketFree(text[a..b])
    ensures !Inside(text, a) && Known(m, text[..b])
  {
    assert text[..a] == text[..from] + text[from..a];
    KnownConcat(m, text[..from], text[from..a]);
    KnownOutside(m, text[..a]);
    InsideOfPrefix(text, a);
    assert text[..b] == text[..a] + text[a..b];
    assert text[a..b] + "" == text[a..b];
    KnownPlain(m, text[a..b], "");
    KnownConcat(m, text[..a], text[a..b]);
  }

  // ----- Redaction lists every window

  lemma ListedJoin(m: map<string, string>, h: string, w: string, r: string)
    requires Listed(m, h) && IsWindow(w) && w in m && Listed(m, r)
    ensures Listed(m, h + w + r)
  {
    var t := h + w + r;
    WindowBrackets(w);
    assert forall i | 0 <= i < |w| :: t[|h| + i] == w[i];
    forall i, j | 0 <= i <= j <= |t| && IsWindow(t[i..j])
      ensures t[i..j] in m
    {
      WindowBrackets(t[i..j]);
      WindowPlace(t, i, j, |h|, |h| + |w|);
      if j <= |h| {
        assert t[i..j] == h[i..j];
      } else if i >= |h| + |w| {
        assert t[i..j] == r[i - |h| - |w|..j - |h| - |w|];
      } else {
        assert t[i..j] == w;
      }
    }
  }

  /** Two windows of a text are the same or apart. */
  lemma WindowPlace(t: string, i: nat, j: nat, a: nat, b: nat)
    requires i <= j <= |t| && a <= b <= |t| && IsWindow(t[i..j]) && IsWindow(t[a..b])
    ensures j <= a || i >= b || (i == a && j == b)
  {
    WindowBrackets(t[i..j]);
    WindowBrackets(t[a..b]);
    assert forall x | i <= x < j :: t[x] == t[i..j][x - i];
    assert forall x | a <= x < b :: t[x] == t[a..b][x - a];
    assert t[i] == '[' && t[j - 1] == ']' && t[a] == '[' && t[b - 1] == ']';
    assert forall x | i < x < j :: t[x] != '[';
    assert forall x | a < x < b :: t[x] != '[';
    assert forall x | i <= x < j - 1 :: t[x] != ']';
    assert forall x | a <= x < b - 1 :: t[x] != ']';
  }

  lemma ListedPart(m: map<string, string>, t: string, a: nat, b: nat)
    requires Listed(m, t) && a <= b <= |t|
    ensures Listed(m, t[a..b])
  {
    var s := t[a..b];
    forall i, j | 0 <= i <= j <= |s| && IsWindow(s[i..j])
      ensures s[i..j] in m
    {
      SliceOfSlice(t, a, b, i, j);
    }
  }

  lemma {:induction false} SpliceListed(m: map<string, string>, text: string, spans: seq<Span>, reps: seq<string>, from: nat)
    requires SpansOk(spans, |text|) && |reps| == |spans|
    requires from <= |text| && (spans != [] ==> from <= spans[0].start)
    requires Listed(m, text) && StandFor(m, text, spans, reps)
    ensures Listed(m, Splice(text, spans, reps, from))
    decreases |spans|
  {
    if spans == [] {
      ListedTail(m, text, from);
    } else {
      ListedPart(m, text, from, spans[0].start);
      SpliceListed(m, text, spans[1..], reps[1..], spans[0].end);
      ListedJoin(m, text[from..spans[0].start], reps[0], Splice(text, spans[1..], reps[1..], spans[0].end));
    }
  }

  lemma ListedGrows(m: map<string, string>, n: map<string, string>, t: string)
    requires Listed(m, t) && Grows(m, n)
    ensures Listed(n, t)
  {
  }

  /** Later stores do not make a text known either. */
  lemma {:induction false} KnownBefore(m: map<string, string>, n: map<string, string>, t: string)
    requires Listed(m, t) && Grows(m, n)
    ensures Known(n, t) <==> Known(m, t)
    decreases |t|
  {
    if Known(m, t) {
      KnownGrows(m, n, t);
    }
    if Known(n, t) && t != "" {
      var c := if t[0] != '[' then 1 else Close(t) + 1;
      ListedTail(m, t, c);
      KnownBefore(m, n, t[c..]);
      if t[0] == '[' {
        assert t[0..c] == t[..c];
      }
    }
  }

  // ----- One rule, all rules

  predicate Names(m: map<string, string>, reps: seq<string>, values: seq<string>) {
    |reps| == |values| && forall i | 0 <= i < |reps| :: IsWindow(reps[i]) && reps[i] in m && m[reps[i]] == values[i]
  }

  lemma NamesCons(m: map<string, string>, n: map<string, string>, reps: seq<string>, values: seq<string>, p: string)
    requires Grows(m, n) && values != [] && Names(m, reps, values[1..]) && IsWindow(p) && p in n && n[p] == values[0]
    ensures Names(n, [p] + reps, values)
  {
    var ps := [p] + reps;
    forall i | 0 <= i < |ps|
      ensures IsWindow(ps[i]) && ps[i] in n && n[ps[i]] == values[i]
    {
      if i > 0 {
        assert ps[i] == reps[i - 1] && values[i] == values[1..][i - 1];
        assert reps[i - 1] in m;
      }
    }
  }

  lemma IssueNames(v: VaultState, entity: string, value: string)
    requires Valid(v) && KeysAreWindows(v.entries) && BracketFree(entity)
    ensures var s := Issue(v, entity, value);
            && Valid(s.vault) && KeysAreWindows(s.vault.entries) && Grows(v.entries, s.vault.entries)
            && IsWindow(s.placeholder) && s.placeholder in s.vault.entries && s.vault.entries[s.placeholder] == value
  {
    StoreKeepsValid(v, entity, value);
    FormatIsWindow(v.style, entity, Issue(v, entity, value).vault.seen[(entity, value)]);
  }

  lemma {:induction false} AssignNames(v: VaultState, entity: string, values: seq<string>)
    requires Valid(v) && KeysAreWindows(v.entries) && BracketFree(entity)
    ensures var a := Assign(v, entity, values);
            && Valid(a.vault) && KeysAreWindows(a.vault.entries) && Grows(v.entries, a.vault.entries)
            && Names(a.vault.entries, a.reps, values)
    decreases |values|
  {
    if values != [] {
      var rest := Assign(v, entity, values[1..]);
      AssignNames(v, entity, values[1..]);
      IssueNames(rest.vault, entity, values[0]);
      var s := Issue(rest.vault, entity, values[0]);
      NamesCons(rest.vault.entries, s.vault.entries, rest.reps, values, s.placeholder);
    }
  }

  /** A vault and a text that redaction can have produced. */
  ghost predicate Ready(v: VaultState, text: string) {
    Valid(v) && KeysAreWindows(v.entries) && Listed(v.entries, text)
  }

  /** What one more step of redaction does to what a text stands for: `clean` decides. */
  ghost predicate Continues(v: VaultState, text: string, w: VaultState, out: string, clean: bool) {
    && Ready(w, out) && Grows(v.entries, w.entries)
    && (Known(w.entries, out) <==> Known(v.entries, text) && clean)
    && (Known(w.entries, out) ==> ResolveMap(w.entries, out) == ResolveMap(v.entries, text))
  }

  lemma ApplyRuleContinues(v: VaultState, r: Rule, text: string)
    requires SpansOk(r.find(text), |text|) && BracketFree(r.entity) && Ready(v, text)
    ensures var a := ApplyRule(v, r, text);
            Continues(v, text, a.vault, a.text, CleanSpans(text, r.find(text)))
  {
    var spans := r.find(text);
    var a := Assign(v, r.entity, Values(text, spans));
    AssignNames(v, r.entity, Values(text, spans));
    SpliceContinues(v.entries, a.vault.entries, text, spans, a.reps);
  }

  lemma SpliceContinues(m: map<string, string>, n: map<string, string>, text: string, spans: seq<Span>, reps: seq<string>)
    requires SpansOk(spans, |text|) && Listed(m, text) && Grows(m, n) && Names(n, reps, Values(text, spans))
    ensures var out := Splice(text, spans, reps, 0);
            && Listed(n, out)
            && (Known(n, out) <==> Known(m, text) && CleanSpans(text, spans))
            && (Known(n, out) ==> ResolveMap(n, out) == ResolveMap(m, text))
  {
    Whole(text);
    assert StandFor(n, text, spans, reps) by {
      assert forall i | 0 <= i < |spans| :: Values(text, spans)[i] == text[spans[i].start..spans[i].end];
    }
    ListedGrows(m, n, text);
    SpliceListed(n, text, spans, reps, 0);
    KnownBefore(m, n, text);
    if Known(n, Splice(text, spans, reps, 0)) {
      SpliceWasClean(n, text, spans, reps, 0);
    }
    if Known(m, text) && CleanSpans(text, spans) {
      KnownGrows(m, n, text);
      SpliceKeepsMeaning(n, text, spans, reps, 0);
    }
  }

  predicate EntitiesBracketFree(rules: seq<Rule>) {
    forall i | 0 <= i < |rules| :: BracketFree(rules[i].entity)
  }

  lemma TryRuleContinues(v: VaultState, r: Rule, entities: set<string>, text: string)
    requires SpansOk(r.find(text), |text|) && BracketFree(r.entity) && Ready(v, text)
    ensures var a := TryRule(v, r, entities, text);
            Continues(v, text, a.vault, a.text, r.entity in entities ==> CleanSpans(text, r.find(text)))
  {
    if r.entity in entities {
      ApplyRuleContinues(v, r, text);
    }
  }

  /** A run of rules leaves a known text known exactly if the run is clean. */
  lemma {:induction false} ApplyRulesContinues(v: VaultState, rules: seq<Rule>, entities: set<string>, text: string)
    requires RulesOk(rules) && EntitiesBracketFree(rules) && Ready(v, text)
    ensures var a := ApplyRules(v, rules, entities, text);
            Continues(v, text, a.vault, a.text, CleanRun(v, rules, entities, text))
    decreases |rules|
  {
    if rules != [] {
      assert RuleOk(rules[0]);
      TryRuleContinues(v, rules[0], entities, text);
      var r := TryRule(v, rules[0], entities, text);
      ApplyRulesContinues(r.vault, rules[1..], entities, r.text);
    }
  }

  // ----- All prompts of a request

  datatype Conversation = Conversation(vault: VaultState, texts: seq<string>)

  /** The prompts of one request, redacted in order with one vault. */
  ghost function RedactAll(v: VaultState, rules: seq<Rule>, entities: set<string>, prompts: seq<string>): (c: Conversation)
    requires RulesOk(rules)
    ensures |c.texts| == |prompts|
    decreases |prompts|
  {
    if prompts == [] then Conversation(v, [])
    else
      var first := ApplyRules(v, rules, entities, prompts[0]);
      var rest := RedactAll(first.vault, rules, entities, prompts[1..]);
      Conversation(rest.vault, [first.text] + rest.texts)
  }

  /** No rule matches into a placeholder already inserted, in prompt `i`. */
  ghost predicate CleanPrompt(v: VaultState, rules: seq<Rule>, entities: set<string>, prompts: seq<string>, i: nat)
    requires RulesOk(rules) && i < |prompts|
    decreases i
  {
    if i == 0 then CleanRun(v, rules, entities, prompts[0])
    else CleanPrompt(ApplyRules(v, rules, entities, prompts[0]).vault, rules, entities, prompts[1..], i - 1)
  }

  ghost predicate CleanConversation(v: VaultState, rules: seq<Rule>, entities: set<string>, prompts: seq<string>)
    requires RulesOk(rules)
  {
    forall i | 0 <= i < |prompts| :: CleanPrompt(v, rules, entities, prompts, i)
  }

  lemma PromptReady(v: VaultState, prompt: string)
    requires Valid(v) && KeysAreWindows(v.entries) && BracketFree(prompt)
    ensures Ready(v, prompt) && Known(v.entries, prompt) && ResolveMap(v.entries, prompt) == prompt
  {
    forall i, j | 0 <= i <= j <= |prompt|
      ensures !IsWindow(prompt[i..j])
    {
      assert i < j ==> prompt[i..j][0] == prompt[i];
    }
    KnownPlain(v.entries, prompt, "");
    Whole(prompt);
  }

  /** With the final vault, redacted prompt `i` is known exactly if its run was clean. */
  lemma {:induction false} RedactAllKnown(v: VaultState, rules: seq<Rule>, entities: set<string>, prompts: seq<string>, i: nat)
    requires RulesOk(rules) && EntitiesBracketFree(rules) && i < |prompts|
    requires Valid(v) && KeysAreWindows(v.entries) && forall k | 0 <= k < |prompts| :: BracketFree(prompts[k])
    ensures var c := RedactAll(v, rules, entities, prompts);
            && Ready(c.vault, c.texts[i])
            && (Known(c.vault.entries, c.texts[i]) <==> CleanPrompt(v, rules, entities, prompts, i))
            && (Known(c.vault.entries, c.texts[i]) ==> ResolveMap(c.vault.entries, c.texts[i]) == prompts[i])
    decreases |prompts|
  {
    FirstKnown(v, rules, entities, prompts);
    if i > 0 {
      RedactAllKnown(ApplyRules(v, rules, entities, prompts[0]).vault, rules, entities, prompts[1..], i - 1);
    }
  }

  lemma FirstKnown(v: VaultState, rules: seq<Rule>, entities: set<string>, prompts: seq<string>)
    requires RulesOk(rules) && EntitiesBracketFree(rules) && prompts != []
    requires Valid(v) && KeysAreWindows(v.entries) && forall k | 0 <= k < |prompts| :: BracketFree(prompts[k])
    ensures var first, c := ApplyRules(v, rules, entities, prompts[0]), RedactAll(v, rules, entities, prompts);
            && Valid(first.vault) && KeysAreWindows(first.vault.entries)
            && Ready(c.vault, first.text)
            && (Known(c.vault.entries, first.text) <==> CleanRun(v, rules, entities, prompts[0]))
            && (Known(c.vault.entries, first.text) ==> ResolveMap(c.vault.entries, first.text) == prompts[0])
  {
    var first := ApplyRules(v, rules, entities, prompts[0]);
    PromptReady(v, prompts[0]);
    ApplyRulesContinues(v, rules, entities, prompts[0]);
    RedactAllGrows(first.vault, rules, entities, prompts[1..]);
    KnownLater(first.vault.entries, RedactAll(first.vault, rules, entities, prompts[1..]).vault.entries, first.text);
  }

  lemma KnownLater(m: map<string, string>, n: map<string, string>, text: string)
    requires Listed(m, text) && Grows(m, n)
    ensures Listed(n, text) && (Known(n, text) <==> Known(m, text))
    ensures Known(m, text) ==> ResolveMap(n, text) == ResolveMap(m, text)
  {
    ListedGrows(m, n, text);
    KnownBefore(m, n, text);
    if Known(m, text) {
      KnownGrows(m, n, text);
    }
  }

  lemma {:induction false} RedactAllGrows(v: VaultState, rules: seq<Rule>, entities: set<string>, prompts: seq<string>)
    requires RulesOk(rules) && EntitiesBracketFree(rules)
    requires Valid(v) && KeysAreWindows(v.entries) && forall k | 0 <= k < |prompts| :: BracketFree(prompts[k])
    ensures var c := RedactAll(v, rules, entities, prompts);
            Valid(c.vault) && KeysAreWindows(c.vault.entries) && Grows(v.entries, c.vault.entries)
    decreases |prompts|
  {
    if prompts != [] {
      PromptReady(v, prompts[0]);
      ApplyRulesContinues(v, rules, entities, prompts[0]);
      RedactAllGrows(ApplyRules(v, rules, entities, prompts[0]).vault, rules, entities, prompts[1..]);
    }
  }

  // ----- Placeholders that differ only in case

  function Lower(s: string): (r: string)
    ensures |r| == |s| && forall i | 0 <= i < |s| :: r[i] == AsciiLower(s[i])
  {
    seq(|s|, i requires 0 <= i < |s| => AsciiLower(s[i]))
  }

  lemma LowerSame(a: string, b: string)
    ensures Same(CaseInsensitive, a, b) <==> Lower(a) == Lower(b)
  {
  }

  lemma LowerConcat(a: string, b: string)
    ensures Lower(a + b) == Lower(a) + Lower(b)
  {
  }

  lemma {:induction false} LowerDecimal(n: nat)
    ensures Lower(Decimal(n)) == Decimal(n)
  {
    if n >= 10 {
      LowerDecimal(n / 10);
    }
  }

  /** Placeholders that agree up to case have entities that do, and equal indices. */
  lemma FormatApart(style: Template, e1: string, n1: nat, e2: string, n2: nat)
    requires Same(CaseInsensitive, Format(style, e1, n1), Format(style, e2, n2))
    ensures Same(CaseInsensitive, e1, e2) && n1 == n2
  {
    var p := Lower(Prefix(style));
    LowerSame(Format(style, e1, n1), Format(style, e2, n2));
    LowerFormat(style, e1, n1);
    LowerFormat(style, e2, n2);
    SamePlace(p, Lower(e1) + "_" + Decimal(n1), Lower(e2) + "_" + Decimal(n2));
    SuffixAfterUnderscore(Lower(e1), Decimal(n1), Lower(e2), Decimal(n2));
    LowerSame(e1, e2);
    DecimalRoundTrip(n1);
    DecimalRoundTrip(n2);
  }

  lemma LowerFormat(style: Template, e: string, n: nat)
    ensures Lower(Format(style, e, n)) == Lower(Prefix(style)) + (Lower(e) + "_" + Decimal(n)) + "]"
  {
    LowerDecimal(n);
    assert Lower("_") == "_" && Lower("]") == "]";
    LowerConcat(Prefix(style), e);
    LowerConcat(Prefix(style) + e, "_");
    LowerConcat(Prefix(style) + e + "_", Decimal(n));
    LowerConcat(Prefix(style) + e + "_" + Decimal(n), "]");
    Assoc(Lower(Prefix(style)), Lower(e), "_");
    Assoc(Lower(Prefix(style)), Lower(e) + "_", Decimal(n));
  }

  lemma SamePlace(p: string, a: string, b: string)
    requires p + a + "]" == p + b + "]"
    ensures a == b
  {
    assert |a| == |b|;
    assert (p + a + "]")[|p|..|p| + |a|] == a && (p + b + "]")[|p|..|p| + |b|] == b;
  }

  /** No two entities differ only in case. */
  predicate CaseDistinct(entities: set<string>) {
    forall e, f | e in entities && f in entities && Same(CaseInsensitive, e, f) :: e == f
  }

  predicate SeenWithin(v: VaultState, entities: set<string>) {
    forall k | k in v.seen :: k.0 in entities
  }

  lemma VaultApart(st: Strategy, v: VaultState, entities: set<string>)
    requires Valid(v) && SeenWithin(v, entities) && (st.Exact? || CaseDistinct(entities))
    ensures Apart(st, v.entries)
  {
    if st.CaseInsensitive? {
      forall p, q | p in v.entries && q in v.entries && Same(st, p, q)
        ensures p == q
      {
        var j :| j in v.seen && PlaceholderOf(v, j) == p;
        var k :| k in v.seen && PlaceholderOf(v, k) == q;
        FormatApart(v.style, j.0, v.seen[j], k.0, v.seen[k]);
      }
    }
  }

  // ----- Placeholders that differ only in case

  /** Placeholders that the strategy does not tell apart stand for the same. */
  predicate Agreeing(st: Strategy, m: map<string, string>) {
    forall p, q | p in m && q in m && Same(st, p, q) :: m[p] == m[q]
  }

  /** A reply that is one placeholder is restored, whichever it is and in every entry order. */
  ghost predicate EachRestored(st: Strategy, m: map<string, string>) {
    forall p, entries | p in m && Lists(entries, m) :: Restore(st, p, entries) == m[p]
  }

  lemma {:induction false} FirstSome(st: Strategy, entries: seq<Entry>, w: string, i: nat) returns (j: nat)
    requires i < |entries| && Same(st, w, entries[i].placeholder)
    ensures j < |entries| && Same(st, w, entries[j].placeholder) && First(st, entries, w) == entries[j].original
  {
    if Same(st, w, entries[0].placeholder) {
      j := 0;
    } else {
      j := FirstSome(st, entries[1..], w, i - 1);
      j := j + 1;
    }
  }

  /** For every vault of windows with bracket-free originals: each placeholder is restored in every
      entry order if and only if those that the strategy does not tell apart agree. */
  lemma EachRestoredExactly(st: Strategy, m: map<string, string>)
    requires KeysAreWindows(m) && forall p | p in m :: BracketFree(m[p])
    ensures EachRestored(st, m) <==> Agreeing(st, m)
  {
    forall p, entries: seq<Entry> | p in m && Lists(entries, m)
      ensures Agreeing(st, m) ==> Restore(st, p, entries) == m[p]
    {
      var i :| 0 <= i < |entries| && entries[i].placeholder == p;
      var j := FirstSome(st, entries, p, i);
      RestoreWindow(st, entries, p);
      assert Agreeing(st, m) ==> m[entries[j].placeholder] == m[p];
    }
    forall p, q | p in m && q in m && Same(st, p, q)
      ensures EachRestored(st, m) ==> m[p] == m[q]
    {
      var entries := ListedFirst(st, m, p, q);
    }
  }

  /** With `q` listed first, `p` is taken for it. */
  lemma ListedFirst(st: Strategy, m: map<string, string>, p: string, q: string) returns (entries: seq<Entry>)
    requires KeysAreWindows(m) && (forall p | p in m :: BracketFree(m[p])) && p in m && q in m && Same(st, p, q)
    ensures Lists(entries, m) && Restore(st, p, entries) == m[q]
  {
    var rest := Listing(m - {q});
    ListsCons(rest, m, q);
    entries := [Entry(q, m[q])] + rest;
    RestoreWindow(st, entries, p);
  }

  /** Two entities whose names differ only in case, and one value of each: the first placeholder can
      be restored to the value of the second. */
  lemma CaseClashFails(style: Template, e: string, f: string, x: string, y: string) returns (entries: seq<Entry>)
    requires BracketFree(e) && BracketFree(f) && BracketFree(x) && BracketFree(y)
    requires e != f && Same(CaseInsensitive, e, f)
    ensures var first := Issue(Empty(style), e, x);
            var second := Issue(first.vault, f, y);
            Lists(entries, second.vault.entries) && Restore(CaseInsensitive, first.placeholder, entries) == y
  {
    var p, q := Format(style, e, 1), Format(style, f, 1);
    TwoIssued(style, e, f, x, y);
    FormatIsWindow(style, e, 1);
    FormatIsWindow(style, f, 1);
    SameFormat(style, e, f);
    entries := TwoListed(CaseInsensitive, p, q, x, y);
  }

  lemma TwoListed(st: Strategy, p: string, q: string, x: string, y: string) returns (entries: seq<Entry>)
    requires IsWindow(p) && IsWindow(q) && BracketFree(x) && BracketFree(y) && p != q && Same(st, p, q)
    ensures Lists(entries, map[p := x, q := y]) && Restore(st, p, entries) == y
  {
    entries := ListedFirst(st, map[p := x, q := y], p, q);
  }

  lemma TwoIssued(style: Template, e: string, f: string, x: string, y: string)
    requires e != f
    ensures var first := Issue(Empty(style), e, x);
            var second := Issue(first.vault, f, y);
            var p, q := Format(style, e, 1), Format(style, f, 1);
            p != q && first.placeholder == p && second.vault.entries == map[p := x, q := y]
  {
    if Format(style, e, 1) == Format(style, f, 1) {
      FormatInjective(style, e, 1, f, 1);
    }
  }

  lemma SameFormat(style: Template, e: string, f: string)
    requires Same(CaseInsensitive, e, f)
    ensures Same(CaseInsensitive, Format(style, e, 1), Format(style, f, 1))
  {
    LowerSame(e, f);
    LowerFormat(style, e, 1);
    LowerFormat(style, f, 1);
    LowerSame(Format(style, e, 1), Format(style, f, 1));
  }

  lemma {:induction false} AssignWithin(v: VaultState, entity: string, values: seq<string>, entities: set<string>)
    requires SeenWithin(v, entities) && entity in entities
    ensures SeenWithin(Assign(v, entity, values).vault, entities)
    decreases |values|
  {
    if values != [] {
      AssignWithin(v, entity, values[1..], entities);
      StoreSeen(Assign(v, entity, values[1..]).vault, entity, values[0]);
    }
  }

  lemma {:induction false} ApplyRulesWithin(v: VaultState, rules: seq<Rule>, entities: set<string>, text: string)
    requires RulesOk(rules) && SeenWithin(v, entities)
    ensures SeenWithin(ApplyRules(v, rules, entities, text).vault, entities)
    decreases |rules|
  {
    if rules != [] {
      assert RuleOk(rules[0]);
      var r := TryRule(v, rules[0], entities, text);
      if rules[0].entity in entities {
        AssignWithin(v, rules[0].entity, Values(text, rules[0].find(text)), entities);
      }
      ApplyRulesWithin(r.vault, rules[1..], entities, r.text);
    }
  }

  lemma {:induction false} RedactAllWithin(v: VaultState, rules: seq<Rule>, entities: set<string>, prompts: seq<string>)
    requires RulesOk(rules) && SeenWithin(v, entities)
    ensures SeenWithin(RedactAll(v, rules, entities, prompts).vault, entities)
    decreases |prompts|
  {
    if prompts != [] {
      ApplyRulesWithin(v, rules, entities, prompts[0]);
      RedactAllWithin(ApplyRules(v, rules, entities, prompts[0]).vault, rules, entities, prompts[1..]);
    }
  }

  // ----- The round trip

  /** For every list of bracket-free prompts sharing one vault: a prompt whose rule run is clean is
      restored with the final vault, in every entry order and by both strategies, the
      case-insensitive one if no two selected entities differ only in case. */
  lemma RoundTrip(st: Strategy, style: Template, rules: seq<Rule>, entities: set<string>, prompts: seq<string>, i: nat, entries: seq<Entry>)
    requires RulesOk(rules) && EntitiesBracketFree(rules) && i < |prompts|
    requires forall k | 0 <= k < |prompts| :: BracketFree(prompts[k])
    requires CleanPrompt(Empty(style), rules, entities, prompts, i) && (st.Exact? || CaseDistinct(entities))
    requires Lists(entries, RedactAll(Empty(style), rules, entities, prompts).vault.entries)
    ensures Restore(st, RedactAll(Empty(style), rules, entities, prompts).texts[i], entries) == prompts[i]
  {
    var c := RedactAll(Empty(style), rules, entities, prompts);
    RedactAllKnown(Empty(style), rules, entities, prompts, i);
    RedactAllWithin(Empty(style), rules, entities, prompts);
    VaultApart(st, c.vault, entities);
    RestoreKnown(st, c.vault.entries, c.texts[i], entries);
  }

  /** Every order of the vault's entries restores the text. */
  ghost predicate RestoredInEveryOrder(st: Strategy, v: VaultState, text: string, prompt: string) {
    forall entries | Lists(entries, v.entries) :: Restore(st, text, entries) == prompt
  }

  /** A prompt is restored in every entry order if and only if its rule run was clean, by both
      strategies, the case-insensitive one if no two selected entities differ only in case. */
  lemma RoundTripExactly(st: Strategy, style: Template, rules: seq<Rule>, entities: set<string>, prompts: seq<string>, i: nat)
    requires RulesOk(rules) && EntitiesBracketFree(rules) && i < |prompts|
    requires (forall k | 0 <= k < |prompts| :: BracketFree(prompts[k])) && (st.Exact? || CaseDistinct(entities))
    ensures var c := RedactAll(Empty(style), rules, entities, prompts);
            RestoredInEveryOrder(st, c.vault, c.texts[i], prompts[i]) <==> CleanPrompt(Empty(style), rules, entities, prompts, i)
  {
    var c := RedactAll(Empty(style), rules, entities, prompts);
    RedactAllKnown(Empty(style), rules, entities, prompts, i);
    RedactAllWithin(Empty(style), rules, entities, prompts);
    VaultApart(st, c.vault, entities);
    RestoredExactly(st, c.vault, c.texts[i], prompts[i]);
  }

  lemma RestoredExactly(st: Strategy, v: VaultState, text: string, prompt: string)
    requires Ready(v, text) && BracketFree(prompt) && Apart(st, v.entries)
    requires Known(v.entries, text) ==> ResolveMap(v.entries, text) == prompt
    ensures RestoredInEveryOrder(st, v, text, prompt) <==> Known(v.entries, text)
  {
    if Known(v.entries, text) {
      forall entries | Lists(entries, v.entries)
        ensures Restore(st, text, entries) == prompt
      {
        RestoreKnown(st, v.entries, text, entries);
      }
    } else {
      var entries := UnknownFails(st, v.entries, text);
    }
  }

  /** All prompts of a request come back in every entry order if and only if no rule matched into a
      placeholder. */
  lemma ConversationExactly(st: Strategy, style: Template, rules: seq<Rule>, entities: set<string>, prompts: seq<string>)
    requires RulesOk(rules) && EntitiesBracketFree(rules)
    requires (forall k | 0 <= k < |prompts| :: BracketFree(prompts[k])) && (st.Exact? || CaseDistinct(entities))
    ensures var c := RedactAll(Empty(style), rules, entities, prompts);
            (forall i | 0 <= i < |prompts| :: RestoredInEveryOrder(st, c.vault, c.texts[i], prompts[i]))
            <==> CleanConversation(Empty(style), rules, entities, prompts)
  {
    forall i | 0 <= i < |prompts|
      ensures var c := RedactAll(Empty(style), rules, entities, prompts);
              RestoredInEveryOrder(st, c.vault, c.texts[i], prompts[i]) <==> CleanPrompt(Empty(style), rules, entities, prompts, i)
    {
      RoundTripExactly(st, style, rules, entities, prompts, i);
    }
  }

  // ----- Streaming

  lemma {:induction false} FeedKnown(st: Strategy, m: map<string, string>, entries: seq<Entry>, t: string)
    requires Lists(entries, m) && KeysAreWindows(m) && Apart(st, m) && Known(m, t)
    requires forall p | p in m :: ByteLen(p) <= MAX_PLACEHOLDER_LEN
    ensures Feed(st, entries, START, t) == Fed(START, ResolveMap(m, t))
    decreases |t|
  {
    if t != "" {
      var c := if t[0] != '[' then 1 else Close(t) + 1;
      Cut(t, c);
      FeedKnown(st, m, entries, t[c..]);
      FeedConcat(st, entries, START, t[..c], t[c..]);
      if t[0] != '[' {
        FeedPlain(st, entries, t[..c]);
        KnownPlain(m, t[..c], t[c..]);
      } else {
        FeedKnownWindow(st, m, entries, t[..c]);
        KnownAtWindow(m, t[..c], t[c..]);
      }
    }
  }

  lemma FeedKnownWindow(st: Strategy, m: map<string, string>, entries: seq<Entry>, w: string)
    requires Lists(entries, m) && KeysAreWindows(m) && Apart(st, m) && KnownWindow(m, w) && ByteLen(w) <= MAX_PLACEHOLDER_LEN
    ensures Feed(st, entries, START, w) == Fed(START, m[w])
  {
    FeedWindow(st, entries, w);
    Whole(w);
    KnownAtWindow(m, w, "");
    RestoreKnown(st, m, w, entries);
    Whole(m[w]);
  }

  /** The same through the streaming deanonymizer, for every chunking of the reply, when the
      placeholders fit its buffer. */
  lemma StreamedRoundTrip(st: Strategy, style: Template, rules: seq<Rule>, entities: set<string>, prompts: seq<string>, i: nat,
                          entries: seq<Entry>, chunks: seq<string>)
    requires RulesOk(rules) && EntitiesBracketFree(rules) && i < |prompts|
    requires forall k | 0 <= k < |prompts| :: BracketFree(prompts[k])
    requires CleanPrompt(Empty(style), rules, entities, prompts, i) && (st.Exact? || CaseDistinct(entities))
    requires var c := RedactAll(Empty(style), rules, entities, prompts);
             && Lists(entries, c.vault.entries)
             && (forall p | p in c.vault.entries :: ByteLen(p) <= MAX_PLACEHOLDER_LEN)
             && Concat(chunks) == c.texts[i]
    ensures Streamed(st, entries, chunks) == prompts[i]
  {
    var c := RedactAll(Empty(style), rules, entities, prompts);
    RedactAllKnown(Empty(style), rules, entities, prompts, i);
    RedactAllWithin(Empty(style), rules, entities, prompts);
    VaultApart(st, c.vault, entities);
    StreamedKnown(st, c.vault.entries, entries, chunks);
  }

  lemma StreamedKnown(st: Strategy, m: map<string, string>, entries: seq<Entry>, chunks: seq<string>)
    requires Lists(entries, m) && KeysAreWindows(m) && Apart(st, m) && Known(m, Concat(chunks))
    requires forall p | p in m :: ByteLen(p) <= MAX_PLACEHOLDER_LEN
    ensures Streamed(st, entries, chunks) == ResolveMap(m, Concat(chunks))
  {
    PushAllIsOnePush(st, entries, START, chunks);
    if entries == [] {
      RestoreKnown(st, m, Concat(chunks), entries);
    } else {
      FeedKnown(st, m, entries, Concat(chunks));
    }
    Whole(Pushed(st, entries, START, Concat(chunks)).out);
  }
}
