/** What happens when a rule does match inside a placeholder that an earlier rule inserted: the
    reply can be restored only in one of the entry orders, or in none, and the vault lists its
    entries in an arbitrary one.  (With the default patterns and the `llm_guard` style this
    happens: the body of `[REDACTED_GITHUB_FINE_GRAINED_PAT_1]` matches the `TOKEN` rule.) */
module NestedMatch {
  import opened Seqs
  import opened Brackets
  import opened Deanonymize
  import opened Vault
  import opened Redact

  /** A `[` whose window holds another `[` is no placeholder. */
  lemma ReplaceAtOuter(x: string, s: string, pat: string, r: string)
    requires IsWindow(pat) && BracketFree(x) && s != "" && s[0] == '['
    ensures Replace(Exact, "[" + x + s, pat, r) == "[" + x + Replace(Exact, s, pat, r)
  {
    var t := "[" + x + s;
    WindowBrackets(pat);
    if |pat| <= |t| {
      var k := if |pat| <= |x| + 1 then |pat| - 1 else |x| + 1;
      assert t[k] == if |pat| <= |x| + 1 then ("[" + x)[k] else s[0];
      assert t[..|pat|][k] != pat[k];
    }
    ReplaceMiss(Exact, t, pat, r);
    assert t[1..] == x + s;
    ReplaceSkips(Exact, x, s, pat, r);
    Assoc("[", x, Replace(Exact, s, pat, r));
  }

  /** The reply after a later rule turned `val` inside `p` into the placeholder `q`. */
  function Nested(u: string, x: string, q: string, y: string, v: string): string {
    u + ("[" + x + (q + (y + "]" + v)))
  }

  lemma ReplaceInNested(u: string, x: string, q: string, y: string, v: string, pat: string, r: string)
    requires BracketFree(u) && BracketFree(x) && BracketFree(y) && BracketFree(v)
    requires IsWindow(q) && IsWindow(pat)
    ensures Replace(Exact, Nested(u, x, q, y, v), pat, r) == Nested(u, x, if q == pat then r else q, y, v)
  {
    var tail := y + "]" + v;
    ReplaceSkips(Exact, u, "[" + x + (q + tail), pat, r);
    ReplaceAtOuter(x, q + tail, pat, r);
    SameExact(q, pat);
    ReplaceAtWindow(Exact, q, tail, pat, r);
    ReplaceSkips(Exact, tail, "", pat, r);
    assert tail + "" == tail;
  }

  /** For every placeholder `p`, every match `val` inside it and every surrounding text: listing the
      inner placeholder first restores the reply, listing the outer one first leaves `p` in it. */
  lemma EntryOrderMatters(u: string, x: string, val: string, y: string, v: string, p: string, q: string, original: string)
    requires BracketFree(u) && BracketFree(v) && BracketFree(original)
    requires IsWindow(p) && p == "[" + x + val + y + "]" && BracketFree(x) && BracketFree(val) && BracketFree(y)
    requires IsWindow(q) && q != p
    ensures var reply := Nested(u, x, q, y, v);
            && Restore(Exact, reply, [Entry(q, val), Entry(p, original)]) == u + original + v
            && Restore(Exact, reply, [Entry(p, original), Entry(q, val)]) == u + p + v
            && u + p + v != u + original + v
  {
    InnerFirst(u, x, val, y, v, p, q, original);
    OuterFirst(u, x, val, y, v, p, q, original);
    StillBracketed(u, p, v, original);
  }

  lemma InnerFirst(u: string, x: string, val: string, y: string, v: string, p: string, q: string, original: string)
    requires BracketFree(u) && BracketFree(v) && BracketFree(x) && BracketFree(y)
    requires IsWindow(p) && p == "[" + x + val + y + "]" && IsWindow(q)
    ensures Restore(Exact, Nested(u, x, q, y, v), [Entry(q, val), Entry(p, original)]) == u + original + v
  {
    ReplaceInNested(u, x, q, y, v, q, val);
    Sides(u, x, val, y, v);
    Assoc(u, p, v);
    assert [Entry(q, val), Entry(p, original)][1..] == [Entry(p, original)];
    RestorePlain(u, p, v, original);
  }

  lemma OuterFirst(u: string, x: string, val: string, y: string, v: string, p: string, q: string, original: string)
    requires BracketFree(u) && BracketFree(v) && BracketFree(x) && BracketFree(y)
    requires IsWindow(p) && p == "[" + x + val + y + "]" && IsWindow(q) && q != p
    ensures Restore(Exact, Nested(u, x, q, y, v), [Entry(p, original), Entry(q, val)]) == u + p + v
  {
    ReplaceInNested(u, x, q, y, v, p, original);
    ReplaceInNested(u, x, q, y, v, q, val);
    Sides(u, x, val, y, v);
    assert [Entry(p, original), Entry(q, val)][1..] == [Entry(q, val)];
    RestoreByOne(Nested(u, x, q, y, v), q, val);
  }

  lemma RestoreByOne(t: string, p: string, original: string)
    requires p != ""
    ensures Restore(Exact, t, [Entry(p, original)]) == Replace(Exact, t, p, original)
  {
    assert [Entry(p, original)][1..] == [];
  }

  lemma RestorePlain(u: string, p: string, v: string, original: string)
    requires BracketFree(u) && BracketFree(v) && IsWindow(p)
    ensures Restore(Exact, u + (p + v), [Entry(p, original)]) == u + original + v
  {
    ReplaceSkips(Exact, u, p + v, p, original);
    SameExact(p, p);
    ReplaceAtWindow(Exact, p, v, p, original);
    ReplaceSkips(Exact, v, "", p, original);
    assert v + "" == v;
    assert [Entry(p, original)][1..] == [];
  }

  // ----- How the redactor gets there

  /** A rule with one match stores it and puts its placeholder in its place. */
  lemma OneMatch(v: VaultState, r: Rule, u: string, value: string, w: string)
    requires SpansOk(r.find(u + value + w), |u + value + w|)
    requires r.find(u + value + w) == [Span(|u|, |u| + |value|)]
    ensures var s := Issue(v, r.entity, value);
            ApplyRule(v, r, u + value + w) == Redacted(s.vault, u + s.placeholder + w)
  {
    AssignOne(v, r.entity, value);
    SpliceOne(u, value, w, Issue(v, r.entity, value).placeholder);
  }

  lemma AssignOne(v: VaultState, entity: string, value: string)
    ensures var s := Issue(v, entity, value); Assign(v, entity, [value]) == Assigned(s.vault, [s.placeholder])
  {
    var s := Issue(v, entity, value);
    assert [value][1..] == [] && Assign(v, entity, []) == Assigned(v, []);
    assert [s.placeholder] + [] == [s.placeholder];
  }

  lemma SpliceOne(u: string, value: string, w: string, p: string)
    ensures var text, spans := u + value + w, [Span(|u|, |u| + |value|)];
            Values(text, spans) == [value] && Splice(text, spans, [p], 0) == u + p + w
  {
    var text, span := u + value + w, Span(|u|, |u| + |value|);
    assert text[|u|..|u| + |value|] == value && text[0..|u|] == u && text[|u| + |value|..] == w;
    assert [span][1..] == [] && [p][1..] == [];
    assert Splice(text, [], [], span.end) == w;
  }

  lemma TwoRules(r1: Rule, r2: Rule, style: Template, entities: set<string>, prompt: string)
    requires RulesOk([r1, r2]) && r1.entity in entities && r2.entity in entities
    ensures SpansOk(r1.find(prompt), |prompt|)
    ensures var first := ApplyRule(Empty(style), r1, prompt);
            && SpansOk(r2.find(first.text), |first.text|)
            && ApplyRules(Empty(style), [r1, r2], entities, prompt) == ApplyRule(first.vault, r2, first.text)
  {
    assert RuleOk([r1, r2][0]) && RuleOk([r1, r2][1]);
    assert [r1, r2][1..] == [r2] && [r2][1..] == [];
    assert forall v, t :: ApplyRules(v, [], entities, t) == Redacted(v, t);
  }

  /** The index of the second placeholder. */
  function Second(e1: string, e2: string): nat {
    if e1 == e2 then 2 else 1
  }

  lemma TwoStores(style: Template, e1: string, original: string, e2: string, val: string)
    requires (e1, original) != (e2, val)
    ensures var first := Issue(Empty(style), e1, original);
            var second := Issue(first.vault, e2, val);
            var p, q := Format(style, e1, 1), Format(style, e2, Second(e1, e2));
            first.placeholder == p && second.placeholder == q && q != p && second.vault.entries == map[p := original, q := val]
  {
    if Format(style, e1, 1) == Format(style, e2, Second(e1, e2)) {
      FormatInjective(style, e1, 1, e2, Second(e1, e2));
    }
  }

  /** The setting: a bracket-free prompt, a rule that matches `original` in it, and a rule that
      matches `val` inside the placeholder that the first rule inserted. */
  ghost predicate MatchesInside(style: Template, r1: Rule, r2: Rule, entities: set<string>,
                                u: string, original: string, v: string, x: string, val: string, y: string)
  {
    && RulesOk([r1, r2]) && r1.entity in entities && r2.entity in entities
    && BracketFree(r1.entity) && BracketFree(r2.entity)
    && BracketFree(u) && BracketFree(original) && BracketFree(v)
    && BracketFree(x) && BracketFree(val) && BracketFree(y)
    && Format(style, r1.entity, 1) == "[" + x + val + y + "]"
    && r1.find(u + original + v) == [Span(|u|, |u| + |original|)]
    && r2.find(u + Format(style, r1.entity, 1) + v) == [Span(|u| + 1 + |x|, |u| + 1 + |x| + |val|)]
  }

  lemma Reached(style: Template, r1: Rule, r2: Rule, entities: set<string>,
                u: string, original: string, v: string, x: string, val: string, y: string)
    requires MatchesInside(style, r1, r2, entities, u, original, v, x, val, y)
    ensures var first := Issue(Empty(style), r1.entity, original);
            var second := Issue(first.vault, r2.entity, val);
            ApplyRules(Empty(style), [r1, r2], entities, u + original + v)
            == Redacted(second.vault, Nested(u, x, second.placeholder, y, v))
  {
    TwoRules(r1, r2, style, entities, u + original + v);
    OneMatch(Empty(style), r1, u, original, v);
    InnerMatch(Issue(Empty(style), r1.entity, original).vault, r2, u, x, val, y, v);
  }

  /** A rule with one match inside a window. */
  lemma InnerMatch(v: VaultState, r: Rule, u: string, x: string, val: string, y: string, w: string)
    requires var text := u + ("[" + x + val + y + "]") + w;
             SpansOk(r.find(text), |text|) && r.find(text) == [Span(|u| + 1 + |x|, |u| + 1 + |x| + |val|)]
    ensures var s := Issue(v, r.entity, val);
            ApplyRule(v, r, u + ("[" + x + val + y + "]") + w) == Redacted(s.vault, Nested(u, x, s.placeholder, y, w))
  {
    Sides(u, x, val, y, w);
    Sides(u, x, Issue(v, r.entity, val).placeholder, y, w);
    OneMatch(v, r, u + "[" + x, val, y + "]" + w);
  }

  lemma Sides(u: string, x: string, q: string, y: string, v: string)
    ensures u + ("[" + x + q + y + "]") + v == (u + "[" + x) + q + (y + "]" + v) == Nested(u, x, q, y, v)
  {
  }

  /** The redactor reaches a reply that one order of the vault's entries restores and the other does
      not: that order leaves the first placeholder in it. */
  lemma OrderDecides(style: Template, r1: Rule, r2: Rule, entities: set<string>,
                     u: string, original: string, v: string, x: string, val: string, y: string)
    requires MatchesInside(style, r1, r2, entities, u, original, v, x, val, y)
    requires (r1.entity, original) != (r2.entity, val)
    ensures var p, q := Format(style, r1.entity, 1), Format(style, r2.entity, Second(r1.entity, r2.entity));
            var prompt := u + original + v;
            var a := ApplyRules(Empty(style), [r1, r2], entities, prompt);
            var inner, outer := [Entry(q, val), Entry(p, original)], [Entry(p, original), Entry(q, val)];
            && Lists(inner, a.vault.entries) && Lists(outer, a.vault.entries)
            && Restore(Exact, a.text, inner) == prompt
            && Restore(Exact, a.text, outer) == u + p + v != prompt
  {
    var p, q := Format(style, r1.entity, 1), Format(style, r2.entity, Second(r1.entity, r2.entity));
    Reached(style, r1, r2, entities, u, original, v, x, val, y);
    TwoStores(style, r1.entity, original, r2.entity, val);
    FormatIsWindow(style, r1.entity, 1);
    FormatIsWindow(style, r2.entity, Second(r1.entity, r2.entity));
    EntryOrderMatters(u, x, val, y, v, p, q, original);
    ListsTwo(p, original, q, val);
    ListsTwo(q, val, p, original);
  }

  lemma ListsTwo(p: string, original: string, q: string, val: string)
    requires p != q
    ensures Lists([Entry(p, original), Entry(q, val)], map[p := original, q := val])
    ensures map[p := original, q := val] == map[q := val, p := original]
  {
    var entries := [Entry(p, original), Entry(q, val)];
    assert entries[0].placeholder == p && entries[1].placeholder == q;
  }

  /** If the second match is the very value that the first rule stored, its placeholder is inserted
      into itself and no order restores the prompt. */
  lemma NoOrderRestores(style: Template, r1: Rule, r2: Rule, entities: set<string>,
                        u: string, original: string, v: string, x: string, y: string, entries: seq<Entry>)
    requires MatchesInside(style, r1, r2, entities, u, original, v, x, original, y) && r1.entity == r2.entity
    requires Lists(entries, ApplyRules(Empty(style), [r1, r2], entities, u + original + v).vault.entries)
    ensures var a := ApplyRules(Empty(style), [r1, r2], entities, u + original + v);
            Restore(Exact, a.text, entries) == u + Format(style, r1.entity, 1) + v != u + original + v
  {
    var p := Format(style, r1.entity, 1);
    Reached(style, r1, r2, entities, u, original, v, x, original, y);
    SameStore(style, r1.entity, original);
    FormatIsWindow(style, r1.entity, 1);
    OnlyEntry(entries, p, original);
    RestoreSelf(u, x, original, y, v, p);
  }

  lemma SameStore(style: Template, entity: string, original: string)
    ensures var first := Issue(Empty(style), entity, original);
            var second := Issue(first.vault, entity, original);
            second.placeholder == Format(style, entity, 1) && second.vault.entries == map[Format(style, entity, 1) := original]
  {
  }

  lemma RestoreSelf(u: string, x: string, original: string, y: string, v: string, p: string)
    requires BracketFree(u) && BracketFree(x) && BracketFree(original) && BracketFree(y) && BracketFree(v)
    requires IsWindow(p) && p == "[" + x + original + y + "]"
    ensures Restore(Exact, Nested(u, x, p, y, v), [Entry(p, original)]) == u + p + v != u + original + v
  {
    ReplaceInNested(u, x, p, y, v, p, original);
    Sides(u, x, original, y, v);
    assert [Entry(p, original)][1..] == [];
    StillBracketed(u, p, v, original);
  }

  lemma StillBracketed(u: string, p: string, v: string, original: string)
    requires BracketFree(u) && BracketFree(original) && BracketFree(v) && IsWindow(p)
    ensures u + p + v != u + original + v
  {
    assert (u + p + v)[|u|] == '[';
    assert '[' !in u + original + v;
  }

  lemma OnlyEntry(entries: seq<Entry>, p: string, original: string)
    requires Lists(entries, map[p := original])
    ensures entries == [Entry(p, original)]
  {
    assert |entries| > 1 ==> entries[0].placeholder != entries[1].placeholder;
    assert p in map[p := original];
    var i :| 0 <= i < |entries| && entries[i].placeholder == p;
    assert forall k | 0 <= k < |entries| :: entries[k].placeholder == p;
  }
}
