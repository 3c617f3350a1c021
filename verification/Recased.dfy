/** Replies in which a model changed the case of placeholders: what the case-insensitive strategy is for. */
module Recased {
  import opened Seqs
  import opened Brackets
  import opened Deanonymize
  import opened KnownText
  import opened Vault
  import opened Redact
  import opened RoundTrip

  /** `u` is `t`, except that ASCII letters inside brackets may have changed their case. */
  predicate RecasedAs(t: string, u: string) {
    |t| == |u| &&
    forall i | 0 <= i < |t| :: t[i] == u[i] || (SameLetter(t[i], u[i]) && Inside(t, i))
  }

  /** The same along the windows of a text. */
  predicate Variant(t: string, u: string)
    decreases |t|
  {
    if t == "" then u == ""
    else if t[0] != '[' || Close(t) == |t| then u != "" && u[0] == t[0] && Variant(t[1..], u[1..])
    else
      var n := Close(t) + 1;
      n <= |u| && Same(CaseInsensitive, t[..n], u[..n]) && Variant(t[n..], u[n..])
  }

  lemma RecasedTail(t: string, u: string, n: nat)
    requires RecasedAs(t, u) && n <= |t| && (BracketFree(t[..n]) || (n > 0 && t[n - 1] == ']'))
    ensures RecasedAs(t[n..], u[n..])
  {
    Cut(t, n);
    forall i | 0 <= i < |t[n..]|
      ensures t[n..][i] == u[n..][i] || (SameLetter(t[n..][i], u[n..][i]) && Inside(t[n..], i))
    {
      assert t[n + i] == u[n + i] || (SameLetter(t[n + i], u[n + i]) && Inside(t, n + i));
      InsideTail(t[..n], t[n..], i);
    }
  }

  lemma {:induction false} RecasedIsVariant(m: map<string, string>, t: string, u: string)
    requires Known(m, t) && RecasedAs(t, u)
    ensures Variant(t, u)
    decreases |t|
  {
    if t == "" {
    } else if t[0] != '[' {
      assert !Inside(t, 0);
      RecasedTail(t, u, 1);
      RecasedIsVariant(m, t[1..], u[1..]);
    } else {
      var n := Close(t) + 1;
      RecasedTail(t, u, n);
      RecasedIsVariant(m, t[n..], u[n..]);
      assert forall i | 0 <= i < n :: SameLetter(t[i], u[i]);
      SameLetters(t[..n], u[..n]);
    }
  }

  lemma {:induction false} VariantPlain(a: string, t: string, u: string)
    requires BracketFree(a) && Variant(t, u)
    ensures Variant(a + t, a + u)
  {
    if a != "" {
      VariantPlain(a[1..], t, u);
      HeadTail(a, t);
      HeadTail(a, u);
    } else {
      Whole(t);
      Whole(u);
    }
  }

  lemma VariantWindow(w: string, v: string, t: string, u: string)
    requires IsWindow(w) && Same(CaseInsensitive, w, v) && Variant(t, u)
    ensures Variant(w + t, v + u)
  {
    CloseOfWindow(w, t);
    assert (w + t)[..|w|] == w && (w + t)[|w|..] == t && (v + u)[..|w|] == v && (v + u)[|w|..] == u;
  }

  /** Changing case keeps windows windows. */
  lemma SameIsWindow(w: string, v: string)
    requires IsWindow(w) && Same(CaseInsensitive, w, v)
    ensures IsWindow(v)
  {
    WindowBrackets(w);
    assert forall i | 0 <= i < |v| :: AsciiLower(v[i]) == AsciiLower(w[i]);
    assert forall i | 0 < i < |v| - 1 :: v[i] != '[' && v[i] != ']';
  }

  /** One rewrite treats a text and its variant alike. */
  lemma {:induction false} ReplaceVariant(m: map<string, string>, t: string, u: string, w: string)
    requires Known(m, t) && Variant(t, u) && IsWindow(w) && w in m && Apart(CaseInsensitive, m)
    ensures Variant(Replace(CaseInsensitive, t, w, m[w]), Replace(CaseInsensitive, u, w, m[w]))
    decreases |t|
  {
    if t == "" {
    } else if t[0] != '[' {
      ReplaceVariant(m, t[1..], u[1..], w);
      ReplaceVariantChar(t, u, w, m[w]);
    } else {
      var n := Close(t) + 1;
      ReplaceVariant(m, t[n..], u[n..], w);
      Cut(t, n);
      Cut(u, n);
      ReplaceVariantWindow(m, t[..n], u[..n], t[n..], u[n..], w);
    }
  }

  lemma ReplaceVariantChar(t: string, u: string, w: string, r: string)
    requires t != "" && u != "" && t[0] == u[0] && t[0] != '[' && t[0] != ']' && IsWindow(w)
    requires Variant(Replace(CaseInsensitive, t[1..], w, r), Replace(CaseInsensitive, u[1..], w, r))
    ensures Variant(Replace(CaseInsensitive, t, w, r), Replace(CaseInsensitive, u, w, r))
  {
    Cut(t, 1);
    Cut(u, 1);
    assert t[..1] == [t[0]] && u[..1] == [t[0]];
    ReplaceSkips(CaseInsensitive, t[..1], t[1..], w, r);
    ReplaceSkips(CaseInsensitive, u[..1], u[1..], w, r);
    VariantPlain(t[..1], Replace(CaseInsensitive, t[1..], w, r), Replace(CaseInsensitive, u[1..], w, r));
  }

  lemma ReplaceVariantWindow(m: map<string, string>, v: string, v': string, t: string, u: string, w: string)
    requires KnownWindow(m, v) && Same(CaseInsensitive, v, v') && IsWindow(w) && w in m && Apart(CaseInsensitive, m)
    requires Variant(Replace(CaseInsensitive, t, w, m[w]), Replace(CaseInsensitive, u, w, m[w]))
    ensures Variant(Replace(CaseInsensitive, v + t, w, m[w]), Replace(CaseInsensitive, v' + u, w, m[w]))
  {
    var t', u' := Replace(CaseInsensitive, t, w, m[w]), Replace(CaseInsensitive, u, w, m[w]);
    SameIsWindow(v, v');
    ReplaceAtWindow(CaseInsensitive, v, t, w, m[w]);
    ReplaceAtWindow(CaseInsensitive, v', u, w, m[w]);
    SameKeys(CaseInsensitive, m, v, w);
    if v == w {
      VariantPlain(m[w], t', u');
    } else {
      VariantWindow(v, v', t', u');
    }
  }

  lemma {:induction false} VariantOfPlain(t: string, u: string)
    requires Known(map[], t) && Variant(t, u)
    ensures t == u
  {
    if t != "" {
      VariantOfPlain(t[1..], u[1..]);
      assert t == [t[0]] + t[1..] && u == [u[0]] + u[1..];
    }
  }

  lemma {:induction false} RestoreVariant(m: map<string, string>, t: string, u: string, entries: seq<Entry>)
    requires Lists(entries, m) && KeysAreWindows(m) && Apart(CaseInsensitive, m) && Known(m, t) && Variant(t, u)
    ensures Restore(CaseInsensitive, u, entries) == ResolveMap(m, t)
    decreases |entries|
  {
    if entries == [] {
      assert m == map[];
      VariantOfPlain(t, u);
      KnownEmpty(t);
    } else {
      var w := entries[0].placeholder;
      ReplaceKnown(CaseInsensitive, m, t, "", w);
      ReplaceVariant(m, t, u, w);
      ListsTail(entries, m);
      RestoreVariant(m - {w}, Replace(CaseInsensitive, t, w, m[w]), Replace(CaseInsensitive, u, w, m[w]), entries[1..]);
    }
  }

  /** For every list of bracket-free prompts sharing one vault: a cleanly redacted prompt in which the
      case of any ASCII letters of its placeholders was changed is restored to the prompt, in every
      entry order, if no two selected entities differ only in case. */
  lemma RecasedRoundTrip(style: Template, rules: seq<Rule>, entities: set<string>, prompts: seq<string>, i: nat,
                         entries: seq<Entry>, reply: string)
    requires RulesOk(rules) && EntitiesBracketFree(rules) && i < |prompts|
    requires forall k | 0 <= k < |prompts| :: BracketFree(prompts[k])
    requires CleanPrompt(Empty(style), rules, entities, prompts, i) && CaseDistinct(entities)
    requires var c := RedactAll(Empty(style), rules, entities, prompts);
             Lists(entries, c.vault.entries) && RecasedAs(c.texts[i], reply)
    ensures Restore(CaseInsensitive, reply, entries) == prompts[i]
  {
    var c := RedactAll(Empty(style), rules, entities, prompts);
    RedactAllKnown(Empty(style), rules, entities, prompts, i);
    RedactAllWithin(Empty(style), rules, entities, prompts);
    VaultApart(CaseInsensitive, c.vault, entities);
    RecasedIsVariant(c.vault.entries, c.texts[i], reply);
    RestoreVariant(c.vault.entries, c.texts[i], reply, entries);
  }
}
