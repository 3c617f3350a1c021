/** Texts that are not known: some entry order leaves a bracket in them.

    Redaction only ever inserts placeholders of the vault, so every window of a redacted text is
    one of them.  If such a text is not known, then an original holds a bracket, or the brackets
    are nested or stray.  Each of the three has an order that does not restore it. */
module UnknownText {
  import opened Seqs
  import opened Brackets
  import opened Deanonymize
  import opened KnownText

  /** Every window of the text is a placeholder of the vault. */
  predicate Listed(m: map<string, string>, t: string) {
    forall i, j | 0 <= i <= j <= |t| && IsWindow(t[i..j]) :: t[i..j] in m
  }

  lemma ListedTail(m: map<string, string>, t: string, k: nat)
    requires Listed(m, t) && k <= |t|
    ensures Listed(m, t[k..])
  {
    var s := t[k..];
    forall i, j | 0 <= i <= j <= |s| && IsWindow(s[i..j])
      ensures s[i..j] in m
    {
      assert s[i..j] == t[i + k..j + k];
    }
  }

  // ----- The three kinds

  /** A placeholder whose original holds a bracket. */
  ghost predicate Loaded(m: map<string, string>, t: string) {
    exists a, w, c :: LoadedAt(m, t, a, w, c)
  }

  predicate LoadedAt(m: map<string, string>, t: string, a: string, w: string, c: string) {
    t == a + w + c && IsWindow(w) && w in m && !BracketFree(m[w])
  }

  /** A `]` that closes nothing. */
  ghost predicate Stray(m: map<string, string>, t: string) {
    exists k, c :: StrayAt(m, t, k, c)
  }

  predicate StrayAt(m: map<string, string>, t: string, k: string, c: string) {
    t == k + "]" + c && Known(m, k)
  }

  /** A `[` followed by known text up to a `]` or the end; `p` is the window this would become. */
  predicate NestAt(m: map<string, string>, t: string, p: string, a: string, k: string, c: string) {
    t == a + "[" + k + c && Known(m, k) && (c == "" || (c[0] == ']' && p == "[" + ResolveMap(m, k) + "]"))
  }

  /** Such a `[` that is not yet the start of a window. */
  ghost predicate Nested(m: map<string, string>, t: string) {
    exists p, a, k, c :: NestAt(m, t, p, a, k, c) && (c != "" ==> !BracketFree(k))
  }

  lemma {:induction false} Classify(m: map<string, string>, t: string)
    requires Listed(m, t) && !Known(m, t)
    ensures Loaded(m, t) || Stray(m, t) || Nested(m, t)
    decreases |t|
  {
    if t[0] == ']' {
      assert t == "" + "]" + t[1..];
      assert StrayAt(m, t, "", t[1..]);
    } else if t[0] != '[' {
      Cut(t, 1);
      ListedTail(m, t, 1);
      Classify(m, t[1..]);
      KindsPrepend(m, t[..1], t[1..]);
    } else {
      ClassifyOpen(m, t);
      var e := Close(t);
      if e < |t| && IsWindow(t[..e + 1]) {
        if BracketFree(m[t[..e + 1]]) {
          ListedTail(m, t, e + 1);
          Classify(m, t[e + 1..]);
          Cut(t, e + 1);
          KindsPrepend(m, t[..e + 1], t[e + 1..]);
        }
      } else if !Known(m, t[1..]) {
        ListedTail(m, t, 1);
        Classify(m, t[1..]);
        assert t == "[" + t[1..];
        OpenPrepend(m, t[1..]);
      }
    }
  }

  /** A `[` at the front: a window of the vault, or nested. */
  lemma ClassifyOpen(m: map<string, string>, t: string)
    requires Listed(m, t) && t != "" && t[0] == '['
    ensures Close(t) < |t| && IsWindow(t[..Close(t) + 1]) ==>
              t[..Close(t) + 1] in m && (!BracketFree(m[t[..Close(t) + 1]]) ==> Loaded(m, t))
    ensures Known(m, t[1..]) && !(Close(t) < |t| && IsWindow(t[..Close(t) + 1])) ==> Nested(m, t)
  {
    var e := Close(t);
    if e < |t| && IsWindow(t[..e + 1]) {
      assert t[0..e + 1] == t[..e + 1];
      if !BracketFree(m[t[..e + 1]]) {
        LoadedFront(m, t[..e + 1], t[e + 1..]);
        Cut(t, e + 1);
      }
    } else if Known(m, t[1..]) {
      NestedFront(m, t[1..]);
      assert t == "[" + t[1..];
    }
  }

  lemma LoadedFront(m: map<string, string>, w: string, c: string)
    requires IsWindow(w) && w in m && !BracketFree(m[w])
    ensures Loaded(m, w + c)
  {
    assert w + c == "" + w + c;
    assert LoadedAt(m, w + c, "", w, c);
  }

  lemma NestedFront(m: map<string, string>, k: string)
    requires Known(m, k)
    ensures Nested(m, "[" + k)
  {
    assert "[" + k == "" + "[" + k + "";
    assert NestAt(m, "[" + k, "", "", k, "");
  }

  /** Plain text or a known window in front changes nothing. */
  lemma KindsPrepend(m: map<string, string>, u: string, t: string)
    requires BracketFree(u) || KnownWindow(m, u)
    ensures Loaded(m, t) ==> Loaded(m, u + t)
    ensures Stray(m, t) ==> Stray(m, u + t)
    ensures Nested(m, t) ==> Nested(m, u + t)
  {
    LoadedPrepend(m, u, t);
    NestedPrepend(m, u, t);
    if Stray(m, t) {
      var k, c :| StrayAt(m, t, k, c);
      if BracketFree(u) {
        KnownPlain(m, u, k);
      } else {
        KnownAtWindow(m, u, k);
      }
      assert u + t == (u + k) + "]" + c;
      assert StrayAt(m, u + t, u + k, c);
    }
  }

  lemma LoadedPrepend(m: map<string, string>, u: string, t: string)
    ensures Loaded(m, t) ==> Loaded(m, u + t)
  {
    if Loaded(m, t) {
      var a, w, c :| LoadedAt(m, t, a, w, c);
      assert u + t == (u + a) + w + c;
      assert LoadedAt(m, u + t, u + a, w, c);
    }
  }

  lemma NestedPrepend(m: map<string, string>, u: string, t: string)
    ensures Nested(m, t) ==> Nested(m, u + t)
  {
    if Nested(m, t) {
      var p, a, k, c :| NestAt(m, t, p, a, k, c) && (c != "" ==> !BracketFree(k));
      assert u + t == (u + a) + "[" + k + c;
      assert NestAt(m, u + t, p, u + a, k, c);
    }
  }

  /** A `[` in front that opens no window: what was stray becomes nested. */
  lemma OpenPrepend(m: map<string, string>, t: string)
    requires var s := "[" + t; !(Close(s) < |s| && IsWindow(s[..Close(s) + 1]))
    requires Loaded(m, t) || Stray(m, t) || Nested(m, t)
    ensures Loaded(m, "[" + t) || Nested(m, "[" + t)
  {
    LoadedPrepend(m, "[", t);
    NestedPrepend(m, "[", t);
    if Stray(m, t) {
      var k, c :| StrayAt(m, t, k, c);
      assert "[" + t == "[" + k + "]" + c;
      Enclosed(k, c);
      assert "[" + t == "" + "[" + k + ("]" + c);
      assert NestAt(m, "[" + t, "[" + ResolveMap(m, k) + "]", "", k, "]" + c);
    }
  }

  lemma Enclosed(k: string, c: string)
    ensures var s := "[" + k + "]" + c;
            BracketFree(k) ==> Close(s) < |s| && IsWindow(s[..Close(s) + 1])
  {
    if BracketFree(k) {
      var w := "[" + k + "]";
      assert w[1..|w| - 1] == k;
      CloseOfWindow(w, c);
      assert (w + c)[..|w|] == w;
    }
  }

  // ----- One rewrite does not help

  /** A window never reaches over a `[`. */
  lemma {:induction false} ReplaceSplit(st: Strategy, a: string, s: string, w: string, r: string)
    requires IsWindow(w) && s != "" && s[0] == '['
    ensures Replace(st, a + s, w, r) == Replace(st, a, w, r) + Replace(st, s, w, r)
    decreases |a|
  {
    if a == "" {
      assert a + s == s;
    } else {
      FrontOnly(st, a, s, w);
      if |w| <= |a| && Same(st, a[..|w|], w) {
        ReplaceSplit(st, a[|w|..], s, w, r);
        assert (a + s)[..|w|] == a[..|w|] && (a + s)[|w|..] == a[|w|..] + s;
        Assoc(r, Replace(st, a[|w|..], w, r), Replace(st, s, w, r));
        ReplaceHit(st, a + s, w, r);
        ReplaceHit(st, a, w, r);
      } else {
        ReplaceSplit(st, a[1..], s, w, r);
        HeadTail(a, s);
        ReplaceMiss(st, a + s, w, r);
        ReplaceMiss(st, a, w, r);
        Assoc([a[0]], Replace(st, a[1..], w, r), Replace(st, s, w, r));
      }
    }
  }

  lemma FrontOnly(st: Strategy, a: string, s: string, w: string)
    requires IsWindow(w) && a != "" && s != "" && s[0] == '['
    ensures |w| <= |a + s| && Same(st, (a + s)[..|w|], w) ==> |w| <= |a| && Same(st, a[..|w|], w)
  {
    WindowBrackets(w);
    if |a| < |w| <= |a + s| {
      assert (a + s)[..|w|][|a|] == '[' && w[|a|] != '[';
      assert AsciiLower(w[|a|]) != '[';
    }
    assert |w| <= |a| ==> a[..|w|] == (a + s)[..|w|];
  }

  /** The step of a loaded text: other entries leave the placeholder, its own brings the bracket. */
  lemma LoadedStep(st: Strategy, m: map<string, string>, a: string, w: string, c: string, v: string)
    requires IsWindow(w) && IsWindow(v) && w in m && v in m && Apart(st, m)
    ensures Replace(st, a + w + c, v, m[v]) ==
            Replace(st, a, v, m[v]) + (if v == w then m[w] else w) + Replace(st, c, v, m[v])
  {
    var head := if v == w then m[w] else w;
    Assoc(a, w, c);
    ReplaceSplit(st, a, w + c, v, m[v]);
    SameKeys(st, m, w, v);
    ReplaceAtWindow(st, w, c, v, m[v]);
    Assoc(Replace(st, a, v, m[v]), head, Replace(st, c, v, m[v]));
  }

  lemma StrayStep(st: Strategy, m: map<string, string>, t: string, k: string, c: string, v: string)
    requires StrayAt(m, t, k, c) && IsWindow(v) && v in m && Apart(st, m)
    ensures StrayAt(m, Replace(st, t, v, m[v]), Replace(st, k, v, m[v]), Replace(st, c, v, m[v]))
  {
    var r := Replace(st, k, v, m[v]);
    Assoc(k, "]", c);
    ReplaceKnown(st, m, k, "]" + c, v);
    ReplaceSkips(st, "]", c, v, m[v]);
    KnownGrows(m - {v}, m, r);
    Assoc(r, "]", Replace(st, c, v, m[v]));
  }

  /** The step of a nested text, for every entry but the window it would become. */
  lemma NestStep(st: Strategy, m: map<string, string>, t: string, p: string, a: string, k: string, c: string, v: string)
    requires NestAt(m, t, p, a, k, c) && IsWindow(v) && v in m && Apart(st, m)
    requires !Same(st, p, v) || (c != "" ==> !BracketFree(k))
    ensures NestAt(m, Replace(st, t, v, m[v]), p,
                   Replace(st, a, v, m[v]), Replace(st, k, v, m[v]), Replace(st, c, v, m[v]))
  {
    NestText(st, m, p, a, k, c, v);
    NestMeaning(st, m, k, v);
    CloserStays(st, c, v, m[v]);
  }

  lemma NestText(st: Strategy, m: map<string, string>, p: string, a: string, k: string, c: string, v: string)
    requires Known(m, k) && (c == "" || (c[0] == ']' && p == "[" + ResolveMap(m, k) + "]"))
    requires IsWindow(v) && v in m && Apart(st, m) && (!Same(st, p, v) || (c != "" ==> !BracketFree(k)))
    ensures Replace(st, a + "[" + k + c, v, m[v]) ==
            Replace(st, a, v, m[v]) + "[" + Replace(st, k, v, m[v]) + Replace(st, c, v, m[v])
  {
    Regroup(a, k, c);
    ReplaceSplit(st, a, "[" + (k + c), v, m[v]);
    NestFront(st, m, p, k, c, v);
    ReplaceKnown(st, m, k, c, v);
    Regroup(Replace(st, a, v, m[v]), Replace(st, k, v, m[v]), Replace(st, c, v, m[v]));
  }

  lemma NestMeaning(st: Strategy, m: map<string, string>, k: string, v: string)
    requires Known(m, k) && IsWindow(v) && v in m && Apart(st, m)
    ensures Known(m, Replace(st, k, v, m[v])) && ResolveMap(m, Replace(st, k, v, m[v])) == ResolveMap(m, k)
  {
    ReplaceKnown(st, m, k, "", v);
    KnownGrows(m - {v}, m, Replace(st, k, v, m[v]));
  }

  lemma Regroup(a: string, k: string, c: string)
    ensures a + "[" + k + c == a + ("[" + (k + c))
  {
  }

  lemma CloserStays(st: Strategy, c: string, v: string, r: string)
    requires IsWindow(v) && (c == "" || c[0] == ']')
    ensures if c == "" then Replace(st, c, v, r) == "" else Replace(st, c, v, r) != "" && Replace(st, c, v, r)[0] == ']'
  {
    if c != "" {
      Cut(c, 1);
      ReplaceSkips(st, c[..1], c[1..], v, r);
    }
  }

  /** The `[` of a nest is skipped. */
  lemma NestFront(st: Strategy, m: map<string, string>, p: string, k: string, c: string, v: string)
    requires Known(m, k) && (c == "" || (c[0] == ']' && p == "[" + ResolveMap(m, k) + "]"))
    requires IsWindow(v) && v in m && (!Same(st, p, v) || (c != "" ==> !BracketFree(k)))
    ensures Replace(st, "[" + (k + c), v, m[v]) == "[" + Replace(st, k + c, v, m[v])
  {
    if BracketFree(k) {
      KnownPlain(m, k, "");
      Whole(k);
      NotAtPlain(st, k, c, v);
    } else {
      var j := KnownOpens(m, k);
      NotAtOpen(st, k + c, j, v);
    }
    var s := "[" + (k + c);
    assert s[1..] == k + c;
    ReplaceMiss(st, s, v, m[v]);
  }

  lemma NotAtPlain(st: Strategy, k: string, c: string, v: string)
    requires BracketFree(k) && (c == "" || c[0] == ']') && IsWindow(v) && (c == "" || !Same(st, "[" + k + "]", v))
    ensures var s := "[" + (k + c); !(|v| <= |s| && Same(st, s[..|v|], v))
  {
    var s := "[" + (k + c);
    WindowBrackets(v);
    assert forall i | 1 <= i <= |k| :: s[i] == k[i - 1];
    assert |v| <= |s| ==> forall i | 0 <= i < |v| :: s[..|v|][i] == s[i];
    assert |v| < |k| + 2 && |v| <= |s| ==> s[..|v|][|v| - 1] != ']';
    assert |k| + 2 < |v| <= |s| ==> s[..|v|][|k| + 1] == ']';
    assert |v| == |k| + 2 <= |s| ==> s[..|v|] == "[" + k + "]";
  }

  lemma NotAtOpen(st: Strategy, t: string, j: nat, v: string)
    requires j < |t| && t[j] == '[' && BracketFree(t[..j]) && IsWindow(v)
    ensures var s := "[" + t; !(|v| <= |s| && Same(st, s[..|v|], v))
  {
    var s := "[" + t;
    WindowBrackets(v);
    assert forall i | 1 <= i <= j :: s[i] == t[..j][i - 1];
    assert |v| <= |s| ==> forall i | 0 <= i < |v| :: s[..|v|][i] == s[i];
    assert j + 1 < |v| <= |s| ==> s[..|v|][j + 1] == '[';
    assert |v| <= j + 1 && |v| <= |s| ==> s[..|v|][|v| - 1] != ']';
  }

  /** The first bracket of a known text opens a window. */
  lemma {:induction false} KnownOpens(m: map<string, string>, k: string) returns (j: nat)
    requires Known(m, k) && !BracketFree(k)
    ensures j < |k| && k[j] == '[' && BracketFree(k[..j])
  {
    if k[0] == '[' {
      j := 0;
    } else {
      assert k == [k[0]] + k[1..];
      j := KnownOpens(m, k[1..]);
      assert k[..j + 1] == [k[0]] + k[1..][..j];
      j := j + 1;
    }
  }

  // ----- An order for each kind

  /** Some listing of a map. */
  lemma {:induction false} Listing(m: map<string, string>) returns (entries: seq<Entry>)
    ensures Lists(entries, m)
    decreases |m|
  {
    entries := [];
    if m != map[] {
      var p :| p in m;
      assert |(m - {p}).Keys| == |m.Keys - {p}| && (m - {p}).Keys == m.Keys - {p};
      var rest := Listing(m - {p});
      entries := [Entry(p, m[p])] + rest;
      ListsCons(rest, m, p);
    }
  }

  lemma ListsCons(rest: seq<Entry>, m: map<string, string>, p: string)
    requires p in m && Lists(rest, m - {p})
    ensures Lists([Entry(p, m[p])] + rest, m)
  {
    var entries := [Entry(p, m[p])] + rest;
    forall q | q in m
      ensures exists i | 0 <= i < |entries| :: entries[i].placeholder == q
    {
      if q == p {
        assert entries[0].placeholder == q;
      } else {
        assert q in m - {p};
        var i :| 0 <= i < |rest| && rest[i].placeholder == q;
        assert entries[i + 1].placeholder == q;
      }
    }
    forall i | 0 <= i < |entries|
      ensures entries[i].placeholder in m && m[entries[i].placeholder] == entries[i].original
    {
      if i > 0 {
        assert entries[i] == rest[i - 1] && rest[i - 1].placeholder in m - {p};
      }
    }
    forall i, j | 0 <= i < j < |entries|
      ensures entries[i].placeholder != entries[j].placeholder
    {
      assert entries[j] == rest[j - 1] && rest[j - 1].placeholder in m - {p};
      if i > 0 {
        assert entries[i] == rest[i - 1];
      }
    }
  }

  lemma ListsSnoc(rest: seq<Entry>, m: map<string, string>, p: string)
    requires p in m && Lists(rest, m - {p})
    ensures Lists(rest + [Entry(p, m[p])], m)
  {
    var entries := rest + [Entry(p, m[p])];
    forall q | q in m
      ensures exists i | 0 <= i < |entries| :: entries[i].placeholder == q
    {
      if q == p {
        assert entries[|rest|].placeholder == q;
      } else {
        assert q in m - {p};
        var i :| 0 <= i < |rest| && rest[i].placeholder == q;
        assert entries[i].placeholder == q;
      }
    }
    forall i | 0 <= i < |entries|
      ensures entries[i].placeholder in m && m[entries[i].placeholder] == entries[i].original
    {
      if i < |rest| {
        assert entries[i] == rest[i] && rest[i].placeholder in m - {p};
      }
    }
    forall i, j | 0 <= i < j < |entries|
      ensures entries[i].placeholder != entries[j].placeholder
    {
      assert entries[i] == rest[i] && rest[i].placeholder in m - {p};
      if j < |rest| {
        assert entries[j] == rest[j];
      }
    }
  }

  /** Entries of the vault, in any number and order. */
  predicate From(m: map<string, string>, entries: seq<Entry>) {
    forall i | 0 <= i < |entries| :: IsWindow(entries[i].placeholder) && entries[i].placeholder in m
                                     && m[entries[i].placeholder] == entries[i].original
  }

  /** None of them is `p`, as the strategy compares. */
  predicate Without(st: Strategy, entries: seq<Entry>, p: string) {
    forall i | 0 <= i < |entries| :: !Same(st, p, entries[i].placeholder)
  }

  lemma {:induction false} LoadedStays(st: Strategy, m: map<string, string>, a: string, w: string, c: string, entries: seq<Entry>)
      returns (a': string, c': string)
    requires IsWindow(w) && w in m && From(m, entries) && Apart(st, m) && Without(st, entries, w)
    ensures Restore(st, a + w + c, entries) == a' + w + c'
    decreases |entries|
  {
    a', c' := a, c;
    if entries != [] {
      var v := entries[0].placeholder;
      LoadedStep(st, m, a, w, c, v);
      a', c' := LoadedStays(st, m, Replace(st, a, v, m[v]), w, Replace(st, c, v, m[v]), entries[1..]);
    }
  }

  lemma {:induction false} StrayStays(st: Strategy, m: map<string, string>, t: string, entries: seq<Entry>)
    requires Stray(m, t) && From(m, entries) && Apart(st, m)
    ensures ']' in Restore(st, t, entries)
    decreases |entries|
  {
    var k, c :| StrayAt(m, t, k, c);
    if entries == [] {
      assert t[|k|] == ']';
    } else {
      StrayStep(st, m, t, k, c, entries[0].placeholder);
      StrayStays(st, m, Replace(st, t, entries[0].placeholder, entries[0].original), entries[1..]);
    }
  }

  lemma {:induction false} NestStays(st: Strategy, m: map<string, string>, t: string, p: string, a: string, k: string, c: string, entries: seq<Entry>)
    requires NestAt(m, t, p, a, k, c) && From(m, entries) && Apart(st, m) && Without(st, entries, p)
    ensures '[' in Restore(st, t, entries)
    decreases |entries|
  {
    if entries == [] {
      assert t[|a|] == '[';
    } else {
      var v := entries[0].placeholder;
      NestStep(st, m, t, p, a, k, c, v);
      NestStays(st, m, Replace(st, t, v, m[v]), p, Replace(st, a, v, m[v]), Replace(st, k, v, m[v]),
                Replace(st, c, v, m[v]), entries[1..]);
    }
  }

  lemma ListsFrom(m: map<string, string>, n: map<string, string>, entries: seq<Entry>)
    requires Lists(entries, n) && Grows(n, m) && KeysAreWindows(m)
    ensures From(m, entries)
  {
  }

  /** A list of all other placeholders does without this one, as the strategy compares. */
  lemma ListsWithout(st: Strategy, m: map<string, string>, w: string, entries: seq<Entry>)
    requires w in m && Lists(entries, m - {w}) && Apart(st, m)
    ensures Without(st, entries, w)
  {
    forall i | 0 <= i < |entries|
      ensures !Same(st, w, entries[i].placeholder)
    {
      assert entries[i].placeholder in m - {w};
      SameKeys(st, m, w, entries[i].placeholder);
    }
  }

  lemma WithoutSame(st: Strategy, entries: seq<Entry>, p: string, w: string)
    requires Same(st, p, w) && Without(st, entries, w)
    ensures Without(st, entries, p)
  {
    forall i | 0 <= i < |entries|
      ensures !Same(st, p, entries[i].placeholder)
    {
      if Same(st, p, entries[i].placeholder) {
        SameChain(st, p, w, entries[i].placeholder);
      }
    }
  }

  /** A loaded placeholder, listed last, brings its bracket. */
  lemma LoadedFails(st: Strategy, m: map<string, string>, t: string) returns (entries: seq<Entry>)
    requires Loaded(m, t) && KeysAreWindows(m) && Apart(st, m)
    ensures Lists(entries, m) && !BracketFree(Restore(st, t, entries))
  {
    var a, w, c :| LoadedAt(m, t, a, w, c);
    var rest := Listing(m - {w});
    ListsFrom(m, m - {w}, rest);
    ListsWithout(st, m, w, rest);
    ListsSnoc(rest, m, w);
    var a', c' := LoadedStays(st, m, a, w, c, rest);
    entries := rest + [Entry(w, m[w])];
    RestoreSnoc(st, t, rest, Entry(w, m[w]));
    LoadedStep(st, m, a', w, c', w);
    HasBracket(Replace(st, a', w, m[w]), m[w], Replace(st, c', w, m[w]));
  }

  lemma HasBracket(a: string, b: string, c: string)
    requires !BracketFree(b)
    ensures !BracketFree(a + b + c)
  {
    var i :| 0 <= i < |b| && (b[i] == '[' || b[i] == ']');
    assert (a + b + c)[|a| + i] == b[i];
  }

  /** A nested `[`, with the window it would become listed first, is never closed. */
  lemma NestedFails(st: Strategy, m: map<string, string>, t: string) returns (entries: seq<Entry>)
    requires Nested(m, t) && KeysAreWindows(m) && Apart(st, m)
    ensures Lists(entries, m) && !BracketFree(Restore(st, t, entries))
  {
    var p, a, k, c :| NestAt(m, t, p, a, k, c) && (c != "" ==> !BracketFree(k));
    if w :| w in m && Same(st, p, w) {
      var rest := Listing(m - {w});
      ListsFrom(m, m - {w}, rest);
      ListsWithout(st, m, w, rest);
      WithoutSame(st, rest, p, w);
      ListsCons(rest, m, w);
      entries := [Entry(w, m[w])] + rest;
      assert entries[1..] == rest;
      NestStep(st, m, t, p, a, k, c, w);
      NestStays(st, m, Replace(st, t, w, m[w]), p, Replace(st, a, w, m[w]), Replace(st, k, w, m[w]),
                Replace(st, c, w, m[w]), rest);
    } else {
      entries := Listing(m);
      ListsFrom(m, m, entries);
      NestStays(st, m, t, p, a, k, c, entries);
    }
  }

  /** A text all of whose windows are placeholders of the vault but that is not known: some entry
      order leaves a bracket. */
  lemma UnknownFails(st: Strategy, m: map<string, string>, t: string) returns (entries: seq<Entry>)
    requires Listed(m, t) && !Known(m, t) && KeysAreWindows(m) && Apart(st, m)
    ensures Lists(entries, m) && !BracketFree(Restore(st, t, entries))
  {
    Classify(m, t);
    if Loaded(m, t) {
      entries := LoadedFails(st, m, t);
    } else if Nested(m, t) {
      entries := NestedFails(st, m, t);
    } else {
      entries := Listing(m);
      ListsFrom(m, m, entries);
      StrayStays(st, m, t, entries);
    }
  }
}
