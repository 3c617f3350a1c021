/** Texts made of plain characters and placeholders of the vault: what redaction is meant to
    produce, and what every restore turns back, in every entry order. */
module KnownText {
  import opened Seqs
  import opened Brackets
  import opened Deanonymize

  /** A placeholder of the vault whose original carries no bracket. */
  predicate KnownWindow(m: map<string, string>, w: string) {
    IsWindow(w) && w in m && BracketFree(m[w])
  }

  /** Plain characters and placeholders of the vault, side by side. */
  predicate Known(m: map<string, string>, t: string)
    decreases |t|
  {
    t == "" ||
    (t[0] != '[' && t[0] != ']' && Known(m, t[1..])) ||
    (t[0] == '[' && Close(t) < |t| && KnownWindow(m, t[..Close(t) + 1]) && Known(m, t[Close(t) + 1..]))
  }

  lemma {:induction false} KnownPlain(m: map<string, string>, u: string, t: string)
    requires BracketFree(u)
    ensures Known(m, u + t) <==> Known(m, t)
    ensures ResolveMap(m, u + t) == u + ResolveMap(m, t)
  {
    if u == "" {
      assert u + t == t;
    } else {
      KnownPlain(m, u[1..], t);
      Cut(u, 1);
      Assoc(u[..1], u[1..], t);
      KnownChar(m, u[..1], u[1..] + t);
      Assoc(u[..1], u[1..], ResolveMap(m, t));
    }
  }

  lemma KnownChar(m: map<string, string>, u: string, t: string)
    requires |u| == 1 && BracketFree(u)
    ensures Known(m, u + t) <==> Known(m, t)
    ensures ResolveMap(m, u + t) == u + ResolveMap(m, t)
  {
    assert (u + t)[1..] == t;
    assert [u[0]] == u;
  }

  lemma KnownAtWindow(m: map<string, string>, w: string, t: string)
    requires IsWindow(w)
    ensures Known(m, w + t) <==> KnownWindow(m, w) && Known(m, t)
    ensures ResolveMap(m, w + t) == Lookup(m, w) + ResolveMap(m, t)
  {
    CloseOfWindow(w, t);
    assert (w + t)[..|w|] == w && (w + t)[|w|..] == t;
  }

  lemma {:induction false} KnownConcat(m: map<string, string>, a: string, b: string)
    requires Known(m, a) && Known(m, b)
    ensures Known(m, a + b) && ResolveMap(m, a + b) == ResolveMap(m, a) + ResolveMap(m, b)
    decreases |a|
  {
    if a == "" {
      assert a + b == b;
    } else if a[0] != '[' {
      Cut(a, 1);
      KnownConcat(m, a[1..], b);
      KnownCharConcat(m, a[..1], a[1..], b);
    } else {
      var c := Close(a) + 1;
      Cut(a, c);
      KnownConcat(m, a[c..], b);
      KnownWindowConcat(m, a[..c], a[c..], b);
    }
  }

  lemma KnownCharConcat(m: map<string, string>, u: string, a: string, b: string)
    requires BracketFree(u) && Known(m, a + b) && ResolveMap(m, a + b) == ResolveMap(m, a) + ResolveMap(m, b)
    ensures Known(m, u + a + b) && ResolveMap(m, u + a + b) == ResolveMap(m, u + a) + ResolveMap(m, b)
  {
    Assoc(u, a, b);
    KnownPlain(m, u, a);
    KnownPlain(m, u, a + b);
    Assoc(u, ResolveMap(m, a), ResolveMap(m, b));
  }

  lemma KnownWindowConcat(m: map<string, string>, w: string, a: string, b: string)
    requires KnownWindow(m, w) && Known(m, a + b) && ResolveMap(m, a + b) == ResolveMap(m, a) + ResolveMap(m, b)
    ensures Known(m, w + a + b) && ResolveMap(m, w + a + b) == ResolveMap(m, w + a) + ResolveMap(m, b)
  {
    Assoc(w, a, b);
    KnownAtWindow(m, w, a);
    KnownAtWindow(m, w, a + b);
    Assoc(Lookup(m, w), ResolveMap(m, a), ResolveMap(m, b));
  }

  lemma InsideTail(a: string, t: string, i: nat)
    requires i <= |t|
    requires BracketFree(a) || (a != "" && a[|a| - 1] == ']')
    ensures Inside(a + t, |a| + i) <==> Inside(t, i)
  {
    var s := a + t;
    if Inside(t, i) {
      var k :| 0 <= k < i && t[k] == '[' && forall j | k < j < i :: t[j] != '[' && t[j] != ']';
      assert s[k + |a|] == '[';
      assert forall j | k + |a| < j < i + |a| :: s[j] == t[j - |a|];
    }
    if Inside(s, |a| + i) {
      var k :| 0 <= k < |a| + i && s[k] == '[' && forall j | k < j < |a| + i :: s[j] != '[' && s[j] != ']';
      assert a != "" ==> s[|a| - 1] == a[|a| - 1];
      assert k >= |a|;
      assert t[k - |a|] == '[';
      assert forall j | k - |a| < j < i :: t[j] == s[j + |a|];
    }
  }

  lemma WindowInside(w: string, t: string, i: nat)
    requires IsWindow(w) && 0 < i < |w|
    ensures Inside(w + t, i)
  {
    WindowBrackets(w);
    assert (w + t)[0] == '[';
    assert forall j | 0 < j < i :: (w + t)[j] == w[j];
  }

  lemma InsideAfterWindow(w: string, t: string, i: nat)
    requires IsWindow(w) && i <= |w + t| && !Inside(w + t, i)
    ensures i == 0 || (i >= |w| && !Inside(t, i - |w|))
  {
    if 0 < i < |w| {
      WindowInside(w, t, i);
    } else if i >= |w| {
      InsideTail(w, t, i - |w|);
    }
  }

  /** A prefix that is plain or a known window can be put back in front of a cut. */
  lemma KnownSplitAfter(m: map<string, string>, a: string, t: string, i: nat)
    requires |a| <= i <= |t| && t[..|a|] == a && (BracketFree(a) || KnownWindow(m, a))
    requires Known(m, t[|a|..][..i - |a|]) && Known(m, t[|a|..][i - |a|..])
    ensures Known(m, t[..i]) && Known(m, t[i..])
  {
    var head := t[|a|..][..i - |a|];
    assert t[..i] == a + head && t[i..] == t[|a|..][i - |a|..];
    if BracketFree(a) {
      KnownPlain(m, a, head);
    } else {
      KnownAtWindow(m, a, head);
    }
  }

  /** A known text can be cut outside its windows. */
  lemma {:induction false} KnownSplit(m: map<string, string>, t: string, i: nat)
    requires Known(m, t) && i <= |t| && !Inside(t, i)
    ensures Known(m, t[..i]) && Known(m, t[i..])
    decreases |t|
  {
    if i == 0 {
      assert t[..i] == "";
      assert t[i..] == t;
    } else {
      var c := if t[0] != '[' then 1 else Close(t) + 1;
      Cut(t, c);
      if t[0] != '[' {
        InsideTail(t[..c], t[c..], i - c);
      } else {
        InsideAfterWindow(t[..c], t[c..], i);
      }
      KnownSplit(m, t[c..], i - c);
      KnownSplitAfter(m, t[..c], t, i);
    }
  }

  lemma {:induction false} KnownFlat(m: map<string, string>, t: string)
    requires Known(m, t)
    ensures Flat(t)
    decreases |t|
  {
    if t == "" {
    } else if t[0] != '[' {
      Cut(t, 1);
      KnownFlat(m, t[1..]);
      FlatPrepend(t[..1], t[1..]);
    } else {
      var c := Close(t) + 1;
      Cut(t, c);
      KnownFlat(m, t[c..]);
      FlatPrependWindow(t[..c], t[c..]);
    }
  }

  predicate Grows(m: map<string, string>, n: map<string, string>) {
    forall p | p in m :: p in n && n[p] == m[p]
  }

  /** Later stores do not change what a known text stands for. */
  lemma {:induction false} KnownGrows(m: map<string, string>, n: map<string, string>, t: string)
    requires Known(m, t) && Grows(m, n)
    ensures Known(n, t) && ResolveMap(n, t) == ResolveMap(m, t)
    decreases |t|
  {
    if t == "" {
    } else if t[0] != '[' {
      KnownGrows(m, n, t[1..]);
    } else {
      KnownGrows(m, n, t[Close(t) + 1..]);
    }
  }

  // ----- Restoring known text

  predicate KeysAreWindows(m: map<string, string>) {
    forall p | p in m :: IsWindow(p)
  }

  /** One rewrite of a known text, whatever follows it, resolves the windows of that entry and
      keeps what the text stands for. */
  lemma {:induction false} ReplaceKnown(st: Strategy, m: map<string, string>, k: string, rest: string, w: string)
    requires Known(m, k) && IsWindow(w) && w in m && Apart(st, m)
    ensures var r := Replace(st, k, w, m[w]);
            && Replace(st, k + rest, w, m[w]) == r + Replace(st, rest, w, m[w])
            && Known(m - {w}, r) && ResolveMap(m - {w}, r) == ResolveMap(m, k)
    decreases |k|
  {
    if k == "" {
      assert k + rest == rest;
      Whole(Replace(st, rest, w, m[w]));
    } else {
      var c := if k[0] != '[' then 1 else Close(k) + 1;
      Cut(k, c);
      ReplaceKnown(st, m, k[c..], rest, w);
      if k[0] != '[' {
        ReplaceKnownChar(st, m, k[..c], k[c..], rest, w);
      } else {
        ReplaceKnownWindow(st, m, k[..c], k[c..], rest, w);
      }
    }
  }

  lemma ReplaceKnownChar(st: Strategy, m: map<string, string>, u: string, k: string, rest: string, w: string)
    requires BracketFree(u) && IsWindow(w) && w in m
    requires var r := Replace(st, k, w, m[w]);
             && Replace(st, k + rest, w, m[w]) == r + Replace(st, rest, w, m[w])
             && Known(m - {w}, r) && ResolveMap(m - {w}, r) == ResolveMap(m, k)
    ensures var r := Replace(st, u + k, w, m[w]);
            && Replace(st, u + k + rest, w, m[w]) == r + Replace(st, rest, w, m[w])
            && Known(m - {w}, r) && ResolveMap(m - {w}, r) == ResolveMap(m, u + k)
  {
    var r := Replace(st, k, w, m[w]);
    Assoc(u, k, rest);
    ReplaceSkips(st, u, k, w, m[w]);
    ReplaceSkips(st, u, k + rest, w, m[w]);
    Assoc(u, r, Replace(st, rest, w, m[w]));
    KnownPlain(m - {w}, u, r);
    KnownPlain(m, u, k);
  }

  lemma ReplaceKnownWindow(st: Strategy, m: map<string, string>, v: string, k: string, rest: string, w: string)
    requires KnownWindow(m, v) && IsWindow(w) && w in m && Apart(st, m)
    requires var r := Replace(st, k, w, m[w]);
             && Replace(st, k + rest, w, m[w]) == r + Replace(st, rest, w, m[w])
             && Known(m - {w}, r) && ResolveMap(m - {w}, r) == ResolveMap(m, k)
    ensures var r := Replace(st, v + k, w, m[w]);
            && Replace(st, v + k + rest, w, m[w]) == r + Replace(st, rest, w, m[w])
            && Known(m - {w}, r) && ResolveMap(m - {w}, r) == ResolveMap(m, v + k)
  {
    var r, head := Replace(st, k, w, m[w]), if v == w then m[w] else v;
    Assoc(v, k, rest);
    SameKeys(st, m, v, w);
    ReplaceAtWindow(st, v, k, w, m[w]);
    ReplaceAtWindow(st, v, k + rest, w, m[w]);
    Assoc(head, r, Replace(st, rest, w, m[w]));
    KnownAtWindow(m, v, k);
    if v == w {
      KnownPlain(m - {w}, m[w], r);
    } else {
      KnownAtWindow(m - {w}, v, r);
    }
  }

  lemma ListsTail(entries: seq<Entry>, m: map<string, string>)
    requires Lists(entries, m) && entries != []
    ensures Lists(entries[1..], m - {entries[0].placeholder})
  {
    var rest, n := entries[1..], m - {entries[0].placeholder};
    forall i | 0 <= i < |rest|
      ensures rest[i].placeholder in n && n[rest[i].placeholder] == rest[i].original
    {
      assert rest[i] == entries[i + 1] && entries[0].placeholder != entries[i + 1].placeholder;
    }
    forall p | p in n
      ensures exists i | 0 <= i < |rest| :: rest[i].placeholder == p
    {
      var i :| 0 <= i < |entries| && entries[i].placeholder == p;
      assert rest[i - 1].placeholder == p;
    }
  }

  lemma {:induction false} KnownEmpty(t: string)
    requires Known(map[], t)
    ensures ResolveMap(map[], t) == t
  {
    if t != "" {
      KnownEmpty(t[1..]);
    }
  }

  /** A known text is restored to what it stands for, in every entry order and whatever else the
      vault holds. */
  lemma {:induction false} RestoreKnown(st: Strategy, m: map<string, string>, t: string, entries: seq<Entry>)
    requires Lists(entries, m) && KeysAreWindows(m) && Apart(st, m) && Known(m, t)
    ensures Restore(st, t, entries) == ResolveMap(m, t)
    decreases |entries|
  {
    if entries == [] {
      assert m == map[];
      KnownEmpty(t);
    } else {
      var w := entries[0].placeholder;
      ReplaceKnown(st, m, t, "", w);
      ListsTail(entries, m);
      RestoreKnown(st, m - {w}, Replace(st, t, w, m[w]), entries[1..]);
    }
  }
}
