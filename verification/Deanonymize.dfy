/** Restoring originals in a reply: the `Exact` and `CaseInsensitive` strategies.

    Both strategies rewrite the whole text once per vault entry, so an entry sees the output of
    the entries before it.  The reference definition here is `Resolve`, which looks at every
    window of the text once and replaces it by the original of the first entry that names it.
    On flat text the two agree, whatever the order of the entries. */
module Deanonymize {
  import opened Seqs
  import opened Brackets

  datatype Entry = Entry(placeholder: string, original: string)

  datatype Strategy = Exact | CaseInsensitive

  function AsciiLower(c: char): char {
    if 'A' <= c <= 'Z' then (c as int + 32) as char else c
  }

  /** Equality of two texts as the strategy compares them. */
  predicate Same(st: Strategy, a: string, b: string) {
    |a| == |b| &&
    forall i | 0 <= i < |a| :: if st.Exact? then a[i] == b[i] else AsciiLower(a[i]) == AsciiLower(b[i])
  }

  lemma SameExact(a: string, b: string)
    ensures Same(Exact, a, b) <==> a == b
  {
  }

  /** One of the 26 ASCII letters, upper and lower. */
  predicate CasePair(upper: char, lower: char) {
    65 <= upper as int <= 90 && lower as int == upper as int + 32
  }

  /** The same character, or the same ASCII letter. */
  predicate SameLetter(a: char, b: char) {
    a == b || CasePair(a, b) || CasePair(b, a)
  }

  /** Which texts the strategies take for equal. */
  lemma SameLetters(a: string, b: string)
    ensures Same(Exact, a, b) <==> a == b
    ensures Same(CaseInsensitive, a, b) <==> |a| == |b| && forall i | 0 <= i < |a| :: SameLetter(a[i], b[i])
  {
    SameExact(a, b);
    if |a| == |b| {
      forall i | 0 <= i < |a|
        ensures AsciiLower(a[i]) == AsciiLower(b[i]) <==> SameLetter(a[i], b[i])
      {
        LowerEqual(a[i], b[i]);
      }
    }
  }

  lemma LowerEqual(a: char, b: char)
    ensures AsciiLower(a) == AsciiLower(b) <==> SameLetter(a, b)
  {
  }

  /** Leftmost, non-overlapping replacement of `pat` in `s`. */
  function Replace(st: Strategy, s: string, pat: string, r: string): string
    requires pat != ""
  {
    if |s| < |pat| then s
    else if Same(st, s[..|pat|], pat) then r + Replace(st, s[|pat|..], pat, r)
    else [s[0]] + Replace(st, s[1..], pat, r)
  }

  /** What `str::replace` does with an empty pattern: the replacement at every boundary. */
  function Interleave(s: string, r: string): string {
    if s == "" then r else r + [s[0]] + Interleave(s[1..], r)
  }

  function RestoreOne(st: Strategy, s: string, e: Entry): string {
    if e.placeholder != "" then Replace(st, s, e.placeholder, e.original)
    else if st.Exact? then Interleave(s, e.original)
    else s
  }

  /** An empty placeholder: `Exact` puts the original in front of every character and at the end,
      `CaseInsensitive` does nothing. */
  lemma {:induction false} EmptyPlaceholder(a: string, c: char, b: string, r: string)
    ensures RestoreOne(Exact, "", Entry("", r)) == r
    ensures RestoreOne(Exact, a + [c] + b, Entry("", r)) ==
            RestoreOne(Exact, a, Entry("", r)) + [c] + RestoreOne(Exact, b, Entry("", r))
    ensures RestoreOne(CaseInsensitive, a, Entry("", r)) == a
    decreases |a|
  {
    if a == "" {
      assert (a + [c] + b)[1..] == b;
    } else {
      EmptyPlaceholder(a[1..], c, b, r);
      assert (a + [c] + b)[1..] == a[1..] + [c] + b;
      var rest := Interleave(a[1..], r);
      Assoc(r + [a[0]], rest, [c]);
      Assoc(r + [a[0]], rest + [c], Interleave(b, r));
    }
  }

  /** One rewrite of the whole text per entry, in entry order. */
  function Restore(st: Strategy, s: string, entries: seq<Entry>): string
    decreases |entries|
  {
    if entries == [] then s else Restore(st, RestoreOne(st, s, entries[0]), entries[1..])
  }

  lemma {:induction false} RestoreSnoc(st: Strategy, s: string, entries: seq<Entry>, e: Entry)
    ensures Restore(st, s, entries + [e]) == RestoreOne(st, Restore(st, s, entries), e)
    decreases |entries|
  {
    if entries == [] {
      assert entries + [e] == [e];
    } else {
      RestoreSnoc(st, RestoreOne(st, s, entries[0]), entries[1..], e);
      assert (entries + [e])[1..] == entries[1..] + [e];
    }
  }

  // ----- The two strategies as they are programmed

  predicate OccursAt(s: string, pat: string, i: int) {
    0 <= i <= |s| - |pat| && s[i..i + |pat|] == pat
  }

  predicate Contains(s: string, pat: string) {
    exists i | 0 <= i <= |s| :: OccursAt(s, pat, i)
  }

  lemma {:induction false} ReplaceAbsent(s: string, pat: string, r: string)
    requires pat != "" && !Contains(s, pat)
    ensures Replace(Exact, s, pat, r) == s
  {
    if |s| >= |pat| {
      assert !OccursAt(s, pat, 0);
      assert s[0..0 + |pat|] == s[..|pat|];
      forall i | 0 <= i <= |s[1..]|
        ensures !OccursAt(s[1..], pat, i)
      {
        if i <= |s[1..]| - |pat| {
          assert s[1..][i..i + |pat|] == s[i + 1..i + 1 + |pat|];
        }
        assert !OccursAt(s, pat, i + 1);
      }
      ReplaceAbsent(s[1..], pat, r);
    }
  }

  method ExactRestore(output: string, entries: seq<Entry>) returns (out: string)
    ensures out == Restore(Exact, output, entries)
  {
    out := output;
    for n := 0 to |entries|
      invariant out == Restore(Exact, output, entries[..n])
    {
      RestoreSnoc(Exact, output, entries[..n], entries[n]);
      assert entries[..n + 1] == entries[..n] + [entries[n]];
      var placeholder := entries[n].placeholder;
      if Contains(out, placeholder) {
        out := RestoreOne(Exact, out, entries[n]);
      } else {
        assert placeholder == "" ==> OccursAt(out, placeholder, 0);
        ReplaceAbsent(out, placeholder, entries[n].original);
      }
    }
    assert entries[..|entries|] == entries;
  }

  /** One pass of `CaseInsensitive` for one entry: the inner loop. */
  method ReplaceIgnoringCase(out: string, needle: string, original: string) returns (buf: string)
    requires needle != ""
    ensures buf == Replace(CaseInsensitive, out, needle, original)
  {
    buf := "";
    var i := 0;
    ghost var full := Replace(CaseInsensitive, out, needle, original);
    ReplaceStart(buf, out, needle, original);
    while i < |out|
      invariant 0 <= i <= |out|
      invariant full == buf + Replace(CaseInsensitive, out[i..], needle, original)
    {
      if i + |needle| <= |out| && Same(CaseInsensitive, out[i..i + |needle|], needle) {
        HitAt(buf, out, i, needle, original);
        buf := buf + original;
        i := i + |needle|;
      } else {
        MissAt(buf, out, i, needle, original);
        buf := buf + [out[i]];
        i := i + 1;
      }
    }
    ReplaceEnd(buf, out[i..], needle, original);
  }

  lemma ReplaceStart(buf: string, out: string, needle: string, original: string)
    requires buf == "" && needle != ""
    ensures Replace(CaseInsensitive, out, needle, original) == buf + Replace(CaseInsensitive, out[0..], needle, original)
  {
    assert out[0..] == out;
  }

  lemma ReplaceEnd(buf: string, rest: string, needle: string, original: string)
    requires rest == "" && needle != ""
    ensures buf + Replace(CaseInsensitive, rest, needle, original) == buf
  {
  }

  lemma HitAt(buf: string, out: string, i: nat, needle: string, original: string)
    requires needle != "" && i + |needle| <= |out| && Same(CaseInsensitive, out[i..i + |needle|], needle)
    ensures buf + Replace(CaseInsensitive, out[i..], needle, original)
         == (buf + original) + Replace(CaseInsensitive, out[i + |needle|..], needle, original)
  {
    var rest := out[i..];
    assert rest[..|needle|] == out[i..i + |needle|] && rest[|needle|..] == out[i + |needle|..];
    ReplaceHit(CaseInsensitive, rest, needle, original);
    Assoc(buf, original, Replace(CaseInsensitive, out[i + |needle|..], needle, original));
  }

  lemma MissAt(buf: string, out: string, i: nat, needle: string, original: string)
    requires needle != "" && i < |out|
    requires i + |needle| <= |out| ==> !Same(CaseInsensitive, out[i..i + |needle|], needle)
    ensures buf + Replace(CaseInsensitive, out[i..], needle, original)
         == (buf + [out[i]]) + Replace(CaseInsensitive, out[i + 1..], needle, original)
  {
    var rest := out[i..];
    assert |needle| <= |rest| ==> rest[..|needle|] == out[i..i + |needle|];
    assert rest[1..] == out[i + 1..];
    ReplaceMiss(CaseInsensitive, rest, needle, original);
    Assoc(buf, [out[i]], Replace(CaseInsensitive, out[i + 1..], needle, original));
  }

  method CaseInsensitiveRestore(output: string, entries: seq<Entry>) returns (out: string)
    ensures out == Restore(CaseInsensitive, output, entries)
  {
    out := output;
    for n := 0 to |entries|
      invariant out == Restore(CaseInsensitive, output, entries[..n])
    {
      RestoreSnoc(CaseInsensitive, output, entries[..n], entries[n]);
      assert entries[..n + 1] == entries[..n] + [entries[n]];
      var needle := entries[n].placeholder;
      if needle == "" {
        continue;
      }
      out := ReplaceIgnoringCase(out, needle, entries[n].original);
    }
    assert entries[..|entries|] == entries;
  }

  lemma ReplaceHit(st: Strategy, s: string, pat: string, r: string)
    requires pat != "" && |pat| <= |s| && Same(st, s[..|pat|], pat)
    ensures Replace(st, s, pat, r) == r + Replace(st, s[|pat|..], pat, r)
  {
  }

  lemma ReplaceMiss(st: Strategy, s: string, pat: string, r: string)
    requires pat != "" && s != ""
    requires |pat| <= |s| ==> !Same(st, s[..|pat|], pat)
    ensures Replace(st, s, pat, r) == [s[0]] + Replace(st, s[1..], pat, r)
  {
    assert s == [s[0]] + s[1..];
  }

  // ----- Reference definition: every window looked up once

  /** The original of the first entry whose placeholder is `w`, or `w` itself. */
  function First(st: Strategy, entries: seq<Entry>, w: string): string {
    if entries == [] then w
    else if Same(st, w, entries[0].placeholder) then entries[0].original
    else First(st, entries[1..], w)
  }

  function Resolve(st: Strategy, entries: seq<Entry>, s: string): string
    decreases |s|
  {
    if s == "" then ""
    else if s[0] != '[' then [s[0]] + Resolve(st, entries, s[1..])
    else
      var e := Close(s);
      if e == |s| then s else First(st, entries, s[..e + 1]) + Resolve(st, entries, s[e + 1..])
  }

  /** Placeholders are windows and originals carry no bracket. */
  predicate WellFormed(entries: seq<Entry>) {
    forall i | 0 <= i < |entries| :: IsWindow(entries[i].placeholder) && BracketFree(entries[i].original)
  }

  /** Some entry has the placeholder `w`. */
  predicate Named(st: Strategy, entries: seq<Entry>, w: string) {
    exists i | 0 <= i < |entries| :: Same(st, w, entries[i].placeholder)
  }

  lemma {:induction false} FirstNamed(st: Strategy, entries: seq<Entry>, w: string)
    requires WellFormed(entries)
    ensures if Named(st, entries, w) then BracketFree(First(st, entries, w)) else First(st, entries, w) == w
  {
    if entries != [] {
      FirstNamed(st, entries[1..], w);
      if i :| 0 <= i < |entries| && Same(st, w, entries[i].placeholder) {
        if i > 0 {
          assert Same(st, w, entries[1..][i - 1].placeholder);
        }
      } else {
        assert forall i | 0 <= i < |entries[1..]| :: entries[1..][i] == entries[i + 1];
      }
    }
  }

  // ----- Restore is Resolve on flat text

  lemma {:induction false} ReplaceSkips(st: Strategy, u: string, s: string, pat: string, r: string)
    requires IsWindow(pat) && '[' !in u
    ensures Replace(st, u + s, pat, r) == u + Replace(st, s, pat, r)
  {
    if u == "" {
      assert u + s == s;
    } else {
      HeadTail(u, s);
      ReplaceSkipsOne(st, u + s, pat, r);
      ReplaceSkips(st, u[1..], s, pat, r);
      Cut(u, 1);
      Assoc(u[..1], u[1..], Replace(st, s, pat, r));
    }
  }

  lemma ReplaceSkipsOne(st: Strategy, t: string, pat: string, r: string)
    requires IsWindow(pat) && t != "" && t[0] != '['
    ensures Replace(st, t, pat, r) == t[..1] + Replace(st, t[1..], pat, r)
  {
    if |t| >= |pat| {
      assert t[..|pat|][0] != '[';
      assert AsciiLower(t[0]) != '[';
    } else {
      ReplaceMiss(st, t, pat, r);
    }
  }

  /** At a closed window, `Replace` either rewrites the whole window or leaves it alone. */
  lemma ReplaceAtWindow(st: Strategy, w: string, s: string, pat: string, r: string)
    requires IsWindow(pat) && IsWindow(w)
    ensures Replace(st, w + s, pat, r) == (if Same(st, w, pat) then r else w) + Replace(st, s, pat, r)
  {
    var t := w + s;
    WindowsAlign(st, w, s, pat);
    if Same(st, w, pat) {
      assert t[..|pat|] == w && t[|pat|..] == s;
      ReplaceHit(st, t, pat, r);
    } else {
      assert !(|pat| <= |t| && Same(st, t[..|pat|], pat));
      ReplaceMiss(st, t, pat, r);
      ReplaceWindowTail(st, w, s, pat, r);
    }
  }

  lemma ReplaceWindowTail(st: Strategy, w: string, s: string, pat: string, r: string)
    requires IsWindow(pat) && IsWindow(w)
    ensures [w[0]] + Replace(st, (w + s)[1..], pat, r) == w + Replace(st, s, pat, r)
  {
    assert (w + s)[1..] == w[1..] + s;
    WindowBrackets(w);
    ReplaceSkips(st, w[1..], s, pat, r);
    assert w == [w[0]] + w[1..];
    Assoc([w[0]], w[1..], Replace(st, s, pat, r));
  }

  /** A placeholder that occurs at the front of a window is the whole window. */
  lemma WindowsAlign(st: Strategy, w: string, s: string, pat: string)
    requires IsWindow(w) && IsWindow(pat)
    ensures |pat| <= |w + s| && Same(st, (w + s)[..|pat|], pat) ==> (w + s)[..|pat|] == w
  {
    WindowBrackets(w);
    WindowBrackets(pat);
    var t := w + s;
    if |pat| <= |t| && Same(st, t[..|pat|], pat) {
      var u := t[..|pat|];
      assert forall i | 0 <= i < |pat| :: u[i] == ']' <==> pat[i] == ']';
      assert forall i | 0 <= i < |pat| && i < |w| :: u[i] == w[i];
      assert u[|pat| - 1] == ']';
      assert |w| == |pat|;
    }
  }

  lemma {:induction false} ResolveSkips(st: Strategy, entries: seq<Entry>, u: string, s: string)
    requires '[' !in u
    ensures Resolve(st, entries, u + s) == u + Resolve(st, entries, s)
  {
    if u == "" {
      assert u + s == s;
    } else {
      ResolveSkips(st, entries, u[1..], s);
      assert (u + s)[1..] == u[1..] + s;
    }
  }

  lemma ResolveAtWindow(st: Strategy, entries: seq<Entry>, w: string, s: string)
    requires IsWindow(w)
    ensures Resolve(st, entries, w + s) == First(st, entries, w) + Resolve(st, entries, s)
  {
    CloseOfWindow(w, s);
    assert (w + s)[..|w|] == w && (w + s)[|w|..] == s;
  }

  /** One rewrite followed by looking up the remaining entries looks up all entries. */
  lemma {:induction false} ReplaceThenResolve(st: Strategy, s: string, e: Entry, rest: seq<Entry>)
    requires Flat(s) && IsWindow(e.placeholder) && BracketFree(e.original)
    ensures Flat(RestoreOne(st, s, e))
    ensures Resolve(st, rest, RestoreOne(st, s, e)) == Resolve(st, [e] + rest, s)
    decreases |s|
  {
    var all := [e] + rest;
    var pat, r := e.placeholder, e.original;
    assert all[1..] == rest;
    if s == "" {
    } else if s[0] != '[' {
      FlatSuffix(s, 1);
      ReplaceThenResolve(st, s[1..], e, rest);
      assert s == [s[0]] + s[1..];
      ReplaceSkips(st, [s[0]], s[1..], pat, r);
      var t := Replace(st, s[1..], pat, r);
      FlatPrepend([s[0]], t);
      ResolveSkips(st, rest, [s[0]], t);
    } else {
      var c := Close(s);
      FlatWindow(s);
      if c == |s| {
        UnclosedUntouched(st, s, pat, r);
      } else {
        var w, s' := s[..c + 1], s[c + 1..];
        assert s == w + s';
        FlatSuffix(s, c + 1);
        ReplaceThenResolve(st, s', e, rest);
        ReplaceAtWindow(st, w, s', pat, r);
        var t := Replace(st, s', pat, r);
        if Same(st, w, pat) {
          FlatPrepend(r, t);
          ResolveSkips(st, rest, r, t);
        } else {
          FlatPrependWindow(w, t);
          ResolveAtWindow(st, rest, w, t);
        }
      }
    }
  }

  /** Text that never closes its window holds no placeholder. */
  lemma {:induction false} UnclosedUntouched(st: Strategy, s: string, pat: string, r: string)
    requires IsWindow(pat) && ']' !in s
    ensures Replace(st, s, pat, r) == s
  {
    if |s| >= |pat| {
      var u := s[..|pat|];
      assert u[|pat| - 1] == s[|pat| - 1] != ']';
      assert AsciiLower(u[|pat| - 1]) != ']';
      UnclosedUntouched(st, s[1..], pat, r);
      assert s == [s[0]] + s[1..];
    }
  }

  lemma {:induction false} ResolveNothing(st: Strategy, s: string)
    ensures Resolve(st, [], s) == s
    decreases |s|
  {
    if s == "" {
    } else if s[0] != '[' {
      ResolveNothing(st, s[1..]);
      assert s == [s[0]] + s[1..];
    } else if Close(s) < |s| {
      var c := Close(s);
      ResolveNothing(st, s[c + 1..]);
      assert s == s[..c + 1] + s[c + 1..];
    }
  }

  /** Rewriting the text once per entry resolves every window exactly once. */
  lemma {:induction false} RestoreIsResolve(st: Strategy, s: string, entries: seq<Entry>)
    requires Flat(s) && WellFormed(entries)
    ensures Restore(st, s, entries) == Resolve(st, entries, s)
    decreases |entries|
  {
    if entries == [] {
      ResolveNothing(st, s);
    } else {
      ReplaceThenResolve(st, s, entries[0], entries[1..]);
      assert entries == [entries[0]] + entries[1..];
      RestoreIsResolve(st, RestoreOne(st, s, entries[0]), entries[1..]);
    }
  }

  // ----- Any entry order

  predicate DistinctPlaceholders(entries: seq<Entry>) {
    forall i, j | 0 <= i < j < |entries| :: entries[i].placeholder != entries[j].placeholder
  }

  /** `entries` lists the vault map `m`, in some order. */
  predicate Lists(entries: seq<Entry>, m: map<string, string>) {
    DistinctPlaceholders(entries) &&
    (forall i | 0 <= i < |entries| :: entries[i].placeholder in m && m[entries[i].placeholder] == entries[i].original) &&
    (forall p | p in m :: exists i | 0 <= i < |entries| :: entries[i].placeholder == p)
  }

  function Lookup(m: map<string, string>, w: string): string {
    if w in m then m[w] else w
  }

  /** Every window looked up in the vault map: no entry order left. */
  function ResolveMap(m: map<string, string>, s: string): string
    decreases |s|
  {
    if s == "" then ""
    else if s[0] != '[' then [s[0]] + ResolveMap(m, s[1..])
    else
      var e := Close(s);
      if e == |s| then s else Lookup(m, s[..e + 1]) + ResolveMap(m, s[e + 1..])
  }

  /** The strategy tells the placeholders of the vault apart. */
  predicate Apart(st: Strategy, m: map<string, string>) {
    st.Exact? || forall p, q | p in m && q in m && Same(st, p, q) :: p == q
  }

  lemma SameKeys(st: Strategy, m: map<string, string>, p: string, q: string)
    requires Apart(st, m) && p in m && q in m
    ensures Same(st, p, q) <==> p == q
  {
    if st.Exact? {
      SameExact(p, q);
    }
  }

  lemma SameChain(st: Strategy, w: string, p: string, q: string)
    requires Same(st, w, p) && Same(st, w, q)
    ensures Same(st, p, q)
  {
  }

  lemma {:induction false} FirstFound(st: Strategy, entries: seq<Entry>, w: string, i: nat)
    requires i < |entries| && Same(st, w, entries[i].placeholder)
    requires forall k | 0 <= k < |entries| && Same(st, w, entries[k].placeholder) :: k == i
    ensures First(st, entries, w) == entries[i].original
  {
    if i > 0 {
      FirstFound(st, entries[1..], w, i - 1);
    }
  }

  lemma {:induction false} FirstMissing(st: Strategy, entries: seq<Entry>, w: string)
    requires forall i | 0 <= i < |entries| :: !Same(st, w, entries[i].placeholder)
    ensures First(st, entries, w) == w
  {
    if entries != [] {
      FirstMissing(st, entries[1..], w);
    }
  }

  /** What a window is restored to depends on the vault alone. */
  lemma FirstInVault(st: Strategy, m: map<string, string>, entries: seq<Entry>, w: string, p: string)
    requires Lists(entries, m) && Apart(st, m) && p in m && Same(st, w, p)
    ensures First(st, entries, w) == m[p]
  {
    var i :| 0 <= i < |entries| && entries[i].placeholder == p;
    forall k | 0 <= k < |entries| && Same(st, w, entries[k].placeholder)
      ensures k == i
    {
      SameChain(st, w, p, entries[k].placeholder);
      SameKeys(st, m, p, entries[k].placeholder);
    }
    FirstFound(st, entries, w, i);
  }

  lemma FirstAnyOrder(st: Strategy, m: map<string, string>, a: seq<Entry>, b: seq<Entry>, w: string)
    requires Lists(a, m) && Lists(b, m) && Apart(st, m)
    ensures First(st, a, w) == First(st, b, w)
  {
    if p :| p in m && Same(st, w, p) {
      FirstInVault(st, m, a, w, p);
      FirstInVault(st, m, b, w, p);
    } else {
      FirstMissing(st, a, w);
      FirstMissing(st, b, w);
    }
  }

  lemma {:induction false} ResolveAnyOrder(st: Strategy, m: map<string, string>, a: seq<Entry>, b: seq<Entry>, s: string)
    requires Lists(a, m) && Lists(b, m) && Apart(st, m)
    ensures Resolve(st, a, s) == Resolve(st, b, s)
    decreases |s|
  {
    if s == "" {
    } else if s[0] != '[' {
      ResolveAnyOrder(st, m, a, b, s[1..]);
    } else if Close(s) < |s| {
      FirstAnyOrder(st, m, a, b, s[..Close(s) + 1]);
      ResolveAnyOrder(st, m, a, b, s[Close(s) + 1..]);
    }
  }

  /** A vault map all of whose placeholders are windows and whose originals carry no bracket. */
  predicate WellFormedMap(m: map<string, string>) {
    forall p | p in m :: IsWindow(p) && BracketFree(m[p])
  }

  /** Whatever order the vault's hash map lists its entries in, the restored text is the same, for
      both strategies, the case-insensitive one if no two placeholders differ only in case. */
  lemma RestoreAnyOrder(st: Strategy, s: string, a: seq<Entry>, b: seq<Entry>, m: map<string, string>)
    requires Flat(s) && Lists(a, m) && Lists(b, m) && WellFormedMap(m) && Apart(st, m)
    ensures Restore(st, s, a) == Restore(st, s, b)
  {
    RestoreIsResolve(st, s, a);
    RestoreIsResolve(st, s, b);
    ResolveAnyOrder(st, m, a, b, s);
  }
}
