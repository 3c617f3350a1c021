/** Masking a reply and then restoring it: the mask does not get in the way of the placeholders. */
module MaskRestore {
  import opened Seqs
  import opened Brackets
  import opened Deanonymize
  import opened Mask

  // ----- A mask that spares brackets

  predicate Spares(s: string, starred: seq<bool>)
    requires |starred| == |s|
  {
    forall k | 0 <= k < |s| && starred[k] :: s[k] != '[' && s[k] != ']'
  }

  lemma MaskedAppend(a: string, x: seq<bool>, b: string, y: seq<bool>)
    requires |a| == |x| && |b| == |y|
    ensures Masked(a + b, x + y) == Masked(a, x) + Masked(b, y)
  {
    MaskedConcat(a + b, x + y, |a|);
    assert (a + b)[..|a|] == a && (a + b)[|a|..] == b && (x + y)[..|a|] == x && (x + y)[|a|..] == y;
  }

  lemma {:induction false} MaskedWithout(u: string, starred: seq<bool>, c: char)
    requires |starred| == |u| && c !in u && c != '*'
    ensures c !in Masked(u, starred)
  {
    if u != "" {
      MaskedWithout(u[1..], starred[1..], c);
    }
  }

  lemma MaskedWindowIsWindow(w: string, starred: seq<bool>)
    requires |starred| == |w| && IsWindow(w) && Spares(w, starred)
    ensures IsWindow(Masked(w, starred))
  {
    var n := |w| - 1;
    var body, stars := w[1..n], starred[1..n];
    assert w == "[" + body + "]" && starred == [false] + stars + [false];
    MaskedAppend("[" + body, [false] + stars, "]", [false]);
    MaskedAppend("[", [false], body, stars);
    assert Masked("[", [false]) == "[" && Masked("]", [false]) == "]" by {
      assert "["[1..] == "" && "]"[1..] == "";
    }
    MaskedWithout(body, stars, '[');
    MaskedWithout(body, stars, ']');
    var masked := "[" + Masked(body, stars) + "]";
    assert masked[1..|masked| - 1] == Masked(body, stars);
  }

  lemma SparesFront(s: string, starred: seq<bool>, n: nat)
    requires |starred| == |s| && n <= |s| && Spares(s, starred)
    ensures Spares(s[..n], starred[..n])
  {
  }

  /** The reply from a `[` on, up to its `]`, is a masked window. */
  lemma MaskedAtWindow(s: string, starred: seq<bool>)
    requires |starred| == |s| && Flat(s) && s != "" && s[0] == '[' && Spares(s, starred) && Close(s) < |s|
    ensures var n := Close(s) + 1;
            && IsWindow(s[..n]) && IsWindow(Masked(s[..n], starred[..n]))
            && Masked(s, starred) == Masked(s[..n], starred[..n]) + Masked(s[n..], starred[n..])
  {
    var n := Close(s) + 1;
    FlatWindow(s);
    SparesFront(s, starred, n);
    MaskedConcat(s, starred, n);
    MaskedWindowIsWindow(s[..n], starred[..n]);
  }

  /** Without a `]` it is an open end. */
  lemma MaskedOpenEnd(s: string, starred: seq<bool>)
    requires |starred| == |s| && Flat(s) && s != "" && s[0] == '[' && Spares(s, starred) && Close(s) == |s|
    ensures Masked(s, starred) == "[" + Masked(s[1..], starred[1..])
    ensures BracketFree(s[1..]) && BracketFree(Masked(s[1..], starred[1..]))
  {
    FlatWindow(s);
    assert s[1..] == s[1..Close(s)];
    MaskedWithout(s[1..], starred[1..], '[');
    MaskedWithout(s[1..], starred[1..], ']');
  }

  lemma SparesTail(s: string, starred: seq<bool>, n: nat)
    requires |starred| == |s| && n <= |s| && Spares(s, starred)
    ensures Spares(s[n..], starred[n..])
  {
  }

  /** A mask that spares brackets keeps flat text flat. */
  lemma {:induction false} SparedFlat(s: string, starred: seq<bool>)
    requires |starred| == |s| && Flat(s) && Spares(s, starred)
    ensures Flat(Masked(s, starred))
    decreases |s|
  {
    if s == "" {
    } else if s[0] != '[' {
      FlatSuffix(s, 1);
      SparesTail(s, starred, 1);
      SparedFlat(s[1..], starred[1..]);
      FlatPrepend(MaskedChar(s[0], starred[0]), Masked(s[1..], starred[1..]));
    } else {
      var e := Close(s);
      if e < |s| {
        MaskedAtWindow(s, starred);
        FlatSuffix(s, e + 1);
        SparesTail(s, starred, e + 1);
        SparedFlat(s[e + 1..], starred[e + 1..]);
        FlatPrependWindow(Masked(s[..e + 1], starred[..e + 1]), Masked(s[e + 1..], starred[e + 1..]));
      } else {
        MaskedOpenEnd(s, starred);
      }
    }
  }

  // ----- Mask, then restore

  /** The reply with every window restored and the text between the windows masked. */
  function MaskedBetween(st: Strategy, entries: seq<Entry>, s: string, starred: seq<bool>): string
    requires |starred| == |s|
    decreases |s|
  {
    if s == "" then ""
    else if s[0] != '[' then MaskedChar(s[0], starred[0]) + MaskedBetween(st, entries, s[1..], starred[1..])
    else
      var e := Close(s);
      if e == |s| then s else First(st, entries, s[..e + 1]) + MaskedBetween(st, entries, s[e + 1..], starred[e + 1..])
  }

  /** A masked window and what follows it. */
  lemma MaskedWindow(s: string, starred: seq<bool>)
    requires |starred| == |s| && Flat(s) && s != "" && s[0] == '[' && Harmless(s, starred)
    ensures var e := Close(s);
            if e == |s| then Masked(s, starred) == s
            else IsWindow(s[..e + 1]) && Masked(s, starred) == s[..e + 1] + Masked(s[e + 1..], starred[e + 1..])
  {
    var e := Close(s);
    WindowUntouched(s, starred);
    if e == |s| {
      MaskedPrefix(s, starred, e);
      Whole(s);
    } else {
      FlatWindow(s);
      MaskedPrefix(s, starred, e + 1);
    }
  }

  lemma {:induction false} ResolveMasked(st: Strategy, entries: seq<Entry>, s: string, starred: seq<bool>)
    requires |starred| == |s| && Flat(s) && Harmless(s, starred)
    ensures Resolve(st, entries, Masked(s, starred)) == MaskedBetween(st, entries, s, starred)
    decreases |s|
  {
    if s == "" {
    } else if s[0] != '[' {
      FlatSuffix(s, 1);
      HarmlessTail(s, starred, 1);
      ResolveMasked(st, entries, s[1..], starred[1..]);
      ResolveSkips(st, entries, MaskedChar(s[0], starred[0]), Masked(s[1..], starred[1..]));
    } else {
      var e := Close(s);
      MaskedWindow(s, starred);
      if e < |s| {
        FlatSuffix(s, e + 1);
        HarmlessTail(s, starred, e + 1);
        ResolveMasked(st, entries, s[e + 1..], starred[e + 1..]);
        ResolveAtWindow(st, entries, s[..e + 1], Masked(s[e + 1..], starred[e + 1..]));
      }
    }
  }

  /** For every flat reply, every list of matches of bracket-free phrases, every entry list and both
      strategies: restoring the masked reply restores every window as if there had been no mask,
      and keeps the masked text between them. */
  lemma RestoreAfterMask(st: Strategy, entries: seq<Entry>, lower: char -> string, s: string, matches: seq<Match>)
    requires LowerOk(lower) && InBounds(Lowered(lower, s), matches) && Flat(s) && WellFormed(entries)
    requires forall n | 0 <= n < |matches| :: PhraseBracketFree(Lowered(lower, s), matches[n])
    ensures Flat(Masked(s, StarredChars(lower, s, matches)))
    ensures Restore(st, Masked(s, StarredChars(lower, s, matches)), entries)
         == MaskedBetween(st, entries, s, StarredChars(lower, s, matches))
  {
    var starred := StarredChars(lower, s, matches);
    MaskIsHarmless(lower, s, matches);
    SparedFlat(s, starred);
    ResolveMasked(st, entries, s, starred);
    RestoreIsResolve(st, Masked(s, starred), entries);
  }
}
