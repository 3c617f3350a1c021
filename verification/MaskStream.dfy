/** Masking on streams: the proxy masks each delta on its own and pushes the result into the
    deanonymizer, so a placeholder that is cut between two deltas can be starred. */
module MaskStream {
  import opened Seqs
  import opened Brackets
  import opened Deanonymize
  import opened Mask
  import opened MaskRestore
  import D = DeanonStream
  import E = Sse
  import F = SseStream
  import C = SseContents

  // ----- Deltas, masked one by one

  /** The stars of each text, all of them plain characters outside the brackets of that text. */
  ghost predicate MasksHarmlessly(mask: string -> seq<bool>) {
    forall t :: |mask(t)| == |t| && Harmless(t, mask(t))
  }

  /** The mask of a phrase scanner: the characters that `FilterOutput` stars out. */
  ghost predicate MaskOf(mask: string -> seq<bool>, lower: char -> string, scan: seq<Byte> -> seq<Match>) {
    && LowerOk(lower)
    && forall t ::
         var lowered := Lowered(lower, t);
         && InBounds(lowered, scan(lowered))
         && (forall n | 0 <= n < |scan(lowered)| :: PhraseBracketFree(lowered, scan(lowered)[n]))
         && mask(t) == StarredChars(lower, t, scan(lowered))
  }

  lemma ScannerMasksHarmlessly(mask: string -> seq<bool>, lower: char -> string, scan: seq<Byte> -> seq<Match>)
    requires MaskOf(mask, lower, scan)
    ensures MasksHarmlessly(mask)
  {
    forall t
      ensures |mask(t)| == |t| && Harmless(t, mask(t))
    {
      assert mask(t) == StarredChars(lower, t, scan(Lowered(lower, t)));
      MaskIsHarmless(lower, t, scan(Lowered(lower, t)));
    }
  }

  ghost function MaskEach(mask: string -> seq<bool>, texts: seq<string>): (masked: seq<string>)
    requires MasksHarmlessly(mask)
    ensures |masked| == |texts|
  {
    if texts == [] then [] else [Masked(texts[0], mask(texts[0]))] + MaskEach(mask, texts[1..])
  }

  /** Which characters of the whole reply are starred. */
  ghost function AllStars(mask: string -> seq<bool>, texts: seq<string>): (starred: seq<bool>)
    requires MasksHarmlessly(mask)
    ensures |starred| == |D.Concat(texts)|
  {
    if texts == [] then [] else mask(texts[0]) + AllStars(mask, texts[1..])
  }

  lemma {:induction false} MaskEachConcat(mask: string -> seq<bool>, texts: seq<string>)
    requires MasksHarmlessly(mask)
    ensures D.Concat(MaskEach(mask, texts)) == Masked(D.Concat(texts), AllStars(mask, texts))
  {
    if texts != [] {
      MaskEachConcat(mask, texts[1..]);
      MaskedAppend(texts[0], mask(texts[0]), D.Concat(texts[1..]), AllStars(mask, texts[1..]));
      assert MaskEach(mask, texts)[1..] == MaskEach(mask, texts[1..]);
    }
  }

  lemma {:induction false} AllStarsSpare(mask: string -> seq<bool>, texts: seq<string>)
    requires MasksHarmlessly(mask)
    ensures Spares(D.Concat(texts), AllStars(mask, texts))
  {
    if texts != [] {
      AllStarsSpare(mask, texts[1..]);
      assert Harmless(texts[0], mask(texts[0]));
    }
  }

  // ----- Exactly when the placeholders come back

  lemma {:induction false} MaskedStar(u: string, starred: seq<bool>)
    requires |starred| == |u|
    ensures if true in starred then '*' in Masked(u, starred) else Masked(u, starred) == u
  {
    if u != "" {
      MaskedStar(u[1..], starred[1..]);
      if starred[0] {
        assert MaskedChar(u[0], true)[0] == '*';
        assert Masked(u, starred)[0] == '*';
      } else {
        assert u == [u[0]] + u[1..];
        assert true in starred ==> true in starred[1..];
      }
    }
  }

  predicate StarFree(entries: seq<Entry>) {
    forall i | 0 <= i < |entries| :: '*' !in entries[i].placeholder
  }

  /** From every `[` to its `]` the mask changes nothing, and no placeholder outgrows the buffer. */
  predicate Intact(st: Strategy, entries: seq<Entry>, s: string, starred: seq<bool>)
    requires |starred| == |s|
    decreases |s|
  {
    if s == "" then true
    else if s[0] != '[' then Intact(st, entries, s[1..], starred[1..])
    else
      var e := Close(s);
      if e == |s| then Masked(s, starred) == s
      else WindowIntact(st, entries, s[..e + 1], starred[..e + 1]) && Intact(st, entries, s[e + 1..], starred[e + 1..])
  }

  predicate WindowIntact(st: Strategy, entries: seq<Entry>, w: string, starred: seq<bool>)
    requires |starred| == |w|
  {
    Masked(w, starred) == w && !D.LongNamed(st, entries, w)
  }

  /** How a text and what it should be compare: equal if all is well, and otherwise told apart by the
      number of `[`, or else of the same length in bytes. */
  predicate Compares(got: string, want: string, well: bool) {
    && D.Opens(got) >= D.Opens(want)
    && (if well then got == want
        else D.Opens(got) > D.Opens(want) || (ByteLen(got) == ByteLen(want) && got != want))
  }

  lemma ComparesConcat(a: string, b: string, ab: bool, c: string, d: string, cd: bool)
    requires Compares(a, b, ab) && Compares(c, d, cd)
    ensures Compares(a + c, b + d, ab && cd)
  {
    D.OpensConcat(a, c);
    D.OpensConcat(b, d);
    ByteLenConcat(a, c);
    ByteLenConcat(b, d);
    if ByteLen(a) == ByteLen(b) && a + c == b + d {
      SameBytesFront(a, c, b, d);
    }
  }

  lemma SameBytesFront(a: string, c: string, b: string, d: string)
    requires ByteLen(a) == ByteLen(b) && a + c == b + d
    ensures a == b && c == d
  {
    var t := a + c;
    assert a == t[..|a|] && b == t[..|b|] && c == t[|a|..] && d == t[|b|..];
    if |a| <= |b| {
      assert b == a + b[|a|..];
      ByteLenConcat(a, b[|a|..]);
    } else {
      assert a == b + a[|b|..];
      ByteLenConcat(b, a[|b|..]);
    }
  }

  lemma MaskedByteLen(s: string, starred: seq<bool>)
    requires |starred| == |s|
    ensures ByteLen(Masked(s, starred)) == ByteLen(s)
  {
    MaskedLen(s, starred);
  }

  /** A starred text is no placeholder. */
  lemma StarredUnnamed(st: Strategy, entries: seq<Entry>, w: string)
    requires StarFree(entries) && '*' in w
    ensures !Named(st, entries, w)
  {
    var k :| 0 <= k < |w| && w[k] == '*';
    forall i | 0 <= i < |entries|
      ensures !Same(st, w, entries[i].placeholder)
    {
      if |w| == |entries[i].placeholder| {
        assert entries[i].placeholder[k] != '*';
        assert AsciiLower(entries[i].placeholder[k]) != '*';
      }
    }
  }

  lemma OneOpen(w: string)
    requires w != "" && w[0] == '[' && '[' !in w[1..]
    ensures D.Opens(w) == 1
  {
    D.OpensNone(w[1..]);
  }

  lemma WindowOpens(w: string)
    requires IsWindow(w)
    ensures D.Opens(w) == 1
  {
    WindowBrackets(w);
    OneOpen(w);
  }

  /** What the entry list makes of a window: a text without `[`, or the window. */
  lemma FirstOpens(st: Strategy, entries: seq<Entry>, w: string)
    requires IsWindow(w) && WellFormed(entries)
    ensures if Named(st, entries, w) then D.Opens(First(st, entries, w)) == 0 else First(st, entries, w) == w
  {
    FirstNamed(st, entries, w);
    if Named(st, entries, w) {
      D.OpensNone(First(st, entries, w));
    }
  }

  lemma WindowCompares(st: Strategy, entries: seq<Entry>, w: string, starred: seq<bool>)
    requires |starred| == |w| && IsWindow(w) && IsWindow(Masked(w, starred)) && WellFormed(entries) && StarFree(entries)
    ensures Compares(First(st, D.Short(entries), Masked(w, starred)), First(st, entries, w),
                     WindowIntact(st, entries, w, starred))
  {
    MaskedStar(w, starred);
    FirstOpens(st, entries, w);
    WindowOpens(w);
    D.FirstShort(st, entries, Masked(w, starred));
    if '*' in Masked(w, starred) {
      StarredCompares(st, entries, w, Masked(w, starred));
      MaskedByteLen(w, starred);
    }
  }

  lemma StarredCompares(st: Strategy, entries: seq<Entry>, w: string, masked: string)
    requires IsWindow(masked) && WellFormed(entries) && StarFree(entries) && '*' in masked
    ensures !Named(st, entries, masked) && First(st, D.Short(entries), masked) == masked && D.Opens(masked) == 1
  {
    StarredUnnamed(st, entries, masked);
    FirstOpens(st, entries, masked);
    D.FirstShort(st, entries, masked);
    WindowOpens(masked);
  }

  lemma OpenEndCompares(s: string, starred: seq<bool>)
    requires |starred| == |s| && Flat(s) && s != "" && s[0] == '[' && Spares(s, starred) && Close(s) == |s|
    ensures Compares(Masked(s, starred), s, Masked(s, starred) == s)
  {
    MaskedOpenEnd(s, starred);
    MaskedByteLen(s, starred);
    OneOpen(s);
    assert Masked(s, starred)[1..] == Masked(s[1..], starred[1..]);
    OneOpen(Masked(s, starred));
  }

  lemma {:induction false} ReplyCompares(st: Strategy, entries: seq<Entry>, s: string, starred: seq<bool>)
    requires |starred| == |s| && Flat(s) && Spares(s, starred) && WellFormed(entries) && StarFree(entries)
    ensures Compares(Resolve(st, D.Short(entries), Masked(s, starred)), MaskedBetween(st, entries, s, starred),
                     Intact(st, entries, s, starred))
    decreases |s|
  {
    var short := D.Short(entries);
    if s == "" {
    } else if s[0] != '[' {
      FlatSuffix(s, 1);
      SparesTail(s, starred, 1);
      ReplyCompares(st, entries, s[1..], starred[1..]);
      var c := MaskedChar(s[0], starred[0]);
      ResolveSkips(st, short, c, Masked(s[1..], starred[1..]));
      ComparesConcat(c, c, true, Resolve(st, short, Masked(s[1..], starred[1..])),
                     MaskedBetween(st, entries, s[1..], starred[1..]), Intact(st, entries, s[1..], starred[1..]));
    } else if Close(s) == |s| {
      MaskedOpenEnd(s, starred);
      ResolveOpenEnd(st, short, Masked(s, starred));
      OpenEndCompares(s, starred);
    } else {
      var n := Close(s) + 1;
      var w, x, rest, y := s[..n], starred[..n], s[n..], starred[n..];
      MaskedAtWindow(s, starred);
      FlatSuffix(s, n);
      SparesTail(s, starred, n);
      ReplyCompares(st, entries, rest, y);
      ResolveAtWindow(st, short, Masked(w, x), Masked(rest, y));
      WindowCompares(st, entries, w, x);
      ComparesConcat(First(st, short, Masked(w, x)), First(st, entries, w), WindowIntact(st, entries, w, x),
                     Resolve(st, short, Masked(rest, y)), MaskedBetween(st, entries, rest, y), Intact(st, entries, rest, y));
    }
  }

  lemma ResolveOpenEnd(st: Strategy, entries: seq<Entry>, s: string)
    requires s != "" && s[0] == '[' && BracketFree(s[1..])
    ensures Resolve(st, entries, s) == s
  {
    assert forall k | 1 <= k < |s| :: s[k] == s[1..][k - 1];
    assert ']' !in s;
  }

  /** For every flat reply, every way it is cut into deltas, every harmless mask, every entry list and
      both strategies: masking each delta and pushing it into the deanonymizer gives the reply with
      its windows restored and the text between them masked, if and only if the mask changes nothing
      from a `[` to its `]` and no placeholder of more than 64 bytes occurs. */
  lemma MaskedStream(st: Strategy, entries: seq<Entry>, mask: string -> seq<bool>, texts: seq<string>)
    requires MasksHarmlessly(mask) && Flat(D.Concat(texts)) && WellFormed(entries) && StarFree(entries)
    ensures var reply, starred := D.Concat(texts), AllStars(mask, texts);
            D.Streamed(st, entries, MaskEach(mask, texts)) == MaskedBetween(st, entries, reply, starred)
            <==> Intact(st, entries, reply, starred)
  {
    var reply, starred := D.Concat(texts), AllStars(mask, texts);
    AllStarsSpare(mask, texts);
    SparedFlat(reply, starred);
    MaskEachConcat(mask, texts);
    D.StreamIsShortRestore(st, entries, MaskEach(mask, texts));
    D.ShortWellFormed(entries);
    RestoreIsResolve(st, Masked(reply, starred), D.Short(entries));
    ReplyCompares(st, entries, reply, starred);
  }

  // ----- Deltas that cut no window

  /** The text does not end inside brackets. */
  predicate Closed(t: string) {
    !Inside(t, |t|)
  }

  lemma HarmlessAppend(a: string, x: seq<bool>, b: string, y: seq<bool>)
    requires |x| == |a| && |y| == |b| && Closed(a) && Harmless(a, x) && Harmless(b, y)
    ensures Harmless(a + b, x + y)
  {
    forall k | 0 <= k < |a + b| && (x + y)[k]
      ensures (a + b)[k] != '[' && (a + b)[k] != ']' && !Inside(a + b, k)
    {
      if k < |a| {
        InsideFront(a, b, k);
      } else {
        InsideBack(a, b, k - |a|);
      }
    }
  }

  lemma InsideFront(a: string, b: string, k: nat)
    requires k <= |a|
    ensures Inside(a + b, k) ==> Inside(a, k)
  {
    if Inside(a + b, k) {
      var i :| 0 <= i < k && (a + b)[i] == '[' && forall j | i < j < k :: (a + b)[j] != '[' && (a + b)[j] != ']';
      assert a[i] == '[';
      assert forall j | i < j < k :: a[j] == (a + b)[j];
    }
  }

  lemma InsideBack(a: string, b: string, k: nat)
    requires k <= |b|
    ensures Inside(a + b, |a| + k) ==> Inside(a, |a|) || Inside(b, k)
  {
    var t, n := a + b, |a| + k;
    if Inside(t, n) {
      var i :| 0 <= i < n && t[i] == '[' && forall j | i < j < n :: t[j] != '[' && t[j] != ']';
      if i < |a| {
        assert a[i] == '[';
        assert forall j | i < j < |a| :: a[j] == t[j];
        assert Inside(a, |a|);
      } else {
        assert b[i - |a|] == '[';
        assert forall j | i - |a| < j < k :: b[j] == t[j + |a|];
      }
    }
  }

  lemma {:induction false} ClosedHarmless(mask: string -> seq<bool>, texts: seq<string>)
    requires MasksHarmlessly(mask) && forall k | 0 <= k < |texts| :: Closed(texts[k])
    ensures Harmless(D.Concat(texts), AllStars(mask, texts))
  {
    if texts != [] {
      ClosedHarmless(mask, texts[1..]);
      HarmlessAppend(texts[0], mask(texts[0]), D.Concat(texts[1..]), AllStars(mask, texts[1..]));
    }
  }

  /** Under a harmless mask only the length of the placeholders matters. */
  lemma {:induction false} HarmlessIntact(st: Strategy, entries: seq<Entry>, s: string, starred: seq<bool>)
    requires |starred| == |s| && Flat(s) && Harmless(s, starred) && WellFormed(entries)
    ensures Intact(st, entries, s, starred) <==> D.NoLongOccurs(st, entries, s)
    decreases |s|
  {
    if s == "" {
      NoLongUnclosed(st, entries, s);
    } else if s[0] != '[' {
      FlatSuffix(s, 1);
      HarmlessTail(s, starred, 1);
      HarmlessIntact(st, entries, s[1..], starred[1..]);
      Cut(s, 1);
      assert s[..1] == [s[0]];
      D.NoLongSkips(st, entries, [s[0]], s[1..]);
    } else if Close(s) == |s| {
      NoLongUnclosed(st, entries, s);
      WindowUntouched(s, starred);
      MaskedStar(s, starred);
    } else {
      var n := Close(s) + 1;
      FlatWindow(s);
      WindowUntouched(s, starred);
      MaskedStar(s[..n], starred[..n]);
      Cut(s, n);
      FlatSuffix(s, n);
      HarmlessTail(s, starred, n);
      HarmlessIntact(st, entries, s[n..], starred[n..]);
      D.NoLongAtWindow(st, entries, s[..n], s[n..]);
    }
  }

  lemma NoLongUnclosed(st: Strategy, entries: seq<Entry>, s: string)
    requires ']' !in s && WellFormed(entries)
    ensures D.NoLongOccurs(st, entries, s)
  {
    forall i | 0 <= i < |entries|
      ensures !D.Occurs(st, s, entries[i].placeholder)
    {
      D.UnclosedOccurs(st, s, entries[i].placeholder);
    }
  }

  /** If no delta ends inside brackets, the masked stream restores what the unmasked one does. */
  lemma ClosedDeltasRestore(st: Strategy, entries: seq<Entry>, mask: string -> seq<bool>, texts: seq<string>)
    requires MasksHarmlessly(mask) && Flat(D.Concat(texts)) && WellFormed(entries) && StarFree(entries)
    requires forall k | 0 <= k < |texts| :: Closed(texts[k])
    ensures D.Streamed(st, entries, MaskEach(mask, texts)) ==
            MaskedBetween(st, entries, D.Concat(texts), AllStars(mask, texts))
            <==> D.NoLongOccurs(st, entries, D.Concat(texts))
  {
    ClosedHarmless(mask, texts);
    HarmlessIntact(st, entries, D.Concat(texts), AllStars(mask, texts));
    MaskedStream(st, entries, mask, texts);
  }

  /** A placeholder that is cut in two and starred in its second part is not restored: it comes out
      with the stars in it. */
  lemma CutPlaceholderLost(st: Strategy, entries: seq<Entry>, mask: string -> seq<bool>, a: string, b: string)
    requires MasksHarmlessly(mask) && WellFormed(entries) && StarFree(entries)
    requires IsWindow(a + b) && Named(st, entries, a + b) && (true in mask(a) || true in mask(b))
    ensures D.Streamed(st, entries, MaskEach(mask, [a, b])) == Masked(a, mask(a)) + Masked(b, mask(b))
    ensures D.Streamed(st, entries, MaskEach(mask, [a, b])) != Restore(st, a + b, entries)
  {
    var texts, w, stars := [a, b], a + b, mask(a) + mask(b);
    TwoTexts(mask, a, b);
    MaskedAppend(a, mask(a), b, mask(b));
    AllStarsSpare(mask, texts);
    MaskedWindowIsWindow(w, stars);
    MaskedStar(w, stars);
    StarredCompares(st, entries, w, Masked(w, stars));
    OneWindow(Masked(w, stars));
    MaskEachConcat(mask, texts);
    D.StreamIsShortRestore(st, entries, MaskEach(mask, texts));
    D.ShortWellFormed(entries);
    D.RestoreWindow(st, D.Short(entries), Masked(w, stars));
    D.RestoreWindow(st, entries, w);
    FirstOpens(st, entries, w);
  }

  lemma OneWindow(w: string)
    requires IsWindow(w)
    ensures Flat(w)
  {
    FlatPrependWindow(w, "");
    Whole(w);
  }

  lemma TwoTexts(mask: string -> seq<bool>, a: string, b: string)
    requires MasksHarmlessly(mask)
    ensures D.Concat([a, b]) == a + b && AllStars(mask, [a, b]) == mask(a) + mask(b)
  {
    var both, one := [a, b], [b];
    assert both[0] == a && both[1..] == one && one[0] == b && one[1..] == [];
    OneText(mask, one);
  }

  lemma OneText(mask: string -> seq<bool>, texts: seq<string>)
    requires MasksHarmlessly(mask) && texts != [] && texts[1..] == []
    ensures D.Concat(texts) == texts[0] && AllStars(mask, texts) == mask(texts[0])
  {
    var none := texts[1..];
    assert D.Concat(none) == "" && AllStars(mask, none) == [];
    Whole(texts[0]);
    Whole(mask(texts[0]));
  }

  /** Such a mask of such a cut: the phrase `_1` in the second half of `[E_1]`. */
  function SampleMask(t: string): seq<bool> {
    if t == "_1]" then [true, true, false] else seq(|t|, _ => false)
  }

  const SAMPLE := [Entry("[E_1]", "x")]

  lemma SampleHarmless()
    ensures MasksHarmlessly(SampleMask)
  {
    assert !Inside("_1]", 0) && !Inside("_1]", 1);
  }

  lemma SampleMasked()
    ensures Masked("[E", SampleMask("[E")) == "[E" && Masked("_1]", SampleMask("_1]")) == "**]"
    ensures true in SampleMask("_1]") && "[E" + "**]" == "[E**]"
  {
    assert SampleMask("_1]")[0];
    MaskedStar("[E", SampleMask("[E"));
    assert StarText(1) == "*" by {
      assert StarText(0) == "";
    }
    var x := [true, true, false];
    assert "_1]"[1..] == "1]" && "1]"[1..] == "]" && "]"[1..] == "";
    assert x[1..] == [true, false] && [true, false][1..] == [false];
    assert Masked("]", [false]) == "]";
    assert Masked("1]", [true, false]) == "*]";
  }

  lemma SampleEntry(st: Strategy)
    ensures "[E" + "_1]" == "[E_1]" && IsWindow("[E_1]") && WellFormed(SAMPLE) && StarFree(SAMPLE)
    ensures Named(st, SAMPLE, "[E_1]") && First(st, SAMPLE, "[E_1]") == "x"
  {
    assert Same(st, "[E_1]", SAMPLE[0].placeholder);
  }

  lemma SampleLength()
    ensures ByteLen("[E_1]") == 5
  {
    assert "[E_1]"[1..] == "E_1]" && "E_1]"[1..] == "_1]" && "_1]"[1..] == "1]" && "1]"[1..] == "]" && "]"[1..] == "";
    assert ByteLen("1]") == 2;
    assert ByteLen("E_1]") == 4;
  }

  lemma SampleWhole(st: Strategy)
    requires MasksHarmlessly(SampleMask)
    ensures D.Streamed(st, SAMPLE, MaskEach(SampleMask, ["[E_1]"])) == "x"
  {
    var w := "[E_1]";
    SampleEntry(st);
    SampleLength();
    MaskedStar(w, SampleMask(w));
    StreamOne(st, SAMPLE, SampleMask, w);
  }

  /** A reply that is one short placeholder, in one delta. */
  lemma StreamOne(st: Strategy, entries: seq<Entry>, mask: string -> seq<bool>, w: string)
    requires IsWindow(w) && WellFormed(entries) && ByteLen(w) <= D.MAX_PLACEHOLDER_LEN
    requires MasksHarmlessly(mask) && Masked(w, mask(w)) == w
    ensures D.Streamed(st, entries, MaskEach(mask, [w])) == First(st, entries, w)
  {
    assert [w][1..] == [];
    assert MaskEach(mask, [w]) == [w];
    assert D.Concat([w]) == w + "";
    Whole(w);
    OneWindow(w);
    D.StreamIsShortRestore(st, entries, [w]);
    D.ShortWellFormed(entries);
    D.RestoreWindow(st, D.Short(entries), w);
    D.FirstShort(st, entries, w);
  }

  lemma SampleCut(st: Strategy)
    ensures MasksHarmlessly(SampleMask)
    ensures D.Streamed(st, SAMPLE, MaskEach(SampleMask, ["[E", "_1]"])) == "[E**]"
    ensures D.Streamed(st, SAMPLE, MaskEach(SampleMask, ["[E_1]"])) == "x"
  {
    SampleHarmless();
    SampleEntry(st);
    SampleWhole(st);
    SampleMasked();
    CutPlaceholderLost(st, SAMPLE, SampleMask, "[E", "_1]");
  }

  // ----- Event streams

  /** The closure of the proxy: mask the delta, then push it into the deanonymizer. */
  ghost predicate MasksThenPushes(env: E.Env<D.StreamState>, mask: string -> seq<bool>, st: Strategy, entries: seq<Entry>)
    requires MasksHarmlessly(mask)
  {
    forall s, t ::
      var pushed := D.Pushed(st, entries, s, Masked(t, mask(t)));
      env.transform(s, t) == (pushed.state, pushed.out)
  }

  lemma {:induction false} ThreadedPushesMasked(env: E.Env<D.StreamState>, mask: string -> seq<bool>, st: Strategy,
                                                entries: seq<Entry>, s: D.StreamState, texts: seq<string>)
    requires MasksHarmlessly(mask) && MasksThenPushes(env, mask, st, entries)
    ensures var t := C.Threaded(env, s, texts);
            D.Fed(t.state, D.Concat(t.outs)) == D.PushAll(st, entries, s, MaskEach(mask, texts))
    decreases |texts|
  {
    if texts != [] {
      var f := D.Pushed(st, entries, s, Masked(texts[0], mask(texts[0])));
      Cut(texts, 1);
      C.ThreadedConcat(env, s, texts[..1], texts[1..]);
      assert texts[..1] == [texts[0]];
      C.ThreadedOne(env, s, texts[0]);
      ThreadedPushesMasked(env, mask, st, entries, f.state, texts[1..]);
      var outs := C.Threaded(env, f.state, texts[1..]).outs;
      assert ([f.out] + outs)[1..] == outs;
      assert MaskEach(mask, texts)[1..] == MaskEach(mask, texts[1..]);
    }
  }

  /** For every regular event stream that carries a flat reply: the contents that a client reads, and
      what the deanonymizer still holds, are the reply with its windows restored and the text between
      them masked, if and only if the reply is intact under the stars of its deltas. */
  lemma MaskedStreamRestores(env: E.Env<D.StreamState>, mask: string -> seq<bool>, st: Strategy, entries: seq<Entry>,
                             buf: E.Bytes)
    requires F.RendersNoControl(env) && C.ReadsBack(env) && C.Regular(env, buf)
    requires MasksHarmlessly(mask) && MasksThenPushes(env, mask, st, entries)
    requires Flat(D.Concat(C.EventsTexts(env, F.Parse(buf).events))) && WellFormed(entries) && StarFree(entries)
    ensures var d, texts := E.Drain(env, D.START, buf), C.EventsTexts(env, F.Parse(buf).events);
            var reply, starred := D.Concat(texts), AllStars(mask, texts);
            D.Concat(C.EventsTexts(env, F.Parse(d.out + d.rest).events)) + d.state.pending
            == MaskedBetween(st, entries, reply, starred)
            <==> Intact(st, entries, reply, starred)
  {
    var texts := C.EventsTexts(env, F.Parse(buf).events);
    C.StreamThreads(env, D.START, buf);
    ThreadedPushesMasked(env, mask, st, entries, D.START, texts);
    MaskedStream(st, entries, mask, texts);
  }
}
