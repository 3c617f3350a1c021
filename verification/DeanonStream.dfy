/** The streaming deanonymizer: a two-state machine over the characters of a reply that arrives
    in pieces.  It buffers from `[` to `]` and gives up on windows that grow to 64 bytes. */
module DeanonStream {
  import opened Seqs
  import opened Brackets
  import opened Deanonymize

  const MAX_PLACEHOLDER_LEN := 64

  datatype Mode = Normal | InPlaceholder

  datatype StreamState = StreamState(mode: Mode, pending: string)

  const START := StreamState(Normal, "")

  /** The state after a run of characters, and the text emitted meanwhile. */
  datatype Fed = Fed(state: StreamState, out: string)

  function Step(st: Strategy, entries: seq<Entry>, s: StreamState, ch: char): Fed {
    match s.mode
    case Normal =>
      if ch == '[' then Fed(StreamState(InPlaceholder, [ch]), "") else Fed(s, [ch])
    case InPlaceholder =>
      var pending := s.pending + [ch];
      if ch == ']' then Fed(START, Restore(st, pending, entries))
      else if ByteLen(pending) >= MAX_PLACEHOLDER_LEN then Fed(START, pending)
      else Fed(StreamState(InPlaceholder, pending), "")
  }

  function Feed(st: Strategy, entries: seq<Entry>, s: StreamState, text: string): Fed
    decreases |text|
  {
    if text == "" then Fed(s, "")
    else
      var first := Step(st, entries, s, text[0]);
      var rest := Feed(st, entries, first.state, text[1..]);
      Fed(rest.state, first.out + rest.out)
  }

  /** One `push`: an empty vault short-circuits. */
  function Pushed(st: Strategy, entries: seq<Entry>, s: StreamState, text: string): Fed {
    if entries == [] then Fed(s, text) else Feed(st, entries, s, text)
  }

  predicate ValidState(s: StreamState) {
    s.mode.Normal? ==> s.pending == ""
  }

  class DeanonymizeStream {
    var mode: Mode
    var pending: string
    const entries: seq<Entry>
    const strategy: Strategy

    constructor (entries: seq<Entry>, strategy: Strategy)
      ensures this.entries == entries && this.strategy == strategy
      ensures State() == START
    {
      this.entries, this.strategy := entries, strategy;
      mode, pending := Normal, "";
    }

    function State(): StreamState
      reads this
    {
      StreamState(mode, pending)
    }

    method Push(text: string) returns (emit: string)
      requires ValidState(State())
      modifies this
      ensures Fed(State(), emit) == Pushed(strategy, entries, old(State()), text)
      ensures ValidState(State())
    {
      if entries == [] {
        return text;
      }
      emit := "";
      for k := 0 to |text|
        invariant ValidState(State())
        invariant Fed(State(), emit) == Feed(strategy, entries, old(State()), text[..k])
      {
        var ch := text[k];
        ghost var before := State();
        FeedSnoc(strategy, entries, old(State()), text[..k], ch);
        Advance(text, k);
        match mode {
          case Normal =>
            if ch == '[' {
              pending := [ch];
              mode := InPlaceholder;
            } else {
              emit := emit + [ch];
            }
          case InPlaceholder =>
            pending := pending + [ch];
            if ch == ']' {
              var restored;
              if strategy.Exact? {
                restored := ExactRestore(pending, entries);
              } else {
                restored := CaseInsensitiveRestore(pending, entries);
              }
              emit := emit + restored;
              pending := "";
              mode := Normal;
            } else if ByteLen(pending) >= MAX_PLACEHOLDER_LEN {
              emit := emit + pending;
              pending := "";
              mode := Normal;
            }
        }
      }
      assert text[..|text|] == text;
    }

    method Flush() returns (out: string)
      modifies this
      ensures out == old(State()).pending && State() == START
    {
      out := pending;
      pending := "";
      mode := Normal;
    }
  }

  // ----- The pieces the reply arrives in do not matter

  lemma {:induction false} FeedConcat(st: Strategy, entries: seq<Entry>, s: StreamState, a: string, b: string)
    ensures var f := Feed(st, entries, s, a);
            var g := Feed(st, entries, f.state, b);
            Feed(st, entries, s, a + b) == Fed(g.state, f.out + g.out)
    decreases |a|
  {
    if a == "" {
      assert a + b == b;
    } else {
      var first := Step(st, entries, s, a[0]);
      var f := Feed(st, entries, first.state, a[1..]);
      var g := Feed(st, entries, f.state, b);
      FeedConcat(st, entries, first.state, a[1..], b);
      FeedCons(st, entries, s, a);
      FeedCons(st, entries, s, a + b);
      assert (a + b)[0] == a[0] && (a + b)[1..] == a[1..] + b;
      Assoc(first.out, f.out, g.out);
    }
  }

  lemma FeedCons(st: Strategy, entries: seq<Entry>, s: StreamState, text: string)
    requires text != ""
    ensures var first := Step(st, entries, s, text[0]);
            var rest := Feed(st, entries, first.state, text[1..]);
            Feed(st, entries, s, text) == Fed(rest.state, first.out + rest.out)
  {
  }

  lemma FeedSnoc(st: Strategy, entries: seq<Entry>, s: StreamState, a: string, c: char)
    ensures var f := Feed(st, entries, s, a);
            var g := Step(st, entries, f.state, c);
            Feed(st, entries, s, a + [c]) == Fed(g.state, f.out + g.out)
  {
    FeedConcat(st, entries, s, a, [c]);
    var f := Feed(st, entries, s, a);
    assert [c][1..] == "";
    assert Feed(st, entries, f.state, [c]).out == Step(st, entries, f.state, c).out + "";
  }

  function Concat(chunks: seq<string>): string {
    if chunks == [] then "" else chunks[0] + Concat(chunks[1..])
  }

  /** A whole run: one `push` per chunk, outputs concatenated. */
  function PushAll(st: Strategy, entries: seq<Entry>, s: StreamState, chunks: seq<string>): Fed
    decreases |chunks|
  {
    if chunks == [] then Fed(s, "")
    else
      var first := Pushed(st, entries, s, chunks[0]);
      var rest := PushAll(st, entries, first.state, chunks[1..]);
      Fed(rest.state, first.out + rest.out)
  }

  lemma {:induction false} PushAllIsOnePush(st: Strategy, entries: seq<Entry>, s: StreamState, chunks: seq<string>)
    ensures PushAll(st, entries, s, chunks) == Pushed(st, entries, s, Concat(chunks))
    decreases |chunks|
  {
    if chunks != [] {
      var first := Pushed(st, entries, s, chunks[0]);
      PushAllIsOnePush(st, entries, first.state, chunks[1..]);
      if entries != [] {
        FeedConcat(st, entries, s, chunks[0], Concat(chunks[1..]));
      }
    }
  }

  /** The text a client sees: every `push` output, then `flush`. */
  function Streamed(st: Strategy, entries: seq<Entry>, chunks: seq<string>): string {
    var f := PushAll(st, entries, START, chunks);
    f.out + f.state.pending
  }

  // ----- What the machine does with one window

  lemma {:induction false} FeedPlain(st: Strategy, entries: seq<Entry>, u: string)
    requires '[' !in u
    ensures Feed(st, entries, START, u) == Fed(START, u)
    decreases |u|
  {
    if u != "" {
      FeedPlain(st, entries, u[1..]);
      assert u == [u[0]] + u[1..];
    }
  }

  /** Inside a window, bracket-free text is buffered until 64 bytes are reached. */
  lemma {:induction false} FeedBody(st: Strategy, entries: seq<Entry>, p: string, u: string)
    requires BracketFree(u) && ByteLen(p) < MAX_PLACEHOLDER_LEN
    ensures Feed(st, entries, StreamState(InPlaceholder, p), u) ==
            if ByteLen(p + u) < MAX_PLACEHOLDER_LEN then Fed(StreamState(InPlaceholder, p + u), "") else Fed(START, p + u)
    decreases |u|
  {
    if u == "" {
      assert p + u == p;
    } else {
      var p' := p + [u[0]];
      assert p' + u[1..] == p + u;
      ByteLenConcat(p', u[1..]);
      if ByteLen(p') < MAX_PLACEHOLDER_LEN {
        FeedBody(st, entries, p', u[1..]);
        assert Feed(st, entries, StreamState(InPlaceholder, p), u).out
            == "" + Feed(st, entries, StreamState(InPlaceholder, p'), u[1..]).out;
      } else {
        FeedPlain(st, entries, u[1..]);
      }
    }
  }

  lemma FeedOpen(st: Strategy, entries: seq<Entry>, u: string)
    requires BracketFree(u)
    ensures Feed(st, entries, START, "[" + u) ==
            if ByteLen("[" + u) < MAX_PLACEHOLDER_LEN then Fed(StreamState(InPlaceholder, "[" + u), "") else Fed(START, "[" + u)
  {
    assert ("[" + u)[0] == '[' && ("[" + u)[1..] == u;
    assert ByteLen("[") == 1 by {
      assert "["[1..] == "";
    }
    FeedBody(st, entries, "[", u);
    assert Feed(st, entries, START, "[" + u).out == "" + Feed(st, entries, StreamState(InPlaceholder, "["), u).out;
  }

  /** A window of at most 64 bytes is restored, a longer one passes verbatim. */
  lemma FeedWindow(st: Strategy, entries: seq<Entry>, w: string)
    requires IsWindow(w)
    ensures Feed(st, entries, START, w) ==
            Fed(START, if ByteLen(w) <= MAX_PLACEHOLDER_LEN then Restore(st, w, entries) else w)
  {
    var open, body := w[..|w| - 1], w[1..|w| - 1];
    WindowParts(w);
    ByteLenConcat(open, "]");
    FeedOpen(st, entries, body);
    FeedSnoc(st, entries, START, open, ']');
  }

  lemma WindowParts(w: string)
    requires IsWindow(w)
    ensures w[..|w| - 1] == "[" + w[1..|w| - 1] && w == w[..|w| - 1] + "]" && ByteLen("]") == 1
  {
    assert "]"[1..] == "";
  }

  lemma RestoreWindow(st: Strategy, entries: seq<Entry>, w: string)
    requires IsWindow(w) && WellFormed(entries)
    ensures Restore(st, w, entries) == First(st, entries, w)
  {
    FlatPrependWindow(w, "");
    assert w + "" == w;
    RestoreIsResolve(st, w, entries);
    ResolveAtWindow(st, entries, w, "");
  }

  // ----- Streaming is batch restoring with the placeholders the buffer can hold

  function Short(entries: seq<Entry>): seq<Entry> {
    if entries == [] then []
    else if ByteLen(entries[0].placeholder) <= MAX_PLACEHOLDER_LEN then [entries[0]] + Short(entries[1..])
    else Short(entries[1..])
  }

  lemma {:induction false} ShortWellFormed(entries: seq<Entry>)
    requires WellFormed(entries)
    ensures WellFormed(Short(entries))
  {
    if entries != [] {
      ShortWellFormed(entries[1..]);
    }
  }

  lemma {:induction false} SameByteLen(st: Strategy, a: string, b: string)
    requires Same(st, a, b)
    ensures ByteLen(a) == ByteLen(b)
  {
    if a != "" {
      assert Same(st, a[1..], b[1..]);
      assert AsciiLower(a[0]) == AsciiLower(b[0]);
      SameByteLen(st, a[1..], b[1..]);
    }
  }

  lemma {:induction false} FirstShort(st: Strategy, entries: seq<Entry>, w: string)
    ensures First(st, Short(entries), w) == if ByteLen(w) <= MAX_PLACEHOLDER_LEN then First(st, entries, w) else w
  {
    if entries != [] {
      FirstShort(st, entries[1..], w);
      if Same(st, w, entries[0].placeholder) {
        SameByteLen(st, w, entries[0].placeholder);
      }
      if ByteLen(entries[0].placeholder) <= MAX_PLACEHOLDER_LEN {
        assert Short(entries)[1..] == Short(entries[1..]);
      }
    }
  }

  lemma {:induction false} FeedFlat(st: Strategy, entries: seq<Entry>, s: string)
    requires Flat(s) && WellFormed(entries)
    ensures var f := Feed(st, entries, START, s);
            f.out + f.state.pending == Resolve(st, Short(entries), s)
    decreases |s|
  {
    if s == "" {
    } else if s[0] != '[' {
      FlatSuffix(s, 1);
      FeedFlat(st, entries, s[1..]);
    } else {
      var c := Close(s);
      FlatWindow(s);
      if c == |s| {
        assert s == "[" + s[1..];
        assert s[1..] == s[1..c];
        FeedOpen(st, entries, s[1..]);
      } else {
        var w, s' := s[..c + 1], s[c + 1..];
        assert s == w + s';
        FlatSuffix(s, c + 1);
        FeedFlat(st, entries, s');
        FeedWindow(st, entries, w);
        RestoreWindow(st, entries, w);
        FeedConcat(st, entries, START, w, s');
        FirstShort(st, entries, w);
        var g := Feed(st, entries, START, s');
        Assoc(First(st, Short(entries), w), g.out, g.state.pending);
      }
    }
  }

  /** For every flat reply and every way it is cut into chunks, streaming restores exactly what
      `restore` does with the placeholders of at most 64 bytes. */
  lemma StreamIsShortRestore(st: Strategy, entries: seq<Entry>, chunks: seq<string>)
    requires Flat(Concat(chunks)) && WellFormed(entries)
    ensures Streamed(st, entries, chunks) == Restore(st, Concat(chunks), Short(entries))
  {
    var text := Concat(chunks);
    PushAllIsOnePush(st, entries, START, chunks);
    ShortWellFormed(entries);
    RestoreIsResolve(st, text, Short(entries));
    if entries == [] {
      ResolveNothing(st, text);
    } else {
      FeedFlat(st, entries, text);
    }
  }

  // ----- Exactly when streaming and batch agree

  predicate Occurs(st: Strategy, s: string, pat: string) {
    exists i | 0 <= i <= |s| :: MatchesAt(st, s, pat, i)
  }

  predicate MatchesAt(st: Strategy, s: string, pat: string, i: int) {
    0 <= i <= |s| - |pat| && Same(st, s[i..i + |pat|], pat)
  }

  /** No placeholder that is too long for the buffer occurs in the reply. */
  predicate NoLongOccurs(st: Strategy, entries: seq<Entry>, s: string) {
    forall i | 0 <= i < |entries| ::
      ByteLen(entries[i].placeholder) > MAX_PLACEHOLDER_LEN ==> !Occurs(st, s, entries[i].placeholder)
  }

  function Opens(s: string): nat {
    if s == "" then 0 else (if s[0] == '[' then 1 else 0) + Opens(s[1..])
  }

  lemma {:induction false} OpensConcat(a: string, b: string)
    ensures Opens(a + b) == Opens(a) + Opens(b)
  {
    if a == "" {
      assert a + b == b;
    } else {
      OpensConcat(a[1..], b);
      assert (a + b)[1..] == a[1..] + b;
    }
  }

  lemma {:induction false} OpensNone(s: string)
    requires '[' !in s
    ensures Opens(s) == 0
  {
    if s != "" {
      OpensNone(s[1..]);
    }
  }

  lemma OccursShift(st: Strategy, a: string, s: string, pat: string)
    requires Occurs(st, s, pat)
    ensures Occurs(st, a + s, pat)
  {
    var i :| 0 <= i <= |s| && MatchesAt(st, s, pat, i);
    assert (a + s)[i + |a|..i + |a| + |pat|] == s[i..i + |pat|];
    assert MatchesAt(st, a + s, pat, i + |a|);
  }

  /** An occurrence of a placeholder begins at a `[`. */
  lemma OccursUnshift(st: Strategy, a: string, s: string, pat: string)
    requires IsWindow(pat) && '[' !in a && Occurs(st, a + s, pat)
    ensures Occurs(st, s, pat)
  {
    var t := a + s;
    var i :| 0 <= i <= |t| && MatchesAt(st, t, pat, i);
    assert t[i..i + |pat|][0] == t[i];
    assert t[i] == '[';
    assert i >= |a|;
    assert s[i - |a|..i - |a| + |pat|] == t[i..i + |pat|];
    assert MatchesAt(st, s, pat, i - |a|);
  }

  lemma OccursAtWindow(st: Strategy, w: string, s: string, pat: string)
    requires IsWindow(w) && IsWindow(pat)
    ensures Occurs(st, w + s, pat) <==> Same(st, w, pat) || Occurs(st, s, pat)
  {
    var t := w + s;
    WindowBrackets(w);
    if Same(st, w, pat) {
      assert t[0..0 + |pat|] == w;
      assert MatchesAt(st, t, pat, 0);
    } else if Occurs(st, s, pat) {
      OccursShift(st, w, s, pat);
    }
    if Occurs(st, t, pat) && !Same(st, w, pat) {
      OccursLater(st, w, s, pat);
    }
  }

  lemma OccursLater(st: Strategy, w: string, s: string, pat: string)
    requires IsWindow(w) && IsWindow(pat) && !Same(st, w, pat)
    requires Occurs(st, w + s, pat)
    ensures Occurs(st, s, pat)
  {
    var t, t' := w + s, w[1..] + s;
    WindowsAlign(st, w, s, pat);
    assert |pat| <= |t| ==> t[0..0 + |pat|] == t[..|pat|];
    assert !MatchesAt(st, t, pat, 0);
    var i :| 0 <= i <= |t| && MatchesAt(st, t, pat, i);
    assert t'[i - 1..i - 1 + |pat|] == t[i..i + |pat|];
    assert MatchesAt(st, t', pat, i - 1);
    WindowBrackets(w);
    OccursUnshift(st, w[1..], s, pat);
  }

  /** Dropping the long placeholders leaves at least as many `[`, and more if one occurs. */
  lemma {:induction false} OpensLost(st: Strategy, entries: seq<Entry>, s: string)
    requires Flat(s) && WellFormed(entries)
    ensures var short, all := Resolve(st, Short(entries), s), Resolve(st, entries, s);
            Opens(short) >= Opens(all) &&
            (if NoLongOccurs(st, entries, s) then short == all else Opens(short) > Opens(all))
    decreases |s|
  {
    if s == "" {
      forall i | 0 <= i < |entries|
        ensures !Occurs(st, s, entries[i].placeholder)
      {
        assert forall k :: !MatchesAt(st, s, entries[i].placeholder, k);
      }
    } else if s[0] != '[' {
      FlatSuffix(s, 1);
      OpensLost(st, entries, s[1..]);
      Cut(s, 1);
      assert s[..1] == [s[0]];
      NoLongSkips(st, entries, [s[0]], s[1..]);
      OpensConcat([s[0]], Resolve(st, Short(entries), s[1..]));
      OpensConcat([s[0]], Resolve(st, entries, s[1..]));
    } else {
      var c := Close(s);
      FlatWindow(s);
      if c == |s| {
        forall i | 0 <= i < |entries|
          ensures !Occurs(st, s, entries[i].placeholder)
        {
          UnclosedOccurs(st, s, entries[i].placeholder);
        }
      } else {
        Cut(s, c + 1);
        FlatSuffix(s, c + 1);
        OpensLost(st, entries, s[c + 1..]);
        OpensLostWindow(st, entries, s[..c + 1], s[c + 1..]);
      }
    }
  }

  lemma UnclosedOccurs(st: Strategy, s: string, pat: string)
    requires IsWindow(pat) && ']' !in s
    ensures !Occurs(st, s, pat)
  {
    forall i
      ensures !MatchesAt(st, s, pat, i)
    {
      if 0 <= i <= |s| - |pat| {
        var u := s[i..i + |pat|];
        assert u[|pat| - 1] == s[i + |pat| - 1];
        assert u[|pat| - 1] != ']' && AsciiLower(u[|pat| - 1]) != ']';
      }
    }
  }

  lemma NoLongSkips(st: Strategy, entries: seq<Entry>, a: string, s: string)
    requires WellFormed(entries) && '[' !in a
    ensures NoLongOccurs(st, entries, a + s) == NoLongOccurs(st, entries, s)
  {
    forall i | 0 <= i < |entries|
      ensures Occurs(st, a + s, entries[i].placeholder) == Occurs(st, s, entries[i].placeholder)
    {
      if Occurs(st, s, entries[i].placeholder) {
        OccursShift(st, a, s, entries[i].placeholder);
      }
      if Occurs(st, a + s, entries[i].placeholder) {
        OccursUnshift(st, a, s, entries[i].placeholder);
      }
    }
  }

  predicate LongNamed(st: Strategy, entries: seq<Entry>, w: string) {
    ByteLen(w) > MAX_PLACEHOLDER_LEN && Named(st, entries, w)
  }

  lemma NoLongAtWindow(st: Strategy, entries: seq<Entry>, w: string, s: string)
    requires WellFormed(entries) && IsWindow(w)
    ensures NoLongOccurs(st, entries, w + s) <==> !LongNamed(st, entries, w) && NoLongOccurs(st, entries, s)
  {
    forall i | 0 <= i < |entries|
      ensures Occurs(st, w + s, entries[i].placeholder) <==>
              Same(st, w, entries[i].placeholder) || Occurs(st, s, entries[i].placeholder)
      ensures Same(st, w, entries[i].placeholder) ==> ByteLen(w) == ByteLen(entries[i].placeholder)
    {
      OccursAtWindow(st, w, s, entries[i].placeholder);
      if Same(st, w, entries[i].placeholder) {
        SameByteLen(st, w, entries[i].placeholder);
      }
    }
  }

  lemma OpensLostWindow(st: Strategy, entries: seq<Entry>, w: string, s: string)
    requires WellFormed(entries) && IsWindow(w)
    requires var short, all := Resolve(st, Short(entries), s), Resolve(st, entries, s);
             Opens(short) >= Opens(all) &&
             (if NoLongOccurs(st, entries, s) then short == all else Opens(short) > Opens(all))
    ensures var short, all := Resolve(st, Short(entries), w + s), Resolve(st, entries, w + s);
            Opens(short) >= Opens(all) &&
            (if NoLongOccurs(st, entries, w + s) then short == all else Opens(short) > Opens(all))
  {
    ResolveAtWindow(st, Short(entries), w, s);
    ResolveAtWindow(st, entries, w, s);
    FirstShort(st, entries, w);
    FirstNamed(st, entries, w);
    NoLongAtWindow(st, entries, w, s);
    OpensConcat(First(st, Short(entries), w), Resolve(st, Short(entries), s));
    OpensConcat(First(st, entries, w), Resolve(st, entries, s));
    if LongNamed(st, entries, w) {
      OpensNone(First(st, entries, w));
      assert Opens(w) >= 1;
    }
  }

  /** Streaming equals batch, exactly when no placeholder of more than 64 bytes occurs in the
      reply: every flat reply, every chunking, every entry order, both strategies. */
  lemma StreamEqualsBatch(st: Strategy, entries: seq<Entry>, chunks: seq<string>)
    requires Flat(Concat(chunks)) && WellFormed(entries)
    ensures Streamed(st, entries, chunks) == Restore(st, Concat(chunks), entries)
            <==> NoLongOccurs(st, entries, Concat(chunks))
  {
    StreamIsShortRestore(st, entries, chunks);
    ShortWellFormed(entries);
    RestoreIsResolve(st, Concat(chunks), entries);
    RestoreIsResolve(st, Concat(chunks), Short(entries));
    OpensLost(st, entries, Concat(chunks));
  }
}
