/** What the streaming deanonymizer does with any reply, flat or not: the reply is cut into plain text
    and segments, each from a `[` met outside a segment up to the first `]`, the 64th byte or the end. */
module DeanonSegments {
  import opened Seqs
  import opened Brackets
  import opened Deanonymize
  import opened DeanonStream

  /** Character `k` is buffered and the segment goes on. */
  predicate GoesOn(s: string, k: nat)
    requires k < |s|
  {
    s[k] != ']' && ByteLen(s[..k + 1]) < 64
  }

  /** With the first `n` characters of a segment read, the number of characters it has. */
  function SegmentFrom(s: string, n: nat): (e: nat)
    requires n <= |s|
    ensures n <= e <= |s|
    ensures n < |s| ==> n < e
    ensures forall k | n <= k < e - 1 :: GoesOn(s, k)
    ensures n < e < |s| ==> !GoesOn(s, e - 1)
    decreases |s| - n
  {
    if n == |s| then n
    else if GoesOn(s, n) then SegmentFrom(s, n + 1)
    else n + 1
  }

  /** The segment at the front of a text that starts with `[`. */
  function Segment(s: string): string
    requires s != ""
  {
    s[..SegmentFrom(s, 1)]
  }

  /** Segments that are closed are restored, each on its own; all else is verbatim. */
  function Segmented(st: Strategy, entries: seq<Entry>, s: string): string
    decreases |s|
  {
    if s == "" then ""
    else if s[0] != '[' then s[..1] + Segmented(st, entries, s[1..])
    else
      var seg := Segment(s);
      (if seg[|seg| - 1] == ']' then Restore(st, seg, entries) else seg) + Segmented(st, entries, s[|seg|..])
  }

  /** The machine at the end of a segment of `e` characters, and on the rest of the text. */
  function AtEnd(st: Strategy, entries: seq<Entry>, s: string, e: nat): Fed
    requires 1 <= e <= |s|
  {
    var rest := Feed(st, entries, START, s[e..]);
    if s[e - 1] == ']' then Fed(rest.state, Restore(st, s[..e], entries) + rest.out)
    else if ByteLen(s[..e]) >= 64 then Fed(rest.state, s[..e] + rest.out)
    else Fed(StreamState(InPlaceholder, s[..e]), "")
  }

  /** Buffering up to the end of the segment. */
  lemma {:induction false} FeedBuffer(st: Strategy, entries: seq<Entry>, s: string, n: nat)
    requires 1 <= n <= |s| && s[n - 1] != ']' && ByteLen(s[..n]) < 64
    ensures Feed(st, entries, StreamState(InPlaceholder, s[..n]), s[n..]) == AtEnd(st, entries, s, SegmentFrom(s, n))
    decreases |s| - n
  {
    if n < |s| {
      Advance(s, n);
      FeedCons(st, entries, StreamState(InPlaceholder, s[..n]), s[n..]);
      if GoesOn(s, n) {
        FeedBuffer(st, entries, s, n + 1);
        Whole(Feed(st, entries, StreamState(InPlaceholder, s[..n + 1]), s[n + 1..]).out);
      }
    } else {
      Whole(s);
    }
  }

  /** From the start of a segment. */
  lemma FeedSegment(st: Strategy, entries: seq<Entry>, s: string)
    requires s != "" && s[0] == '['
    ensures Feed(st, entries, START, s) == Feed(st, entries, StreamState(InPlaceholder, s[..1]), s[1..])
  {
    FeedCons(st, entries, START, s);
    assert s[..1] == [s[0]];
    Whole(Feed(st, entries, StreamState(InPlaceholder, s[..1]), s[1..]).out);
  }

  lemma OpenLength(s: string)
    requires s != "" && s[0] == '['
    ensures ByteLen(s[..1]) == 1
  {
    assert s[..1][1..] == "";
  }

  lemma {:induction false} FeedIsSegmented(st: Strategy, entries: seq<Entry>, s: string)
    ensures var f := Feed(st, entries, START, s); f.out + f.state.pending == Segmented(st, entries, s)
    decreases |s|
  {
    if s == "" {
    } else if s[0] != '[' {
      FeedIsSegmented(st, entries, s[1..]);
      FeedCons(st, entries, START, s);
      assert s[..1] == [s[0]];
      var f := Feed(st, entries, START, s[1..]);
      Assoc(s[..1], f.out, f.state.pending);
    } else {
      FeedSegment(st, entries, s);
      OpenLength(s);
      FeedBuffer(st, entries, s, 1);
      var e := SegmentFrom(s, 1);
      FeedIsSegmented(st, entries, s[e..]);
      AtEndIsSegmented(st, entries, s, e);
    }
  }

  lemma AtEndIsSegmented(st: Strategy, entries: seq<Entry>, s: string, e: nat)
    requires s != "" && s[0] == '[' && e == SegmentFrom(s, 1)
    requires var rest := Feed(st, entries, START, s[e..]); rest.out + rest.state.pending == Segmented(st, entries, s[e..])
    ensures var f := AtEnd(st, entries, s, e); f.out + f.state.pending == Segmented(st, entries, s)
  {
    var rest := Feed(st, entries, START, s[e..]);
    assert Segment(s) == s[..e] && s[..e][e - 1] == s[e - 1];
    if s[e - 1] == ']' {
      Assoc(Restore(st, s[..e], entries), rest.out, rest.state.pending);
    } else if ByteLen(s[..e]) >= 64 {
      Assoc(s[..e], rest.out, rest.state.pending);
    } else {
      Whole(s);
    }
  }

  // ----- Entries that do not occur

  lemma {:induction false} ReplaceNowhere(st: Strategy, s: string, pat: string, r: string)
    requires pat != "" && !Occurs(st, s, pat)
    ensures Replace(st, s, pat, r) == s
    decreases |s|
  {
    if |s| >= |pat| {
      assert s[0..0 + |pat|] == s[..|pat|];
      assert !MatchesAt(st, s, pat, 0);
      Cut(s, 1);
      if Occurs(st, s[1..], pat) {
        OccursShift(st, s[..1], s[1..], pat);
      }
      ReplaceNowhere(st, s[1..], pat, r);
      ReplaceMiss(st, s, pat, r);
      assert s[..1] == [s[0]];
    }
  }

  /** No placeholder of the list occurs in the text. */
  predicate NoneOccurs(st: Strategy, entries: seq<Entry>, s: string) {
    forall i | 0 <= i < |entries| :: !Occurs(st, s, entries[i].placeholder)
  }

  lemma EmptyOccurs(st: Strategy, s: string)
    ensures Occurs(st, s, "")
  {
    assert MatchesAt(st, s, "", 0);
  }

  lemma {:induction false} RestoreNothing(st: Strategy, entries: seq<Entry>, s: string)
    requires NoneOccurs(st, entries, s)
    ensures Restore(st, s, entries) == s
    decreases |entries|
  {
    if entries != [] {
      EmptyOccurs(st, s);
      assert !Occurs(st, s, entries[0].placeholder);
      ReplaceNowhere(st, s, entries[0].placeholder, entries[0].original);
      assert forall i | 0 <= i < |entries[1..]| :: entries[1..][i] == entries[i + 1];
      RestoreNothing(st, entries[1..], s);
    }
  }

  lemma OccursInFront(st: Strategy, a: string, b: string, pat: string)
    requires Occurs(st, a, pat)
    ensures Occurs(st, a + b, pat)
  {
    var i :| 0 <= i <= |a| && MatchesAt(st, a, pat, i);
    assert (a + b)[i..i + |pat|] == a[i..i + |pat|];
    assert MatchesAt(st, a + b, pat, i);
  }

  lemma NoneOccursInParts(st: Strategy, entries: seq<Entry>, s: string, n: nat)
    requires NoneOccurs(st, entries, s) && n <= |s|
    ensures NoneOccurs(st, entries, s[..n]) && NoneOccurs(st, entries, s[n..])
  {
    Cut(s, n);
    forall i | 0 <= i < |entries|
      ensures !Occurs(st, s[..n], entries[i].placeholder) && !Occurs(st, s[n..], entries[i].placeholder)
    {
      if Occurs(st, s[..n], entries[i].placeholder) {
        OccursInFront(st, s[..n], s[n..], entries[i].placeholder);
      } else if Occurs(st, s[n..], entries[i].placeholder) {
        OccursShift(st, s[..n], s[n..], entries[i].placeholder);
      }
    }
  }

  lemma {:induction false} SegmentedNothing(st: Strategy, entries: seq<Entry>, s: string)
    requires NoneOccurs(st, entries, s)
    ensures Segmented(st, entries, s) == s
    decreases |s|
  {
    if s != "" {
      var n := if s[0] != '[' then 1 else |Segment(s)|;
      NoneOccursInParts(st, entries, s, n);
      SegmentedNothing(st, entries, s[n..]);
      RestoreNothing(st, entries, s[..n]);
      Cut(s, n);
    }
  }

  /** For every reply, flat or not, every chunking, every entry list and both strategies: the stream
      gives the segmented reply. */
  lemma StreamIsSegmented(st: Strategy, entries: seq<Entry>, chunks: seq<string>)
    ensures Streamed(st, entries, chunks) == Segmented(st, entries, Concat(chunks))
  {
    PushAllIsOnePush(st, entries, START, chunks);
    if entries == [] {
      SegmentedNothing(st, entries, Concat(chunks));
      Whole(Concat(chunks));
    } else {
      FeedIsSegmented(st, entries, Concat(chunks));
    }
  }

  /** Nothing is lost: a reply in which no placeholder occurs comes out as it went in. */
  lemma StreamConserves(st: Strategy, entries: seq<Entry>, chunks: seq<string>)
    requires NoneOccurs(st, entries, Concat(chunks))
    ensures Streamed(st, entries, chunks) == Concat(chunks)
  {
    StreamIsSegmented(st, entries, chunks);
    SegmentedNothing(st, entries, Concat(chunks));
  }
}
