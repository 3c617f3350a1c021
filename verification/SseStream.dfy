/** Properties of the event filter over whole streams: independence of how the bytes are chunked,
    when an inert transform is byte-exact, and when the framing survives. */
module SseStream {
  import opened Seqs
  import opened Options
  import opened Sse

  // ----- Chunking does not matter

  lemma DrainStep<S>(env: Env<S>, s: S, buf: Bytes, end: EventEnd)
    requires IsFirstEnd(buf, end)
    ensures end.consumed <= |buf|
    ensures var p := Process(env, s, buf[..end.split]);
            var d := Drain(env, p.state, buf[end.consumed..]);
            Drain(env, s, buf) == Drained(d.state, p.body + BLANK + d.out, d.rest)
  {
    FirstEndUnique(buf, end);
  }

  /** Draining a longer buffer first drains the shorter one. */
  lemma {:induction false} DrainExtend<S>(env: Env<S>, s: S, buf: Bytes, x: Bytes)
    ensures var d := Drain(env, s, buf);
            var e := Drain(env, d.state, d.rest + x);
            Drain(env, s, buf + x) == Drained(e.state, d.out + e.out, e.rest)
    decreases |buf|
  {
    match FirstEnd(buf) {
      case None =>
        assert [] + Drain(env, s, buf + x).out == Drain(env, s, buf + x).out;
      case Some(end) =>
        FirstEndStable(buf, x, end);
        DrainStep(env, s, buf + x, end);
        assert (buf + x)[..end.split] == buf[..end.split];
        assert (buf + x)[end.consumed..] == buf[end.consumed..] + x;
        var p := Process(env, s, buf[..end.split]);
        var d := Drain(env, p.state, buf[end.consumed..]);
        var e := Drain(env, d.state, d.rest + x);
        DrainExtend(env, p.state, buf[end.consumed..], x);
        Assoc(p.body + BLANK, d.out, e.out);
    }
  }

  function Concat(chunks: seq<Bytes>): Bytes {
    if chunks == [] then [] else chunks[0] + Concat(chunks[1..])
  }

  /** A run of pushes: what `Push` does to state and buffer, once per chunk. */
  function PushAll<S>(env: Env<S>, s: S, buffer: Bytes, chunks: seq<Bytes>): Drained<S>
    decreases |chunks|
  {
    if chunks == [] then Drained(s, [], buffer)
    else
      var d := Drain(env, s, buffer + chunks[0]);
      var rest := PushAll(env, d.state, d.rest, chunks[1..]);
      Drained(rest.state, d.out + rest.out, rest.rest)
  }

  /** A drained buffer holds no further event. */
  lemma {:induction false} DrainRest<S>(env: Env<S>, s: S, buf: Bytes)
    ensures NoEnd(Drain(env, s, buf).rest)
    decreases |buf|
  {
    match FirstEnd(buf) {
      case None =>
      case Some(end) =>
        DrainRest(env, Process(env, s, buf[..end.split]).state, buf[end.consumed..]);
    }
  }

  lemma DrainNothing<S>(env: Env<S>, s: S, buf: Bytes)
    requires NoEnd(buf)
    ensures Drain(env, s, buf) == Drained(s, [], buf)
  {
  }

  /** Any chunks, pushed one after the other onto a drained buffer, do what one push of all their
      bytes does: same output, same transform state, same bytes left for `Flush`. */
  lemma {:induction false} ChunkingInvariance<S>(env: Env<S>, s: S, buffer: Bytes, chunks: seq<Bytes>)
    requires NoEnd(buffer)
    ensures PushAll(env, s, buffer, chunks) == Drain(env, s, buffer + Concat(chunks))
    decreases |chunks|
  {
    if chunks == [] {
      assert buffer + [] == buffer;
      DrainNothing(env, s, buffer);
    } else {
      var d := Drain(env, s, buffer + chunks[0]);
      DrainRest(env, s, buffer + chunks[0]);
      ChunkingInvariance(env, d.state, d.rest, chunks[1..]);
      Assoc(buffer, chunks[0], Concat(chunks[1..]));
      DrainExtend(env, s, buffer + chunks[0], Concat(chunks[1..]));
    }
  }

  // ----- A transform that changes nothing

  ghost predicate Inert<S(!new)>(env: Env<S>) {
    forall s: S, t: string :: env.transform(s, t).1 == t
  }

  lemma {:induction false} InertChoices<S(!new)>(env: Env<S>, s: S, choices: seq<Json>)
    requires Inert(env)
    ensures !FilterChoices(env, s, choices).changed
    decreases |choices|
  {
    if choices != [] {
      InertChoices(env, s, choices[..|choices| - 1]);
    }
  }

  lemma InertLine<S(!new)>(env: Env<S>, s: S, line: Bytes)
    requires Inert(env)
    ensures !RewriteLine(env, s, line).changed
  {
    var work := StripCr(line);
    if StartsWith(work, DATA) {
      var parsed := env.parse(env.trimStart(work[|DATA|..]));
      if parsed.Some? {
        match Get(parsed.value, "choices") {
          case Some(Arr(choices)) => InertChoices(env, s, choices);
          case _ =>
        }
      }
    }
  }

  lemma {:induction false} InertLines<S(!new)>(env: Env<S>, s: S, lines: seq<Bytes>)
    requires Inert(env)
    ensures !RewriteLines(env, s, lines).changed
    decreases |lines|
  {
    if lines != [] {
      var n := |lines| - 1;
      InertLines(env, s, lines[..n]);
      InertLine(env, RewriteLines(env, s, lines[..n]).state, lines[n]);
    }
  }

  lemma InertProcess<S(!new)>(env: Env<S>, s: S, raw: Bytes)
    requires Inert(env)
    ensures Process(env, s, raw).body == raw
  {
    InertLines(env, s, Split(raw));
  }

  predicate HasCrLfCrLf(b: Bytes) {
    exists i: nat | i < |b| :: CrLfCrLfAt(b, i)
  }

  /** After an event ended by two line feeds, the carriage-return terminators are those of the rest. */
  lemma CrLfAfterEnd(b: Bytes, end: EventEnd)
    requires IsFirstEnd(b, end) && LfLfAt(b, end.split)
    ensures HasCrLfCrLf(b) <==> HasCrLfCrLf(b[end.consumed..])
  {
    var n, rest := end.consumed, b[end.consumed..];
    if HasCrLfCrLf(b) {
      var i: nat :| i < |b| && CrLfCrLfAt(b, i);
      assert i < end.split ==> !EndsAt(b, i);
      assert i >= n;
      assert CrLfCrLfAt(rest, i - n);
    }
    if HasCrLfCrLf(rest) {
      var i: nat :| i < |rest| && CrLfCrLfAt(rest, i);
      assert CrLfCrLfAt(b, i + n);
    }
  }

  lemma EventSplits(b: Bytes, end: EventEnd)
    requires IsFirstEnd(b, end) && end.consumed <= |b|
    ensures var raw, rest := b[..end.split], b[end.consumed..];
            if LfLfAt(b, end.split) then b == raw + BLANK + rest else |b| == |raw| + 4 + |rest|
  {
    if LfLfAt(b, end.split) {
      assert b[end.split..end.consumed] == BLANK;
      assert b == b[..end.split] + b[end.split..end.consumed] + b[end.consumed..];
    }
  }

  /** An inert transform reproduces the stream byte for byte exactly when no event is ended by
      CR LF CR LF; each such terminator comes out two bytes shorter. */
  lemma {:induction false} InertIsIdentity<S(!new)>(env: Env<S>, s: S, buf: Bytes)
    requires Inert(env)
    ensures var d := Drain(env, s, buf);
            if HasCrLfCrLf(buf) then |d.out + d.rest| < |buf| else d.out + d.rest == buf
    decreases |buf|
  {
    match FirstEnd(buf) {
      case None =>
        assert [] + buf == buf;
        assert forall i: nat | i < |buf| && CrLfCrLfAt(buf, i) :: EndsAt(buf, i);
      case Some(end) =>
        var raw, rest := buf[..end.split], buf[end.consumed..];
        InertProcess(env, s, raw);
        var p := Process(env, s, raw);
        var d := Drain(env, p.state, rest);
        InertIsIdentity(env, p.state, rest);
        EventSplits(buf, end);
        Assoc(raw + BLANK, d.out, d.rest);
        if LfLfAt(buf, end.split) {
          CrLfAfterEnd(buf, end);
        } else {
          NotIdentical(buf, end);
        }
    }
  }

  lemma NotIdentical(b: Bytes, end: EventEnd)
    requires IsFirstEnd(b, end) && !LfLfAt(b, end.split)
    ensures HasCrLfCrLf(b)
  {
    assert CrLfCrLfAt(b, end.split);
  }

  // ----- Framing

  datatype Frames = Frames(events: seq<Bytes>, rest: Bytes)

  /** The events a receiver finds in a stream. */
  function Parse(b: Bytes): Frames
    decreases |b|
  {
    match FirstEnd(b)
    case None => Frames([], b)
    case Some(end) =>
      var f := Parse(b[end.consumed..]);
      Frames([b[..end.split]] + f.events, f.rest)
  }

  /** The rewritten events of a stream, in order. */
  function Bodies<S>(env: Env<S>, s: S, events: seq<Bytes>): (bodies: seq<Bytes>)
    ensures |bodies| == |events|
    decreases |events|
  {
    if events == [] then []
    else
      var p := Process(env, s, events[0]);
      [p.body] + Bodies(env, p.state, events[1..])
  }

  /** The last bytes cannot combine with a following blank line to an earlier terminator. */
  predicate Snug(b: Bytes) {
    && !(b != [] && b[|b| - 1] == LF)
    && !(|b| >= 3 && b[|b| - 3] == CR && b[|b| - 2] == LF && b[|b| - 1] == CR)
  }

  lemma BlankEnds(b: Bytes, x: Bytes)
    requires NoEnd(b)
    ensures Snug(b) ==> IsFirstEnd(b + BLANK + x, EventEnd(|b|, |b| + 2))
    ensures !Snug(b) ==> exists i: nat | i < |b| :: EndsAt(b + BLANK + x, i)
  {
    var t := b + BLANK + x;
    assert t[|b|] == LF && t[|b| + 1] == LF;
    if Snug(b) {
      forall i: nat | i < |b|
        ensures !EndsAt(t, i)
      {
        assert !EndsAt(b, i);
      }
    } else if b[|b| - 1] == LF {
      assert EndsAt(t, |b| - 1);
    } else {
      assert EndsAt(t, |b| - 3);
    }
  }

  // The two facts about an event that decide its framing, line by line.

  predicate StartsLf(b: Bytes) { b != [] && b[0] == LF }

  predicate StartsCrLf(b: Bytes) { |b| >= 2 && b[0] == CR && b[1] == LF }

  lemma NoEndLine(a: Bytes, s: Bytes)
    requires LF !in a
    ensures NoEnd(a + [LF] + s) <==> NoEnd(s) && !StartsLf(s) && !(EndsCr(a) && StartsCrLf(s))
  {
    var t, n := a + [LF] + s, |a| + 1;
    assert forall i | 0 <= i < |s| :: t[n + i] == s[i];
    assert forall i | 0 <= i < |a| :: t[i] == a[i] && t[i] != LF;
    if NoEnd(t) {
      assert !EndsAt(t, |a|);
      assert EndsCr(a) ==> !EndsAt(t, |a| - 1);
      forall i: nat | i < |s|
        ensures !EndsAt(s, i)
      {
        assert !EndsAt(t, n + i);
      }
    }
    if NoEnd(s) && !StartsLf(s) && !(EndsCr(a) && StartsCrLf(s)) {
      forall i: nat | i < |t|
        ensures !EndsAt(t, i)
      {
        if i >= n {
          assert !EndsAt(s, i - n);
        }
      }
    }
  }

  lemma SnugLine(a: Bytes, s: Bytes)
    requires LF !in a
    ensures Snug(a + [LF] + s) <==> s != [] && Snug(s) && !(EndsCr(a) && s == [CR])
  {
    var t, n := a + [LF] + s, |a| + 1;
    assert forall i | 0 <= i < |s| :: t[n + i] == s[i];
    assert t[|a|] == LF;
    assert forall i | 0 <= i < |a| :: t[i] == a[i];
  }

  /** Two lines that look the same to the framing. */
  predicate Alike(a: Bytes, b: Bytes) {
    && LF !in a && LF !in b
    && (a == [] <==> b == [])
    && (a == [CR] <==> b == [CR])
    && (EndsCr(a) <==> EndsCr(b))
  }

  predicate AllAlike(a: seq<Bytes>, b: seq<Bytes>) {
    |a| == |b| && forall k | 0 <= k < |a| :: Alike(a[k], b[k])
  }

  lemma JoinStart(lines: seq<Bytes>)
    requires lines != [] && forall k | 0 <= k < |lines| :: LF !in lines[k]
    ensures StartsLf(Join(lines)) <==> |lines| > 1 && lines[0] == []
    ensures StartsCrLf(Join(lines)) <==> |lines| > 1 && lines[0] == [CR]
    ensures Join(lines) == [] <==> |lines| == 1 && lines[0] == []
    ensures Join(lines) == [CR] <==> |lines| == 1 && lines[0] == [CR]
  {
    if |lines| > 1 {
      var j := Join(lines);
      assert j == lines[0] + [LF] + Join(lines[1..]);
      assert j[|lines[0]|] == LF;
      assert forall i | 0 <= i < |lines[0]| :: j[i] == lines[0][i] && j[i] != LF;
      if StartsCrLf(j) {
        assert |lines[0]| == 1;
      }
    }
  }

  lemma {:induction false} AlikeFraming(a: seq<Bytes>, b: seq<Bytes>)
    requires a != [] && AllAlike(a, b)
    ensures NoEnd(Join(a)) == NoEnd(Join(b)) && Snug(Join(a)) == Snug(Join(b))
    decreases |a|
  {
    assert Alike(a[0], b[0]);
    if |a| == 1 {
      LineFraming(a[0]);
      LineFraming(b[0]);
    } else {
      AlikeFraming(a[1..], b[1..]);
      JoinStart(a[1..]);
      JoinStart(b[1..]);
      assert Alike(a[1], b[1]);
      NoEndLine(a[0], Join(a[1..]));
      NoEndLine(b[0], Join(b[1..]));
      SnugLine(a[0], Join(a[1..]));
      SnugLine(b[0], Join(b[1..]));
    }
  }

  lemma LineFraming(line: Bytes)
    requires LF !in line
    ensures NoEnd(line) && Snug(line)
  {
  }

  ghost predicate RendersNoControl<S>(env: Env<S>) {
    forall j: Json, i: nat | i < |env.render(j)| :: env.render(j)[i] >= 32
  }

  lemma RewriteLineAlike<S>(env: Env<S>, s: S, line: Bytes)
    requires RendersNoControl(env) && LF !in line
    ensures Alike(line, RewriteLine(env, s, line).bytes)
    ensures !StartsWith(line, DATA) ==> RewriteLine(env, s, line).bytes == line
  {
    var work := StripCr(line);
    if StartsWith(work, DATA) {
      assert StartsWith(line, DATA) by {
        assert line[..|DATA|] == work[..|DATA|];
      }
      assert line[0] == 100;
      var parsed := env.parse(env.trimStart(work[|DATA|..]));
      if parsed.Some? {
        var r := env.render(FilterDelta(env, s, parsed.value).val);
        var tail: Bytes := if EndsCr(line) then [CR] else [];
        var out := DATA_SPACE + r + tail;
        assert out[0] == 100;
        assert forall i | 0 <= i < |r| :: out[|DATA_SPACE| + i] == r[i];
        assert out[|out| - 1] == if EndsCr(line) then CR else if r == [] then 32 else r[|r| - 1];
        assert LF !in out;
      }
    }
  }

  lemma {:induction false} RewriteLinesAlike<S>(env: Env<S>, s: S, lines: seq<Bytes>)
    requires RendersNoControl(env) && forall k | 0 <= k < |lines| :: LF !in lines[k]
    ensures AllAlike(lines, RewriteLines(env, s, lines).lines)
    ensures forall k | 0 <= k < |lines| && !StartsWith(lines[k], DATA) :: RewriteLines(env, s, lines).lines[k] == lines[k]
    decreases |lines|
  {
    if lines != [] {
      var n := |lines| - 1;
      var before := RewriteLines(env, s, lines[..n]);
      RewriteLinesAlike(env, s, lines[..n]);
      RewriteLineAlike(env, before.state, lines[n]);
      var out := RewriteLines(env, s, lines).lines;
      forall k | 0 <= k < |lines|
        ensures Alike(lines[k], out[k]) && (!StartsWith(lines[k], DATA) ==> out[k] == lines[k])
      {
        if k < n {
          assert lines[..n][k] == lines[k] && out[k] == before.lines[k];
        }
      }
    }
  }

  lemma ProcessFraming<S>(env: Env<S>, s: S, raw: Bytes)
    requires RendersNoControl(env)
    ensures NoEnd(Process(env, s, raw).body) == NoEnd(raw) && Snug(Process(env, s, raw).body) == Snug(raw)
  {
    var r := RewriteLines(env, s, Split(raw));
    RewriteLinesAlike(env, s, Split(raw));
    AlikeFraming(Split(raw), r.lines);
  }

  lemma FirstEventNoEnd(b: Bytes, end: EventEnd)
    requires IsFirstEnd(b, end)
    ensures end.split <= |b| && NoEnd(b[..end.split])
  {
    var raw := b[..end.split];
    forall i: nat | i < |raw|
      ensures !EndsAt(raw, i)
    {
      assert !EndsAt(b, i);
    }
  }

  /** Whatever the transform does: a receiver of the output finds exactly the rewritten events, in
      order, if and only if no event of the input ends in LF or in CR LF CR. */
  lemma {:induction false} FramingPreserved<S>(env: Env<S>, s: S, buf: Bytes)
    requires RendersNoControl(env)
    ensures var d, f := Drain(env, s, buf), Parse(buf);
            Parse(d.out + d.rest) == Frames(Bodies(env, s, f.events), f.rest)
            <==> (forall k | 0 <= k < |f.events| :: Snug(f.events[k]))
    decreases |buf|
  {
    match FirstEnd(buf) {
      case None =>
        assert [] + buf == buf;
      case Some(end) =>
        var raw, rest := buf[..end.split], buf[end.consumed..];
        var p := Process(env, s, raw);
        var d, f := Drain(env, p.state, rest), Parse(rest);
        FramingPreserved(env, p.state, rest);
        FirstEventNoEnd(buf, end);
        ProcessFraming(env, s, raw);
        BlankEnds(p.body, d.out + d.rest);
        Assoc(p.body + BLANK, d.out, d.rest);
        FramingStep(env, s, buf, end);
    }
  }

  lemma FramingStep<S>(env: Env<S>, s: S, buf: Bytes, end: EventEnd)
    requires FirstEnd(buf) == Some(end)
    requires var raw, rest := buf[..end.split], buf[end.consumed..];
             var p := Process(env, s, raw);
             var d, f := Drain(env, p.state, rest), Parse(rest);
             var out := p.body + BLANK + (d.out + d.rest);
             && (Parse(d.out + d.rest) == Frames(Bodies(env, p.state, f.events), f.rest)
                 <==> (forall k | 0 <= k < |f.events| :: Snug(f.events[k])))
             && (Snug(raw) ==> IsFirstEnd(out, EventEnd(|p.body|, |p.body| + 2)))
             && (!Snug(raw) ==> exists i: nat | i < |p.body| :: EndsAt(out, i))
    ensures var raw, rest := buf[..end.split], buf[end.consumed..];
            var p := Process(env, s, raw);
            var d, f := Drain(env, p.state, rest), Parse(buf);
            Parse(p.body + BLANK + (d.out + d.rest)) == Frames(Bodies(env, s, f.events), f.rest)
            <==> (forall k | 0 <= k < |f.events| :: Snug(f.events[k]))
  {
    var raw, rest := buf[..end.split], buf[end.consumed..];
    var p := Process(env, s, raw);
    var d, f, g := Drain(env, p.state, rest), Parse(buf), Parse(rest);
    var bodies := Bodies(env, p.state, g.events);
    BodiesCons(env, s, raw, g.events);
    assert f == Frames([raw] + g.events, g.rest);
    AllSnugCons(raw, g.events);
    if Snug(raw) {
      SnugStep(p.body, d.out + d.rest, bodies, g.rest);
    } else {
      LooseStep(p.body, d.out + d.rest, bodies, g.rest);
    }
  }

  lemma BodiesCons<S>(env: Env<S>, s: S, raw: Bytes, events: seq<Bytes>)
    ensures var p := Process(env, s, raw);
            Bodies(env, s, [raw] + events) == [p.body] + Bodies(env, p.state, events)
  {
    assert ([raw] + events)[1..] == events;
  }

  lemma AllSnugCons(raw: Bytes, events: seq<Bytes>)
    ensures (forall k | 0 <= k < |[raw] + events| :: Snug(([raw] + events)[k]))
            <==> Snug(raw) && forall k | 0 <= k < |events| :: Snug(events[k])
  {
    var all := [raw] + events;
    assert all[0] == raw && forall k | 0 <= k < |events| :: events[k] == all[k + 1];
    assert forall k | 1 <= k < |all| :: all[k] == events[k - 1];
  }

  lemma SnugStep(body: Bytes, tail: Bytes, bodies: seq<Bytes>, rest: Bytes)
    requires IsFirstEnd(body + BLANK + tail, EventEnd(|body|, |body| + 2))
    ensures Parse(body + BLANK + tail) == Frames([body] + bodies, rest) <==> Parse(tail) == Frames(bodies, rest)
  {
    var out := body + BLANK + tail;
    FirstEndUnique(out, EventEnd(|body|, |body| + 2));
    assert out[..|body|] == body && out[|body| + 2..] == tail;
    var f := Parse(tail);
    assert Parse(out) == Frames([body] + f.events, f.rest);
    assert ([body] + f.events)[1..] == f.events && ([body] + bodies)[1..] == bodies;
  }

  lemma LooseStep(body: Bytes, tail: Bytes, bodies: seq<Bytes>, rest: Bytes)
    requires exists i: nat | i < |body| :: EndsAt(body + BLANK + tail, i)
    ensures Parse(body + BLANK + tail) != Frames([body] + bodies, rest)
  {
    var out := body + BLANK + tail;
    var i: nat :| i < |body| && EndsAt(out, i);
    var e := FirstEnd(out).value;
    assert e.split <= i;
    assert |Parse(out).events[0]| == e.split;
    assert ([body] + bodies)[0] == body;
  }

  // ----- Other lines

  lemma {:induction false} SplitJoin(lines: seq<Bytes>)
    requires lines != [] && forall k | 0 <= k < |lines| :: LF !in lines[k]
    ensures Split(Join(lines)) == lines
    decreases |lines|
  {
    if |lines| == 1 {
      SplitLine(lines[0]);
    } else {
      SplitJoin(lines[1..]);
      SplitAfter(lines[0], Join(lines[1..]));
      assert lines == [lines[0]] + lines[1..];
    }
  }

  lemma {:induction false} SplitLine(a: Bytes)
    requires LF !in a
    ensures Split(a) == [a]
  {
    if a != [] {
      SplitLine(a[1..]);
      assert a == [a[0]] + a[1..];
    }
  }

  lemma SplitCons(t: Bytes)
    requires t != [] && t[0] != LF
    ensures var rest := Split(t[1..]); Split(t) == [[t[0]] + rest[0]] + rest[1..]
  {
  }

  lemma {:induction false} SplitAfter(a: Bytes, s: Bytes)
    requires LF !in a
    ensures Split(a + [LF] + s) == [a] + Split(s)
    decreases |a|
  {
    var t := a + [LF] + s;
    if a == [] {
      assert t[1..] == s;
    } else {
      assert t[0] == a[0] && t[1..] == a[1..] + [LF] + s;
      assert a == [a[0]] + a[1..];
      SplitAfter(a[1..], s);
      SplitCons(t);
      assert ([a[1..]] + Split(s))[1..] == Split(s);
    }
  }

  /** The rewritten event has the lines of the original; lines that are not `data:` lines come out
      verbatim. */
  lemma OtherLinesSurvive<S>(env: Env<S>, s: S, raw: Bytes)
    requires RendersNoControl(env)
    ensures var before, after := Split(raw), Split(Process(env, s, raw).body);
            |after| == |before| &&
            forall k | 0 <= k < |before| && !StartsWith(before[k], DATA) :: after[k] == before[k]
  {
    var r := RewriteLines(env, s, Split(raw));
    RewriteLinesAlike(env, s, Split(raw));
    AlikeNoLf(Split(raw), r.lines);
    SplitJoin(r.lines);
  }

  lemma AlikeNoLf(a: seq<Bytes>, b: seq<Bytes>)
    requires AllAlike(a, b)
    ensures forall k | 0 <= k < |b| :: LF !in b[k]
  {
    assert forall k | 0 <= k < |b| :: Alike(a[k], b[k]);
  }
}
