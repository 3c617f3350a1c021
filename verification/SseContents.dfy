/** What a client reads out of the rewritten event stream: the delta contents, transformed one after
    the other; and, with the deanonymizer as the transform, the restored reply. */
module SseContents {
  import opened Seqs
  import opened Options
  import opened Sse
  import opened SseStream
  import opened Brackets
  import opened Deanonymize
  import D = DeanonStream

  // ----- The texts a client finds

  function Content(choice: Json): seq<string> {
    match ContentOf(choice)
    case None => []
    case Some(text) => [text]
  }

  function ChoicesTexts(choices: seq<Json>): seq<string> {
    if choices == [] then [] else ChoicesTexts(choices[..|choices| - 1]) + Content(choices[|choices| - 1])
  }

  function ValueTexts(val: Json): seq<string> {
    match Get(val, "choices")
    case Some(Arr(choices)) => ChoicesTexts(choices)
    case _ => []
  }

  /** The payload of a data line, if it is JSON. */
  function Payload<S>(env: Env<S>, line: Bytes): Option<Json> {
    var work := StripCr(line);
    if !StartsWith(work, DATA) then None
    else
      var payload := env.trimStart(work[|DATA|..]);
      if payload == DONE || payload == [] then None else env.parse(payload)
  }

  function LineTexts<S>(env: Env<S>, line: Bytes): seq<string> {
    match Payload(env, line)
    case None => []
    case Some(val) => ValueTexts(val)
  }

  function LinesTexts<S>(env: Env<S>, lines: seq<Bytes>): seq<string> {
    if lines == [] then [] else LinesTexts(env, lines[..|lines| - 1]) + LineTexts(env, lines[|lines| - 1])
  }

  /** The delta contents of an event, in order. */
  function EventTexts<S>(env: Env<S>, raw: Bytes): seq<string> {
    LinesTexts(env, Split(raw))
  }

  function EventsTexts<S>(env: Env<S>, events: seq<Bytes>): seq<string> {
    if events == [] then [] else EventTexts(env, events[0]) + EventsTexts(env, events[1..])
  }

  // ----- The transform, one text after the other

  datatype Thread<S> = Thread(state: S, outs: seq<string>)

  function Threaded<S>(env: Env<S>, s: S, texts: seq<string>): (t: Thread<S>)
    ensures |t.outs| == |texts|
  {
    if texts == [] then Thread(s, [])
    else
      var before := Threaded(env, s, texts[..|texts| - 1]);
      var (s', out) := env.transform(before.state, texts[|texts| - 1]);
      Thread(s', before.outs + [out])
  }

  lemma {:induction false} ThreadedConcat<S>(env: Env<S>, s: S, a: seq<string>, b: seq<string>)
    ensures var f := Threaded(env, s, a);
            var g := Threaded(env, f.state, b);
            Threaded(env, s, a + b) == Thread(g.state, f.outs + g.outs)
    decreases |b|
  {
    if b == [] {
      Whole(a);
      Whole(Threaded(env, s, a).outs);
    } else {
      var n := |b| - 1;
      ThreadedConcat(env, s, a, b[..n]);
      assert (a + b)[..|a + b| - 1] == a + b[..n];
    }
  }

  lemma ThreadedOne<S>(env: Env<S>, s: S, text: string)
    ensures var (s', out) := env.transform(s, text); Threaded(env, s, [text]) == Thread(s', [out])
  {
    assert [text][..0] == [];
  }

  // ----- Values, lines, events

  lemma ChoiceThreads<S>(env: Env<S>, s: S, choice: Json)
    ensures var f := FilterChoice(env, s, choice);
            Thread(f.state, Content(f.val)) == Threaded(env, s, Content(choice)) && (!f.changed ==> f.val == choice)
  {
    var text := ContentOf(choice);
    if text.Some? {
      ThreadedOne(env, s, text.value);
    }
  }

  lemma {:induction false} ChoicesThread<S>(env: Env<S>, s: S, choices: seq<Json>)
    ensures var f := FilterChoices(env, s, choices);
            Thread(f.state, ChoicesTexts(f.vals)) == Threaded(env, s, ChoicesTexts(choices)) && (!f.changed ==> f.vals == choices)
    decreases |choices|
  {
    if choices != [] {
      var n := |choices| - 1;
      ChoicesThread(env, s, choices[..n]);
      var before := FilterChoices(env, s, choices[..n]);
      var last := FilterChoice(env, before.state, choices[n]);
      ChoiceThreads(env, before.state, choices[n]);
      ThreadedConcat(env, s, ChoicesTexts(choices[..n]), Content(choices[n]));
      ChoicesSnoc(before.vals, last.val);
      Advance(choices, n);
      Whole(choices);
    }
  }

  lemma ChoicesSnoc(choices: seq<Json>, choice: Json)
    ensures ChoicesTexts(choices + [choice]) == ChoicesTexts(choices) + Content(choice)
  {
    assert (choices + [choice])[..|choices|] == choices;
  }

  lemma ValueThreads<S>(env: Env<S>, s: S, val: Json)
    ensures var f := FilterDelta(env, s, val);
            Thread(f.state, ValueTexts(f.val)) == Threaded(env, s, ValueTexts(val)) && (!f.changed ==> f.val == val)
  {
    match Get(val, "choices")
    case Some(Arr(choices)) =>
      ChoicesThread(env, s, choices);
      var vals := FilterChoices(env, s, choices).vals;
      SetGet(val, "choices", Arr(vals));
      SetGet(val, "choices", Arr(choices));
    case _ =>
  }

  lemma SetGet(val: Json, name: string, v: Json)
    requires val.Obj?
    ensures Get(Set(val, name, v), name) == Some(v)
    ensures Get(val, name) == Some(v) ==> Set(val, name, v) == val
  {
    if Get(val, name) == Some(v) {
      assert val.fields[name := v] == val.fields;
    }
  }

  // ----- What is assumed of the JSON parser and printer

  predicate RewordedChoice(a: Json, b: Json) {
    a == b || (ContentOf(a).Some? && ContentOf(b).Some? &&
               b == Set(a, "delta", Set(Get(a, "delta").value, "content", Str(ContentOf(b).value))))
  }

  /** `w` is `v` with other delta contents, if with anything other at all. */
  predicate Reworded(v: Json, w: Json) {
    match (Get(v, "choices"), Get(w, "choices"))
    case (Some(Arr(a)), Some(Arr(b))) =>
      w == Set(v, "choices", Arr(b)) && |a| == |b| && forall k | 0 <= k < |a| :: RewordedChoice(a[k], b[k])
    case _ => w == v
  }

  /** The printed value is text after the one space in front of it, is no `[DONE]`, and is read as a
      value with the same delta contents. */
  predicate ContentsBack<S>(env: Env<S>, j: Json) {
    var text := env.render(j);
    && env.trimStart([32] + text) == text && text != [] && text != DONE
    && env.parse(text).Some? && ValueTexts(env.parse(text).value) == ValueTexts(j)
  }

  /** What was read, and reworded, is printed so that its contents are read back. */
  ghost predicate ReadsBack<S>(env: Env<S>) {
    forall p, w | env.parse(p).Some? && Reworded(env.parse(p).value, w) :: ContentsBack(env, w)
  }

  lemma {:induction false} ChoicesReworded<S>(env: Env<S>, s: S, choices: seq<Json>)
    ensures var vals := FilterChoices(env, s, choices).vals;
            |vals| == |choices| && forall k | 0 <= k < |vals| :: RewordedChoice(choices[k], vals[k])
    decreases |choices|
  {
    if choices != [] {
      var n := |choices| - 1;
      ChoicesReworded(env, s, choices[..n]);
      var before := FilterChoices(env, s, choices[..n]);
      var vals := FilterChoices(env, s, choices).vals;
      forall k | 0 <= k < |vals|
        ensures RewordedChoice(choices[k], vals[k])
      {
        if k < n {
          assert choices[..n][k] == choices[k] && vals[k] == before.vals[k];
        }
      }
    }
  }

  /** The rewrite touches delta contents only. */
  lemma FilterRewords<S>(env: Env<S>, s: S, val: Json)
    ensures Reworded(val, FilterDelta(env, s, val).val)
  {
    match Get(val, "choices")
    case Some(Arr(choices)) =>
      ChoicesReworded(env, s, choices);
      SetGet(val, "choices", Arr(FilterChoices(env, s, choices).vals));
    case _ =>
  }

  lemma RenderedLine<S>(env: Env<S>, j: Json, cr: bool)
    requires RendersNoControl(env) && ContentsBack(env, j)
    ensures LineTexts(env, DATA_SPACE + env.render(j) + (if cr then [CR] else [])) == ValueTexts(j)
  {
    var core := DATA_SPACE + env.render(j);
    var line := core + (if cr then [CR] else []);
    assert core[|core| - 1] == env.render(j)[|env.render(j)| - 1];
    assert StripCr(line) == core by {
      if cr {
        assert line[..|line| - 1] == core;
      } else {
        Whole(core);
      }
    }
    assert core[..|DATA|] == DATA && core[|DATA|..] == [32] + env.render(j);
  }

  lemma LineThreads<S>(env: Env<S>, s: S, line: Bytes)
    requires RendersNoControl(env) && ReadsBack(env)
    ensures var r := RewriteLine(env, s, line);
            && Thread(r.state, LineTexts(env, r.bytes)) == Threaded(env, s, LineTexts(env, line))
            && (!r.changed ==> Threaded(env, s, LineTexts(env, line)).outs == LineTexts(env, line))
  {
    var val := Payload(env, line);
    RewriteIsPayload(env, s, line);
    if val.Some? {
      ValueThreads(env, s, val.value);
      FilterRewords(env, s, val.value);
      RenderedLine(env, FilterDelta(env, s, val.value).val, EndsCr(line));
    }
  }

  /** A line is rewritten exactly if it has a payload. */
  lemma RewriteIsPayload<S>(env: Env<S>, s: S, line: Bytes)
    ensures RewriteLine(env, s, line) ==
            match Payload(env, line)
            case None => Line(s, line, false)
            case Some(val) =>
              var f := FilterDelta(env, s, val);
              Line(f.state, DATA_SPACE + env.render(f.val) + (if EndsCr(line) then [CR] else []), f.changed)
  {
  }

  lemma {:induction false} LinesThread<S>(env: Env<S>, s: S, lines: seq<Bytes>)
    requires RendersNoControl(env) && ReadsBack(env)
    ensures var r := RewriteLines(env, s, lines);
            && Thread(r.state, LinesTexts(env, r.lines)) == Threaded(env, s, LinesTexts(env, lines))
            && (!r.changed ==> Threaded(env, s, LinesTexts(env, lines)).outs == LinesTexts(env, lines))
    decreases |lines|
  {
    if lines != [] {
      var n := |lines| - 1;
      LinesThread(env, s, lines[..n]);
      var before := RewriteLines(env, s, lines[..n]);
      var last := RewriteLine(env, before.state, lines[n]);
      LineThreads(env, before.state, lines[n]);
      ThreadedConcat(env, s, LinesTexts(env, lines[..n]), LineTexts(env, lines[n]));
      assert (before.lines + [last.bytes])[..n] == before.lines;
    }
  }

  // ----- Events, and those the filter lets through

  /** The guard in front of the rewrite. */
  predicate Rewritten<S>(env: Env<S>, raw: Bytes) {
    env.utf8(raw) && !ContainsBytes(raw, DONE) && ContainsBytes(raw, DATA)
  }

  /** An event that is rewritten, or carries no delta content. */
  predicate Handled<S>(env: Env<S>, raw: Bytes) {
    EventTexts(env, raw) == [] || Rewritten(env, raw)
  }

  /** The contents that a client reads in the processed event are the transformed contents. */
  predicate Threads<S(==)>(env: Env<S>, s: S, raw: Bytes) {
    var p := Process(env, s, raw);
    Thread(p.state, EventTexts(env, p.body)) == Threaded(env, s, EventTexts(env, raw))
  }

  /** The transform changes neither the texts nor its state. */
  predicate Leaves<S(==)>(env: Env<S>, s: S, texts: seq<string>) {
    Threaded(env, s, texts) == Thread(s, texts)
  }

  /** For every transform: the contents of an event are transformed exactly if the event passes the
      guard, or there is nothing to transform in it. */
  lemma EventThreads<S>(env: Env<S>, s: S, raw: Bytes)
    requires RendersNoControl(env) && ReadsBack(env)
    ensures Threads(env, s, raw) <==> Rewritten(env, raw) || Leaves(env, s, EventTexts(env, raw))
  {
    if Rewritten(env, raw) {
      var r := RewriteLines(env, s, Split(raw));
      LinesThread(env, s, Split(raw));
      if r.changed {
        RewriteLinesAlike(env, s, Split(raw));
        AlikeNoLf(Split(raw), r.lines);
        SplitJoin(r.lines);
      }
    }
  }

  /** A transform that no text survives. */
  function Marking<S>(env: Env<S>): Env<S> {
    env.(transform := (s, t) => (s, t + "!"))
  }

  lemma {:induction false} MarkingMarks<S>(env: Env<S>, s: S, texts: seq<string>)
    ensures var t := Threaded(Marking(env), s, texts);
            t.state == s && forall k | 0 <= k < |texts| :: t.outs[k] == texts[k] + "!"
    decreases |texts|
  {
    if texts != [] {
      MarkingMarks(env, s, texts[..|texts| - 1]);
    }
  }

  /** Reading does not depend on the transform. */
  lemma {:induction false} LinesTextsSame<S>(env: Env<S>, other: Env<S>, lines: seq<Bytes>)
    requires other == env.(transform := other.transform)
    ensures LinesTexts(other, lines) == LinesTexts(env, lines)
    decreases |lines|
  {
    if lines != [] {
      LinesTextsSame(env, other, lines[..|lines| - 1]);
    }
  }

  lemma SameAssumptions<S>(env: Env<S>, other: Env<S>)
    requires other == env.(transform := other.transform) && RendersNoControl(env) && ReadsBack(env)
    ensures RendersNoControl(other) && ReadsBack(other)
  {
    forall p, w | other.parse(p).Some? && Reworded(other.parse(p).value, w)
      ensures ContentsBack(other, w)
    {
      assert ContentsBack(env, w);
    }
  }

  /** An event is handled exactly if its contents are transformed, whatever the transform does. */
  lemma HandledExactly<S(!new)>(env: Env<S>, s: S, raw: Bytes)
    requires RendersNoControl(env) && ReadsBack(env)
    ensures Handled(env, raw) <==>
            forall f: (S, string) -> (S, string) :: Threads(env.(transform := f), s, raw)
  {
    forall f: (S, string) -> (S, string)
      ensures Handled(env, raw) ==> Threads(env.(transform := f), s, raw)
    {
      var other := env.(transform := f);
      LinesTextsSame(env, other, Split(raw));
      SameAssumptions(env, other);
      EventThreads(other, s, raw);
    }
    var marking := Marking(env);
    LinesTextsSame(env, marking, Split(raw));
    SameAssumptions(env, marking);
    EventThreads(marking, s, raw);
    MarkingMarks(env, s, EventTexts(env, raw));
    if !Handled(env, raw) {
      var texts := EventTexts(env, raw);
      assert texts[0] + "!" != texts[0];
      assert !Threads(env.(transform := marking.transform), s, raw);
    }
  }

  // ----- An event that gets through

  /** An event in which `[DONE]` occurs anywhere comes out verbatim and the transform does not see it. */
  lemma DonePasses<S>(env: Env<S>, s: S, before: Bytes, after: Bytes)
    ensures Process(env, s, before + DONE + after) == Event(s, before + DONE + after)
  {
    var raw := before + DONE + after;
    assert raw[|before|..][..|DONE|] == DONE;
    assert StartsWith(raw[|before|..], DONE);
  }

  /** The line around a content: `data: {"choices":[{"delta":{"content":"`, and then `"}}]}`. */
  const LEAK_BEFORE: Bytes :=
    DATA_SPACE + [123, 34, 99, 104, 111, 105, 99, 101, 115, 34, 58, 91, 123, 34, 100, 101, 108, 116, 97, 34, 58, 123,
                  34, 99, 111, 110, 116, 101, 110, 116, 34, 58, 34]

  const LEAK_AFTER: Bytes := [34, 125, 125, 93, 125]

  const LEAK: Bytes := LEAK_BEFORE + DONE + LEAK_AFTER

  const LEAK_VALUE: Json :=
    Obj(map["choices" := Arr([Obj(map["delta" := Obj(map["content" := Str("[DONE]")])])])])

  lemma LeakTexts()
    ensures LF !in LEAK
    ensures ValueTexts(LEAK_VALUE) == ["[DONE]"]
  {
    var choice := Obj(map["delta" := Obj(map["content" := Str("[DONE]")])]);
    assert [choice][..0] == [];
    assert ContentOf(choice) == Some("[DONE]");
  }

  lemma OneLine<S>(env: Env<S>, line: Bytes)
    requires LF !in line
    ensures EventTexts(env, line) == LineTexts(env, line)
  {
    var lines := [line];
    SplitLine(line);
    assert lines[..|lines| - 1] == [];
    assert LinesTexts(env, lines) == [] + LineTexts(env, line);
  }

  /** A line in which `[DONE]` occurs and one content is read is not transformed, unless the
      transform leaves the content and its own state as they are. */
  lemma DoneLinePasses<S>(env: Env<S>, s: S, before: Bytes, after: Bytes, text: string)
    requires LF !in before + DONE + after && LineTexts(env, before + DONE + after) == [text]
    ensures EventTexts(env, before + DONE + after) == [text]
    ensures Threads(env, s, before + DONE + after) <==> env.transform(s, text) == (s, text)
  {
    OneLine(env, before + DONE + after);
    DonePasses(env, s, before, after);
    ThreadedOne(env, s, text);
  }

  /** The event `data: {"choices":[{"delta":{"content":"[DONE]"}}]}`: the content comes out verbatim
      and the transform does not see it. */
  lemma DoneInContentPasses<S>(env: Env<S>, s: S)
    requires Payload(env, LEAK) == Some(LEAK_VALUE)
    ensures EventTexts(env, LEAK) == ["[DONE]"]
    ensures Process(env, s, LEAK) == Event(s, LEAK)
    ensures env.transform(s, "[DONE]") != (s, "[DONE]") ==> !Threads(env, s, LEAK)
  {
    LeakTexts();
    DonePasses(env, s, LEAK_BEFORE, LEAK_AFTER);
    DoneLinePasses(env, s, LEAK_BEFORE, LEAK_AFTER, "[DONE]");
  }

  // ----- Whole streams

  /** The transform's state after the events. */
  function StateAfter<S>(env: Env<S>, s: S, events: seq<Bytes>): S {
    if events == [] then s else StateAfter(env, Process(env, s, events[0]).state, events[1..])
  }

  predicate AllHandled<S>(env: Env<S>, events: seq<Bytes>) {
    events == [] || (Handled(env, events[0]) && AllHandled(env, events[1..]))
  }

  lemma {:induction false} EventsThread<S>(env: Env<S>, s: S, events: seq<Bytes>)
    requires RendersNoControl(env) && ReadsBack(env) && AllHandled(env, events)
    ensures Thread(StateAfter(env, s, events), EventsTexts(env, Bodies(env, s, events)))
         == Threaded(env, s, EventsTexts(env, events))
    decreases |events|
  {
    if events != [] {
      var p := Process(env, s, events[0]);
      EventThreads(env, s, events[0]);
      EventsThread(env, p.state, events[1..]);
      ThreadedConcat(env, s, EventTexts(env, events[0]), EventsTexts(env, events[1..]));
      BodiesTexts(env, s, events);
    }
  }

  lemma {:induction false} DrainState<S>(env: Env<S>, s: S, buf: Bytes)
    ensures Drain(env, s, buf).state == StateAfter(env, s, Parse(buf).events)
    decreases |buf|
  {
    match FirstEnd(buf)
    case None =>
    case Some(end) =>
      DrainState(env, Process(env, s, buf[..end.split]).state, buf[end.consumed..]);
      assert Parse(buf).events[1..] == Parse(buf[end.consumed..]).events;
  }

  /** Every event of the stream keeps the framing and is rewritten where it carries content. */
  predicate Regular<S>(env: Env<S>, buf: Bytes) {
    AllHandled(env, Parse(buf).events) && forall k | 0 <= k < |Parse(buf).events| :: Snug(Parse(buf).events[k])
  }

  /** A client finds the rewritten events, and in them the contents of the input, transformed one
      after the other with one state. */
  predicate StreamReads<S(==)>(env: Env<S>, s: S, buf: Bytes) {
    var d, f := Drain(env, s, buf), Parse(buf);
    var read := Parse(d.out + d.rest);
    && read == Frames(Bodies(env, s, f.events), f.rest)
    && Thread(d.state, EventsTexts(env, read.events)) == Threaded(env, s, EventsTexts(env, f.events))
  }

  lemma StreamThreads<S>(env: Env<S>, s: S, buf: Bytes)
    requires RendersNoControl(env) && ReadsBack(env) && Regular(env, buf)
    ensures StreamReads(env, s, buf)
  {
    FramingPreserved(env, s, buf);
    DrainState(env, s, buf);
    EventsThread(env, s, Parse(buf).events);
  }

  lemma MarkedEvent<S>(env: Env<S>, s: S, raw: Bytes)
    requires RendersNoControl(env) && ReadsBack(env)
    ensures var m, texts := Marking(env), EventTexts(env, raw);
            var p := Process(m, s, raw);
            && EventTexts(m, raw) == texts && p.state == s && |EventTexts(m, p.body)| == |texts|
            && (EventTexts(m, p.body) == Threaded(m, s, texts).outs ==> Handled(env, raw))
  {
    var m := Marking(env);
    LinesTextsSame(env, m, Split(raw));
    SameAssumptions(env, m);
    EventThreads(m, s, raw);
    MarkingMarks(env, s, EventTexts(env, raw));
    if EventTexts(env, raw) != [] {
      assert EventTexts(env, raw)[0] + "!" != EventTexts(env, raw)[0];
    }
  }

  lemma SplitEqual<T>(a: seq<T>, b: seq<T>, c: seq<T>, d: seq<T>)
    requires |a| == |c| && a + b == c + d
    ensures a == c && b == d
  {
    assert a == (a + b)[..|a|] && b == (a + b)[|a|..];
    assert c == (c + d)[..|a|] && d == (c + d)[|a|..];
  }

  lemma {:induction false} MarkedEvents<S>(env: Env<S>, s: S, events: seq<Bytes>)
    requires RendersNoControl(env) && ReadsBack(env)
    requires var m := Marking(env);
             EventsTexts(m, Bodies(m, s, events)) == Threaded(m, s, EventsTexts(m, events)).outs
    ensures AllHandled(env, events)
    decreases |events|
  {
    if events != [] {
      MarkedCons(env, s, events);
      MarkedEvents(env, s, events[1..]);
    }
  }

  lemma MarkedCons<S>(env: Env<S>, s: S, events: seq<Bytes>)
    requires RendersNoControl(env) && ReadsBack(env) && events != []
    requires var m := Marking(env);
             EventsTexts(m, Bodies(m, s, events)) == Threaded(m, s, EventsTexts(m, events)).outs
    ensures var m := Marking(env);
            && Handled(env, events[0])
            && EventsTexts(m, Bodies(m, s, events[1..])) == Threaded(m, s, EventsTexts(m, events[1..])).outs
  {
    var m, texts, later := Marking(env), EventTexts(env, events[0]), EventsTexts(Marking(env), events[1..]);
    var body, bodies := Process(m, s, events[0]).body, Bodies(m, s, events[1..]);
    MarkedEvent(env, s, events[0]);
    MarkingMarks(env, s, texts);
    ThreadedConcat(m, s, texts, later);
    BodiesTexts(m, s, events);
    SplitEqual(EventTexts(m, body), EventsTexts(m, bodies), Threaded(m, s, texts).outs, Threaded(m, s, later).outs);
  }

  lemma BodiesTexts<S>(env: Env<S>, s: S, events: seq<Bytes>)
    requires events != []
    ensures var p := Process(env, s, events[0]);
            EventsTexts(env, Bodies(env, s, events))
            == EventTexts(env, p.body) + EventsTexts(env, Bodies(env, p.state, events[1..]))
  {
    var p := Process(env, s, events[0]);
    assert Bodies(env, s, events)[1..] == Bodies(env, p.state, events[1..]);
  }

  /** For every stream: what a client reads are the transformed contents, whatever the transform
      does, if and only if no event ends in LF or CR LF CR and every event with content passes the
      guard. */
  lemma StreamExactly<S(!new)>(env: Env<S>, s: S, buf: Bytes)
    requires RendersNoControl(env) && ReadsBack(env)
    ensures Regular(env, buf) <==>
            forall f: (S, string) -> (S, string) :: StreamReads(env.(transform := f), s, buf)
  {
    if Regular(env, buf) {
      forall f: (S, string) -> (S, string)
        ensures StreamReads(env.(transform := f), s, buf)
      {
        var other := env.(transform := f);
        SameAssumptions(env, other);
        AllHandledSame(env, other, Parse(buf).events);
        StreamThreads(other, s, buf);
      }
    }
    var m := Marking(env);
    if StreamReads(env.(transform := m.transform), s, buf) {
      assert m == env.(transform := m.transform);
      SameAssumptions(env, m);
      FramingPreserved(m, s, buf);
      MarkedEvents(env, s, Parse(buf).events);
    }
  }

  lemma {:induction false} AllHandledSame<S>(env: Env<S>, other: Env<S>, events: seq<Bytes>)
    requires other == env.(transform := other.transform) && AllHandled(env, events)
    ensures AllHandled(other, events)
  {
    if events != [] {
      LinesTextsSame(env, other, Split(events[0]));
      AllHandledSame(env, other, events[1..]);
    }
  }

  // ----- With the deanonymizer as the transform

  ghost predicate Deanonymizes(env: Env<D.StreamState>, st: Strategy, entries: seq<Entry>) {
    forall s, t :: env.transform(s, t) == (D.Pushed(st, entries, s, t).state, D.Pushed(st, entries, s, t).out)
  }

  lemma {:induction false} ThreadedPushes(env: Env<D.StreamState>, st: Strategy, entries: seq<Entry>, s: D.StreamState, texts: seq<string>)
    requires Deanonymizes(env, st, entries)
    ensures var t := Threaded(env, s, texts); D.Fed(t.state, D.Concat(t.outs)) == D.PushAll(st, entries, s, texts)
    decreases |texts|
  {
    if texts != [] {
      var f := D.Pushed(st, entries, s, texts[0]);
      Cut(texts, 1);
      ThreadedConcat(env, s, texts[..1], texts[1..]);
      assert texts[..1] == [texts[0]];
      ThreadedOne(env, s, texts[0]);
      ThreadedPushes(env, st, entries, f.state, texts[1..]);
      var outs := Threaded(env, f.state, texts[1..]).outs;
      assert ([f.out] + outs)[1..] == outs;
    }
  }

  /** For every regular event stream, both strategies and every entry order, if the reply is flat:
      the contents that a client reads in the rewritten stream, and what the deanonymizer still
      holds, are the restored reply if and only if no placeholder of more than 64 bytes occurs in it. */
  lemma StreamRestores(env: Env<D.StreamState>, st: Strategy, entries: seq<Entry>, buf: Bytes)
    requires RendersNoControl(env) && ReadsBack(env) && Regular(env, buf) && Deanonymizes(env, st, entries)
    requires Flat(D.Concat(EventsTexts(env, Parse(buf).events))) && WellFormed(entries)
    ensures var d, reply := Drain(env, D.START, buf), D.Concat(EventsTexts(env, Parse(buf).events));
            D.Concat(EventsTexts(env, Parse(d.out + d.rest).events)) + d.state.pending == Restore(st, reply, entries)
            <==> D.NoLongOccurs(st, entries, reply)
  {
    var texts := EventsTexts(env, Parse(buf).events);
    StreamThreads(env, D.START, buf);
    ThreadedPushes(env, st, entries, D.START, texts);
    D.StreamEqualsBatch(st, entries, texts);
  }
}
