/** Server-sent events: re-framing a byte stream and rewriting `choices[].delta.content`.

    UTF-8 validation, whitespace trimming, the JSON parser and renderer and the content transform
    are parameters.  The transform may carry state, as the deanonymizing closure does. */
module Sse {
  import opened Options

  type Byte = b: int | 0 <= b < 256

  type Bytes = seq<Byte>

  const LF: Byte := 10
  const CR: Byte := 13
  const BLANK: Bytes := [LF, LF]

  // ----- Finding the end of an event

  datatype EventEnd = EventEnd(split: nat, consumed: nat)

  predicate LfLfAt(b: Bytes, i: nat) {
    i + 1 < |b| && b[i] == LF && b[i + 1] == LF
  }

  predicate CrLfCrLfAt(b: Bytes, i: nat) {
    i + 3 < |b| && b[i] == CR && b[i + 1] == LF && b[i + 2] == CR && b[i + 3] == LF
  }

  predicate EndsAt(b: Bytes, i: nat) {
    LfLfAt(b, i) || CrLfCrLfAt(b, i)
  }

  /** The end of the first event, if the buffer holds a terminator. */
  predicate IsFirstEnd(b: Bytes, e: EventEnd) {
    && EndsAt(b, e.split)
    && (forall i: nat | i < e.split :: !EndsAt(b, i))
    && e.consumed == e.split + (if LfLfAt(b, e.split) then 2 else 4)
  }

  predicate NoEnd(b: Bytes) {
    forall i: nat | i < |b| :: !EndsAt(b, i)
  }

  function FindFrom(b: Bytes, i: nat): (r: Option<EventEnd>)
    requires forall k: nat | k < i :: !EndsAt(b, k)
    ensures r.Some? ==> IsFirstEnd(b, r.value) && r.value.consumed <= |b|
    ensures r.None? ==> NoEnd(b)
    decreases |b| - i
  {
    if i + 1 >= |b| then None
    else if LfLfAt(b, i) then Some(EventEnd(i, i + 2))
    else if CrLfCrLfAt(b, i) then Some(EventEnd(i, i + 4))
    else FindFrom(b, i + 1)
  }

  function FirstEnd(b: Bytes): (r: Option<EventEnd>)
    ensures r.Some? ==> IsFirstEnd(b, r.value) && r.value.consumed <= |b|
    ensures r.None? ==> NoEnd(b)
  {
    FindFrom(b, 0)
  }

  lemma FirstEndUnique(b: Bytes, e: EventEnd)
    requires IsFirstEnd(b, e)
    ensures FirstEnd(b) == Some(e)
  {
    assert EndsAt(b, e.split) && e.split < |b|;
  }

  method FindEventEnd(buf: Bytes) returns (r: Option<EventEnd>)
    ensures r == FirstEnd(buf)
  {
    var i := 0;
    while i + 1 < |buf|
      invariant 0 <= i
      invariant forall k: nat | k < i :: !EndsAt(buf, k)
    {
      if buf[i] == LF && buf[i + 1] == LF {
        FirstEndUnique(buf, EventEnd(i, i + 2));
        return Some(EventEnd(i, i + 2));
      }
      if i + 3 < |buf| && buf[i..i + 4] == [CR, LF, CR, LF] {
        CrLfSlice(buf, i);
        FirstEndUnique(buf, EventEnd(i, i + 4));
        return Some(EventEnd(i, i + 4));
      }
      CrLfSlice(buf, i);
      i := i + 1;
    }
    return None;
  }

  lemma CrLfSlice(b: Bytes, i: nat)
    ensures CrLfCrLfAt(b, i) <==> i + 3 < |b| && b[i..i + 4] == [CR, LF, CR, LF]
  {
    if i + 3 < |b| {
      var w := b[i..i + 4];
      assert w[0] == b[i] && w[1] == b[i + 1] && w[2] == b[i + 2] && w[3] == b[i + 3];
      assert w == [w[0], w[1], w[2], w[3]];
    }
  }

  /** A terminator that was found stays the first one when more bytes arrive. */
  lemma FirstEndStable(b: Bytes, x: Bytes, e: EventEnd)
    requires IsFirstEnd(b, e)
    ensures IsFirstEnd(b + x, e)
  {
    var c := b + x;
    forall i: nat | i < e.split
      ensures !EndsAt(c, i)
    {
      assert !EndsAt(b, i);
    }
  }

  // ----- JSON values and the content rewrite

  datatype Json =
    | Null
    | Bool(b: bool)
    | Number(text: string)
    | Str(s: string)
    | Arr(items: seq<Json>)
    | Obj(fields: map<string, Json>)

  function Get(j: Json, name: string): Option<Json> {
    if j.Obj? && name in j.fields then Some(j.fields[name]) else None
  }

  function Set(j: Json, name: string, v: Json): Json
    requires j.Obj?
  {
    Obj(j.fields[name := v])
  }

  datatype Env<!S> = Env(
    utf8: Bytes -> bool,
    trimStart: Bytes -> Bytes,
    parse: Bytes -> Option<Json>,
    render: Json -> Bytes,
    transform: (S, string) -> (S, string))

  datatype Filtered<S> = Filtered(state: S, val: Json, changed: bool)

  /** `choices[i].delta.content`, when it is there and a string. */
  function ContentOf(choice: Json): Option<string> {
    match Get(choice, "delta")
    case None => None
    case Some(delta) =>
      match Get(delta, "content")
      case Some(Str(text)) => Some(text)
      case _ => None
  }

  function FilterChoice<S>(env: Env<S>, s: S, choice: Json): Filtered<S> {
    match ContentOf(choice)
    case None => Filtered(s, choice, false)
    case Some(text) =>
      var (s', filtered) := env.transform(s, text);
      if filtered == text then Filtered(s', choice, false)
      else
        var delta := Get(choice, "delta").value;
        Filtered(s', Set(choice, "delta", Set(delta, "content", Str(filtered))), true)
  }

  datatype FilteredAll<S> = FilteredAll(state: S, vals: seq<Json>, changed: bool)

  function FilterChoices<S>(env: Env<S>, s: S, choices: seq<Json>): FilteredAll<S>
    decreases |choices|
  {
    if choices == [] then FilteredAll(s, [], false)
    else
      var n := |choices| - 1;
      var before := FilterChoices(env, s, choices[..n]);
      var last := FilterChoice(env, before.state, choices[n]);
      FilteredAll(last.state, before.vals + [last.val], before.changed || last.changed)
  }

  function FilterDelta<S>(env: Env<S>, s: S, val: Json): Filtered<S> {
    match Get(val, "choices")
    case Some(Arr(choices)) =>
      var f := FilterChoices(env, s, choices);
      Filtered(f.state, Set(val, "choices", Arr(f.vals)), f.changed)
    case _ => Filtered(s, val, false)
  }

  // ----- Lines of an event

  function Split(b: Bytes): (lines: seq<Bytes>)
    ensures lines != []
    ensures forall k | 0 <= k < |lines| :: LF !in lines[k]
    ensures Join(lines) == b
  {
    if b == [] then [[]]
    else if b[0] == LF then [[]] + Split(b[1..])
    else
      var rest := Split(b[1..]);
      [[b[0]] + rest[0]] + rest[1..]
  }

  function Join(lines: seq<Bytes>): Bytes
    requires lines != []
  {
    if |lines| == 1 then lines[0] else lines[0] + [LF] + Join(lines[1..])
  }

  predicate StartsWith(b: Bytes, p: Bytes) {
    |p| <= |b| && b[..|p|] == p
  }

  predicate ContainsBytes(b: Bytes, p: Bytes) {
    exists i | 0 <= i <= |b| :: StartsWith(b[i..], p)
  }

  const DATA: Bytes := [100, 97, 116, 97, 58]                // "data:"
  const DATA_SPACE: Bytes := [100, 97, 116, 97, 58, 32]      // "data: "
  const DONE: Bytes := [91, 68, 79, 78, 69, 93]              // "[DONE]"

  predicate EndsCr(line: Bytes) {
    line != [] && line[|line| - 1] == CR
  }

  function StripCr(line: Bytes): Bytes {
    if EndsCr(line) then line[..|line| - 1] else line
  }

  datatype Line<S> = Line(state: S, bytes: Bytes, changed: bool)

  function RewriteLine<S>(env: Env<S>, s: S, line: Bytes): Line<S> {
    var work := StripCr(line);
    if !StartsWith(work, DATA) then Line(s, line, false)
    else
      var payload := env.trimStart(work[|DATA|..]);
      if payload == DONE || payload == [] then Line(s, line, false)
      else
        match env.parse(payload)
        case None => Line(s, line, false)
        case Some(val) =>
          var f := FilterDelta(env, s, val);
          Line(f.state, DATA_SPACE + env.render(f.val) + (if EndsCr(line) then [CR] else []), f.changed)
  }

  datatype Lines<S> = Lines(state: S, lines: seq<Bytes>, changed: bool)

  function RewriteLines<S>(env: Env<S>, s: S, lines: seq<Bytes>): (r: Lines<S>)
    ensures |r.lines| == |lines|
    decreases |lines|
  {
    if lines == [] then Lines(s, [], false)
    else
      var n := |lines| - 1;
      var before := RewriteLines(env, s, lines[..n]);
      var last := RewriteLine(env, before.state, lines[n]);
      Lines(last.state, before.lines + [last.bytes], before.changed || last.changed)
  }

  datatype Event<S> = Event(state: S, body: Bytes)

  /** The rewritten event, without its blank line. */
  function Process<S>(env: Env<S>, s: S, raw: Bytes): Event<S> {
    if !env.utf8(raw) || ContainsBytes(raw, DONE) || !ContainsBytes(raw, DATA) then Event(s, raw)
    else
      var r := RewriteLines(env, s, Split(raw));
      Event(r.state, if r.changed then Join(r.lines) else raw)
  }

  // ----- The filter as it is programmed

  datatype Drained<S> = Drained(state: S, out: Bytes, rest: Bytes)

  /** All complete events of a buffer, processed in order, and what is left. */
  function Drain<S>(env: Env<S>, s: S, buf: Bytes): Drained<S>
    decreases |buf|
  {
    match FirstEnd(buf)
    case None => Drained(s, [], buf)
    case Some(end) =>
      var p := Process(env, s, buf[..end.split]);
      var d := Drain(env, p.state, buf[end.consumed..]);
      Drained(d.state, p.body + BLANK + d.out, d.rest)
  }

  lemma {:induction false} JoinSnoc(lines: seq<Bytes>, line: Bytes)
    ensures Join(lines + [line]) == if lines == [] then line else Join(lines) + [LF] + line
  {
    if lines == [] {
      assert lines + [line] == [line];
    } else {
      assert (lines + [line])[1..] == lines[1..] + [line];
      JoinSnoc(lines[1..], line);
      if |lines| == 1 {
        assert lines[1..] == [];
      } else {
        assert lines[0] + [LF] + (Join(lines[1..]) + [LF] + line) == (lines[0] + [LF] + Join(lines[1..])) + [LF] + line;
      }
    }
  }

  class SseFilter<S> {
    var buffer: Bytes
    var state: S
    const env: Env<S>

    constructor (env: Env<S>, state: S)
      ensures this.env == env && this.state == state && buffer == []
    {
      this.env, this.state := env, state;
      buffer := [];
    }

    method FilterDeltaContent(val: Json) returns (out: Json, changed: bool)
      modifies this`state
      ensures Filtered(state, out, changed) == FilterDelta(env, old(state), val)
    {
      var choices := Get(val, "choices");
      if !(choices.Some? && choices.value.Arr?) {
        return val, false;
      }
      var items, done := choices.value.items, [];
      changed := false;
      for i := 0 to |items|
        invariant FilteredAll(state, done, changed) == FilterChoices(env, old(state), items[..i])
      {
        assert items[..i + 1][..i] == items[..i];
        var choice := items[i];
        var content := ContentOf(choice);
        if content.Some? {
          var (s, filtered) := env.transform(state, content.value);
          state := s;
          if filtered != content.value {
            choice := Set(choice, "delta", Set(Get(choice, "delta").value, "content", Str(filtered)));
            changed := true;
          }
        }
        done := done + [choice];
      }
      assert items[..|items|] == items;
      out := Set(val, "choices", Arr(done));
    }

    method ProcessEvent(raw: Bytes) returns (out: Bytes)
      modifies this`state
      ensures out == Process(env, old(state), raw).body + BLANK
      ensures state == Process(env, old(state), raw).state
    {
      if !env.utf8(raw) || ContainsBytes(raw, DONE) || !ContainsBytes(raw, DATA) {
        return raw + BLANK;
      }
      var lines := Split(raw);
      var rebuilt, changed := [], false;
      ghost var done: seq<Bytes> := [];
      for i := 0 to |lines|
        invariant Lines(state, done, changed) == RewriteLines(env, old(state), lines[..i])
        invariant rebuilt == if i == 0 then [] else Join(done)
      {
        assert lines[..i + 1][..i] == lines[..i];
        if i > 0 {
          rebuilt := rebuilt + [LF];
        }
        var line, c := ProcessLine(lines[i]);
        JoinSnoc(done, line);
        rebuilt := rebuilt + line;
        done, changed := done + [line], changed || c;
      }
      assert lines[..|lines|] == lines;
      out := (if changed then rebuilt else raw) + BLANK;
    }

    method ProcessLine(line: Bytes) returns (out: Bytes, changed: bool)
      modifies this`state
      ensures Line(state, out, changed) == RewriteLine(env, old(state), line)
    {
      var work := StripCr(line);
      if StartsWith(work, DATA) {
        var payload := env.trimStart(work[|DATA|..]);
        if payload == DONE || payload == [] {
          return line, false;
        }
        var parsed := env.parse(payload);
        if parsed.Some? {
          var val;
          val, changed := FilterDeltaContent(parsed.value);
          out := DATA_SPACE + env.render(val);
          if EndsCr(line) {
            out := out + [CR];
          }
          return;
        }
      }
      return line, false;
    }

    method Push(chunk: Bytes) returns (out: Bytes)
      modifies this
      ensures Drained(state, out, buffer) == Drain(env, old(state), old(buffer) + chunk)
    {
      buffer := buffer + chunk;
      out := [];
      ghost var d := Drain(env, state, buffer);
      var end := FindEventEnd(buffer);
      while end.Some?
        invariant end == FirstEnd(buffer)
        invariant var rest := Drain(env, state, buffer); d == Drained(rest.state, out + rest.out, rest.rest)
        decreases |buffer|
      {
        ghost var rest := Drain(env, Process(env, state, buffer[..end.value.split]).state, buffer[end.value.consumed..]);
        var processed := ProcessEvent(buffer[..end.value.split]);
        assert out + (processed + rest.out) == (out + processed) + rest.out;
        out := out + processed;
        buffer := buffer[end.value.consumed..];
        end := FindEventEnd(buffer);
      }
    }

    method Flush() returns (tail: Bytes)
      modifies this`buffer
      ensures tail == old(buffer) && buffer == []
    {
      tail := buffer;
      buffer := [];
    }
  }
}
