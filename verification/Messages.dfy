/** The walker over a chat request: `messages[].content`, either a string or a list of parts. */
module Messages {
  import opened Seqs
  import opened Brackets
  import opened Deanonymize
  import opened Vault
  import opened Redact
  import opened RoundTrip

  /** `rest` stands for all other fields. */
  datatype Part = TextPart(text: string, rest: string) | OtherPart(rest: string)

  datatype Content = Missing | Text(text: string) | Parts(parts: seq<Part>) | OtherContent(json: string)

  datatype Message = Message(content: Content, rest: string)

  function PartTexts(parts: seq<Part>): seq<string> {
    if parts == [] then []
    else (if parts[0].TextPart? then [parts[0].text] else []) + PartTexts(parts[1..])
  }

  function ContentTexts(c: Content): seq<string> {
    match c
    case Text(t) => [t]
    case Parts(ps) => PartTexts(ps)
    case _ => []
  }

  /** Every text field of the request, in document order. */
  function Texts(body: seq<Message>): seq<string> {
    if body == [] then [] else ContentTexts(body[0].content) + Texts(body[1..])
  }

  // ----- Changing nothing but texts

  function MapParts(f: string -> string, parts: seq<Part>): seq<Part> {
    if parts == [] then []
    else [if parts[0].TextPart? then parts[0].(text := f(parts[0].text)) else parts[0]] + MapParts(f, parts[1..])
  }

  function MapContent(f: string -> string, c: Content): Content {
    match c
    case Text(t) => Text(f(t))
    case Parts(ps) => Parts(MapParts(f, ps))
    case _ => c
  }

  /** The request with `f` applied to every text. */
  function MapTexts(f: string -> string, body: seq<Message>): seq<Message> {
    if body == [] then [] else [Message(MapContent(f, body[0].content), body[0].rest)] + MapTexts(f, body[1..])
  }

  const BLANK: string -> string := (t: string) => ""

  /** All of the request but its texts. */
  function Frame(body: seq<Message>): seq<Message> {
    MapTexts(BLANK, body)
  }

  lemma {:induction false} PartsDetermined(a: seq<Part>, b: seq<Part>)
    requires MapParts(BLANK, a) == MapParts(BLANK, b)
    ensures |a| == |b| && |PartTexts(a)| == |PartTexts(b)|
    ensures PartTexts(a) == PartTexts(b) ==> a == b
    decreases |a|
  {
    if a != [] {
      PartsTail(a, b);
      PartsDetermined(a[1..], b[1..]);
      var ta, tb := if a[0].TextPart? then [a[0].text] else [], if b[0].TextPart? then [b[0].text] else [];
      SplitEqual(ta, PartTexts(a[1..]), tb, PartTexts(b[1..]));
      Cut(a, 1);
      Cut(b, 1);
    }
  }

  lemma PartsTail(a: seq<Part>, b: seq<Part>)
    requires MapParts(BLANK, a) == MapParts(BLANK, b) && a != []
    ensures b != [] && MapParts(BLANK, a[1..]) == MapParts(BLANK, b[1..])
    ensures a[0].TextPart? == b[0].TextPart? && a[0].rest == b[0].rest
  {
    var fa, fb := MapParts(BLANK, a), MapParts(BLANK, b);
    assert fa[0] == fb[0];
    assert fa[1..] == MapParts(BLANK, a[1..]) && fb[1..] == MapParts(BLANK, b[1..]);
  }

  lemma SplitEqual<T>(a: seq<T>, x: seq<T>, b: seq<T>, y: seq<T>)
    requires |a| == |b|
    ensures a + x == b + y ==> a == b && x == y
  {
    if a + x == b + y {
      assert (a + x)[..|a|] == a && (b + y)[..|a|] == b;
      assert (a + x)[|a|..] == x && (b + y)[|a|..] == y;
    }
  }

  /** Two requests with the same frame and the same texts are the same. */
  lemma {:induction false} Determined(a: seq<Message>, b: seq<Message>)
    requires Frame(a) == Frame(b)
    ensures |a| == |b| && |Texts(a)| == |Texts(b)|
    ensures Texts(a) == Texts(b) ==> a == b
    decreases |a|
  {
    if a != [] {
      FrameTail(a, b);
      Determined(a[1..], b[1..]);
      ContentDetermined(a[0].content, b[0].content);
      SplitEqual(ContentTexts(a[0].content), Texts(a[1..]), ContentTexts(b[0].content), Texts(b[1..]));
      Cut(a, 1);
      Cut(b, 1);
    }
  }

  lemma FrameTail(a: seq<Message>, b: seq<Message>)
    requires Frame(a) == Frame(b) && a != []
    ensures b != [] && Frame(a[1..]) == Frame(b[1..])
    ensures MapContent(BLANK, a[0].content) == MapContent(BLANK, b[0].content) && a[0].rest == b[0].rest
  {
    assert Frame(a)[0] == Frame(b)[0];
    assert Frame(a)[1..] == Frame(a[1..]) && Frame(b)[1..] == Frame(b[1..]);
  }

  lemma ContentDetermined(a: Content, b: Content)
    requires MapContent(BLANK, a) == MapContent(BLANK, b)
    ensures |ContentTexts(a)| == |ContentTexts(b)|
    ensures ContentTexts(a) == ContentTexts(b) ==> a == b
  {
    if a.Parts? {
      PartsDetermined(a.parts, b.parts);
    }
  }

  lemma {:induction false} PartsMapped(f: string -> string, parts: seq<Part>)
    ensures MapParts(BLANK, MapParts(f, parts)) == MapParts(BLANK, parts)
    ensures |PartTexts(MapParts(f, parts))| == |PartTexts(parts)|
    ensures forall i | 0 <= i < |PartTexts(parts)| :: PartTexts(MapParts(f, parts))[i] == f(PartTexts(parts)[i])
    decreases |parts|
  {
    if parts != [] {
      PartsMapped(f, parts[1..]);
      assert MapParts(f, parts)[1..] == MapParts(f, parts[1..]);
    }
  }

  lemma ContentMapped(f: string -> string, c: Content)
    ensures MapContent(BLANK, MapContent(f, c)) == MapContent(BLANK, c)
    ensures |ContentTexts(MapContent(f, c))| == |ContentTexts(c)|
    ensures forall i | 0 <= i < |ContentTexts(c)| :: ContentTexts(MapContent(f, c))[i] == f(ContentTexts(c)[i])
  {
    if c.Parts? {
      PartsMapped(f, c.parts);
    }
  }

  lemma EachConcat(f: string -> string, a: seq<string>, fa: seq<string>, b: seq<string>, fb: seq<string>)
    requires |fa| == |a| && forall i | 0 <= i < |a| :: fa[i] == f(a[i])
    requires |fb| == |b| && forall i | 0 <= i < |b| :: fb[i] == f(b[i])
    ensures |fa + fb| == |a + b| && forall i | 0 <= i < |a + b| :: (fa + fb)[i] == f((a + b)[i])
  {
  }

  /** Applying a function to every text changes the texts and nothing else. */
  lemma {:induction false} Mapped(f: string -> string, body: seq<Message>)
    ensures Frame(MapTexts(f, body)) == Frame(body)
    ensures |Texts(MapTexts(f, body))| == |Texts(body)|
    ensures forall i | 0 <= i < |Texts(body)| :: Texts(MapTexts(f, body))[i] == f(Texts(body)[i])
    decreases |body|
  {
    if body != [] {
      Mapped(f, body[1..]);
      ContentMapped(f, body[0].content);
      assert MapTexts(f, body)[1..] == MapTexts(f, body[1..]);
      EachConcat(f, ContentTexts(body[0].content), ContentTexts(MapContent(f, body[0].content)),
                 Texts(body[1..]), Texts(MapTexts(f, body[1..])));
    }
  }

  // ----- Appending to what is done

  lemma {:induction false} PartsConcat(a: seq<Part>, b: seq<Part>)
    ensures PartTexts(a + b) == PartTexts(a) + PartTexts(b)
    ensures MapParts(BLANK, a + b) == MapParts(BLANK, a) + MapParts(BLANK, b)
    decreases |a|
  {
    if a == [] {
      assert a + b == b;
    } else {
      PartsConcat(a[1..], b);
      HeadTail(a, b);
      Assoc(if a[0].TextPart? then [a[0].text] else [], PartTexts(a[1..]), PartTexts(b));
    }
  }

  lemma OnePart(p: Part)
    ensures PartTexts([p]) == if p.TextPart? then [p.text] else []
    ensures MapParts(BLANK, [p]) == [if p.TextPart? then p.(text := "") else p]
  {
    assert [p][1..] == [];
  }

  lemma {:induction false} TextsConcat(a: seq<Message>, b: seq<Message>)
    ensures Texts(a + b) == Texts(a) + Texts(b) && Frame(a + b) == Frame(a) + Frame(b)
    decreases |a|
  {
    if a == [] {
      assert a + b == b;
    } else {
      TextsConcat(a[1..], b);
      HeadTail(a, b);
      Assoc(ContentTexts(a[0].content), Texts(a[1..]), Texts(b));
    }
  }

  lemma OneMessage(msg: Message)
    ensures Texts([msg]) == ContentTexts(msg.content)
    ensures Frame([msg]) == [Message(MapContent(BLANK, msg.content), msg.rest)]
  {
    assert [msg][1..] == [] && MapTexts(BLANK, []) == [];
    Whole([Message(MapContent(BLANK, msg.content), msg.rest)]);
    Whole(ContentTexts(msg.content));
  }

  lemma {:induction false} RedactAllConcat(v: VaultState, rules: seq<Rule>, entities: set<string>, a: seq<string>, b: seq<string>)
    requires RulesOk(rules)
    ensures var first := RedactAll(v, rules, entities, a);
            var rest := RedactAll(first.vault, rules, entities, b);
            RedactAll(v, rules, entities, a + b) == Conversation(rest.vault, first.texts + rest.texts)
    decreases |a|
  {
    if a == [] {
      assert a + b == b;
    } else {
      HeadTail(a, b);
      RedactAllConcat(ApplyRules(v, rules, entities, a[0]).vault, rules, entities, a[1..], b);
    }
  }

  lemma RedactAllOne(v: VaultState, rules: seq<Rule>, entities: set<string>, t: string)
    requires RulesOk(rules)
    ensures var r := ApplyRules(v, rules, entities, t);
            RedactAll(v, rules, entities, [t]) == Conversation(r.vault, [r.text])
  {
    var r := ApplyRules(v, rules, entities, t);
    assert [t][1..] == [];
    assert RedactAll(r.vault, rules, entities, []) == Conversation(r.vault, []);
  }

  lemma AppendDiffers<T>(a: seq<T>, b: seq<T>, x: T, y: T)
    requires |a| == |b|
    ensures a + [x] == b + [y] <==> a == b && x == y
  {
    if a + [x] == b + [y] {
      assert (a + [x])[..|a|] == a && (b + [y])[..|a|] == b;
      assert (a + [x])[|a|] == x && (b + [y])[|a|] == y;
    }
  }

  // ----- The walker

  method RedactParts(rules: seq<Rule>, parts: seq<Part>, entities: set<string>, vault: LocalVault)
    returns (out: seq<Part>, changed: bool)
    requires RulesOk(rules)
    modifies vault
    ensures MapParts(BLANK, out) == MapParts(BLANK, parts)
    ensures Conversation(vault.State(), PartTexts(out)) == RedactAll(old(vault.State()), rules, entities, PartTexts(parts))
    ensures changed <==> out != parts
  {
    out, changed := [], false;
    ghost var v0 := vault.State();
    for i := 0 to |parts|
      invariant |out| == i && MapParts(BLANK, out) == MapParts(BLANK, parts[..i])
      invariant Conversation(vault.State(), PartTexts(out)) == RedactAll(v0, rules, entities, PartTexts(parts[..i]))
      invariant changed <==> out != parts[..i]
    {
      var part := parts[i];
      ghost var before := vault.State();
      if part.TextPart? {
        var redacted := RedactTextWithVault(rules, part.text, entities, vault);
        if redacted != part.text {
          part := part.(text := redacted);
          changed := true;
        }
      }
      ExtendParts(v0, before, vault.State(), rules, entities, parts, out, part, i);
      AppendDiffers(out, parts[..i], part, parts[i]);
      Advance(parts, i);
      out := out + [part];
    }
    Whole(parts);
  }

  lemma ExtendParts(v0: VaultState, v1: VaultState, v2: VaultState, rules: seq<Rule>, entities: set<string>,
                    parts: seq<Part>, out: seq<Part>, part: Part, i: nat)
    requires RulesOk(rules) && i < |parts|
    requires MapParts(BLANK, out) == MapParts(BLANK, parts[..i])
    requires Conversation(v1, PartTexts(out)) == RedactAll(v0, rules, entities, PartTexts(parts[..i]))
    requires if parts[i].TextPart? then
               var r := ApplyRules(v1, rules, entities, parts[i].text); v2 == r.vault && part == parts[i].(text := r.text)
             else v2 == v1 && part == parts[i]
    ensures MapParts(BLANK, out + [part]) == MapParts(BLANK, parts[..i + 1])
    ensures Conversation(v2, PartTexts(out + [part])) == RedactAll(v0, rules, entities, PartTexts(parts[..i + 1]))
  {
    Advance(parts, i);
    PartsConcat(parts[..i], [parts[i]]);
    PartsConcat(out, [part]);
    OnePart(parts[i]);
    OnePart(part);
    if parts[i].TextPart? {
      RedactAllOne(v1, rules, entities, parts[i].text);
    } else {
      Whole(PartTexts(out));
    }
    RedactAllConcat(v0, rules, entities, PartTexts(parts[..i]), PartTexts([parts[i]]));
  }

  /** The whole request: every text field redacted in document order with one vault, everything else
      untouched, and the result says whether anything changed. */
  method RedactMessagesWithVault(rules: seq<Rule>, body: seq<Message>, entities: set<string>, vault: LocalVault)
    returns (out: seq<Message>, changed: bool)
    requires RulesOk(rules)
    modifies vault
    ensures Frame(out) == Frame(body)
    ensures Conversation(vault.State(), Texts(out)) == RedactAll(old(vault.State()), rules, entities, Texts(body))
    ensures changed <==> out != body
  {
    out, changed := [], false;
    ghost var v0 := vault.State();
    for i := 0 to |body|
      invariant |out| == i && Frame(out) == Frame(body[..i])
      invariant Conversation(vault.State(), Texts(out)) == RedactAll(v0, rules, entities, Texts(body[..i]))
      invariant changed <==> out != body[..i]
    {
      ghost var before := vault.State();
      var content, c := RedactContent(rules, body[i].content, entities, vault);
      var msg := body[i].(content := content);
      Extend(v0, before, vault.State(), rules, entities, body, out, msg, i);
      AppendDiffers(out, body[..i], msg, body[i]);
      Advance(body, i);
      out, changed := out + [msg], changed || c;
    }
    Whole(body);
  }

  method RedactContent(rules: seq<Rule>, content: Content, entities: set<string>, vault: LocalVault)
    returns (out: Content, changed: bool)
    requires RulesOk(rules)
    modifies vault
    ensures MapContent(BLANK, out) == MapContent(BLANK, content)
    ensures Conversation(vault.State(), ContentTexts(out)) == RedactAll(old(vault.State()), rules, entities, ContentTexts(content))
    ensures changed <==> out != content
  {
    out, changed := content, false;
    match content
    case Text(text) =>
      RedactAllOne(vault.State(), rules, entities, text);
      var redacted := RedactTextWithVault(rules, text, entities, vault);
      if redacted != text {
        out := Text(redacted);
        changed := true;
      }
    case Parts(parts) =>
      var redacted;
      redacted, changed := RedactParts(rules, parts, entities, vault);
      out := Parts(redacted);
    case _ =>
  }

  lemma Extend(v0: VaultState, v1: VaultState, v2: VaultState, rules: seq<Rule>, entities: set<string>,
               body: seq<Message>, out: seq<Message>, msg: Message, i: nat)
    requires RulesOk(rules) && i < |body| && Frame(out) == Frame(body[..i])
    requires MapContent(BLANK, msg.content) == MapContent(BLANK, body[i].content) && msg.rest == body[i].rest
    requires Conversation(v1, Texts(out)) == RedactAll(v0, rules, entities, Texts(body[..i]))
    requires Conversation(v2, ContentTexts(msg.content)) == RedactAll(v1, rules, entities, ContentTexts(body[i].content))
    ensures Frame(out + [msg]) == Frame(body[..i + 1])
    ensures Conversation(v2, Texts(out + [msg])) == RedactAll(v0, rules, entities, Texts(body[..i + 1]))
  {
    Advance(body, i);
    TextsConcat(body[..i], [body[i]]);
    TextsConcat(out, [msg]);
    OneMessage(body[i]);
    OneMessage(msg);
    RedactAllConcat(v0, rules, entities, Texts(body[..i]), Texts([body[i]]));
  }

  // ----- The round trip of a request

  /** Restoring every text of the redacted request gives the request back, field for field, in every
      entry order, if no rule matches into a placeholder. */
  lemma RequestRoundTrip(st: Strategy, style: Template, rules: seq<Rule>, entities: set<string>, body: seq<Message>,
                         out: seq<Message>, entries: seq<Entry>)
    requires RulesOk(rules) && EntitiesBracketFree(rules) && (st.Exact? || CaseDistinct(entities))
    requires forall i | 0 <= i < |Texts(body)| :: BracketFree(Texts(body)[i])
    requires CleanConversation(Empty(style), rules, entities, Texts(body))
    requires var c := RedactAll(Empty(style), rules, entities, Texts(body));
             Frame(out) == Frame(body) && Texts(out) == c.texts && Lists(entries, c.vault.entries)
    ensures MapTexts(t => Restore(st, t, entries), out) == body
  {
    var f := t => Restore(st, t, entries);
    var back := MapTexts(f, out);
    Mapped(f, out);
    Determined(back, body);
    forall i | 0 <= i < |Texts(body)|
      ensures Texts(back)[i] == Texts(body)[i]
    {
      RoundTrip.RoundTrip(st, style, rules, entities, Texts(body), i, entries);
    }
  }
}
