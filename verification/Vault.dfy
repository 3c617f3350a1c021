/** The per-request vault: placeholder issuing and lookup. */
module Vault {
  import opened Seqs
  import opened Options
  import opened Brackets

  datatype Template = LlmGuard | Indexed

  // ----- Placeholder format

  function Decimal(n: nat): (s: string)
    ensures s != ""
    ensures forall i | 0 <= i < |s| :: '0' <= s[i] <= '9'
  {
    var digit := ['0' as int as char + (n % 10) as char];
    if n < 10 then digit else Decimal(n / 10) + digit
  }

  function DecimalValue(s: string): int {
    if s == "" then 0 else 10 * DecimalValue(s[..|s| - 1]) + (s[|s| - 1] as int - '0' as int)
  }

  lemma {:induction false} DecimalRoundTrip(n: nat)
    ensures DecimalValue(Decimal(n)) == n
  {
    var s := Decimal(n);
    if n < 10 {
      assert s[..|s| - 1] == "";
    } else {
      DecimalRoundTrip(n / 10);
      assert s[..|s| - 1] == Decimal(n / 10);
    }
  }

  function Prefix(style: Template): string {
    match style
    case LlmGuard => "[REDACTED_"
    case Indexed => "["
  }

  function Format(style: Template, entity: string, idx: nat): string {
    Prefix(style) + entity + "_" + Decimal(idx) + "]"
  }

  /** The text of a placeholder, per style. */
  lemma PlaceholderText(entity: string, idx: nat)
    ensures Format(LlmGuard, entity, idx) == "[REDACTED_" + entity + "_" + Decimal(idx) + "]"
    ensures Format(Indexed, entity, idx) == "[" + entity + "_" + Decimal(idx) + "]"
    ensures Format(LlmGuard, "EMAIL", 1) == "[REDACTED_EMAIL_1]" && Format(Indexed, "EMAIL", 12) == "[EMAIL_12]"
  {
    assert Decimal(1) == "1" && Decimal(12) == "12";
  }

  /** Decimals are written without leading zeros. */
  lemma {:induction false} DecimalCanonical(n: nat)
    ensures Decimal(n)[0] == '0' <==> n == 0
  {
    if n >= 10 {
      DecimalCanonical(n / 10);
    }
  }

  lemma SuffixAfterUnderscore(a: string, b: string, c: string, d: string)
    requires a + "_" + b == c + "_" + d && '_' !in b && '_' !in d
    ensures a == c && b == d
  {
    var s := a + "_" + b;
    assert s[|a|] == '_' && s[|c|] == '_';
    assert forall i | |a| < i < |s| :: s[i] == b[i - |a| - 1];
    assert forall i | |c| < i < |s| :: s[i] == d[i - |c| - 1];
    assert |a| == |c|;
    assert a == s[..|a|] && c == s[..|a|];
    assert b == s[|a| + 1..] && d == s[|a| + 1..];
  }

  /** `[e_n]` determines `e` and `n`, also for entity names with underscores or digits. */
  lemma FormatInjective(style: Template, e1: string, n1: nat, e2: string, n2: nat)
    requires Format(style, e1, n1) == Format(style, e2, n2)
    ensures e1 == e2 && n1 == n2
  {
    var p := Prefix(style);
    var x, y := e1 + "_" + Decimal(n1), e2 + "_" + Decimal(n2);
    assert Format(style, e1, n1) == p + x + "]";
    assert Format(style, e2, n2) == p + y + "]";
    var f := p + x + "]";
    assert |x| == |y|;
    assert f[|p|..|f| - 1] == x && f[|p|..|f| - 1] == y;
    SuffixAfterUnderscore(e1, Decimal(n1), e2, Decimal(n2));
    DecimalRoundTrip(n1);
    DecimalRoundTrip(n2);
  }

  lemma EncloseIsWindow(body: string)
    requires BracketFree(body)
    ensures IsWindow("[" + body + "]")
  {
    var w := "[" + body + "]";
    assert w[1..|w| - 1] == body;
  }

  /** Placeholders of bracket-free entities are windows. */
  lemma FormatIsWindow(style: Template, entity: string, idx: nat)
    requires BracketFree(entity)
    ensures IsWindow(Format(style, entity, idx))
  {
    var head := Prefix(style)[1..];
    PrefixOpens(style);
    FormatBody(head, entity, Decimal(idx));
  }

  lemma PrefixOpens(style: Template)
    ensures Prefix(style) == "[" + Prefix(style)[1..] && BracketFree(Prefix(style)[1..])
  {
  }

  lemma FormatBody(head: string, entity: string, digits: string)
    requires BracketFree(head) && BracketFree(entity) && BracketFree(digits)
    ensures IsWindow("[" + head + entity + "_" + digits + "]")
  {
    var body := head + entity + "_" + digits;
    assert "[" + head + entity + "_" + digits + "]" == "[" + body + "]";
    EncloseIsWindow(body);
  }

  // ----- State and operations

  datatype VaultState = VaultState(
    style: Template,
    entries: map<string, string>,
    seen: map<(string, string), nat>,
    next: map<string, nat>)

  function Empty(style: Template): VaultState {
    VaultState(style, map[], map[], map[])
  }

  datatype Stored = Stored(vault: VaultState, placeholder: string)

  function Issue(v: VaultState, entity: string, original: string): Stored {
    var key := (entity, original);
    var counter := (if entity in v.next then v.next[entity] else 0) + 1;
    var idx := if key in v.seen then v.seen[key] else counter;
    var seen := if key in v.seen then v.seen else v.seen[key := counter];
    var next := if key in v.seen then v.next else v.next[entity := counter];
    var p := Format(v.style, entity, idx);
    var entries := if p in v.entries then v.entries else v.entries[p := original];
    Stored(VaultState(v.style, entries, seen, next), p)
  }

  class LocalVault {
    var entries: map<string, string>
    var seen: map<(string, string), nat>
    var next: map<string, nat>
    const style: Template

    constructor WithStyle(style: Template)
      ensures State() == Empty(style) && Valid(State())
    {
      entries, seen, next := map[], map[], map[];
      this.style := style;
    }

    function State(): VaultState
      reads this
    {
      VaultState(style, entries, seen, next)
    }

    method Store(entity: string, original: string) returns (placeholder: string)
      modifies this
      ensures Stored(State(), placeholder) == Issue(old(State()), entity, original)
      ensures old(Valid(State())) ==> Valid(State())
    {
      if Valid(State()) {
        StoreKeepsValid(State(), entity, original);
      }
      var key := (entity, original);
      var idx;
      if key in seen {
        idx := seen[key];
      } else {
        if entity !in next {
          next := next[entity := 0];
        }
        next := next[entity := next[entity] + 1];
        idx := next[entity];
        seen := seen[key := idx];
        assert next == old(next)[entity := idx];
      }
      placeholder := Format(style, entity, idx);
      if placeholder !in entries {
        entries := entries[placeholder := original];
      }
    }

    /** The original that was stored under this placeholder; none exactly if it was never issued. */
    method Get(placeholder: string) returns (original: Option<string>)
      requires Valid(State())
      ensures original.Some? <==> exists k | k in seen :: PlaceholderOf(State(), k) == placeholder
      ensures forall k | k in seen && PlaceholderOf(State(), k) == placeholder :: original == Some(k.1)
    {
      if placeholder in entries {
        return Some(entries[placeholder]);
      } else {
        return None;
      }
    }
  }

  // ----- What every store keeps

  ghost predicate Issued(v: VaultState, entity: string, idx: nat) {
    exists original :: (entity, original) in v.seen && v.seen[(entity, original)] == idx
  }

  predicate SeenOk(v: VaultState) {
    && (forall k | k in v.seen :: k.0 in v.next && 1 <= v.seen[k] <= v.next[k.0])
    && (forall j, k | j in v.seen && k in v.seen && j.0 == k.0 && v.seen[j] == v.seen[k] :: j == k)
  }

  ghost predicate CountersOk(v: VaultState) {
    forall e, i: nat | e in v.next && 1 <= i <= v.next[e] :: Issued(v, e, i)
  }

  /** The placeholder of a pair that was stored. */
  function PlaceholderOf(v: VaultState, k: (string, string)): string
    requires k in v.seen
  {
    Format(v.style, k.0, v.seen[k])
  }

  predicate LookupsOk(v: VaultState) {
    forall k | k in v.seen :: PlaceholderOf(v, k) in v.entries && v.entries[PlaceholderOf(v, k)] == k.1
  }

  predicate OriginsOk(v: VaultState) {
    forall p | p in v.entries :: exists k | k in v.seen :: PlaceholderOf(v, k) == p
  }

  predicate EntriesOk(v: VaultState) {
    LookupsOk(v) && OriginsOk(v)
  }

  ghost predicate Valid(v: VaultState) {
    SeenOk(v) && CountersOk(v) && EntriesOk(v)
  }

  /** Nothing issued before is forgotten or changed. */
  predicate Extends(v: VaultState, w: VaultState) {
    && v.style == w.style
    && (forall p | p in v.entries :: p in w.entries && w.entries[p] == v.entries[p])
    && (forall k | k in v.seen :: k in w.seen && w.seen[k] == v.seen[k])
  }

  /** A counter value that was never issued gives a fresh placeholder. */
  lemma FreshPlaceholder(v: VaultState, entity: string, idx: nat)
    requires SeenOk(v) && EntriesOk(v)
    requires forall k | k in v.seen && k.0 == entity :: v.seen[k] != idx
    ensures Format(v.style, entity, idx) !in v.entries
  {
    var p := Format(v.style, entity, idx);
    forall k | k in v.seen
      ensures PlaceholderOf(v, k) != p
    {
      if PlaceholderOf(v, k) == p {
        FormatInjective(v.style, k.0, v.seen[k], entity, idx);
      }
    }
  }

  /** `w` is `v` with `(entity, original)` added under index `idx` and placeholder `p`. */
  predicate Adds(v: VaultState, w: VaultState, entity: string, original: string, idx: nat, p: string) {
    && (entity, original) !in v.seen
    && idx == (if entity in v.next then v.next[entity] else 0) + 1
    && w == VaultState(v.style, v.entries[p := original], v.seen[(entity, original) := idx], v.next[entity := idx])
  }

  /** On a consistent vault a store is either a no-op or adds exactly one fresh mapping. */
  lemma IssueCases(v: VaultState, entity: string, original: string)
    requires SeenOk(v) && EntriesOk(v)
    ensures var key, s := (entity, original), Issue(v, entity, original);
            if key in v.seen then
              s == Stored(v, Format(v.style, entity, v.seen[key]))
            else
              && key in s.vault.seen
              && s.placeholder == Format(v.style, entity, s.vault.seen[key])
              && s.placeholder !in v.entries
              && Adds(v, s.vault, entity, original, s.vault.seen[key], s.placeholder)
  {
    var key := (entity, original);
    if key in v.seen {
      assert PlaceholderOf(v, key) in v.entries;
    } else {
      var counter := (if entity in v.next then v.next[entity] else 0) + 1;
      FreshPlaceholder(v, entity, counter);
    }
  }

  lemma AddKeepsSeen(v: VaultState, w: VaultState, entity: string, original: string, idx: nat, p: string)
    requires SeenOk(v) && Adds(v, w, entity, original, idx, p)
    ensures SeenOk(w)
  {
  }

  lemma AddKeepsCounters(v: VaultState, w: VaultState, entity: string, original: string, idx: nat, p: string)
    requires SeenOk(v) && CountersOk(v) && Adds(v, w, entity, original, idx, p)
    ensures SeenOk(w) && CountersOk(w)
  {
    AddKeepsSeen(v, w, entity, original, idx, p);
    forall e, i: nat | e in w.next && 1 <= i <= w.next[e]
      ensures Issued(w, e, i)
    {
      if e in v.next && i <= v.next[e] {
        assert Issued(v, e, i);
        var o :| (e, o) in v.seen && v.seen[(e, o)] == i;
        assert (e, o) in w.seen && w.seen[(e, o)] == i;
      } else {
        assert (entity, original) in w.seen && w.seen[(entity, original)] == i;
      }
    }
  }

  lemma AddKeepsLookups(v: VaultState, w: VaultState, entity: string, original: string, idx: nat, p: string)
    requires LookupsOk(v) && Adds(v, w, entity, original, idx, p)
    requires p == Format(v.style, entity, idx) && p !in v.entries
    ensures LookupsOk(w) && Extends(v, w)
  {
    var key := (entity, original);
    forall k | k in w.seen
      ensures PlaceholderOf(w, k) in w.entries && w.entries[PlaceholderOf(w, k)] == k.1
    {
      if k != key {
        assert PlaceholderOf(w, k) == PlaceholderOf(v, k);
      }
    }
  }

  lemma AddKeepsOrigins(v: VaultState, w: VaultState, entity: string, original: string, idx: nat, p: string)
    requires OriginsOk(v) && Adds(v, w, entity, original, idx, p)
    requires p == Format(v.style, entity, idx)
    ensures OriginsOk(w)
  {
    var key := (entity, original);
    assert PlaceholderOf(w, key) == p;
    forall q | q in w.entries
      ensures exists k | k in w.seen :: PlaceholderOf(w, k) == q
    {
      if q != p {
        var k :| k in v.seen && PlaceholderOf(v, k) == q;
        assert k != key;
        assert PlaceholderOf(w, k) == q;
      }
    }
  }

  /** Every store keeps the vault valid, changes no earlier mapping, and can be looked up. */
  lemma StoreKeepsValid(v: VaultState, entity: string, original: string)
    requires Valid(v)
    ensures var s := Issue(v, entity, original);
            Valid(s.vault) && Extends(v, s.vault) &&
            s.placeholder in s.vault.entries && s.vault.entries[s.placeholder] == original &&
            (entity, original) in s.vault.seen &&
            s.placeholder == Format(v.style, entity, s.vault.seen[(entity, original)])
  {
    var key, s := (entity, original), Issue(v, entity, original);
    IssueCases(v, entity, original);
    if key in v.seen {
      assert PlaceholderOf(v, key) in v.entries;
    } else {
      AddKeepsCounters(v, s.vault, entity, original, s.vault.seen[key], s.placeholder);
      AddKeepsLookups(v, s.vault, entity, original, s.vault.seen[key], s.placeholder);
      AddKeepsOrigins(v, s.vault, entity, original, s.vault.seen[key], s.placeholder);
    }
  }

  /** Which keys a store adds. */
  lemma StoreSeen(v: VaultState, entity: string, original: string)
    ensures Issue(v, entity, original).vault.seen.Keys == v.seen.Keys + {(entity, original)}
    ensures Issue(v, entity, original).vault.style == v.style
  {
  }

  // ----- Whole runs

  datatype Request = Request(entity: string, original: string)

  datatype Run = Run(vault: VaultState, placeholders: seq<string>)

  function StoreAll(v: VaultState, requests: seq<Request>): (run: Run)
    ensures |run.placeholders| == |requests|
  {
    if requests == [] then Run(v, [])
    else
      var n := |requests| - 1;
      var before := StoreAll(v, requests[..n]);
      var s := Issue(before.vault, requests[n].entity, requests[n].original);
      Run(s.vault, before.placeholders + [s.placeholder])
  }

  /** `v` has handed out exactly the placeholders of `requests`. */
  ghost predicate Serves(v: VaultState, requests: seq<Request>, placeholders: seq<string>) {
    && |placeholders| == |requests|
    && (forall i | 0 <= i < |requests| ::
          && (requests[i].entity, requests[i].original) in v.seen
          && placeholders[i] == Format(v.style, requests[i].entity, v.seen[(requests[i].entity, requests[i].original)]))
    && (forall k | k in v.seen :: Request(k.0, k.1) in requests)
  }

  lemma ServesNext(v: VaultState, w: VaultState, requests: seq<Request>, placeholders: seq<string>, r: Request, p: string)
    requires Serves(v, requests, placeholders) && Extends(v, w)
    requires w.seen.Keys == v.seen.Keys + {(r.entity, r.original)}
    requires p == Format(w.style, r.entity, w.seen[(r.entity, r.original)])
    ensures Serves(w, requests + [r], placeholders + [p])
  {
    var rs, ps := requests + [r], placeholders + [p];
    forall i | 0 <= i < |rs|
      ensures (rs[i].entity, rs[i].original) in w.seen
      ensures ps[i] == Format(w.style, rs[i].entity, w.seen[(rs[i].entity, rs[i].original)])
    {
      if i < |requests| {
        assert rs[i] == requests[i] && ps[i] == placeholders[i];
        assert (requests[i].entity, requests[i].original) in v.seen;
      }
    }
    forall k | k in w.seen
      ensures Request(k.0, k.1) in rs
    {
      if k in v.seen {
        assert Request(k.0, k.1) in requests;
      } else {
        assert rs[|requests|] == Request(k.0, k.1);
      }
    }
  }

  lemma {:induction false} StoreAllServes(style: Template, requests: seq<Request>)
    ensures var run := StoreAll(Empty(style), requests);
            Valid(run.vault) && Serves(run.vault, requests, run.placeholders) && run.vault.style == style
    decreases |requests|
  {
    if requests != [] {
      var n := |requests| - 1;
      var before := StoreAll(Empty(style), requests[..n]);
      var r := requests[n];
      Advance(requests, n);
      Whole(requests);
      var s := Issue(before.vault, r.entity, r.original);
      StoreAllServes(style, requests[..n]);
      StoreKeepsValid(before.vault, r.entity, r.original);
      StoreSeen(before.vault, r.entity, r.original);
      ServesNext(before.vault, s.vault, requests[..n], before.placeholders, r, s.placeholder);
    }
  }

  function OriginalsOf(v: VaultState, entity: string): set<string> {
    set k | k in v.seen && k.0 == entity :: k.1
  }

  /** Equal placeholders mean equal requests, and conversely. */
  predicate OneToOne(requests: seq<Request>, placeholders: seq<string>)
    requires |requests| == |placeholders|
  {
    forall i, j | 0 <= i < |requests| && 0 <= j < |requests| ::
      placeholders[i] == placeholders[j] <==> requests[i] == requests[j]
  }

  /** Looking up a placeholder gives the original it was issued for. */
  predicate LooksUp(v: VaultState, requests: seq<Request>, placeholders: seq<string>)
    requires |requests| == |placeholders|
  {
    forall i | 0 <= i < |requests| ::
      placeholders[i] in v.entries && v.entries[placeholders[i]] == requests[i].original
  }

  /** An entity's indices are 1 up to the number of its distinct originals. */
  ghost predicate Dense(v: VaultState, placeholders: seq<string>) {
    forall e, idx: nat {:trigger Format(v.style, e, idx)} ::
      Format(v.style, e, idx) in placeholders <==> 1 <= idx <= |OriginalsOf(v, e)|
  }

  /** Over every run of stores on a fresh vault: placeholders and requests are in bijection,
      lookups return what was stored, nothing else was issued, and indices have no gaps. */
  lemma RunBijection(style: Template, requests: seq<Request>)
    ensures var run := StoreAll(Empty(style), requests);
            && OneToOne(requests, run.placeholders)
            && LooksUp(run.vault, requests, run.placeholders)
            && (forall p | p in run.vault.entries :: p in run.placeholders)
            && Dense(run.vault, run.placeholders)
  {
    var run := StoreAll(Empty(style), requests);
    StoreAllServes(style, requests);
    ServedOneToOne(run.vault, requests, run.placeholders);
    ServedLooksUp(run.vault, requests, run.placeholders);
    ServedListed(run.vault, requests, run.placeholders);
    ServedDense(run.vault, requests, run.placeholders);
  }

  lemma ServedOneToOne(v: VaultState, requests: seq<Request>, placeholders: seq<string>)
    requires Valid(v) && Serves(v, requests, placeholders)
    ensures OneToOne(requests, placeholders)
  {
    forall i, j | 0 <= i < |requests| && 0 <= j < |requests|
      ensures placeholders[i] == placeholders[j] <==> requests[i] == requests[j]
    {
      SamePlaceholder(v, requests, placeholders, i, j);
    }
  }

  lemma ServedLooksUp(v: VaultState, requests: seq<Request>, placeholders: seq<string>)
    requires Valid(v) && Serves(v, requests, placeholders)
    ensures LooksUp(v, requests, placeholders)
  {
    forall i | 0 <= i < |requests|
      ensures placeholders[i] in v.entries && v.entries[placeholders[i]] == requests[i].original
    {
      LookupServed(v, requests, placeholders, i);
    }
  }

  lemma ServedListed(v: VaultState, requests: seq<Request>, placeholders: seq<string>)
    requires Valid(v) && Serves(v, requests, placeholders)
    ensures forall p | p in v.entries :: p in placeholders
  {
    forall p | p in v.entries
      ensures p in placeholders
    {
      EntryIsListed(v, requests, placeholders, p);
    }
  }

  lemma ServedDense(v: VaultState, requests: seq<Request>, placeholders: seq<string>)
    requires Valid(v) && Serves(v, requests, placeholders)
    ensures Dense(v, placeholders)
  {
    forall e, idx: nat
      ensures Format(v.style, e, idx) in placeholders <==> 1 <= idx <= |OriginalsOf(v, e)|
    {
      IndicesExact(v, requests, placeholders, e, idx);
    }
  }

  lemma SamePlaceholder(v: VaultState, requests: seq<Request>, placeholders: seq<string>, i: nat, j: nat)
    requires Valid(v) && Serves(v, requests, placeholders) && i < |requests| && j < |requests|
    ensures placeholders[i] == placeholders[j] <==> requests[i] == requests[j]
  {
    var a, b := (requests[i].entity, requests[i].original), (requests[j].entity, requests[j].original);
    if placeholders[i] == placeholders[j] {
      FormatInjective(v.style, a.0, v.seen[a], b.0, v.seen[b]);
    }
  }

  lemma LookupServed(v: VaultState, requests: seq<Request>, placeholders: seq<string>, i: nat)
    requires Valid(v) && Serves(v, requests, placeholders) && i < |requests|
    ensures placeholders[i] in v.entries && v.entries[placeholders[i]] == requests[i].original
  {
    var k := (requests[i].entity, requests[i].original);
    assert PlaceholderOf(v, k) in v.entries;
  }

  lemma EntryIsListed(v: VaultState, requests: seq<Request>, placeholders: seq<string>, p: string)
    requires Valid(v) && Serves(v, requests, placeholders) && p in v.entries
    ensures p in placeholders
  {
    var k :| k in v.seen && PlaceholderOf(v, k) == p;
    IssuedIsListed(v, requests, placeholders, k);
  }

  lemma IssuedIsListed(v: VaultState, requests: seq<Request>, placeholders: seq<string>, k: (string, string))
    requires Serves(v, requests, placeholders) && k in v.seen
    ensures Format(v.style, k.0, v.seen[k]) in placeholders
  {
    var i :| 0 <= i < |requests| && requests[i] == Request(k.0, k.1);
    assert placeholders[i] == Format(v.style, k.0, v.seen[k]);
  }

  lemma IndicesExact(v: VaultState, requests: seq<Request>, placeholders: seq<string>, e: string, idx: nat)
    requires Valid(v) && Serves(v, requests, placeholders)
    ensures Format(v.style, e, idx) in placeholders <==> 1 <= idx <= |OriginalsOf(v, e)|
  {
    CounterCounts(v, e);
    if Format(v.style, e, idx) in placeholders {
      var i :| 0 <= i < |placeholders| && placeholders[i] == Format(v.style, e, idx);
      var k := (requests[i].entity, requests[i].original);
      FormatInjective(v.style, e, idx, k.0, v.seen[k]);
    }
    if 1 <= idx <= |OriginalsOf(v, e)| {
      assert Issued(v, e, idx);
      var o :| (e, o) in v.seen && v.seen[(e, o)] == idx;
      IssuedIsListed(v, requests, placeholders, (e, o));
    }
  }

  /** An entity's counter is the number of its distinct originals. */
  lemma CounterCounts(v: VaultState, e: string)
    requires Valid(v)
    ensures |OriginalsOf(v, e)| == if e in v.next then v.next[e] else 0
  {
    if e in v.next {
      CountIssued(v, e, v.next[e]);
      assert OriginalsOf(v, e) == UpTo(v, e, v.next[e]);
    } else {
      assert OriginalsOf(v, e) == {};
    }
  }

  function UpTo(v: VaultState, e: string, n: nat): set<string> {
    set k | k in v.seen && k.0 == e && v.seen[k] <= n :: k.1
  }

  lemma {:induction false} CountIssued(v: VaultState, e: string, n: nat)
    requires SeenOk(v) && CountersOk(v) && e in v.next && n <= v.next[e]
    ensures |UpTo(v, e, n)| == n
  {
    if n == 0 {
      assert UpTo(v, e, n) == {};
    } else {
      CountIssued(v, e, n - 1);
      assert Issued(v, e, n);
      var o :| (e, o) in v.seen && v.seen[(e, o)] == n;
      UpToNext(v, e, n, o);
    }
  }

  lemma UpToNext(v: VaultState, e: string, n: nat, o: string)
    requires SeenOk(v) && 1 <= n && (e, o) in v.seen && v.seen[(e, o)] == n
    ensures |UpTo(v, e, n)| == |UpTo(v, e, n - 1)| + 1
  {
    assert o !in UpTo(v, e, n - 1);
    forall x | x in UpTo(v, e, n)
      ensures x in UpTo(v, e, n - 1) + {o}
    {
      assert (e, x) in v.seen;
      if v.seen[(e, x)] == n {
        assert (e, x) == (e, o);
      }
    }
    assert UpTo(v, e, n) == UpTo(v, e, n - 1) + {o};
  }

  /** Whatever the vault held, the entries stay well formed while entities and originals carry no
      bracket. */
  lemma StoreKeepsWindows(v: VaultState, entity: string, original: string)
    requires forall p | p in v.entries :: IsWindow(p) && BracketFree(v.entries[p])
    requires BracketFree(entity) && BracketFree(original)
    ensures var w := Issue(v, entity, original).vault;
            forall p | p in w.entries :: IsWindow(p) && BracketFree(w.entries[p])
  {
    var s := Issue(v, entity, original);
    FormatIsWindow(v.style, entity, s.vault.seen[(entity, original)]);
  }
}
