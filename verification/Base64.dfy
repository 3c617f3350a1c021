/** The base64 encoder of the spotlighting transform, and a decoder after section 4 of RFC 4648. */
module Base64 {
  import opened Options

  // ----- Three bytes are four six-bit digits

  datatype Triple = Triple(a: int, b: int, c: int)

  datatype Quad = Quad(d0: int, d1: int, d2: int, d3: int)

  predicate IsByte(n: int) { 0 <= n < 256 }

  predicate IsDigit(d: int) { 0 <= d < 64 }

  predicate IsTriple(t: Triple) { IsByte(t.a) && IsByte(t.b) && IsByte(t.c) }

  predicate IsQuad(q: Quad) { IsDigit(q.d0) && IsDigit(q.d1) && IsDigit(q.d2) && IsDigit(q.d3) }

  /** The word of three bytes, and its digits: the shifts and masks of the encoder. */
  function Cut(t: Triple): Quad {
    var n := t.a * 0x1_0000 + t.b * 0x100 + t.c;
    Quad(n / 0x4_0000 % 64, n / 0x1000 % 64, n / 64 % 64, n % 64)
  }

  function Join(q: Quad): Triple {
    Triple(q.d0 * 4 + q.d1 / 16, q.d1 % 16 * 16 + q.d2 / 4, q.d2 % 4 * 64 + q.d3)
  }

  /** `cut` and `join` undo each other, and digits of absent bytes are zero. */
  ghost predicate Inverse(cut: Triple -> Quad, join: Quad -> Triple) {
    && (forall t: Triple | IsTriple(t) :: IsQuad(cut(t)) && join(cut(t)) == t)
    && (forall q: Quad | IsQuad(q) :: IsTriple(join(q)) && cut(join(q)) == q)
    && (forall t: Triple | IsTriple(t) && t.c == 0 :: cut(t).d3 == 0)
    && (forall t: Triple | IsTriple(t) && t.b == 0 && t.c == 0 :: cut(t).d2 == 0)
  }

  lemma CutBytes(t: Triple)
    requires IsTriple(t)
    ensures Cut(t) == Quad(t.a / 4, t.a % 4 * 16 + t.b / 16, t.b % 16 * 4 + t.c / 64, t.c % 64)
  {
    var d0, d1, d2, d3 := t.a / 4, t.a % 4 * 16 + t.b / 16, t.b % 16 * 4 + t.c / 64, t.c % 64;
    var n := t.a * 0x1_0000 + t.b * 0x100 + t.c;
    assert n == d0 * 0x4_0000 + d1 * 0x1000 + d2 * 64 + d3;
    Places(n, d0, d1, d2, d3);
  }

  lemma Places(n: int, d0: int, d1: int, d2: int, d3: int)
    requires IsDigit(d0) && IsDigit(d1) && IsDigit(d2) && IsDigit(d3)
    requires n == d0 * 0x4_0000 + d1 * 0x1000 + d2 * 64 + d3
    ensures n / 0x4_0000 % 64 == d0 && n / 0x1000 % 64 == d1 && n / 64 % 64 == d2 && n % 64 == d3
  {
    assert n / 64 == d0 * 0x1000 + d1 * 64 + d2;
    assert n / 0x1000 == d0 * 64 + d1;
    assert n / 0x4_0000 == d0;
  }

  lemma Quotients(q: int, r: int)
    ensures 0 <= r < 4 ==> (q * 4 + r) / 4 == q && (q * 4 + r) % 4 == r
    ensures 0 <= r < 16 ==> (q * 16 + r) / 16 == q && (q * 16 + r) % 16 == r
    ensures 0 <= r < 64 ==> (q * 64 + r) / 64 == q && (q * 64 + r) % 64 == r
  {
  }

  lemma JoinBytes(a: int, b: int, c: int)
    requires IsByte(a) && IsByte(b) && IsByte(c)
    ensures Join(Quad(a / 4, a % 4 * 16 + b / 16, b % 16 * 4 + c / 64, c % 64)) == Triple(a, b, c)
  {
    Quotients(a % 4, b / 16);
    Quotients(b % 16, c / 64);
  }

  lemma JoinCut(t: Triple)
    requires IsTriple(t)
    ensures IsQuad(Cut(t)) && Join(Cut(t)) == t
    ensures t.c == 0 ==> Cut(t).d3 == 0
    ensures t.b == 0 && t.c == 0 ==> Cut(t).d2 == 0
  {
    CutBytes(t);
    JoinBytes(t.a, t.b, t.c);
  }

  lemma CutJoin(q: Quad)
    requires IsQuad(q)
    ensures IsTriple(Join(q)) && Cut(Join(q)) == q
  {
    Quotients(q.d0, q.d1 / 16);
    Quotients(q.d1 % 16, q.d2 / 4);
    Quotients(q.d2 % 4, q.d3);
    CutBytes(Join(q));
  }

  lemma CutInverse()
    ensures Inverse(Cut, Join)
  {
    forall t: Triple | IsTriple(t) ensures IsQuad(Cut(t)) && Join(Cut(t)) == t {
      JoinCut(t);
    }
    forall q: Quad | IsQuad(q) ensures IsTriple(Join(q)) && Cut(Join(q)) == q {
      CutJoin(q);
    }
    forall t: Triple | IsTriple(t) && t.c == 0 ensures Cut(t).d3 == 0 {
      JoinCut(t);
    }
    forall t: Triple | IsTriple(t) && t.b == 0 && t.c == 0 ensures Cut(t).d2 == 0 {
      JoinCut(t);
    }
  }

  // ----- Byte strings as digit strings, with 64 for padding

  const PAD := 64

  predicate AllBytes(s: seq<int>) {
    forall i | 0 <= i < |s| :: IsByte(s[i])
  }

  function Digits(cut: Triple -> Quad, s: seq<int>): seq<int> {
    if |s| == 0 then []
    else if |s| == 1 then
      var q := cut(Triple(s[0], 0, 0)); [q.d0, q.d1, PAD, PAD]
    else if |s| == 2 then
      var q := cut(Triple(s[0], s[1], 0)); [q.d0, q.d1, q.d2, PAD]
    else
      var q := cut(Triple(s[0], s[1], s[2])); [q.d0, q.d1, q.d2, q.d3] + Digits(cut, s[3..])
  }

  /** The strict inverse: padding only at the end, and no stray bits before it. */
  function Bytes(join: Quad -> Triple, d: seq<int>): Option<seq<int>> {
    if |d| == 0 then Some([])
    else if |d| < 4 || !IsDigit(d[0]) || !IsDigit(d[1]) then None
    else if |d| == 4 && d[2] == PAD && d[3] == PAD then
      var t := join(Quad(d[0], d[1], 0, 0));
      if t.b == 0 && t.c == 0 then Some([t.a]) else None
    else if !IsDigit(d[2]) then None
    else if |d| == 4 && d[3] == PAD then
      var t := join(Quad(d[0], d[1], d[2], 0));
      if t.c == 0 then Some([t.a, t.b]) else None
    else if !IsDigit(d[3]) then None
    else
      var t := join(Quad(d[0], d[1], d[2], d[3]));
      match Bytes(join, d[4..])
      case None => None
      case Some(rest) => Some([t.a, t.b, t.c] + rest)
  }

  lemma {:induction false} BytesDigits(cut: Triple -> Quad, join: Quad -> Triple, s: seq<int>)
    requires Inverse(cut, join) && AllBytes(s)
    ensures Bytes(join, Digits(cut, s)) == Some(s)
  {
    if |s| == 1 {
      var q := cut(Triple(s[0], 0, 0));
      assert q == Quad(q.d0, q.d1, 0, 0);
      assert s == [s[0]];
    } else if |s| == 2 {
      var q := cut(Triple(s[0], s[1], 0));
      assert q == Quad(q.d0, q.d1, q.d2, 0);
      assert s == [s[0], s[1]];
    } else if |s| > 2 {
      BytesDigits(cut, join, s[3..]);
      assert Digits(cut, s)[4..] == Digits(cut, s[3..]);
      assert s == [s[0], s[1], s[2]] + s[3..];
    }
  }

  lemma {:induction false} DigitsBytes(cut: Triple -> Quad, join: Quad -> Triple, d: seq<int>)
    requires Inverse(cut, join) && Bytes(join, d).Some?
    ensures Digits(cut, Bytes(join, d).value) == d && AllBytes(Bytes(join, d).value)
  {
    if |d| == 0 {
    } else if |d| == 4 && d[2] == PAD && d[3] == PAD {
      assert d == [d[0], d[1], PAD, PAD];
      assert IsQuad(Quad(d[0], d[1], 0, 0));
    } else if |d| == 4 && d[3] == PAD {
      assert d == [d[0], d[1], d[2], PAD];
      assert IsQuad(Quad(d[0], d[1], d[2], 0));
    } else {
      assert d == [d[0], d[1], d[2], d[3]] + d[4..];
      assert IsQuad(Quad(d[0], d[1], d[2], d[3]));
      DigitsBytes(cut, join, d[4..]);
      assert Bytes(join, d).value[3..] == Bytes(join, d[4..]).value;
    }
  }

  predicate InRange(d: seq<int>) {
    forall i | 0 <= i < |d| :: 0 <= d[i] <= PAD
  }

  lemma {:induction false} DigitsInRange(cut: Triple -> Quad, join: Quad -> Triple, s: seq<int>)
    requires Inverse(cut, join) && AllBytes(s)
    ensures InRange(Digits(cut, s)) && |Digits(cut, s)| == 4 * ((|s| + 2) / 3)
  {
    if |s| > 2 {
      DigitsInRange(cut, join, s[3..]);
      assert IsQuad(cut(Triple(s[0], s[1], s[2])));
    }
  }

  // ----- Digits as characters

  function Map<A, B>(f: A -> B, s: seq<A>): (r: seq<B>)
    ensures |r| == |s| && forall i | 0 <= i < |s| :: r[i] == f(s[i])
  {
    if |s| == 0 then [] else [f(s[0])] + Map(f, s[1..])
  }

  const UPPER := "ABCDEFGHIJKLMNOPQRSTUVWXYZ"
  const LOWER := "abcdefghijklmnopqrstuvwxyz"
  const OTHERS := "0123456789+/"
  const ALPHA := UPPER + LOWER + OTHERS

  /** The value of a character in table 1 of RFC 4648: a digit, `PAD`, or 65 for any other. */
  function Value(c: char): int {
    if 'A' <= c <= 'Z' then c as int - 65
    else if 'a' <= c <= 'z' then c as int - 71
    else if '0' <= c <= '9' then c as int + 4
    else if c == '+' then 62
    else if c == '/' then 63
    else if c == '=' then PAD
    else 65
  }

  function Symbol(d: int): char {
    if 0 <= d < |ALPHA| then ALPHA[d] else '='
  }

  lemma Letters(i: int)
    requires 0 <= i < 26
    ensures |UPPER| == |LOWER| == 26 && UPPER[i] as int == i + 65 && LOWER[i] as int == i + 97
  {
  }

  lemma Others(i: int)
    requires 0 <= i < 12
    ensures |OTHERS| == 12 && Value(OTHERS[i]) == i + 52
  {
  }

  lemma SymbolRange(d: int)
    requires IsDigit(d)
    ensures |ALPHA| == 64 && Value(ALPHA[d]) == d
  {
    Letters(if d < 26 then d else if d < 52 then d - 26 else 0);
    Others(if d < 52 then 0 else d - 52);
  }

  lemma ValueInjective(c: char, d: char)
    requires Value(c) == Value(d) <= PAD
    ensures c == d
  {
  }

  lemma SymbolValue(c: char)
    requires Value(c) <= PAD
    ensures Symbol(Value(c)) == c
  {
    SymbolRange(if Value(c) < PAD then Value(c) else 0);
    ValueInjective(Symbol(Value(c)), c);
  }

  // ----- The encoder

  function Encode(s: seq<int>): string {
    Map(Symbol, Digits(Cut, s))
  }

  function Decode(t: string): Option<seq<int>> {
    Bytes(Join, Map(Value, t))
  }

  /** The encoding is the one text that the strict decoder reads as `s`, so it is injective. */
  lemma Canonical(s: seq<int>, t: string)
    requires AllBytes(s)
    ensures Decode(t) == Some(s) <==> t == Encode(s)
    ensures |Encode(s)| == 4 * ((|s| + 2) / 3)
  {
    CutInverse();
    DigitsInRange(Cut, Join, s);
    BytesDigits(Cut, Join, s);
    ReadBack(Digits(Cut, s));
    if Decode(t) == Some(s) {
      DigitsBytes(Cut, Join, Map(Value, t));
      SpelledAs(t, Digits(Cut, s));
    }
  }

  lemma ReadBack(d: seq<int>)
    requires InRange(d)
    ensures Map(Value, Map(Symbol, d)) == d
  {
    forall i | 0 <= i < |d|
      ensures Value(Symbol(d[i])) == d[i]
    {
      SymbolRange(if d[i] < PAD then d[i] else 0);
    }
  }

  lemma SpelledAs(t: string, d: seq<int>)
    requires Map(Value, t) == d && InRange(d)
    ensures t == Map(Symbol, d)
  {
    forall i | 0 <= i < |t|
      ensures t[i] == Symbol(d[i])
    {
      assert d[i] == Value(t[i]);
      SymbolValue(t[i]);
    }
  }

  lemma MapConcat<A, B>(f: A -> B, d: seq<A>, e: seq<A>)
    ensures Map(f, d + e) == Map(f, d) + Map(f, e)
  {
  }

  /** The characters of one group. */
  function Spell(q: Quad): (r: string)
    ensures r == Map(Symbol, [q.d0, q.d1, q.d2, q.d3])
  {
    [Symbol(q.d0), Symbol(q.d1), Symbol(q.d2), Symbol(q.d3)]
  }

  /** `base64_encode`. */
  method Base64Encode(input: seq<int>) returns (out: string)
    requires AllBytes(input)
    ensures out == Encode(input)
  {
    ghost var digits: seq<int> := [];
    out := [];
    var i := 0;
    while i + 3 <= |input|
      invariant 0 <= i <= |input|
      invariant digits + Digits(Cut, input[i..]) == Digits(Cut, input)
      invariant out == Map(Symbol, digits)
    {
      var q := Cut(Triple(input[i], input[i + 1], input[i + 2]));
      ghost var group := [q.d0, q.d1, q.d2, q.d3];
      assert input[i..][3..] == input[i + 3..];
      assert digits + (group + Digits(Cut, input[i + 3..])) == (digits + group) + Digits(Cut, input[i + 3..]);
      MapConcat(Symbol, digits, group);
      out := out + Spell(q);
      digits := digits + group;
      i := i + 3;
    }
    var tail := LastGroup(input[i..]);
    MapConcat(Symbol, digits, Digits(Cut, input[i..]));
    out := out + tail;
  }

  /** The branches after the loop. */
  method LastGroup(s: seq<int>) returns (r: string)
    requires |s| < 3
    ensures r == Encode(s)
  {
    r := [];
    var rem := |s|;
    if rem == 1 {
      r := Spell(Cut(Triple(s[0], 0, 0)))[..2] + ['=', '='];
    } else if rem == 2 {
      r := Spell(Cut(Triple(s[0], s[1], 0)))[..3] + ['='];
    }
  }
}
