/** The output mask: phrases found in a lower-cased copy of a reply are starred out in the reply
    itself, except inside brackets, where placeholders live. */
module Mask {
  import opened Seqs
  import opened Brackets

  type Byte = b: int | 0 <= b < 256

  const OPEN: Byte := 91
  const CLOSE: Byte := 93
  const STAR: Byte := 42

  // ----- UTF-8

  function Utf8(c: char): (bs: seq<Byte>)
    ensures |bs| == Utf8Width(c)
    ensures Utf8Width(c) == 1 ==> bs == [c as int]
    ensures Utf8Width(c) > 1 ==> forall i | 0 <= i < |bs| :: bs[i] >= 128
  {
    var u := c as int;
    if u < 0x80 then [u]
    else if u < 0x800 then [0xC0 + u / 64, 0x80 + u % 64]
    else if u < 0x10000 then [0xE0 + u / 4096, 0x80 + u / 64 % 64, 0x80 + u % 64]
    else [0xF0 + u / 262144, 0x80 + u / 4096 % 64, 0x80 + u / 64 % 64, 0x80 + u % 64]
  }

  function Encode(s: string): (bs: seq<Byte>)
    ensures |bs| == ByteLen(s)
  {
    if s == "" then [] else Utf8(s[0]) + Encode(s[1..])
  }

  lemma {:induction false} EncodeConcat(a: string, b: string)
    ensures Encode(a + b) == Encode(a) + Encode(b)
  {
    if a == "" {
      assert a + b == b;
    } else {
      EncodeConcat(a[1..], b);
      HeadTail(a, b);
      Assoc(Utf8(a[0]), Encode(a[1..]), Encode(b));
    }
  }

  lemma EncodeOne(c: char)
    ensures Encode([c]) == Utf8(c)
  {
    assert [c][1..] == "";
    assert Utf8(c) + [] == Utf8(c);
  }

  /** The byte offset of character `k`. */
  function Off(s: string, k: nat): nat
    requires k <= |s|
  {
    ByteLen(s[..k])
  }

  lemma OffStep(s: string, k: nat)
    requires k < |s|
    ensures Off(s, k + 1) == Off(s, k) + Utf8Width(s[k])
    ensures Off(s, k + 1) <= |Encode(s)|
    ensures Encode(s)[Off(s, k)..Off(s, k + 1)] == Utf8(s[k])
  {
    var a, u, b := s[..k], [s[k]], s[k + 1..];
    ThreeParts(s, k);
    EncodeOne(s[k]);
    ByteLenConcat(a, u);
    EncodeMiddle(a, u, b);
  }

  lemma ThreeParts(s: string, k: nat)
    requires k < |s|
    ensures s[..k + 1] == s[..k] + [s[k]] && s == s[..k] + ([s[k]] + s[k + 1..])
  {
  }

  lemma EncodeMiddle(a: string, u: string, b: string)
    ensures ByteLen(a) + |Encode(u)| <= |Encode(a + (u + b))|
    ensures Encode(a + (u + b))[ByteLen(a)..ByteLen(a) + |Encode(u)|] == Encode(u)
  {
    EncodeConcat(a, u + b);
    EncodeConcat(u, b);
    MiddleSlice(Encode(a), Encode(u), Encode(b));
  }

  lemma MiddleSlice<T>(a: seq<T>, b: seq<T>, c: seq<T>)
    ensures (a + (b + c))[|a|..|a| + |b|] == b
  {
  }

  lemma {:induction false} OffMonotone(s: string, j: nat, k: nat)
    requires j <= k <= |s|
    ensures Off(s, j) <= Off(s, k)
    ensures j < k ==> Off(s, j) < Off(s, k)
    decreases k - j
  {
    if j < k {
      OffStep(s, j);
      OffMonotone(s, j + 1, k);
    }
  }

  lemma OffEnd(s: string)
    ensures Off(s, |s|) == |Encode(s)|
  {
    assert s[..|s|] == s;
  }

  /** The character that byte `i` belongs to. */
  lemma {:induction false} CharOf(s: string, i: nat, upto: nat) returns (k: nat)
    requires upto <= |s| && i < Off(s, upto)
    ensures k < upto && Off(s, k) <= i < Off(s, k + 1)
    decreases upto
  {
    assert s[..0] == "" && upto > 0;
    if Off(s, upto - 1) <= i {
      k := upto - 1;
    } else {
      k := CharOf(s, i, upto - 1);
    }
  }

  // ----- The lower-cased copy and its map

  /** `char::to_lowercase`: never empty, and brackets map to themselves. */
  ghost predicate LowerOk(lower: char -> string) {
    && (forall c :: lower(c) != "")
    && lower('[') == "[" && lower(']') == "]"
  }

  function Lowered(lower: char -> string, s: string): seq<Byte> {
    if s == "" then [] else Encode(lower(s[0])) + Lowered(lower, s[1..])
  }

  function Repeat(x: nat, n: nat): (r: seq<nat>)
    ensures |r| == n && forall i | 0 <= i < n :: r[i] == x
  {
    seq(n, _ => x)
  }

  /** For every byte of the lowered copy the index of its character, and one sentinel. */
  function CharMap(lower: char -> string, s: string, base: nat): (m: seq<nat>)
    ensures |m| == |Lowered(lower, s)| + 1
    ensures forall i | 0 <= i < |m| :: base <= m[i] <= base + |s|
    ensures m[|m| - 1] == base + |s|
  {
    if s == "" then [base]
    else Repeat(base, |Encode(lower(s[0]))|) + CharMap(lower, s[1..], base + 1)
  }

  /** The map of the program: byte offsets into the original. */
  function ByteMap(lower: char -> string, s: string): (m: seq<nat>)
    ensures |m| == |Lowered(lower, s)| + 1
  {
    Offsets(s, CharMap(lower, s, 0))
  }

  function Offsets(s: string, ks: seq<nat>): (m: seq<nat>)
    requires forall i | 0 <= i < |ks| :: ks[i] <= |s|
    ensures |m| == |ks| && forall i | 0 <= i < |ks| :: m[i] == Off(s, ks[i])
  {
    seq(|ks|, i requires 0 <= i < |ks| => Off(s, ks[i]))
  }

  lemma {:induction false} CharMapMonotone(lower: char -> string, s: string, base: nat, i: nat, j: nat)
    requires i <= j < |CharMap(lower, s, base)|
    ensures CharMap(lower, s, base)[i] <= CharMap(lower, s, base)[j]
    decreases |s|
  {
    if s != "" {
      var n := |Encode(lower(s[0]))|;
      if i >= n {
        CharMapMonotone(lower, s[1..], base + 1, i - n, j - n);
      }
      Appended(Repeat(base, n), CharMap(lower, s[1..], base + 1), i);
      Appended(Repeat(base, n), CharMap(lower, s[1..], base + 1), j);
    }
  }

  /** The map is monotone and only points to character boundaries. */
  lemma ByteMapMonotone(lower: char -> string, s: string, i: nat, j: nat)
    requires i <= j < |ByteMap(lower, s)|
    ensures ByteMap(lower, s)[i] <= ByteMap(lower, s)[j] <= |Encode(s)|
    ensures exists k | 0 <= k <= |s| :: ByteMap(lower, s)[i] == Off(s, k)
  {
    var cm := CharMap(lower, s, 0);
    CharMapMonotone(lower, s, 0, i, j);
    OffMonotone(s, cm[i], cm[j]);
    OffMonotone(s, cm[j], |s|);
    OffEnd(s);
    assert ByteMap(lower, s)[i] == Off(s, cm[i]);
  }

  /** Lowering with the byte map, as it is programmed. */
  method LowerWithByteMap(lower: char -> string, text: string) returns (lowered: seq<Byte>, bmap: seq<nat>)
    ensures lowered == Lowered(lower, text) && bmap == ByteMap(lower, text)
  {
    lowered, bmap := [], [];
    var off := 0;
    ghost var cm: seq<nat> := [];
    LowerStart(lower, text);
    for k := 0 to |text|
      invariant off == Off(text, k)
      invariant Lowered(lower, text) == lowered + Lowered(lower, text[k..])
      invariant CharMap(lower, text, 0) == cm + CharMap(lower, text[k..], k)
      invariant forall i | 0 <= i < |cm| :: cm[i] <= |text|
      invariant bmap == Offsets(text, cm)
    {
      var bytes := Encode(lower(text[k]));
      LowerOne(lower, text, k, lowered, cm);
      OffsetsRepeat(text, cm, k, |bytes|);
      OffStep(text, k);
      lowered := lowered + bytes;
      bmap := bmap + Repeat(off, |bytes|);
      cm := cm + Repeat(k, |bytes|);
      off := off + Utf8Width(text[k]);
    }
    LowerEnd(lower, text, lowered, cm);
    bmap := bmap + [off];
  }

  lemma LowerStart(lower: char -> string, text: string)
    ensures Lowered(lower, text) == [] + Lowered(lower, text[0..])
    ensures CharMap(lower, text, 0) == [] + CharMap(lower, text[0..], 0)
    ensures Off(text, 0) == 0
  {
    Whole(text);
  }

  lemma LowerEnd(lower: char -> string, text: string, lowered: seq<Byte>, cm: seq<nat>)
    requires Lowered(lower, text) == lowered + Lowered(lower, text[|text|..])
    requires CharMap(lower, text, 0) == cm + CharMap(lower, text[|text|..], |text|)
    requires forall i | 0 <= i < |cm| :: cm[i] <= |text|
    ensures lowered == Lowered(lower, text)
    ensures ByteMap(lower, text) == Offsets(text, cm) + [Off(text, |text|)]
  {
    assert text[|text|..] == "";
    assert Repeat(|text|, 1) == [|text|] && Repeat(Off(text, |text|), 1) == [Off(text, |text|)];
    OffsetsRepeat(text, cm, |text|, 1);
    assert lowered + [] == lowered;
  }

  lemma OffsetsRepeat(s: string, ks: seq<nat>, k: nat, n: nat)
    requires k <= |s| && forall i | 0 <= i < |ks| :: ks[i] <= |s|
    ensures forall i | 0 <= i < |ks + Repeat(k, n)| :: (ks + Repeat(k, n))[i] <= |s|
    ensures Offsets(s, ks + Repeat(k, n)) == Offsets(s, ks) + Repeat(Off(s, k), n)
  {
    var all := ks + Repeat(k, n);
    forall i | 0 <= i < |all|
      ensures all[i] <= |s| && Off(s, all[i]) == (Offsets(s, ks) + Repeat(Off(s, k), n))[i]
    {
    }
  }

  lemma LowerOne(lower: char -> string, text: string, k: nat, lowered: seq<Byte>, cm: seq<nat>)
    requires k < |text|
    ensures var bytes := Encode(lower(text[k]));
            && lowered + Lowered(lower, text[k..]) == (lowered + bytes) + Lowered(lower, text[k + 1..])
            && cm + CharMap(lower, text[k..], k) == (cm + Repeat(k, |bytes|)) + CharMap(lower, text[k + 1..], k + 1)
  {
    var n := |Encode(lower(text[k]))|;
    Advance(text, k);
    Assoc(lowered, Encode(lower(text[k])), Lowered(lower, text[k + 1..]));
    Assoc(cm, Repeat(k, n), CharMap(lower, text[k + 1..], k + 1));
  }

  // ----- Brackets in the bytes

  /** The nearest bracket before byte `pos` is a `[`. */
  predicate InsideBytes(bytes: seq<Byte>, pos: nat)
    requires pos <= |bytes|
  {
    exists k | 0 <= k < pos :: bytes[k] == OPEN && forall j | k < j < pos :: bytes[j] != OPEN && bytes[j] != CLOSE
  }

  method IsInsideBrackets(bytes: seq<Byte>, pos: nat) returns (inside: bool)
    requires pos <= |bytes|
    ensures inside == InsideBytes(bytes, pos)
  {
    var i := pos;
    while i > 0
      invariant 0 <= i <= pos
      invariant forall j | i <= j < pos :: bytes[j] != OPEN && bytes[j] != CLOSE
    {
      i := i - 1;
      if bytes[i] == OPEN {
        return true;
      }
      if bytes[i] == CLOSE {
        return false;
      }
    }
    return false;
  }

  /** A byte is a bracket exactly when it is a bracket character. */
  lemma BracketByte(s: string, i: nat) returns (k: nat)
    requires i < |Encode(s)|
    ensures k < |s| && Off(s, k) <= i < Off(s, k + 1)
    ensures Encode(s)[i] == OPEN <==> s[k] == '['
    ensures Encode(s)[i] == CLOSE <==> s[k] == ']'
    ensures Utf8Width(s[k]) == 1 ==> i == Off(s, k)
  {
    OffEnd(s);
    k := CharOf(s, i, |s|);
    OffStep(s, k);
    assert Encode(s)[i] == Utf8(s[k])[i - Off(s, k)];
  }

  lemma BracketChar(s: string, k: nat)
    requires k < |s|
    ensures Off(s, k) < |Encode(s)|
    ensures Encode(s)[Off(s, k)] == OPEN <==> s[k] == '['
    ensures Encode(s)[Off(s, k)] == CLOSE <==> s[k] == ']'
  {
    OffStep(s, k);
    assert Encode(s)[Off(s, k)] == Utf8(s[k])[0];
  }

  lemma InsideToBytes(s: string, k: nat)
    requires k <= |s| && Off(s, k) <= |Encode(s)| && Inside(s, k)
    ensures InsideBytes(Encode(s), Off(s, k))
  {
    var j :| 0 <= j < k && s[j] == '[' && forall i | j < i < k :: s[i] != '[' && s[i] != ']';
    BracketChar(s, j);
    OffMonotone(s, j, k);
    forall i | Off(s, j) < i < Off(s, k)
      ensures Encode(s)[i] != OPEN && Encode(s)[i] != CLOSE
    {
      var c := BracketByte(s, i);
      OffOrder(s, j, c, k, i);
    }
  }

  lemma InsideFromBytes(s: string, k: nat)
    requires k <= |s| && Off(s, k) <= |Encode(s)| && InsideBytes(Encode(s), Off(s, k))
    ensures Inside(s, k)
  {
    var bytes, pos := Encode(s), Off(s, k);
    var b :| 0 <= b < pos && bytes[b] == OPEN && forall i | b < i < pos :: bytes[i] != OPEN && bytes[i] != CLOSE;
    var j := BracketByte(s, b);
    OffBefore(s, j, k);
    forall i | j < i < k
      ensures s[i] != '[' && s[i] != ']'
    {
      BracketChar(s, i);
      OffMonotone(s, j, i);
      OffMonotone(s, i, k);
    }
  }

  /** Being inside brackets means the same for bytes and characters. */
  lemma InsideAgrees(s: string, k: nat)
    requires k <= |s|
    ensures Off(s, k) <= |Encode(s)|
    ensures InsideBytes(Encode(s), Off(s, k)) <==> Inside(s, k)
  {
    OffMonotone(s, k, |s|);
    OffEnd(s);
    if Inside(s, k) {
      InsideToBytes(s, k);
    }
    if InsideBytes(Encode(s), Off(s, k)) {
      InsideFromBytes(s, k);
    }
  }

  lemma OffBefore(s: string, j: nat, k: nat)
    requires j <= |s| && k <= |s| && Off(s, j) < Off(s, k)
    ensures j < k
  {
    if k <= j {
      OffMonotone(s, k, j);
    }
  }

  /** A byte strictly between the starts of characters `j` and `k` is in one of the characters
      from `j` on and before `k`; if `j` is one byte wide, after `j`. */
  lemma OffOrder(s: string, j: nat, c: nat, k: nat, i: nat)
    requires j < k <= |s| && c < |s| && Off(s, c) <= i < Off(s, c + 1) && Off(s, j) < i < Off(s, k)
    requires Utf8Width(s[j]) == 1
    ensures j < c < k
  {
    OffStep(s, j);
    OffBefore(s, c, k);
    OffBefore(s, j, c + 1);
  }

  // ----- The mask

  datatype Match = Match(position: nat, length: nat)

  predicate InBounds(lowered: seq<Byte>, matches: seq<Match>) {
    forall i | 0 <= i < |matches| :: matches[i].position + matches[i].length <= |lowered|
  }

  /** Match `m` stars out character `k`: the match covers it and starts outside brackets. */
  predicate Stars(lower: char -> string, s: string, m: Match, k: nat)
    requires m.position + m.length <= |Lowered(lower, s)|
  {
    var cm := CharMap(lower, s, 0);
    cm[m.position] <= k < cm[m.position + m.length] && !Inside(s, cm[m.position])
  }

  predicate Starred(lower: char -> string, s: string, matches: seq<Match>, k: nat)
    requires InBounds(Lowered(lower, s), matches)
  {
    exists i | 0 <= i < |matches| :: Stars(lower, s, matches[i], k)
  }

  /** The masked reply: starred characters become as many stars as they have bytes. */
  function Masked(s: string, starred: seq<bool>): string
    requires |starred| == |s|
  {
    if s == "" then "" else MaskedChar(s[0], starred[0]) + Masked(s[1..], starred[1..])
  }

  function MaskedChar(c: char, star: bool): string {
    if star then StarText(Utf8Width(c)) else [c]
  }

  function StarText(n: nat): (t: string)
    ensures |t| == n && forall i | 0 <= i < n :: t[i] == '*'
  {
    if n == 0 then "" else "*" + StarText(n - 1)
  }

  function StarredChars(lower: char -> string, s: string, matches: seq<Match>): (b: seq<bool>)
    requires InBounds(Lowered(lower, s), matches)
    ensures |b| == |s| && forall k | 0 <= k < |s| :: b[k] == Starred(lower, s, matches, k)
  {
    seq(|s|, k requires 0 <= k < |s| => Starred(lower, s, matches, k))
  }

  lemma {:induction false} EncodeStars(n: nat)
    ensures |Encode(StarText(n))| == n && forall i | 0 <= i < n :: Encode(StarText(n))[i] == STAR
  {
    if n > 0 {
      EncodeStars(n - 1);
    }
  }

  lemma EncodeHead(c: char, star: bool)
    ensures var e := Encode(MaskedChar(c, star));
            |e| == Utf8Width(c) && forall j | 0 <= j < Utf8Width(c) :: e[j] == if star then STAR else Utf8(c)[j]
  {
    EncodeStars(Utf8Width(c));
    EncodeOne(c);
  }

  lemma {:induction false} MaskedConcat(s: string, starred: seq<bool>, k: nat)
    requires |starred| == |s| && k <= |s|
    ensures Masked(s, starred) == Masked(s[..k], starred[..k]) + Masked(s[k..], starred[k..])
    decreases k
  {
    if k == 0 {
      assert s[0..] == s && starred[0..] == starred && s[..0] == "";
    } else {
      MaskedConcat(s[1..], starred[1..], k - 1);
      assert s[1..][..k - 1] == s[..k][1..] && starred[1..][..k - 1] == starred[..k][1..];
      assert s[1..][k - 1..] == s[k..] && starred[1..][k - 1..] == starred[k..];
    }
  }

  /** Masking keeps every byte in place: starred characters turn into stars, all others stay. */
  lemma MaskedByte(s: string, starred: seq<bool>, k: nat, j: nat)
    requires |starred| == |s| && k < |s| && j < Utf8Width(s[k])
    ensures |Encode(Masked(s, starred))| == |Encode(s)|
    ensures Off(s, k) + j < |Encode(s)|
    ensures Encode(Masked(s, starred))[Off(s, k) + j] == if starred[k] then STAR else Encode(s)[Off(s, k) + j]
  {
    MaskedLen(s, starred);
    OffStep(s, k);
    InSlice(Encode(s), Off(s, k), Off(s, k + 1), j);
    MaskedSlice(s, starred, k, j);
  }

  lemma MaskedSlice(s: string, starred: seq<bool>, k: nat, j: nat)
    requires |starred| == |s| && k < |s| && j < Utf8Width(s[k])
    ensures Off(s, k) + j < |Encode(Masked(s, starred))|
    ensures Encode(Masked(s, starred))[Off(s, k) + j] == if starred[k] then STAR else Utf8(s[k])[j]
  {
    var a, h, b := Masked(s[..k], starred[..k]), MaskedChar(s[k], starred[k]), Masked(s[k + 1..], starred[k + 1..]);
    MaskedParts(s, starred, k);
    MaskedLen(s[..k], starred[..k]);
    EncodeConcat(a, h + b);
    EncodeConcat(h, b);
    EncodeHead(s[k], starred[k]);
    Middle(Encode(a), Encode(h), Encode(b), j);
  }

  lemma MaskedParts(s: string, starred: seq<bool>, k: nat)
    requires |starred| == |s| && k < |s|
    ensures Masked(s, starred) == Masked(s[..k], starred[..k]) + (MaskedChar(s[k], starred[k]) + Masked(s[k + 1..], starred[k + 1..]))
  {
    Advance(s, k);
    Advance(starred, k);
    MaskedConcat(s, starred, k);
  }

  lemma InSlice(s: seq<Byte>, a: nat, b: nat, j: nat)
    requires a + j < b <= |s|
    ensures s[a + j] == s[a..b][j]
  {
  }

  lemma Middle(a: seq<Byte>, b: seq<Byte>, c: seq<Byte>, j: nat)
    requires j < |b|
    ensures (a + (b + c))[|a| + j] == b[j]
  {
  }

  lemma {:induction false} MaskedLen(s: string, starred: seq<bool>)
    requires |starred| == |s|
    ensures |Encode(Masked(s, starred))| == |Encode(s)|
  {
    if s != "" {
      MaskedLen(s[1..], starred[1..]);
      EncodeHead(s[0], starred[0]);
      EncodeConcat(MaskedChar(s[0], starred[0]), Masked(s[1..], starred[1..]));
    }
  }

  /** Match `m` overwrites byte `i`, as the program decides it. */
  predicate Overwrites(bytes: seq<Byte>, bmap: seq<nat>, m: Match, i: nat)
    requires m.position + m.length < |bmap| && bmap[m.position] <= |bytes|
  {
    bmap[m.position] <= i < bmap[m.position + m.length] && !InsideBytes(bytes, bmap[m.position])
  }

  /** Bytes and characters agree on what a match covers. */
  lemma OverwritesAgrees(lower: char -> string, s: string, m: Match, k: nat, i: nat)
    requires m.position + m.length <= |Lowered(lower, s)|
    requires k < |s| && Off(s, k) <= i < Off(s, k + 1)
    ensures ByteMap(lower, s)[m.position] <= |Encode(s)|
    ensures Overwrites(Encode(s), ByteMap(lower, s), m, i) <==> Stars(lower, s, m, k)
  {
    ByteMapAt(lower, s, m.position);
    ByteMapAt(lower, s, m.position + m.length);
    CoverAgrees(s, CharMap(lower, s, 0), ByteMap(lower, s), m, k, i);
  }

  lemma CoverAgrees(s: string, cm: seq<nat>, bmap: seq<nat>, m: Match, k: nat, i: nat)
    requires m.position + m.length < |bmap| == |cm| && k < |s| && Off(s, k) <= i < Off(s, k + 1)
    requires cm[m.position] <= |s| && bmap[m.position] == Off(s, cm[m.position])
    requires cm[m.position + m.length] <= |s| && bmap[m.position + m.length] == Off(s, cm[m.position + m.length])
    ensures bmap[m.position] <= |Encode(s)|
    ensures Overwrites(Encode(s), bmap, m, i) <==>
            cm[m.position] <= k < cm[m.position + m.length] && !Inside(s, cm[m.position])
  {
    InsideAgrees(s, cm[m.position]);
    BoundaryBelow(s, cm[m.position], k, i);
    BoundaryBelow(s, cm[m.position + m.length], k, i);
  }

  lemma ByteMapAt(lower: char -> string, s: string, i: nat)
    requires i < |ByteMap(lower, s)|
    ensures CharMap(lower, s, 0)[i] <= |s| && ByteMap(lower, s)[i] == Off(s, CharMap(lower, s, 0)[i])
  {
  }

  /** A boundary lies at or below a byte exactly when it is not after the byte's character. */
  lemma BoundaryBelow(s: string, a: nat, k: nat, i: nat)
    requires a <= |s| && k < |s| && Off(s, k) <= i < Off(s, k + 1)
    ensures Off(s, a) <= i <==> a <= k
  {
    if a <= k {
      OffMonotone(s, a, k);
    } else {
      OffMonotone(s, k + 1, a);
    }
  }

  /** The bytes after masking with the given matches. */
  predicate IsMasked(bytes: seq<Byte>, bmap: seq<nat>, matches: seq<Match>, out: seq<Byte>)
    requires forall n | 0 <= n < |matches| ::
               matches[n].position + matches[n].length < |bmap| && bmap[matches[n].position] <= |bytes|
  {
    |out| == |bytes| &&
    forall i | 0 <= i < |bytes| ::
      out[i] == if exists n | 0 <= n < |matches| :: Overwrites(bytes, bmap, matches[n], i) then STAR else bytes[i]
  }

  lemma MaskedIsText(lower: char -> string, s: string, matches: seq<Match>, out: seq<Byte>)
    requires InBounds(Lowered(lower, s), matches)
    requires forall n | 0 <= n < |matches| :: ByteMap(lower, s)[matches[n].position] <= |Encode(s)|
    requires IsMasked(Encode(s), ByteMap(lower, s), matches, out)
    ensures out == Encode(Masked(s, StarredChars(lower, s, matches)))
  {
    var starred := StarredChars(lower, s, matches);
    MaskedLen(s, starred);
    OffEnd(s);
    forall i | 0 <= i < |out|
      ensures out[i] == Encode(Masked(s, starred))[i]
    {
      var k := CharOf(s, i, |s|);
      OverwrittenAgrees(lower, s, matches, k, i);
      ByteOfMasked(s, starred, k, i);
    }
  }

  /** Some match overwrites a byte exactly if its character is starred. */
  lemma OverwrittenAgrees(lower: char -> string, s: string, matches: seq<Match>, k: nat, i: nat)
    requires InBounds(Lowered(lower, s), matches) && k < |s| && Off(s, k) <= i < Off(s, k + 1)
    requires forall n | 0 <= n < |matches| :: ByteMap(lower, s)[matches[n].position] <= |Encode(s)|
    ensures Starred(lower, s, matches, k) <==>
            exists n | 0 <= n < |matches| :: Overwrites(Encode(s), ByteMap(lower, s), matches[n], i)
  {
    forall n | 0 <= n < |matches|
      ensures Overwrites(Encode(s), ByteMap(lower, s), matches[n], i) <==> Stars(lower, s, matches[n], k)
    {
      OverwritesAgrees(lower, s, matches[n], k, i);
    }
  }

  lemma ByteOfMasked(s: string, starred: seq<bool>, k: nat, i: nat)
    requires |starred| == |s| && k < |s| && Off(s, k) <= i < Off(s, k + 1)
    ensures i < |Encode(s)| == |Encode(Masked(s, starred))|
    ensures Encode(Masked(s, starred))[i] == if starred[k] then STAR else Encode(s)[i]
  {
    var j := i - Off(s, k);
    assert i == Off(s, k) + j && j < Utf8Width(s[k]) by {
      OffStep(s, k);
    }
    MaskedByte(s, starred, k, j);
  }

  /** The output filter.  The scanner is a parameter: any function from the lowered bytes to matches
      within them.  The result is the UTF-8 encoding of the reply with starred characters, so it
      is valid UTF-8 of the same length and differs from the reply only where a match outside
      brackets covers it. */
  method FilterOutput(lower: char -> string, scan: seq<Byte> -> seq<Match>, text: string) returns (out: seq<Byte>)
    requires InBounds(Lowered(lower, text), scan(Lowered(lower, text)))
    ensures out == Encode(Masked(text, StarredChars(lower, text, scan(Lowered(lower, text)))))
  {
    var lowered, bmap := LowerWithByteMap(lower, text);
    var matches := scan(lowered);
    var bytes := Encode(text);
    forall n | 0 <= n < |matches|
      ensures bmap[matches[n].position] <= bmap[matches[n].position + matches[n].length] <= |bytes|
    {
      ByteMapMonotone(lower, text, matches[n].position, matches[n].position + matches[n].length);
    }
    out := bytes;
    for n := 0 to |matches|
      invariant IsMasked(bytes, bmap, matches[..n], out)
    {
      var start, end := bmap[matches[n].position], bmap[matches[n].position + matches[n].length];
      var inside := IsInsideBrackets(bytes, start);
      ghost var before := out;
      if !inside {
        out := Fill(out, start, end);
      }
      MaskOne(bytes, bmap, matches, n, before, out);
    }
    assert matches[..|matches|] == matches;
    MaskedIsText(lower, text, matches, out);
  }

  /** `buf[start..end].fill(b'*')` */
  method Fill(buf: seq<Byte>, start: nat, end: nat) returns (out: seq<Byte>)
    requires start <= end <= |buf|
    ensures |out| == |buf| && forall i | 0 <= i < |buf| :: out[i] == if start <= i < end then STAR else buf[i]
  {
    var a := new Byte[|buf|](i requires 0 <= i < |buf| => buf[i]);
    for i := start to end
      invariant forall j | 0 <= j < |buf| :: a[j] == if start <= j < i then STAR else buf[j]
    {
      a[i] := STAR;
    }
    out := a[..];
  }

  lemma MaskOne(bytes: seq<Byte>, bmap: seq<nat>, matches: seq<Match>, n: nat, before: seq<Byte>, after: seq<Byte>)
    requires n < |matches|
    requires forall k | 0 <= k < |matches| ::
               matches[k].position + matches[k].length < |bmap| && bmap[matches[k].position] <= |bytes|
    requires IsMasked(bytes, bmap, matches[..n], before) && |after| == |before|
    requires forall i | 0 <= i < |before| :: after[i] == if Overwrites(bytes, bmap, matches[n], i) then STAR else before[i]
    ensures IsMasked(bytes, bmap, matches[..n + 1], after)
  {
    var ms := matches[..n + 1];
    assert forall k | 0 <= k < n :: ms[k] == matches[..n][k];
    forall i | 0 <= i < |bytes|
      ensures after[i] == if exists k | 0 <= k < |ms| :: Overwrites(bytes, bmap, ms[k], i) then STAR else bytes[i]
    {
      if k :| 0 <= k < n && Overwrites(bytes, bmap, matches[..n][k], i) {
        assert Overwrites(bytes, bmap, ms[k], i);
      } else if Overwrites(bytes, bmap, matches[n], i) {
        assert Overwrites(bytes, bmap, ms[n], i);
      }
    }
  }

  // ----- Placeholders survive the mask

  /** The windows of a text, as the deanonymizers find them. */
  function Windows(s: string): seq<string>
    decreases |s|
  {
    if s == "" then []
    else if s[0] != '[' then Windows(s[1..])
    else
      var e := Close(s);
      if e == |s| then [] else [s[..e + 1]] + Windows(s[e + 1..])
  }

  /** The lowered bytes a match covers hold no bracket. */
  predicate PhraseBracketFree(lowered: seq<Byte>, m: Match)
    requires m.position + m.length <= |lowered|
  {
    forall i | m.position <= i < m.position + m.length :: lowered[i] != OPEN && lowered[i] != CLOSE
  }

  lemma {:induction false} LoweredBracket(lower: char -> string, s: string, base: nat, k: nat) returns (i: nat)
    requires LowerOk(lower) && k < |s| && (s[k] == '[' || s[k] == ']')
    ensures i < |Lowered(lower, s)| && CharMap(lower, s, base)[i] == base + k
    ensures Lowered(lower, s)[i] == OPEN || Lowered(lower, s)[i] == CLOSE
    ensures i == 0 || CharMap(lower, s, base)[i - 1] < base + k
    ensures CharMap(lower, s, base)[i + 1] > base + k
    decreases |s|
  {
    if k == 0 {
      BracketLowers(lower, s, base);
      i := 0;
    } else {
      i := LoweredBracket(lower, s[1..], base + 1, k - 1);
      LoweredTail(lower, s, base, i);
      i := i + |Encode(lower(s[0]))|;
    }
  }

  lemma BracketLowers(lower: char -> string, s: string, base: nat)
    requires LowerOk(lower) && s != "" && (s[0] == '[' || s[0] == ']')
    ensures |Lowered(lower, s)| >= 1 && (Lowered(lower, s)[0] == OPEN || Lowered(lower, s)[0] == CLOSE)
    ensures CharMap(lower, s, base)[0] == base && CharMap(lower, s, base)[1] > base
  {
    assert lower(s[0]) == [s[0]];
    EncodeOne(s[0]);
  }

  lemma LoweredTail(lower: char -> string, s: string, base: nat, i: nat)
    requires LowerOk(lower) && s != "" && i < |Lowered(lower, s[1..])|
    ensures var n, m, t := |Encode(lower(s[0]))|, CharMap(lower, s, base), CharMap(lower, s[1..], base + 1);
            && n >= 1 && i + n < |Lowered(lower, s)|
            && Lowered(lower, s)[i + n] == Lowered(lower, s[1..])[i]
            && m[i + n] == t[i] && m[i + n + 1] == t[i + 1]
            && m[i + n - 1] == if i == 0 then base else t[i - 1]
  {
    var e := Encode(lower(s[0]));
    assert lower(s[0]) != "" && |e| >= 1;
    Shifted(e, Lowered(lower, s[1..]), i);
    Shifted(Repeat(base, |e|), CharMap(lower, s[1..], base + 1), i);
  }

  lemma Shifted<T>(e: seq<T>, t: seq<T>, i: nat)
    requires i < |t| && |e| >= 1
    ensures (e + t)[i + |e|] == t[i]
    ensures i + 1 < |t| ==> (e + t)[i + |e| + 1] == t[i + 1]
    ensures (e + t)[i + |e| - 1] == if i == 0 then e[|e| - 1] else t[i - 1]
  {
  }

  /** A bracket-free phrase covers no bracket of the reply. */
  lemma StarsNoBracket(lower: char -> string, s: string, m: Match, k: nat)
    requires LowerOk(lower) && m.position + m.length <= |Lowered(lower, s)| && k < |s|
    requires PhraseBracketFree(Lowered(lower, s), m) && Stars(lower, s, m, k)
    ensures s[k] != '[' && s[k] != ']'
  {
    if s[k] == '[' || s[k] == ']' {
      var i := LoweredBracket(lower, s, 0, k);
      var cm := CharMap(lower, s, 0);
      if i < m.position {
        CharMapMonotone(lower, s, 0, i + 1, m.position);
      } else if i >= m.position + m.length {
        CharMapMonotone(lower, s, 0, m.position + m.length, i);
      }
    }
  }

  /** Everything a bracket-free phrase stars out lies outside brackets. */
  lemma StarsOutside(lower: char -> string, s: string, m: Match, k: nat)
    requires LowerOk(lower) && m.position + m.length <= |Lowered(lower, s)| && k < |s|
    requires PhraseBracketFree(Lowered(lower, s), m) && Stars(lower, s, m, k)
    ensures !Inside(s, k)
  {
    var a := CharMap(lower, s, 0)[m.position];
    forall j | a <= j < k
      ensures s[j] != '[' && s[j] != ']'
    {
      StarsNoBracket(lower, s, m, j);
    }
    InsideEarlier(s, a, k);
  }

  /** Plain text does not change whether one is inside brackets. */
  lemma InsideEarlier(s: string, a: nat, k: nat)
    requires a <= k <= |s| && forall j | a <= j < k :: s[j] != '[' && s[j] != ']'
    ensures Inside(s, k) ==> Inside(s, a)
  {
    if Inside(s, k) {
      var j :| 0 <= j < k && s[j] == '[' && forall i | j < i < k :: s[i] != '[' && s[i] != ']';
      assert j < a;
    }
  }

  /** Only plain characters outside brackets are starred. */
  predicate Harmless(s: string, starred: seq<bool>)
    requires |starred| == |s|
  {
    forall k | 0 <= k < |s| && starred[k] :: s[k] != '[' && s[k] != ']' && !Inside(s, k)
  }

  lemma {:induction false} MaskedPrefix(s: string, starred: seq<bool>, n: nat)
    requires |starred| == |s| && n <= |s| && forall k | 0 <= k < n :: !starred[k]
    ensures Masked(s, starred) == s[..n] + Masked(s[n..], starred[n..])
    decreases n
  {
    if n == 0 {
      assert s[..0] == "" && s[0..] == s && starred[0..] == starred;
    } else {
      MaskedPrefix(s[1..], starred[1..], n - 1);
      SubSlices(s, 1, n);
      SubSlices(starred, 1, n);
      assert s[..n] == [s[0]] + s[1..n];
      Assoc([s[0]], s[1..n], Masked(s[n..], starred[n..]));
    }
  }

  lemma HarmlessTail(s: string, starred: seq<bool>, n: nat)
    requires |starred| == |s| && n <= |s| && Harmless(s, starred)
    ensures Harmless(s[n..], starred[n..])
  {
    var t := s[n..];
    forall k | 0 <= k < |t| && starred[n..][k]
      ensures t[k] != '[' && t[k] != ']' && !Inside(t, k)
    {
      assert starred[n + k];
      InsideWhole(s, n, k);
    }
  }

  /** From a `[` up to the first `]` nothing is starred. */
  lemma WindowUntouched(s: string, starred: seq<bool>)
    requires |starred| == |s| && s != "" && s[0] == '[' && Harmless(s, starred)
    ensures forall k | 0 <= k <= Close(s) && k < |s| :: !starred[k]
  {
    forall k | 0 <= k <= Close(s) && k < |s|
      ensures !starred[k]
    {
      if starred[k] {
        InsideOpen(s, k);
      }
    }
  }

  lemma {:induction false} InsideOpen(s: string, k: nat)
    requires s != "" && s[0] == '[' && 1 <= k <= Close(s) && k <= |s|
    ensures Inside(s, k)
    decreases k
  {
    if s[k - 1] == '[' {
    } else {
      assert k > 1;
      InsideOpen(s, k - 1);
      var j :| 0 <= j < k - 1 && s[j] == '[' && forall i | j < i < k - 1 :: s[i] != '[' && s[i] != ']';
      assert s[k - 1] != ']';
    }
  }

  lemma {:induction false} WindowsSkip(a: string, t: string)
    requires '[' !in a
    ensures Windows(a + t) == Windows(t)
  {
    if a == "" {
      assert a + t == t;
    } else {
      WindowsSkip(a[1..], t);
      assert (a + t)[1..] == a[1..] + t;
    }
  }

  lemma {:induction false} HarmlessKeepsWindows(s: string, starred: seq<bool>)
    requires |starred| == |s| && Harmless(s, starred)
    ensures Windows(Masked(s, starred)) == Windows(s)
    decreases |s|
  {
    if s == "" {
    } else if s[0] != '[' {
      HarmlessTail(s, starred, 1);
      HarmlessKeepsWindows(s[1..], starred[1..]);
      WindowsSkip(MaskedChar(s[0], starred[0]), Masked(s[1..], starred[1..]));
    } else {
      var e := Close(s);
      WindowUntouched(s, starred);
      if e == |s| {
        MaskedPrefix(s, starred, |s|);
        assert s[..|s|] + "" == s && s[|s|..] == "";
      } else {
        MaskedPrefix(s, starred, e + 1);
        var w, rest := s[..e + 1], Masked(s[e + 1..], starred[e + 1..]);
        HarmlessTail(s, starred, e + 1);
        HarmlessKeepsWindows(s[e + 1..], starred[e + 1..]);
        CloseUnique(w + rest, e);
        assert (w + rest)[..e + 1] == w && (w + rest)[e + 1..] == rest;
      }
    }
  }

  /** For every reply and every list of matches of bracket-free phrases, the masked reply has the
      windows of the reply, in order: every placeholder is still there to be restored. */
  lemma MaskKeepsPlaceholders(lower: char -> string, s: string, matches: seq<Match>)
    requires LowerOk(lower) && InBounds(Lowered(lower, s), matches)
    requires forall n | 0 <= n < |matches| :: PhraseBracketFree(Lowered(lower, s), matches[n])
    ensures Windows(Masked(s, StarredChars(lower, s, matches))) == Windows(s)
  {
    MaskIsHarmless(lower, s, matches);
    HarmlessKeepsWindows(s, StarredChars(lower, s, matches));
  }

  /** Matches of bracket-free phrases only star plain characters outside brackets. */
  lemma MaskIsHarmless(lower: char -> string, s: string, matches: seq<Match>)
    requires LowerOk(lower) && InBounds(Lowered(lower, s), matches)
    requires forall n | 0 <= n < |matches| :: PhraseBracketFree(Lowered(lower, s), matches[n])
    ensures Harmless(s, StarredChars(lower, s, matches))
  {
    var starred := StarredChars(lower, s, matches);
    forall k | 0 <= k < |s| && starred[k]
      ensures s[k] != '[' && s[k] != ']' && !Inside(s, k)
    {
      var n :| 0 <= n < |matches| && Stars(lower, s, matches[n], k);
      StarsNoBracket(lower, s, matches[n], k);
      StarsOutside(lower, s, matches[n], k);
    }
  }
}
