/** The mask said of one phrase: outside brackets a matched phrase becomes stars, inside it stays. */
module MaskPhrase {
  import opened Seqs
  import opened Brackets
  import opened Mask
  import opened MaskRestore

  lemma {:induction false} LoweredConcat(lower: char -> string, a: string, b: string)
    ensures Lowered(lower, a + b) == Lowered(lower, a) + Lowered(lower, b)
  {
    if a == "" {
      Whole(b);
      Whole(Lowered(lower, b));
    } else {
      LoweredConcat(lower, a[1..], b);
      HeadTail(a, b);
      Assoc(Encode(lower(a[0])), Lowered(lower, a[1..]), Lowered(lower, b));
    }
  }

  /** Where the lowered copy of `b` begins, the map points to the first character of `b`. */
  lemma {:induction false} CharMapAt(lower: char -> string, a: string, b: string, base: nat)
    requires LowerOk(lower)
    ensures |Lowered(lower, a)| < |CharMap(lower, a + b, base)|
    ensures CharMap(lower, a + b, base)[|Lowered(lower, a)|] == base + |a|
    decreases |a|
  {
    LoweredConcat(lower, a, b);
    if a == "" {
      Whole(b);
      if b != "" {
        assert |Encode(lower(b[0]))| >= 1;
      }
    } else {
      HeadTail(a, b);
      CharMapAt(lower, a[1..], b, base + 1);
      var n := |Encode(lower(a[0]))|;
      Appended(Repeat(base, n), CharMap(lower, a[1..] + b, base + 1), n + |Lowered(lower, a[1..])|);
    }
  }

  /** The match of the phrase `p` between `a` and `b`. */
  function MatchOf(lower: char -> string, a: string, p: string): Match {
    Match(|Lowered(lower, a)|, |Lowered(lower, p)|)
  }

  lemma MatchInBounds(lower: char -> string, a: string, p: string, b: string)
    ensures InBounds(Lowered(lower, a + p + b), [MatchOf(lower, a, p)])
  {
    LoweredConcat(lower, a, p);
    LoweredConcat(lower, a + p, b);
  }

  function Flags(n: nat, flag: bool): (r: seq<bool>)
    ensures |r| == n && forall i | 0 <= i < n :: r[i] == flag
  {
    seq(n, _ => flag)
  }

  lemma PhraseCovers(lower: char -> string, a: string, p: string, b: string)
    requires LowerOk(lower)
    ensures var cm, m := CharMap(lower, a + p + b, 0), MatchOf(lower, a, p);
            m.position + m.length < |cm| && cm[m.position] == |a| && cm[m.position + m.length] == |a| + |p|
  {
    LoweredConcat(lower, a, p);
    CharMapAt(lower, a, p + b, 0);
    CharMapAt(lower, a + p, b, 0);
    Assoc(a, p, b);
  }

  lemma PhraseStarsAt(lower: char -> string, a: string, p: string, b: string, k: nat)
    requires LowerOk(lower) && InBounds(Lowered(lower, a + p + b), [MatchOf(lower, a, p)])
    ensures Starred(lower, a + p + b, [MatchOf(lower, a, p)], k) <==> |a| <= k < |a| + |p| && !Inside(a + p + b, |a|)
  {
    var s, m := a + p + b, MatchOf(lower, a, p);
    PhraseCovers(lower, a, p, b);
    assert [m][0] == m;
    assert Stars(lower, s, m, k) == (|a| <= k < |a| + |p| && !Inside(s, |a|));
  }

  function Marks(a: nat, p: nat, b: nat, star: bool): (r: seq<bool>)
    ensures |r| == a + p + b && forall k | 0 <= k < a + p + b :: r[k] == (star && a <= k < a + p)
  {
    Flags(a, false) + Flags(p, star) + Flags(b, false)
  }

  /** Which characters the match stars: those of the phrase, if it begins outside brackets. */
  lemma PhraseStars(lower: char -> string, a: string, p: string, b: string)
    requires LowerOk(lower) && InBounds(Lowered(lower, a + p + b), [MatchOf(lower, a, p)])
    ensures StarredChars(lower, a + p + b, [MatchOf(lower, a, p)]) == Marks(|a|, |p|, |b|, !Inside(a + p + b, |a|))
  {
    var starred := StarredChars(lower, a + p + b, [MatchOf(lower, a, p)]);
    var marks := Marks(|a|, |p|, |b|, !Inside(a + p + b, |a|));
    forall k | 0 <= k < |starred|
      ensures starred[k] == marks[k]
    {
      PhraseStarsAt(lower, a, p, b, k);
    }
  }

  lemma {:induction false} NoneStarred(s: string)
    ensures Masked(s, Flags(|s|, false)) == s
  {
    if s != "" {
      NoneStarred(s[1..]);
      assert Flags(|s|, false)[1..] == Flags(|s[1..]|, false);
      assert s == [s[0]] + s[1..];
    }
  }

  lemma StarTextConcat(m: nat, n: nat)
    ensures StarText(m) + StarText(n) == StarText(m + n)
  {
  }

  lemma {:induction false} AllStarred(s: string)
    ensures Masked(s, Flags(|s|, true)) == StarText(ByteLen(s))
  {
    if s != "" {
      AllStarred(s[1..]);
      assert Flags(|s|, true)[1..] == Flags(|s[1..]|, true);
      StarTextConcat(Utf8Width(s[0]), ByteLen(s[1..]));
    } else {
      assert StarText(0) == "";
    }
  }

  /** A phrase found outside brackets becomes as many stars as it has bytes, and everything else stays;
      one that begins inside brackets is left alone. */
  lemma PhraseIsStarred(lower: char -> string, a: string, p: string, b: string)
    requires LowerOk(lower)
    ensures InBounds(Lowered(lower, a + p + b), [MatchOf(lower, a, p)])
    ensures Masked(a + p + b, StarredChars(lower, a + p + b, [MatchOf(lower, a, p)])) ==
            if Inside(a + p + b, |a|) then a + p + b else a + StarText(ByteLen(p)) + b
  {
    var star := !Inside(a + p + b, |a|);
    MatchInBounds(lower, a, p, b);
    PhraseStars(lower, a, p, b);
    MaskedAppend(a + p, Flags(|a|, false) + Flags(|p|, star), b, Flags(|b|, false));
    MaskedAppend(a, Flags(|a|, false), p, Flags(|p|, star));
    NoneStarred(a);
    NoneStarred(b);
    NoneStarred(p);
    AllStarred(p);
  }
}
