/** What normalisation is for: disguised spellings of a word are read as the word. */
module Disguise {
  import opened Seqs
  import opened Normalize

  // ----- The disguises, by their tables

  const LEET: seq<(char, char)> :=
    [('0', 'o'), ('1', 'i'), ('|', 'i'), ('3', 'e'), ('4', 'a'), ('@', 'a'), ('5', 's'), ('$', 's'), ('7', 't'), ('8', 'b')]

  const SEPARATORS := "-._*~"

  const ZERO_WIDTH: set<int> := {0x200B, 0x200C, 0x200D, 0x2060, 0xFEFF}

  /** `c` is the letter, its upper-case form, or a character written for it. */
  predicate Spells(c: char, letter: char) {
    c == letter || (65 <= c as int <= 90 && letter as int == c as int + 32) || (c, letter) in LEET
  }

  predicate IsWord(w: string) {
    forall i | 0 <= i < |w| :: 97 <= w[i] as int <= 122
  }

  predicate Spelling(c: string, w: string) {
    |c| == |w| && forall i | 0 <= i < |w| :: Spells(c[i], w[i])
  }

  /** The characters of `c` with one separator between each two. */
  function Separated(c: string, seps: string): string
    requires |c| == |seps| + 1
  {
    if seps == "" then c else [c[0], seps[0]] + Separated(c[1..], seps[1..])
  }

  // ----- What is emitted for them

  /** The character comes out as `x`, wherever it stands. */
  predicate Becomes(o: NormalizeConfig, u: Unicode, c: char, x: char) {
    PushedBy(o, u, c, true) == Pushed([x], false) && PushedBy(o, u, c, false) == Pushed([x], false)
  }

  predicate AllBecome(o: NormalizeConfig, u: Unicode, d: string, e: string) {
    |d| == |e| && forall i | 0 <= i < |d| :: Becomes(o, u, d[i], e[i])
  }

  lemma SpellsBecomes(o: NormalizeConfig, u: Unicode, c: char, x: char)
    requires AsciiCaseOk(u) && o.leet && 97 <= x as int <= 122 && Spells(c, x)
    ensures Becomes(o, u, c, x) && c < 128 as char
  {
    if (c, x) in LEET {
      assert LeetFold(c) == x;
    }
  }

  lemma SeparatorBecomes(o: NormalizeConfig, u: Unicode, c: char)
    requires AsciiCaseOk(u) && c in SEPARATORS
    ensures Becomes(o, u, c, c) && c < 128 as char && IsSeparator(c)
  {
  }

  lemma {:induction false} EmitBecomes(o: NormalizeConfig, u: Unicode, d: string, e: string, prev: bool)
    requires AllBecome(o, u, d, e)
    ensures Emit(o, u, d, prev) == e
    decreases |d|
  {
    if d != "" {
      assert Becomes(o, u, d[0], e[0]);
      EmitBecomes(o, u, d[1..], e[1..], false);
      assert e == [e[0]] + e[1..];
    }
  }

  lemma {:induction false} SeparatedBecomes(o: NormalizeConfig, u: Unicode, c: string, w: string, seps: string)
    requires AsciiCaseOk(u) && o.leet && IsWord(w) && Spelling(c, w) && |c| == |seps| + 1
    requires forall i | 0 <= i < |seps| :: seps[i] in SEPARATORS
    ensures AllBecome(o, u, Separated(c, seps), Separated(w, seps)) && IsAscii(Separated(c, seps))
    decreases |seps|
  {
    SpellsBecomes(o, u, c[0], w[0]);
    if seps != "" {
      SeparatorBecomes(o, u, seps[0]);
      SeparatedBecomes(o, u, c[1..], w[1..], seps[1..]);
      BecomeCons(o, u, c[0], w[0], seps[0], Separated(c[1..], seps[1..]), Separated(w[1..], seps[1..]));
    }
  }

  lemma BecomeCons(o: NormalizeConfig, u: Unicode, c: char, x: char, s: char, d: string, e: string)
    requires Becomes(o, u, c, x) && Becomes(o, u, s, s) && AllBecome(o, u, d, e) && c < 128 as char && s < 128 as char && IsAscii(d)
    ensures AllBecome(o, u, [c, s] + d, [x, s] + e) && IsAscii([c, s] + d)
  {
  }

  // ----- What is collapsed

  lemma {:induction false} SeparatedRun(w: string, seps: string)
    requires IsWord(w) && |w| == |seps| + 1 && forall i | 0 <= i < |seps| :: seps[i] in SEPARATORS
    ensures RunLen(Separated(w, seps)) == |w| && |Separated(w, seps)| == 2 * |w| - 1
    ensures Letters(Separated(w, seps), |w|) == w
    decreases |seps|
  {
    if seps == "" {
      assert w == [w[0]];
    } else {
      SeparatedRun(w[1..], seps[1..]);
      var rest := Separated(w[1..], seps[1..]);
      SeparatedFirst(w[1..], seps[1..]);
      RunOver(w[0], seps[0], rest);
      assert ([w[0], seps[0]] + rest)[2..] == rest;
      assert w == [w[0]] + w[1..];
    }
  }

  lemma SeparatedFirst(w: string, seps: string)
    requires |w| == |seps| + 1
    ensures Separated(w, seps) != "" && Separated(w, seps)[0] == w[0]
  {
  }

  lemma {:induction false} WordNoRun(w: string)
    requires IsWord(w)
    ensures Collapse(w) == w
    decreases |w|
  {
    if w != "" {
      WordNoRun(w[1..]);
      CollapseShort(w);
      assert w == [w[0]] + w[1..];
    }
  }

  lemma WordTrimmed(w: string)
    requires IsWord(w)
    ensures TrimEnd(w) == w
  {
  }

  lemma {:induction false} SeparatedLast(w: string, seps: string)
    requires |w| == |seps| + 1
    ensures Separated(w, seps) != "" && Separated(w, seps)[|Separated(w, seps)| - 1] == w[|w| - 1]
    decreases |seps|
  {
    if seps != "" {
      SeparatedLast(w[1..], seps[1..]);
    }
  }

  // ----- The word comes out

  lemma SpellingBecomes(o: NormalizeConfig, u: Unicode, c: string, w: string)
    requires AsciiCaseOk(u) && o.leet && IsWord(w) && Spelling(c, w)
    ensures AllBecome(o, u, c, w) && IsAscii(c)
  {
    forall i | 0 <= i < |c|
      ensures Becomes(o, u, c[i], w[i]) && c[i] < 128 as char
    {
      SpellsBecomes(o, u, c[i], w[i]);
    }
  }

  /** Every spelling of a word with leet characters and mixed case is read as the word. */
  lemma LeetIsRead(o: NormalizeConfig, u: Unicode, c: string, w: string)
    requires AsciiCaseOk(u) && o.leet && IsWord(w) && Spelling(c, w)
    ensures NormalizeWith(o, u, c) == w
  {
    SpellingBecomes(o, u, c, w);
    EmitBecomes(o, u, c, w, true);
    WordTrimmed(w);
    WordNoRun(w);
  }

  /** And so is every such spelling of four or more letters with separators between them. */
  lemma SeparatedIsRead(o: NormalizeConfig, u: Unicode, c: string, w: string, seps: string)
    requires AsciiCaseOk(u) && o.leet && o.separators && IsWord(w) && Spelling(c, w) && |w| >= 4 && |seps| + 1 == |w|
    requires forall i | 0 <= i < |seps| :: seps[i] in SEPARATORS
    ensures NormalizeWith(o, u, Separated(c, seps)) == w
  {
    SeparatedBase(o, u, c, w, seps);
    SeparatedCollapses(w, seps);
  }

  lemma SeparatedBase(o: NormalizeConfig, u: Unicode, c: string, w: string, seps: string)
    requires AsciiCaseOk(u) && o.leet && IsWord(w) && Spelling(c, w) && |seps| + 1 == |w|
    requires forall i | 0 <= i < |seps| :: seps[i] in SEPARATORS
    ensures IsAscii(Separated(c, seps)) && Base(o, u, Separated(c, seps)) == Separated(w, seps)
  {
    SeparatedBecomes(o, u, c, w, seps);
    EmitBecomes(o, u, Separated(c, seps), Separated(w, seps), true);
    SeparatedLast(w, seps);
  }

  lemma SeparatedCollapses(w: string, seps: string)
    requires IsWord(w) && |w| >= 4 && |seps| + 1 == |w| && forall i | 0 <= i < |seps| :: seps[i] in SEPARATORS
    ensures Collapse(Separated(w, seps)) == w
  {
    var s := Separated(w, seps);
    SeparatedRun(w, seps);
    CollapseLong(s, |w|);
    assert s[2 * |w| - 1..] == "";
    Whole(w);
  }

  /** With fewer letters the separators stay. */
  lemma ShortStaysSeparated(o: NormalizeConfig, u: Unicode, c: string, w: string, seps: string)
    requires AsciiCaseOk(u) && o.leet && IsWord(w) && Spelling(c, w) && 1 <= |w| < 4 && |seps| + 1 == |w|
    requires forall i | 0 <= i < |seps| :: seps[i] in SEPARATORS
    ensures NormalizeWith(o, u, Separated(c, seps)) == Separated(w, seps)
  {
    SeparatedBase(o, u, c, w, seps);
    ShortKept(w, seps);
  }

  lemma {:induction false} ShortKept(w: string, seps: string)
    requires IsWord(w) && 1 <= |w| < 4 && |seps| + 1 == |w| && forall i | 0 <= i < |seps| :: seps[i] in SEPARATORS
    ensures Collapse(Separated(w, seps)) == Separated(w, seps)
    decreases |seps|
  {
    if seps == "" {
      WordNoRun(w);
    } else {
      ShortKept(w[1..], seps[1..]);
      SeparatedRun(w, seps);
      ShortStep(w[0], seps[0], Separated(w[1..], seps[1..]));
    }
  }

  lemma ShortStep(c: char, sep: char, rest: string)
    requires sep in SEPARATORS && RunLen([c, sep] + rest) < 4 && Collapse(rest) == rest
    ensures Collapse([c, sep] + rest) == [c, sep] + rest
  {
    var tail := [sep] + rest;
    CollapseShort([c, sep] + rest);
    assert ([c, sep] + rest)[1..] == tail;
    SeparatesByTable(sep);
    CollapseSeparator(tail);
    assert tail[1..] == rest;
  }

  /** The tables are these and no others. */
  lemma FoldsByTable(c: char)
    ensures LeetFold(c) == c || (c, LeetFold(c)) in LEET
  {
    if LeetFold(c) != c {
      InTable(c);
    }
  }

  lemma InTable(c: char)
    ensures forall i | 0 <= i < |LEET| :: LEET[i] in LEET
    ensures LeetFold(c) != c ==> c in "01|34@5$78"
    ensures c in "01|34@5$78" ==> exists i | 0 <= i < |LEET| :: LEET[i] == (c, LeetFold(c))
  {
    if c in "01|34@5$78" {
      var i :| 0 <= i < 10 && "01|34@5$78"[i] == c;
      assert LEET[i] == (c, LeetFold(c));
    }
  }

  lemma SeparatesByTable(c: char)
    ensures IsSeparator(c) <==> c in SEPARATORS
  {
    assert forall i | 0 <= i < |SEPARATORS| :: IsSeparator(SEPARATORS[i]);
    assert SEPARATORS[0] == '-' && SEPARATORS[1] == '.' && SEPARATORS[2] == '_' && SEPARATORS[3] == '*' && SEPARATORS[4] == '~';
  }

  lemma ZeroWidthByTable(c: char)
    ensures IsZeroWidth(c) <==> c as int in ZERO_WIDTH
  {
  }

  lemma BlanksByTable(c: char)
    ensures IsBreak(c) <==> c as int in {9, 10, 13}
    ensures IsAlnum(c) <==> 48 <= c as int <= 57 || 65 <= c as int <= 90 || 97 <= c as int <= 122
  {
  }

  /** A zero-width character anywhere leaves no trace. */
  lemma {:induction false} ZeroWidthInvisible(o: NormalizeConfig, u: Unicode, a: string, c: char, b: string, prev: bool)
    requires o.zeroWidth && c as int in ZERO_WIDTH
    ensures Emit(o, u, a + [c] + b, prev) == Emit(o, u, a + b, prev)
    decreases |a|
  {
    if a == "" {
      assert (a + [c] + b)[1..] == b;
      Whole(b);
    } else {
      var next := PushedBy(o, u, a[0], prev).prev;
      ZeroWidthInvisible(o, u, a[1..], c, b, next);
      assert (a + [c] + b)[1..] == a[1..] + [c] + b && (a + b)[1..] == a[1..] + b;
    }
  }
}
