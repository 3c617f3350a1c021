/** Text normalisation in front of the input scanners.

    Upper-case mapping and NFKC come from the Unicode tables; here they are parameters. */
module Normalize {
  import opened Seqs

  datatype NormalizeConfig = NormalizeConfig(nfkc: bool, zeroWidth: bool, separators: bool, leet: bool)

  /** `char::is_uppercase`, `char::to_lowercase` and NFKC. */
  datatype Unicode = Unicode(isUpper: char -> bool, lower: char -> string, nfkc: string -> string)

  predicate IsZeroWidth(c: char) {
    c == '\U{200B}' || c == '\U{200C}' || c == '\U{200D}' || c == '\U{2060}' || c == '\U{FEFF}'
  }

  function LeetFold(c: char): char {
    match c
    case '0' => 'o'
    case '1' => 'i'
    case '|' => 'i'
    case '3' => 'e'
    case '4' => 'a'
    case '@' => 'a'
    case '5' => 's'
    case '$' => 's'
    case '7' => 't'
    case '8' => 'b'
    case _ => c
  }

  predicate IsSeparator(c: char) {
    c == '-' || c == '.' || c == '_' || c == '*' || c == '~'
  }

  predicate IsAlnum(c: char) {
    '0' <= c <= '9' || 'A' <= c <= 'Z' || 'a' <= c <= 'z'
  }

  predicate IsBreak(c: char) {
    c == '\n' || c == '\r' || c == '\t'
  }

  /** What the Unicode tables satisfy: no space, zero-width or leet character is upper case or the
      image of one, lower-casing an image changes nothing, and ASCII letters behave as in ASCII.
      Upper-case characters without a lower-case form, which map to themselves, are included. */
  ghost predicate CaseOk(u: Unicode) {
    && (forall c | u.isUpper(c) :: u.lower(c) != "" && !IsBreak(c) && c != ' ' && !IsZeroWidth(c) && LeetFold(c) == c)
    && (forall c, i: nat | u.isUpper(c) && i < |u.lower(c)| :: Settled(u, u.lower(c)[i]))
    && AsciiCaseOk(u)
  }

  ghost predicate AsciiCaseOk(u: Unicode) {
    && (forall c | c < 128 as char && u.isUpper(c) :: 'A' <= c <= 'Z')
    && (forall c | 'A' <= c <= 'Z' :: u.isUpper(c) && u.lower(c) == [AsciiLower(c)])
  }

  /** Lower-casing leaves the character alone. */
  predicate Stable(u: Unicode, c: char) {
    !u.isUpper(c) || u.lower(c) == [c]
  }

  /** A character that every option leaves alone and that is no space. */
  predicate Settled(u: Unicode, c: char) {
    Stable(u, c) && !IsBreak(c) && c != ' ' && !IsZeroWidth(c) && LeetFold(c) == c
  }

  /** A small table with an upper-case letter that maps to itself and one that maps to two characters. */
  function SampleTable(): Unicode {
    Unicode(c => 'A' <= c <= 'Z' || c == '\U{2102}' || c == '\U{0130}',
            c => if c == '\U{0130}' then ['i', '\U{0307}'] else [AsciiLower(c)],
            s => s)
  }

  lemma SampleTableOk()
    ensures CaseOk(SampleTable())
    ensures SampleTable().isUpper('\U{2102}') && Stable(SampleTable(), '\U{2102}')
    ensures |SampleTable().lower('\U{0130}')| == 2
  {
    var u := SampleTable();
    forall c, i: nat | u.isUpper(c) && i < |u.lower(c)|
      ensures Settled(u, u.lower(c)[i])
    {
    }
  }

  function AsciiLower(c: char): char {
    if 'A' <= c <= 'Z' then (c as int + 32) as char else c
  }

  // ----- base_normalize

  /** The characters pushed from `text` on, `prev` telling whether a space would be redundant. */
  function Emit(o: NormalizeConfig, u: Unicode, text: string, prev: bool): string
    decreases |text|
  {
    if text == "" then ""
    else if o.zeroWidth && IsZeroWidth(text[0]) then Emit(o, u, text[1..], prev)
    else
      var ch := if o.leet then LeetFold(text[0]) else text[0];
      if !IsBreak(ch) && u.isUpper(ch) then u.lower(ch) + Emit(o, u, text[1..], false)
      else if IsBreak(ch) || ch == ' ' then (if prev then "" else " ") + Emit(o, u, text[1..], true)
      else [ch] + Emit(o, u, text[1..], false)
  }

  function TrimEnd(s: string): string {
    if s != "" && s[|s| - 1] == ' ' then s[..|s| - 1] else s
  }

  function Base(o: NormalizeConfig, u: Unicode, text: string): string {
    TrimEnd(Emit(o, u, text, true))
  }

  datatype Pushed = Pushed(piece: string, prev: bool)

  /** What one character adds to the output, and whether a space would be redundant after it. */
  function PushedBy(o: NormalizeConfig, u: Unicode, c: char, prev: bool): Pushed {
    if o.zeroWidth && IsZeroWidth(c) then Pushed("", prev)
    else
      var ch := if o.leet then LeetFold(c) else c;
      if !IsBreak(ch) && u.isUpper(ch) then Pushed(u.lower(ch), false)
      else if IsBreak(ch) || ch == ' ' then Pushed(if prev then "" else " ", true)
      else Pushed([ch], false)
  }

  lemma EmitStep(o: NormalizeConfig, u: Unicode, out: string, text: string, i: nat, prev: bool)
    requires i < |text|
    ensures var p := PushedBy(o, u, text[i], prev);
            out + Emit(o, u, text[i..], prev) == (out + p.piece) + Emit(o, u, text[i + 1..], p.prev)
  {
    var p := PushedBy(o, u, text[i], prev);
    Advance(text, i);
    Whole(Emit(o, u, text[i + 1..], p.prev));
    Assoc(out, p.piece, Emit(o, u, text[i + 1..], p.prev));
  }

  /** One turn of the loop. */
  method PushChar(out: string, prevSpace: bool, c: char, o: NormalizeConfig, u: Unicode) returns (out': string, prev': bool)
    ensures var p := PushedBy(o, u, c, prevSpace); out' == out + p.piece && prev' == p.prev
  {
    out', prev' := out, prevSpace;
    Whole(out);
    if o.zeroWidth && IsZeroWidth(c) {
      return;
    }
    var ch := c;
    if o.leet {
      ch := LeetFold(ch);
    }
    if ch == '\n' || ch == '\r' || ch == '\t' {
      if !prevSpace {
        out' := out + " ";
        prev' := true;
      }
    } else if u.isUpper(ch) {
      out' := out + u.lower(ch);
      prev' := false;
    } else if ch == ' ' {
      if !prevSpace {
        out' := out + " ";
        prev' := true;
      }
    } else {
      out' := out + [ch];
      prev' := false;
    }
  }

  method BaseNormalize(text: string, o: NormalizeConfig, u: Unicode) returns (out: string)
    ensures out == Base(o, u, text)
  {
    out := "";
    var prevSpace := true;
    ghost var full := Emit(o, u, text, true);
    Whole(text);
    Whole(full);
    for i := 0 to |text|
      invariant full == out + Emit(o, u, text[i..], prevSpace)
    {
      EmitStep(o, u, out, text, i, prevSpace);
      out, prevSpace := PushChar(out, prevSpace, text[i], o, u);
    }
    if out != "" && out[|out| - 1] == ' ' {
      out := out[..|out| - 1];
    }
  }

  // ----- The normal forms of base_normalize

  /** A character that these options leave alone. */
  predicate Fixed(o: NormalizeConfig, u: Unicode, c: char) {
    && Stable(u, c) && !IsBreak(c)
    && (o.zeroWidth ==> !IsZeroWidth(c))
    && (o.leet ==> LeetFold(c) == c)
  }

  predicate AllFixed(o: NormalizeConfig, u: Unicode, s: string) {
    forall i | 0 <= i < |s| :: Fixed(o, u, s[i])
  }

  /** No space follows a space; `prev` stands for the character in front. */
  predicate Spaced(s: string, prev: bool) {
    (prev && s != "" ==> s[0] != ' ') && forall i | 0 <= i < |s| :: !DoubleAt(s, i)
  }

  predicate DoubleAt(s: string, i: int) {
    0 <= i < |s| - 1 && s[i] == ' ' && s[i + 1] == ' '
  }

  /** Settled characters with single inner spaces. */
  predicate Tidy(o: NormalizeConfig, u: Unicode, s: string) {
    AllFixed(o, u, s) && Spaced(s, true) && (s != "" ==> s[|s| - 1] != ' ')
  }

  lemma SpacedConcat(a: string, b: string, prev: bool)
    requires a != "" && Spaced(a, prev) && Spaced(b, a[|a| - 1] == ' ')
    ensures Spaced(a + b, prev)
  {
    var s := a + b;
    forall i | 0 <= i < |s|
      ensures !DoubleAt(s, i)
    {
      if i < |a| - 1 {
        assert !DoubleAt(a, i);
      } else if i >= |a| {
        assert !DoubleAt(b, i - |a|);
      }
    }
  }

  lemma SpacedTail(s: string, m: nat, prev: bool)
    requires Spaced(s, prev) && 1 <= m <= |s|
    ensures Spaced(s[m..], s[m - 1] == ' ')
  {
    var t := s[m..];
    assert !DoubleAt(s, m - 1);
    forall i | 0 <= i < |t|
      ensures !DoubleAt(t, i)
    {
      assert !DoubleAt(s, i + m);
    }
  }

  lemma AllFixedConcat(o: NormalizeConfig, u: Unicode, a: string, b: string)
    requires AllFixed(o, u, a) && AllFixed(o, u, b)
    ensures AllFixed(o, u, a + b)
  {
  }

  lemma LeetSettles(u: Unicode, c: char)
    requires CaseOk(u)
    ensures LeetFold(LeetFold(c)) == LeetFold(c)
    ensures LeetFold(c) != c ==> Settled(u, LeetFold(c))
  {
  }

  /** Whatever goes in, what is emitted is settled and singly spaced. */
  lemma {:induction false} EmitTidy(o: NormalizeConfig, u: Unicode, text: string, prev: bool)
    requires CaseOk(u)
    ensures AllFixed(o, u, Emit(o, u, text, prev)) && Spaced(Emit(o, u, text, prev), prev)
    decreases |text|
  {
    if text == "" {
    } else if o.zeroWidth && IsZeroWidth(text[0]) {
      EmitTidy(o, u, text[1..], prev);
    } else {
      var ch := if o.leet then LeetFold(text[0]) else text[0];
      LeetSettles(u, text[0]);
      if !IsBreak(ch) && u.isUpper(ch) {
        EmitTidy(o, u, text[1..], false);
        assert forall i | 0 <= i < |u.lower(ch)| :: Settled(u, u.lower(ch)[i]);
        AllFixedConcat(o, u, u.lower(ch), Emit(o, u, text[1..], false));
        SpacedConcat(u.lower(ch), Emit(o, u, text[1..], false), prev);
      } else if IsBreak(ch) || ch == ' ' {
        EmitTidy(o, u, text[1..], true);
        if !prev {
          assert !u.isUpper(' ');
          AllFixedConcat(o, u, " ", Emit(o, u, text[1..], true));
          SpacedConcat(" ", Emit(o, u, text[1..], true), prev);
        } else {
          assert "" + Emit(o, u, text[1..], true) == Emit(o, u, text[1..], true);
        }
      } else {
        EmitTidy(o, u, text[1..], false);
        AllFixedConcat(o, u, [ch], Emit(o, u, text[1..], false));
        SpacedConcat([ch], Emit(o, u, text[1..], false), prev);
      }
    }
  }

  lemma {:induction false} EmitFixed(o: NormalizeConfig, u: Unicode, s: string, prev: bool)
    requires CaseOk(u) && AllFixed(o, u, s) && Spaced(s, prev)
    ensures Emit(o, u, s, prev) == s
    decreases |s|
  {
    if s != "" {
      assert Fixed(o, u, s[0]);
      var rest := s[1..];
      SpacedTail(s, 1, prev);
      EmitFixed(o, u, rest, s[0] == ' ');
      assert s == [s[0]] + rest;
    }
  }

  lemma TrimTidy(o: NormalizeConfig, u: Unicode, e: string)
    requires AllFixed(o, u, e) && Spaced(e, true)
    ensures Tidy(o, u, TrimEnd(e))
  {
    var t := TrimEnd(e);
    if t != e {
      assert !DoubleAt(e, |e| - 2);
      forall i | 0 <= i < |t|
        ensures !DoubleAt(t, i)
      {
        assert !DoubleAt(e, i);
      }
    }
  }

  /** The fixed points of the base normalisation are the tidy texts. */
  lemma BaseNormalForm(o: NormalizeConfig, u: Unicode, text: string)
    requires CaseOk(u)
    ensures Tidy(o, u, Base(o, u, text))
    ensures Base(o, u, text) == text <==> Tidy(o, u, text)
  {
    var e := Emit(o, u, text, true);
    EmitTidy(o, u, text, true);
    TrimTidy(o, u, e);
    if Tidy(o, u, text) {
      EmitFixed(o, u, text, true);
    }
  }

  // ----- Texts that a reader takes for the same

  /** Zero-width characters dropped, white-space runs squeezed to one space, ASCII letters lower. */
  function Skeleton(text: string, prev: bool): string
    decreases |text|
  {
    if text == "" then ""
    else if IsZeroWidth(text[0]) then Skeleton(text[1..], prev)
    else if IsBreak(text[0]) || text[0] == ' ' then (if prev then "" else " ") + Skeleton(text[1..], true)
    else [AsciiLower(text[0])] + Skeleton(text[1..], false)
  }

  /** With zero-width removal on, normalisation depends on the skeleton alone. */
  lemma {:induction false} EmitOfSkeleton(o: NormalizeConfig, u: Unicode, text: string, squeezed: bool, prev: bool)
    requires CaseOk(u) && o.zeroWidth && (squeezed ==> prev)
    ensures Emit(o, u, Skeleton(text, squeezed), prev) == Emit(o, u, text, prev)
    decreases |text|
  {
    if text == "" {
    } else if IsZeroWidth(text[0]) {
      EmitOfSkeleton(o, u, text[1..], squeezed, prev);
    } else if IsBreak(text[0]) || text[0] == ' ' {
      EmitOfSkeleton(o, u, text[1..], true, true);
      EmitSpace(o, u, text, Skeleton(text[1..], true), squeezed, prev);
    } else {
      EmitOfSkeleton(o, u, text[1..], false, false);
      EmitChar(o, u, text, Skeleton(text[1..], false), prev);
    }
  }

  lemma EmitSpace(o: NormalizeConfig, u: Unicode, text: string, rest: string, squeezed: bool, prev: bool)
    requires CaseOk(u) && o.zeroWidth && (squeezed ==> prev)
    requires text != "" && !IsZeroWidth(text[0]) && (IsBreak(text[0]) || text[0] == ' ')
    requires Emit(o, u, rest, true) == Emit(o, u, text[1..], true)
    ensures Emit(o, u, (if squeezed then "" else " ") + rest, prev) == Emit(o, u, text, prev)
  {
    EmitBlank(o, u, text, prev);
    if squeezed {
      assert "" + rest == rest && "" + Emit(o, u, rest, true) == Emit(o, u, rest, true);
    } else {
      assert (" " + rest)[1..] == rest;
      EmitBlank(o, u, " " + rest, prev);
    }
  }

  lemma EmitBlank(o: NormalizeConfig, u: Unicode, text: string, prev: bool)
    requires CaseOk(u) && text != "" && !IsZeroWidth(text[0]) && (IsBreak(text[0]) || text[0] == ' ')
    ensures Emit(o, u, text, prev) == (if prev then "" else " ") + Emit(o, u, text[1..], true)
  {
    assert !u.isUpper(' ');
    assert LeetFold(text[0]) == text[0];
  }

  lemma EmitChar(o: NormalizeConfig, u: Unicode, text: string, rest: string, prev: bool)
    requires CaseOk(u) && text != "" && !IsZeroWidth(text[0]) && !IsBreak(text[0]) && text[0] != ' '
    requires Emit(o, u, rest, false) == Emit(o, u, text[1..], false)
    ensures Emit(o, u, [AsciiLower(text[0])] + rest, prev) == Emit(o, u, text, prev)
  {
    var t := [AsciiLower(text[0])] + rest;
    assert t[1..] == rest;
    SkeletonChar(u, text[0]);
    if AsciiLower(text[0]) == text[0] {
      LeetSettles(u, text[0]);
    }
  }

  lemma SkeletonChar(u: Unicode, c: char)
    requires CaseOk(u) && !IsZeroWidth(c) && !IsBreak(c) && c != ' '
    ensures AsciiLower(c) != c ==> u.isUpper(c) && u.lower(c) == [AsciiLower(c)] && LeetFold(c) == c && Settled(u, AsciiLower(c))
  {
    if AsciiLower(c) != c {
      assert u.lower(c)[0] == AsciiLower(c);
    }
  }

  // ----- collapse_separators

  /** Number of single letters or digits in the run `x-y-z...` at the front. */
  function RunLen(s: string): nat {
    if s == "" || !IsAlnum(s[0]) then 0
    else if |s| >= 3 && IsSeparator(s[1]) && IsAlnum(s[2]) then 1 + RunLen(s[2..])
    else 1
  }

  lemma {:induction false} RunFits(s: string)
    ensures RunLen(s) >= 1 ==> 2 * RunLen(s) - 1 <= |s|
  {
    if |s| >= 3 {
      RunFits(s[2..]);
    }
  }

  /** The letters of a run of `k`: every other character. */
  function Letters(s: string, k: nat): string
    requires k >= 1 ==> 2 * k - 1 <= |s|
  {
    if k == 0 then "" else if k == 1 then [s[0]] else [s[0]] + Letters(s[2..], k - 1)
  }

  function Collapse(s: string): string
    decreases |s|
  {
    if s == "" then ""
    else
      var k := RunLen(s);
      RunFits(s);
      if k >= 4 then Letters(s, k) + Collapse(s[2 * k - 1..]) else [s[0]] + Collapse(s[1..])
  }

  lemma {:induction false} LettersSnoc(s: string, k: nat)
    requires k >= 1 && 2 * k + 1 <= |s|
    ensures Letters(s, k + 1) == Letters(s, k) + [s[2 * k]]
    decreases k
  {
    var x := s[2..];
    if k == 1 {
      assert x[0] == s[2];
    } else {
      assert x[2 * (k - 1)] == s[2 * k];
      LettersSnoc(x, k - 1);
      Assoc([s[0]], Letters(x, k - 1), [s[2 * k]]);
    }
  }

  lemma {:induction false} RunDrop(s: string, k: nat)
    requires 1 <= k <= RunLen(s)
    ensures 2 * k - 1 <= |s| && RunLen(s[2 * (k - 1)..]) == RunLen(s) - (k - 1)
    decreases k
  {
    RunFits(s);
    if k == 1 {
      assert s[0..] == s;
    } else {
      RunDrop(s[2..], k - 1);
      assert s[2..][2 * (k - 2)..] == s[2 * (k - 1)..];
    }
  }

  /** The inner loop: the letters of the run that starts at `i`, and the index of the last one. */
  method ScanRun(chars: string, i: nat) returns (letters: string, j: nat)
    requires i < |chars| && IsAlnum(chars[i])
    ensures RunLen(chars[i..]) == |letters| && 2 * |letters| - 1 <= |chars| - i
    ensures letters == Letters(chars[i..], |letters|) && j == i + 2 * (|letters| - 1)
  {
    ghost var rest := chars[i..];
    letters, j := [chars[i]], i;
    while j + 2 < |chars| && IsSeparator(chars[j + 1]) && IsAlnum(chars[j + 2])
      invariant i <= j < |chars| && j == i + 2 * (|letters| - 1) && |letters| >= 1
      invariant letters == Letters(rest, |letters|)
      invariant IsAlnum(chars[j]) && RunLen(chars[j..]) + |letters| - 1 == RunLen(rest)
    {
      RunStep(chars, j);
      LettersSnoc(rest, |letters|);
      letters := letters + [chars[j + 2]];
      j := j + 2;
    }
    RunStop(chars, j);
  }

  lemma RunStep(chars: string, j: nat)
    requires j + 2 < |chars| && IsAlnum(chars[j]) && IsSeparator(chars[j + 1]) && IsAlnum(chars[j + 2])
    ensures RunLen(chars[j..]) == 1 + RunLen(chars[j + 2..])
  {
    assert chars[j..][2..] == chars[j + 2..];
  }

  lemma RunStop(chars: string, j: nat)
    requires j < |chars| && IsAlnum(chars[j])
    requires !(j + 2 < |chars| && IsSeparator(chars[j + 1]) && IsAlnum(chars[j + 2]))
    ensures RunLen(chars[j..]) == 1
  {
  }

  method CollapseSeparators(chars: string) returns (out: string)
    ensures out == Collapse(chars)
  {
    var n := |chars|;
    out := "";
    var i := 0;
    assert chars[0..] == chars;
    while i < n
      invariant 0 <= i <= n
      invariant Collapse(chars) == out + Collapse(chars[i..])
    {
      if IsAlnum(chars[i]) && i + 2 < n && IsSeparator(chars[i + 1]) && IsAlnum(chars[i + 2]) {
        var letters, j := ScanRun(chars, i);
        if |letters| >= 4 {
          CollapseRun(chars, i, |letters|);
          Assoc(out, letters, Collapse(chars[j + 1..]));
          out := out + letters;
          i := j + 1;
          continue;
        }
      }
      CollapseChar(chars, i);
      Assoc(out, [chars[i]], Collapse(chars[i + 1..]));
      out := out + [chars[i]];
      i := i + 1;
    }
  }

  lemma CollapseLong(s: string, k: nat)
    requires RunLen(s) == k >= 4
    ensures 2 * k - 1 <= |s| && Collapse(s) == Letters(s, k) + Collapse(s[2 * k - 1..])
  {
    RunFits(s);
  }

  lemma CollapseShort(s: string)
    requires s != "" && RunLen(s) < 4
    ensures Collapse(s) == [s[0]] + Collapse(s[1..])
  {
  }

  lemma CollapseRun(chars: string, i: nat, k: nat)
    requires i <= |chars| && RunLen(chars[i..]) == k >= 4 && 2 * k - 1 <= |chars| - i
    ensures Collapse(chars[i..]) == Letters(chars[i..], k) + Collapse(chars[i + 2 * k - 1..])
  {
    CollapseLong(chars[i..], k);
    SubSlices(chars, i, i + 2 * k - 1);
  }

  lemma CollapseChar(chars: string, i: nat)
    requires i < |chars| && RunLen(chars[i..]) < 4
    ensures Collapse(chars[i..]) == [chars[i]] + Collapse(chars[i + 1..])
  {
    CollapseShort(chars[i..]);
    Advance(chars, i);
  }

  /** `r` is `t` with some separators deleted. */
  predicate DropsSeparators(t: string, r: string)
    decreases |t|
  {
    || (t == "" && r == "")
    || (t != "" && r != "" && t[0] == r[0] && DropsSeparators(t[1..], r[1..]))
    || (t != "" && IsSeparator(t[0]) && DropsSeparators(t[1..], r))
  }

  lemma {:induction false} DropsRun(s: string, k: nat, rest: string, out: string)
    requires 1 <= k <= RunLen(s) && 2 * k - 1 <= |s| && rest == s[2 * k - 1..] && DropsSeparators(rest, out)
    ensures DropsSeparators(s, Letters(s, k) + out)
    decreases k
  {
    if k == 1 {
      assert ([s[0]] + out)[1..] == out;
    } else {
      var tail := Letters(s[2..], k - 1) + out;
      assert s[2..][2 * (k - 1) - 1..] == s[2 * k - 1..];
      DropsRun(s[2..], k - 1, rest, out);
      assert s[1..][1..] == s[2..];
      assert DropsSeparators(s[1..], tail);
      assert Letters(s, k) + out == [s[0]] + tail;
      assert ([s[0]] + tail)[1..] == tail;
    }
  }

  /** Nothing but separators is deleted, and nothing is moved. */
  lemma {:induction false} CollapseDrops(s: string)
    ensures DropsSeparators(s, Collapse(s))
    decreases |s|
  {
    if s != "" {
      var k := RunLen(s);
      RunFits(s);
      if k >= 4 {
        CollapseDrops(s[2 * k - 1..]);
        DropsRun(s, k, s[2 * k - 1..], Collapse(s[2 * k - 1..]));
      } else {
        CollapseDrops(s[1..]);
        assert Collapse(s)[1..] == Collapse(s[1..]);
      }
    }
  }

  lemma LettersFirst(s: string, k: nat)
    requires k >= 1 && 2 * k - 1 <= |s|
    ensures Letters(s, k) != "" && Letters(s, k)[0] == s[0]
  {
  }

  lemma CollapseFirst(s: string)
    requires s != ""
    ensures Collapse(s) != "" && Collapse(s)[0] == s[0]
  {
    RunFits(s);
    if RunLen(s) >= 4 {
      LettersFirst(s, RunLen(s));
    }
  }

  /** What follows a run does not continue it, before or after collapsing. */
  lemma NotContinued(c: char, s: string)
    requires IsAlnum(c) && !(|s| >= 2 && IsSeparator(s[0]) && IsAlnum(s[1]))
    ensures RunLen([c] + Collapse(s)) == 1
  {
    var t := [c] + Collapse(s);
    if s != "" {
      CollapseFirst(s);
      assert t[1] == s[0];
      if IsSeparator(s[0]) {
        assert Collapse(s) == [s[0]] + Collapse(s[1..]);
        if |s| >= 2 {
          CollapseFirst(s[1..]);
          assert t[2] == s[1];
        }
      }
    }
  }

  lemma {:induction false} AfterRun(s: string)
    requires RunLen(s) >= 1
    ensures var k := RunLen(s);
            2 * k - 1 <= |s| && IsAlnum(s[2 * k - 2]) &&
            var rest := s[2 * k - 1..]; !(|rest| >= 2 && IsSeparator(rest[0]) && IsAlnum(rest[1]))
    decreases |s|
  {
    RunFits(s);
    if RunLen(s) > 1 {
      AfterRun(s[2..]);
      var k := RunLen(s);
      assert s[2..][2 * (k - 1) - 1..] == s[2 * k - 1..];
      assert s[2..][2 * (k - 1) - 2] == s[2 * k - 2];
    }
  }

  /** No run of four or more is left anywhere. */
  predicate NoRuns(s: string) {
    forall i | 0 <= i <= |s| :: RunLen(s[i..]) < 4
  }

  lemma {:induction false} LettersNoRun(s: string, k: nat, out: string)
    requires 1 <= k <= RunLen(s) && 2 * k - 1 <= |s|
    requires RunLen([s[2 * k - 2]] + out) == 1 && NoRuns(out)
    ensures NoRuns(Letters(s, k) + out) && RunLen(Letters(s, k) + out) == 1
    decreases k
  {
    if k == 1 {
      NoRunsCons(s[0], out);
    } else {
      var letters := Letters(s[2..], k - 1);
      assert s[2..][2 * (k - 1) - 2] == s[2 * k - 2];
      LettersNoRun(s[2..], k - 1, out);
      LettersFirst(s[2..], k - 1);
      Assoc([s[0]], letters, out);
      RunBlocked(s[0], letters + out);
      NoRunsCons(s[0], letters + out);
    }
  }

  lemma RunBlocked(c: char, tail: string)
    requires IsAlnum(c) && tail != "" && !IsSeparator(tail[0])
    ensures RunLen([c] + tail) == 1
  {
  }

  lemma NoRunsCons(c: char, s: string)
    requires NoRuns(s) && RunLen([c] + s) < 4
    ensures NoRuns([c] + s)
  {
    var t := [c] + s;
    forall i | 0 <= i <= |t|
      ensures RunLen(t[i..]) < 4
    {
      if i == 0 {
        assert t[0..] == t;
      } else {
        assert t[i..] == s[i - 1..];
      }
    }
  }

  lemma {:induction false} CollapseLeavesNoRun(s: string)
    ensures NoRuns(Collapse(s))
    ensures RunLen(Collapse(s)) == if RunLen(s) >= 4 then 1 else RunLen(s)
    decreases |s|
  {
    if s == "" {
      assert forall i | 0 <= i <= 0 :: ""[i..] == "";
    } else {
      var k := RunLen(s);
      RunFits(s);
      if k >= 4 {
        var rest := s[2 * k - 1..];
        CollapseLeavesNoRun(rest);
        AfterRun(s);
        NotContinued(s[2 * k - 2], rest);
        LettersNoRun(s, k, Collapse(rest));
      } else {
        CollapseLeavesNoRun(s[1..]);
        if k >= 2 {
          CollapseLeavesNoRun(s[2..]);
          SeparatorStays(s);
        } else if k == 1 {
          NotContinued(s[0], s[1..]);
        }
        NoRunsCons(s[0], Collapse(s[1..]));
      }
    }
  }

  /** A short run stays as it is. */
  lemma SeparatorStays(s: string)
    requires 2 <= RunLen(s) < 4 && RunLen(Collapse(s[2..])) == RunLen(s[2..])
    ensures RunLen([s[0]] + Collapse(s[1..])) == RunLen(s)
  {
    var c := Collapse(s[2..]);
    CollapseFirst(s[2..]);
    CollapseSeparator(s[1..]);
    assert s[1..][1..] == s[2..];
    assert [s[0]] + Collapse(s[1..]) == [s[0], s[1]] + c;
    RunOver(s[0], s[1], c);
  }

  lemma CollapseSeparator(s: string)
    requires s != "" && IsSeparator(s[0])
    ensures Collapse(s) == [s[0]] + Collapse(s[1..])
  {
  }

  lemma RunOver(a: char, b: char, s: string)
    requires IsAlnum(a) && IsSeparator(b) && s != "" && IsAlnum(s[0])
    ensures RunLen([a, b] + s) == 1 + RunLen(s)
  {
    assert ([a, b] + s)[2..] == s;
  }

  lemma {:induction false} CollapseNoRuns(s: string)
    requires NoRuns(s)
    ensures Collapse(s) == s
    decreases |s|
  {
    if s != "" {
      assert s[0..] == s;
      forall i | 0 <= i <= |s[1..]|
        ensures RunLen(s[1..][i..]) < 4
      {
        assert s[1..][i..] == s[i + 1..];
      }
      CollapseNoRuns(s[1..]);
      assert s == [s[0]] + s[1..];
    }
  }

  lemma CollapseIdempotent(s: string)
    ensures Collapse(Collapse(s)) == Collapse(s)
  {
    CollapseLeavesNoRun(s);
    CollapseNoRuns(Collapse(s));
  }

  // ----- normalize_with

  predicate IsAscii(s: string) {
    forall i | 0 <= i < |s| :: s[i] < 128 as char
  }

  function NormalizeWith(o: NormalizeConfig, u: Unicode, text: string): string {
    var stage1 := if o.nfkc && !IsAscii(text) then u.nfkc(text) else text;
    var stage2 := Base(o, u, stage1);
    if o.separators then Collapse(stage2) else stage2
  }

  /** NFKC does nothing to this text: it is off, or the text is ASCII or already composed. */
  predicate Composed(o: NormalizeConfig, u: Unicode, text: string) {
    o.nfkc ==> IsAscii(text) || u.nfkc(text) == text
  }

  /** Collapsing keeps a text tidy. */
  lemma {:induction false} CollapseSpaced(o: NormalizeConfig, u: Unicode, s: string, prev: bool)
    requires AllFixed(o, u, s) && Spaced(s, prev)
    ensures AllFixed(o, u, Collapse(s)) && Spaced(Collapse(s), prev)
    ensures s != "" ==> Collapse(s) != "" && Collapse(s)[|Collapse(s)| - 1] == s[|s| - 1]
    decreases |s|
  {
    if s != "" {
      var head, m := CollapseHead(o, u, s, prev);
      SpacedTail(s, m, prev);
      AllFixedTail(o, u, s, m);
      CollapseSpaced(o, u, s[m..], s[m - 1] == ' ');
      Glue(o, u, head, Collapse(s[m..]), prev);
    }
  }

  /** What one step of the collapse emits and how far it moves. */
  lemma CollapseHead(o: NormalizeConfig, u: Unicode, s: string, prev: bool) returns (head: string, m: nat)
    requires AllFixed(o, u, s) && Spaced(s, prev) && s != ""
    ensures 1 <= m <= |s| && Collapse(s) == head + Collapse(s[m..])
    ensures AllFixed(o, u, head) && Spaced(head, prev) && head != "" && head[|head| - 1] == s[m - 1]
  {
    var k := RunLen(s);
    if k >= 4 {
      CollapseLong(s, k);
      LettersFixed(o, u, s, k);
      LettersSpaced(Letters(s, k), prev);
      head, m := Letters(s, k), 2 * k - 1;
    } else {
      CollapseShort(s);
      head, m := [s[0]], 1;
    }
  }

  lemma LettersSpaced(s: string, prev: bool)
    requires ' ' !in s
    ensures Spaced(s, prev)
  {
  }

  lemma AllFixedTail(o: NormalizeConfig, u: Unicode, s: string, m: nat)
    requires AllFixed(o, u, s) && m <= |s|
    ensures AllFixed(o, u, s[m..])
    ensures m < |s| ==> s[m..][|s[m..]| - 1] == s[|s| - 1]
  {
  }

  lemma Glue(o: NormalizeConfig, u: Unicode, a: string, b: string, prev: bool)
    requires AllFixed(o, u, a) && AllFixed(o, u, b) && a != "" && Spaced(a, prev) && Spaced(b, a[|a| - 1] == ' ')
    ensures AllFixed(o, u, a + b) && Spaced(a + b, prev) && a + b != ""
    ensures (a + b)[|a + b| - 1] == if b == "" then a[|a| - 1] else b[|b| - 1]
  {
    AllFixedConcat(o, u, a, b);
    SpacedConcat(a, b, prev);
  }

  lemma {:induction false} LettersFixed(o: NormalizeConfig, u: Unicode, s: string, k: nat)
    requires AllFixed(o, u, s) && 1 <= k <= RunLen(s) && 2 * k - 1 <= |s|
    ensures AllFixed(o, u, Letters(s, k)) && ' ' !in Letters(s, k) && Letters(s, k) != ""
    ensures Letters(s, k)[|Letters(s, k)| - 1] == s[2 * k - 2]
    decreases k
  {
    assert Fixed(o, u, s[0]);
    if k > 1 {
      LettersFixed(o, u, s[2..], k - 1);
      assert s[2..][2 * (k - 1) - 2] == s[2 * k - 2];
    }
  }

  lemma CollapseTidy(o: NormalizeConfig, u: Unicode, s: string)
    requires Tidy(o, u, s)
    ensures Tidy(o, u, Collapse(s))
  {
    CollapseSpaced(o, u, s, true);
    if s == "" {
      assert Collapse(s) == "";
    }
  }

  /** Normalising twice is normalising once, for every set of options. */
  lemma NormalizeIdempotent(o: NormalizeConfig, u: Unicode, text: string)
    requires CaseOk(u) && Composed(o, u, text) && Composed(o, u, NormalizeWith(o, u, text))
    ensures NormalizeWith(o, u, NormalizeWith(o, u, text)) == NormalizeWith(o, u, text)
  {
    var base := Base(o, u, text);
    var once := NormalizeWith(o, u, text);
    BaseNormalForm(o, u, text);
    CollapseTidy(o, u, base);
    BaseNormalForm(o, u, once);
    CollapseIdempotent(base);
  }

  /** A table that is only about ASCII. */
  function AsciiTable(): Unicode {
    Unicode(c => 'A' <= c <= 'Z', c => [AsciiLower(c)], s => s)
  }

  lemma AsciiTableOk()
    ensures CaseOk(AsciiTable())
  {
    var u := AsciiTable();
    forall c, i: nat | u.isUpper(c) && i < |u.lower(c)|
      ensures Settled(u, u.lower(c)[i])
    {
    }
  }

  /** What one character is turned into; empty for a space. */
  function Piece(o: NormalizeConfig, u: Unicode, c: char): string {
    var ch := if o.leet then LeetFold(c) else c;
    if !IsBreak(ch) && u.isUpper(ch) then u.lower(ch) else if IsBreak(ch) || ch == ' ' then "" else [ch]
  }

  lemma EmitPiece(o: NormalizeConfig, u: Unicode, text: string, prev: bool)
    requires AsciiCaseOk(u) && IsAscii(text) && text != ""
    ensures var p := Piece(o, u, text[0]);
            Emit(o, u, text, prev) ==
              if o.zeroWidth && IsZeroWidth(text[0]) then Emit(o, u, text[1..], prev)
              else if p == "" then (if prev then "" else " ") + Emit(o, u, text[1..], true)
              else p + Emit(o, u, text[1..], false)
  {
    AsciiLeet(text[0]);
  }

  lemma AsciiLeet(c: char)
    requires c < 128 as char
    ensures LeetFold(c) < 128 as char
  {
  }

  lemma AsciiPiece(o: NormalizeConfig, u: Unicode, c: char)
    requires AsciiCaseOk(u) && c < 128 as char
    ensures IsAscii(Piece(o, u, c)) && Piece(o, u, c) == Piece(o, AsciiTable(), c)
  {
    AsciiLeet(c);
  }

  /** On ASCII text only the ASCII part of the table matters, and the result is ASCII. */
  lemma {:induction false} EmitAscii(o: NormalizeConfig, u: Unicode, text: string, prev: bool)
    requires AsciiCaseOk(u) && IsAscii(text)
    ensures IsAscii(Emit(o, u, text, prev)) && Emit(o, u, text, prev) == Emit(o, AsciiTable(), text, prev)
    decreases |text|
  {
    if text != "" {
      var p := Piece(o, u, text[0]);
      AsciiTableOk();
      AsciiPiece(o, u, text[0]);
      EmitPiece(o, u, text, prev);
      EmitPiece(o, AsciiTable(), text, prev);
      var next := if o.zeroWidth && IsZeroWidth(text[0]) then prev else p == "";
      EmitAscii(o, u, text[1..], next);
      AsciiConcat(if p != "" then p else if prev then "" else " ", Emit(o, u, text[1..], next));
    }
  }

  lemma AsciiConcat(a: string, b: string)
    requires IsAscii(a) && IsAscii(b)
    ensures IsAscii(a + b)
  {
  }

  lemma {:induction false} DropsAscii(t: string, r: string)
    requires IsAscii(t) && DropsSeparators(t, r)
    ensures IsAscii(r)
    decreases |t|
  {
    if t != "" {
      if r != "" && t[0] == r[0] && DropsSeparators(t[1..], r[1..]) {
        DropsAscii(t[1..], r[1..]);
        assert r == [r[0]] + r[1..];
      } else {
        DropsAscii(t[1..], r);
      }
    }
  }

  /** Normalised ASCII text is ASCII, and it is what the ASCII table alone gives. */
  lemma NormalizeAscii(o: NormalizeConfig, u: Unicode, text: string)
    requires AsciiCaseOk(u) && IsAscii(text)
    ensures IsAscii(NormalizeWith(o, u, text))
    ensures NormalizeWith(o, u, text) == NormalizeWith(o, AsciiTable(), text)
  {
    EmitAscii(o, u, text, true);
    CollapseDrops(Base(o, u, text));
    DropsAscii(Base(o, u, text), Collapse(Base(o, u, text)));
  }

  /** On ASCII text the condition on NFKC takes care of itself, and nothing is assumed about the
      rest of the table. */
  lemma NormalizeIdempotentAscii(o: NormalizeConfig, u: Unicode, text: string)
    requires AsciiCaseOk(u) && IsAscii(text)
    ensures NormalizeWith(o, u, NormalizeWith(o, u, text)) == NormalizeWith(o, u, text)
  {
    AsciiTableOk();
    NormalizeAscii(o, u, text);
    NormalizeAscii(o, u, NormalizeWith(o, u, text));
    NormalizeIdempotent(o, AsciiTable(), text);
  }

  /** With zero-width removal on, texts that differ only in ASCII case, in the white space of their
      white-space runs, or in zero-width characters normalise to the same text. */
  lemma NormalizeCanonical(o: NormalizeConfig, u: Unicode, a: string, b: string)
    requires CaseOk(u) && o.zeroWidth && Composed(o, u, a) && Composed(o, u, b)
    requires Skeleton(a, false) == Skeleton(b, false)
    ensures NormalizeWith(o, u, a) == NormalizeWith(o, u, b)
  {
    EmitOfSkeleton(o, u, a, false, true);
    EmitOfSkeleton(o, u, b, false, true);
  }
}
