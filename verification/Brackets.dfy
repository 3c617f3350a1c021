/** Bracketed text: the vocabulary shared by the redactor, the vault and the deanonymizers.

    Placeholders have the form `[` body `]`.  Everything the streaming deanonymizer and the
    output mask do is phrased in terms of the windows that `[` opens and `]` closes. */
module Brackets {

  /** Number of bytes of `c` in UTF-8. */
  function Utf8Width(c: char): (n: nat)
    ensures 1 <= n <= 4
  {
    var u := c as int;
    if u < 0x80 then 1 else if u < 0x800 then 2 else if u < 0x10000 then 3 else 4
  }

  /** Length in bytes, as Rust's `str::len` counts. */
  function ByteLen(s: string): (n: nat)
    ensures |s| <= n
  {
    if s == "" then 0 else Utf8Width(s[0]) + ByteLen(s[1..])
  }

  lemma {:induction false} ByteLenConcat(a: string, b: string)
    ensures ByteLen(a + b) == ByteLen(a) + ByteLen(b)
  {
    if a == "" {
      assert a + b == b;
    } else {
      ByteLenConcat(a[1..], b);
      assert (a + b)[1..] == a[1..] + b;
    }
  }

  predicate BracketFree(s: string) {
    '[' !in s && ']' !in s
  }

  /** Between any two `[` lies a `]`: no window is opened inside a window. */
  predicate Flat(s: string) {
    forall i, j | 0 <= i < j < |s| && s[i] == '[' && s[j] == '[' :: exists k | i < k < j :: s[k] == ']'
  }

  /** `[` body `]` with a bracket-free body. */
  predicate IsWindow(w: string) {
    |w| >= 2 && w[0] == '[' && w[|w| - 1] == ']' && BracketFree(w[1..|w| - 1])
  }

  /** The nearest bracket before `pos` is a `[`. */
  predicate Inside(s: string, pos: nat)
    requires pos <= |s|
  {
    exists k | 0 <= k < pos :: s[k] == '[' && forall j | k < j < pos :: s[j] != '[' && s[j] != ']'
  }

  /** Inside a tail is inside the whole. */
  lemma InsideWhole(s: string, n: nat, k: nat)
    requires n <= |s| && k <= |s| - n
    ensures Inside(s[n..], k) ==> Inside(s, n + k)
  {
    var t := s[n..];
    if Inside(t, k) {
      var j :| 0 <= j < k && t[j] == '[' && forall i | j < i < k :: t[i] != '[' && t[i] != ']';
      assert s[n + j] == '[';
      assert forall i | n + j < i < n + k :: s[i] == t[i - n];
    }
  }

  /** Index of the first `]`, or the length when there is none. */
  function Close(s: string): (e: nat)
    ensures e <= |s|
    ensures e < |s| ==> s[e] == ']'
    ensures forall i | 0 <= i < e :: s[i] != ']'
  {
    if s == "" || s[0] == ']' then 0 else 1 + Close(s[1..])
  }

  lemma CloseUnique(s: string, e: nat)
    requires e < |s| && s[e] == ']' && forall i | 0 <= i < e :: s[i] != ']'
    ensures Close(s) == e
  {
  }

  lemma FlatSuffix(s: string, k: nat)
    requires Flat(s) && k <= |s|
    ensures Flat(s[k..])
  {
    var t := s[k..];
    forall i, j | 0 <= i < j < |t| && t[i] == '[' && t[j] == '['
      ensures exists m | i < m < j :: t[m] == ']'
    {
      assert s[i + k] == '[' && s[j + k] == '[';
      var m :| i + k < m < j + k && s[m] == ']';
      assert t[m - k] == ']';
    }
  }

  /** In flat text, a `[` followed by some `]` opens a window. */
  lemma FlatWindow(s: string)
    requires Flat(s) && s != "" && s[0] == '['
    ensures '[' !in s[1..Close(s)]
    ensures Close(s) < |s| ==> IsWindow(s[..Close(s) + 1])
  {
    var e := Close(s);
    assert forall j | 1 <= j < e :: s[j] != '[';
    if e < |s| {
      assert s[..e + 1][1..e] == s[1..e];
    }
  }

  /** Text without `[` in front keeps a text flat. */
  lemma FlatPrepend(a: string, s: string)
    requires '[' !in a && Flat(s)
    ensures Flat(a + s)
  {
    var t := a + s;
    forall i, j | 0 <= i < j < |t| && t[i] == '[' && t[j] == '['
      ensures exists k | i < k < j :: t[k] == ']'
    {
      assert i >= |a| && j >= |a|;
      var m :| i - |a| < m < j - |a| && s[m] == ']';
      assert t[m + |a|] == ']';
    }
  }

  lemma FlatPrependWindow(w: string, s: string)
    requires IsWindow(w) && Flat(s)
    ensures Flat(w + s)
  {
    var t := w + s;
    forall i, j | 0 <= i < j < |t| && t[i] == '[' && t[j] == '['
      ensures exists k | i < k < j :: t[k] == ']'
    {
      WindowBrackets(w);
      if i < |w| {
        assert w[i] == '[';
        assert i == 0;
        assert j >= |w|;
        assert t[|w| - 1] == ']';
      } else {
        var m :| i - |w| < m < j - |w| && s[m] == ']';
        assert t[m + |w|] == ']';
      }
    }
  }

  lemma WindowBrackets(w: string)
    requires IsWindow(w)
    ensures forall i | 0 <= i < |w| :: w[i] == '[' <==> i == 0
    ensures forall i | 0 <= i < |w| :: w[i] == ']' <==> i == |w| - 1
  {
    forall i | 0 < i < |w| - 1
      ensures w[i] != '[' && w[i] != ']'
    {
      assert w[1..|w| - 1][i - 1] == w[i];
    }
  }

  /** A window at the front is closed by its own last character. */
  lemma CloseOfWindow(w: string, s: string)
    requires IsWindow(w)
    ensures Close(w + s) == |w| - 1
  {
    WindowBrackets(w);
    CloseUnique(w + s, |w| - 1);
  }
}
