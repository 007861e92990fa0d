/**
 * Character classes and the whitespace normaliser of the page locator:
 * `" ".join(text.split())` (hello.py:13) and the substring test
 * `needle in text` (hello.py:11).
 */
module Text {

  /** Python's `str.isspace()`: the characters `str.split()` breaks on and
      the regular-expression class `\s` matches in a text pattern. */
  predicate IsSpace(c: char) {
    || c == ' '
    || '\t' <= c <= '\r'
    || '\U{1C}' <= c <= '\U{1F}'
    || c == '\U{85}' || c == '\U{A0}' || c == '\U{1680}'
    || '\U{2000}' <= c <= '\U{200A}'
    || c == '\U{2028}' || c == '\U{2029}' || c == '\U{202F}'
    || c == '\U{205F}' || c == '\U{3000}'
  }

  /** The key under which case-insensitive matching compares a character
      with a pattern character. Pattern literals are ASCII (and the euro
      sign), and Python's case-insensitive matching identifies an ASCII
      letter with its other case and with four further characters: the
      dotted capital I and the dotless small i (with `i`), the long s
      (with `s`) and the Kelvin sign (with `k`). */
  function Fold(c: char): char {
    if 'A' <= c <= 'Z' then (c as int - 'A' as int + 'a' as int) as char
    else if c == '\U{130}' || c == '\U{131}' then 'i'
    else if c == '\U{17F}' then 's'
    else if c == '\U{212A}' then 'k'
    else c
  }

  // ---------------------------------------------------------------------
  // Substring test
  // ---------------------------------------------------------------------

  /** `n` occurs in `t` starting at index `i`. */
  predicate OccursAt(t: string, n: string, i: nat) {
    i + |n| <= |t| && t[i..i + |n|] == n
  }

  /** Python's `n in t` on strings: an exact, case-sensitive substring test. */
  function Contains(t: string, n: string): (b: bool)
    ensures b <==> exists i: nat :: OccursAt(t, n, i)
    decreases |t|
  {
    if n <= t then
      assert OccursAt(t, n, 0);
      true
    else if t == [] then
      false
    else
      var b := Contains(t[1..], n);
      assert forall i: nat :: OccursAt(t[1..], n, i) <==> OccursAt(t, n, i + 1) by {
        forall i: nat ensures OccursAt(t[1..], n, i) <==> OccursAt(t, n, i + 1) {
          if i + |n| <= |t[1..]| {
            assert t[1..][i..i + |n|] == t[i + 1..i + 1 + |n|];
          }
        }
      }
      assert b ==> exists i: nat :: OccursAt(t, n, i) by {
        if b {
          var i: nat :| OccursAt(t[1..], n, i);
          assert OccursAt(t, n, i + 1);
        }
      }
      assert (exists i: nat :: OccursAt(t, n, i)) ==> b by {
        if exists i: nat :: OccursAt(t, n, i) {
          var i: nat :| OccursAt(t, n, i);
          assert OccursAt(t[1..], n, i - 1);
        }
      }
      b
  }

  // ---------------------------------------------------------------------
  // str.split() and " ".join(...)
  // ---------------------------------------------------------------------

  /** A piece `str.split()` can return: non-empty, without whitespace. */
  predicate IsWord(w: string) {
    |w| > 0 && forall k :: 0 <= k < |w| ==> !IsSpace(w[k])
  }

  predicate AllWords(ws: seq<string>) {
    forall k :: 0 <= k < |ws| ==> IsWord(ws[k])
  }

  predicate AllSpace(t: string) {
    forall k :: 0 <= k < |t| ==> IsSpace(t[k])
  }

  /** Length of the maximal whitespace-free prefix of `t`. */
  function WordLength(t: string): (n: nat)
    ensures n <= |t|
    ensures forall k :: 0 <= k < n ==> !IsSpace(t[k])
    ensures n == |t| || IsSpace(t[n])
  {
    if t == [] || IsSpace(t[0]) then 0 else 1 + WordLength(t[1..])
  }

  /** Python's `t.split()`: the maximal whitespace-free runs of `t`, in order. */
  function Split(t: string): (ws: seq<string>)
    ensures AllWords(ws)
    decreases |t|
  {
    if t == [] then []
    else if IsSpace(t[0]) then Split(t[1..])
    else
      var n := WordLength(t);
      [t[..n]] + Split(t[n..])
  }

  /** Python's `" ".join(ws)`. */
  function JoinSpace(ws: seq<string>): string {
    if |ws| == 0 then ""
    else if |ws| == 1 then ws[0]
    else ws[0] + " " + JoinSpace(ws[1..])
  }

  /** The normaliser of hello.py:13, `" ".join(text.split())`. */
  function Normalize(t: string): (r: string)
    ensures Collapsed(r)
  {
    JoinSpaceCollapsed(Split(t));
    JoinSpace(Split(t))
  }

  /** A collapsed text: its only whitespace is single `' '` characters
      standing between two non-whitespace characters. */
  predicate Collapsed(t: string) {
    forall k :: 0 <= k < |t| && IsSpace(t[k]) ==>
      t[k] == ' ' && 0 < k < |t| - 1 && !IsSpace(t[k + 1])
  }

  /** The non-whitespace characters of `t`, in order. */
  function Visible(t: string): string {
    if t == [] then []
    else (if IsSpace(t[0]) then [] else [t[0]]) + Visible(t[1..])
  }

  function Concat(ws: seq<string>): string {
    if ws == [] then [] else ws[0] + Concat(ws[1..])
  }

  // ---------------------------------------------------------------------
  // Properties of the normaliser
  // ---------------------------------------------------------------------

  lemma {:induction false} WordLengthOfWord(w: string, rest: string)
    requires IsWord(w)
    requires rest == [] || IsSpace(rest[0])
    ensures WordLength(w + rest) == |w|
    decreases |w|
  {
    var t := w + rest;
    assert t[0] == w[0];
    if |w| > 1 {
      assert t[1..] == w[1..] + rest;
      WordLengthOfWord(w[1..], rest);
    } else {
      assert t[1..] == rest;
    }
  }

  /** `str.split()` undoes `" ".join(...)` on a list of words. */
  lemma {:induction false} SplitJoinSpace(ws: seq<string>)
    requires AllWords(ws)
    ensures Split(JoinSpace(ws)) == ws
    decreases |ws|
  {
    if |ws| == 0 {
    } else if |ws| == 1 {
      var w := ws[0];
      WordLengthOfWord(w, []);
      assert w + [] == w;
      assert w[..|w|] == w && w[|w|..] == [];
    } else {
      var w, rest := ws[0], JoinSpace(ws[1..]);
      var t := w + (" " + rest);
      assert JoinSpace(ws) == t;
      WordLengthOfWord(w, " " + rest);
      assert t[0] == w[0];
      assert t[..|w|] == w;
      assert t[|w|..] == " " + rest;
      assert (" " + rest)[1..] == rest;
      SplitJoinSpace(ws[1..]);
    }
  }

  /** Joining words gives a collapsed text. */
  lemma {:induction false} JoinSpaceCollapsed(ws: seq<string>)
    requires AllWords(ws)
    ensures Collapsed(JoinSpace(ws))
    ensures |ws| > 0 ==> |JoinSpace(ws)| > 0 && !IsSpace(JoinSpace(ws)[0])
    ensures |ws| > 0 ==> !IsSpace(JoinSpace(ws)[|JoinSpace(ws)| - 1])
    decreases |ws|
  {
    if |ws| >= 2 {
      var w, rest := ws[0], JoinSpace(ws[1..]);
      JoinSpaceCollapsed(ws[1..]);
      var t := w + " " + rest;
      forall k | 0 <= k < |t| && IsSpace(t[k])
        ensures t[k] == ' ' && 0 < k < |t| - 1 && !IsSpace(t[k + 1])
      {
        if k == |w| {
          assert t[k + 1] == rest[0];
        } else {
          assert t[k] == rest[k - |w| - 1];
          assert t[k + 1] == rest[k - |w|];
        }
      }
    }
  }

  /** The normalised text has no leading or trailing whitespace, no two
      adjacent whitespace characters, and no whitespace other than `' '`. */
  lemma NormalizeCollapses(t: string)
    ensures Collapsed(Normalize(t))
    ensures |Normalize(t)| > 0 ==>
      Normalize(t)[0] != ' ' && Normalize(t)[|Normalize(t)| - 1] != ' '
    ensures forall k :: 0 <= k < |Normalize(t)| - 1 ==>
      !(Normalize(t)[k] == ' ' && Normalize(t)[k + 1] == ' ')
  {
    JoinSpaceCollapsed(Split(t));
  }

  /** Normalising keeps the words of the text: splitting the result gives
      the same words as splitting the original. */
  lemma NormalizeKeepsWords(t: string)
    ensures Split(Normalize(t)) == Split(t)
  {
    SplitJoinSpace(Split(t));
  }

  /** Normalising twice is normalising once. */
  lemma NormalizeIdempotent(t: string)
    ensures Normalize(Normalize(t)) == Normalize(t)
  {
    NormalizeKeepsWords(t);
  }

  /** A text is left unchanged by the normaliser exactly when it is collapsed. */
  lemma {:induction false} NormalizeFixpoint(t: string)
    ensures Normalize(t) == t <==> Collapsed(t)
    decreases |t|
  {
    if Collapsed(t) {
      CollapsedNormal(t);
    } else {
      JoinSpaceCollapsed(Split(t));
    }
  }

  lemma {:induction false} CollapsedNormal(t: string)
    requires Collapsed(t)
    ensures JoinSpace(Split(t)) == t
    ensures t != [] ==> Split(t) != []
    decreases |t|
  {
    if t != [] {
      var n := WordLength(t);
      if n == |t| {
        OneWord(t);
      } else {
        var w, rest := t[..n], t[n + 1..];
        CollapsedStep(t);
        CollapsedNormal(rest);
        SpaceSplit(t, n);
        JoinFirstWord(t, w, rest);
      }
    }
  }

  /** A non-empty text without whitespace splits into itself. */
  lemma OneWord(t: string)
    requires t != [] && WordLength(t) == |t|
    ensures Split(t) == [t]
  {
    assert t[..|t|] == t && t[|t|..] == [];
  }

  lemma SpaceSplit(t: string, n: nat)
    requires n < |t| && t[n] == ' '
    ensures t == t[..n] + " " + t[n + 1..]
  {
    assert t[n..] == [t[n]] + t[n + 1..];
  }

  /** Joining the first word and the remainder's words gives back the text. */
  lemma JoinFirstWord(t: string, w: string, rest: string)
    requires Split(t) == [w] + Split(rest) && Split(rest) != []
    requires JoinSpace(Split(rest)) == rest && t == w + " " + rest
    ensures JoinSpace(Split(t)) == t
  {
    JoinSpaceCons(w, Split(rest));
  }

  lemma JoinSpaceCons(w: string, ws: seq<string>)
    requires ws != []
    ensures JoinSpace([w] + ws) == w + " " + JoinSpace(ws)
  {
    assert ([w] + ws)[1..] == ws;
  }

  /** A collapsed text that is more than one word is its first word, one
      space, and a collapsed remainder. */
  lemma CollapsedStep(t: string)
    requires Collapsed(t) && t != [] && WordLength(t) < |t|
    ensures 0 < WordLength(t) < |t| - 1 && t[WordLength(t)] == ' '
    ensures Collapsed(t[WordLength(t) + 1..])
    ensures Split(t) == [t[..WordLength(t)]] + Split(t[WordLength(t) + 1..])
  {
    var n := WordLength(t);
    assert !IsSpace(t[0]);
    var rest := t[n + 1..];
    forall k | 0 <= k < |rest| && IsSpace(rest[k])
      ensures rest[k] == ' ' && 0 < k < |rest| - 1 && !IsSpace(rest[k + 1])
    {
      assert rest[k] == t[n + 1 + k];
    }
    assert (t[n..])[1..] == rest;
  }

  lemma {:induction false} VisibleAppend(a: string, b: string)
    ensures Visible(a + b) == Visible(a) + Visible(b)
    decreases |a|
  {
    if a == [] {
      assert a + b == b;
    } else {
      assert (a + b)[0] == a[0];
      assert (a + b)[1..] == a[1..] + b;
      VisibleAppend(a[1..], b);
    }
  }

  lemma {:induction false} VisibleOfWord(w: string)
    requires forall k :: 0 <= k < |w| ==> !IsSpace(w[k])
    ensures Visible(w) == w
    decreases |w|
  {
    if w != [] {
      VisibleOfWord(w[1..]);
      assert w == [w[0]] + w[1..];
    }
  }

  lemma {:induction false} VisibleIsConcatOfSplit(t: string)
    ensures Visible(t) == Concat(Split(t))
    decreases |t|
  {
    if t != [] {
      if IsSpace(t[0]) {
        VisibleIsConcatOfSplit(t[1..]);
      } else {
        var n := WordLength(t);
        assert t == t[..n] + t[n..];
        VisibleAppend(t[..n], t[n..]);
        VisibleOfWord(t[..n]);
        VisibleIsConcatOfSplit(t[n..]);
        var ws := [t[..n]] + Split(t[n..]);
        assert ws[0] == t[..n] && ws[1..] == Split(t[n..]);
      }
    }
  }

  /** Normalising keeps the sequence of non-whitespace characters unchanged. */
  lemma NormalizeKeepsVisible(t: string)
    ensures Visible(Normalize(t)) == Visible(t)
  {
    VisibleIsConcatOfSplit(t);
    VisibleIsConcatOfSplit(Normalize(t));
    NormalizeKeepsWords(t);
  }

  lemma {:induction false} SplitEmptyIffBlank(t: string)
    ensures Split(t) == [] <==> AllSpace(t)
    decreases |t|
  {
    if t != [] {
      SplitEmptyIffBlank(t[1..]);
      if IsSpace(t[0]) {
        assert AllSpace(t) <==> AllSpace(t[1..]);
      }
    }
  }

  /** Empty or all-whitespace text, and only such text, normalises to `""`. */
  lemma NormalizeBlank(t: string)
    ensures Normalize(t) == "" <==> AllSpace(t)
  {
    SplitEmptyIffBlank(t);
    JoinSpaceCollapsed(Split(t));
  }
}
