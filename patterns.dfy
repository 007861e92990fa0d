/**
 * The fixed regular expressions of the extractor (hello.py:27, 34, 44-49),
 * all searched with `re.search(..., re.IGNORECASE)`.
 *
 * Every one of them is a sequence of pieces around one capturing group
 * `(\d+(?:\.\d+)?)`: case-insensitive literals, optional choices of
 * literals such as `~?` or `(?:Eur|EUR|€)?`, and whitespace runs `\s*` or
 * `\s+`. A pattern is modelled as the pieces before the group and the
 * pieces after it.
 *
 * Two semantics are given. `PieceSpans`/`SeqSpans`/`MatchesWith` say which
 * substrings the regular expression describes, with no search strategy at
 * all. `ScanPiece`/`ScanSeq`/`MatchAt` are a greedy scanner that never
 * backtracks, and `Search` tries start positions from left to right as
 * `re.search` does. For patterns that are `Deterministic`, the scanner
 * finds a match at a position exactly when the regular expression has one
 * there, every such match captures the same text, and so `Search` returns
 * the capture of the leftmost match: what Python's backtracking matcher
 * returns.
 */
module Patterns {
  import opened Wrappers
  import opened Text
  import opened Numbers

  datatype Piece =
    | Lit(word: string)         // a literal, compared ignoring case
    | Opt(alts: seq<string>)    // `(?:a|b|...)?`, an optional choice of literals
    | Spaces(atLeastOne: bool)  // `\s+` when atLeastOne, `\s*` otherwise
    | Number                    // `\d+(?:\.\d+)?`

  /** The pieces before and after the capturing group `(\d+(?:\.\d+)?)`. */
  datatype Pattern = Pattern(before: seq<Piece>, after: seq<Piece>)

  /** The literal `w` stands at index `i` of `s`, ignoring case. */
  predicate LitAt(s: string, i: nat, w: string) {
    i + |w| <= |s| && forall k :: 0 <= k < |w| ==> Fold(s[i + k]) == Fold(w[k])
  }

  // ---------------------------------------------------------------------
  // What the regular expression describes
  // ---------------------------------------------------------------------

  /** `s[i..k]` is a string the piece describes. */
  ghost predicate PieceSpans(p: Piece, s: string, i: nat, k: nat) {
    && i <= k <= |s|
    && match p
       case Lit(w) => k == i + |w| && LitAt(s, i, w)
       case Opt(alts) => k == i || exists a :: a in alts && k == i + |a| && LitAt(s, i, a)
       case Spaces(plus) => (forall m :: i <= m < k ==> IsSpace(s[m])) && (plus ==> i < k)
       case Number => IsNumeral(s[i..k])
  }

  /** `s[i..j]` is a string the sequence of pieces describes. */
  ghost predicate SeqSpans(ps: seq<Piece>, s: string, i: nat, j: nat)
    ensures SeqSpans(ps, s, i, j) ==> i <= j <= |s|
    decreases |ps|
  {
    if ps == [] then i == j <= |s|
    else exists k: nat :: PieceSpans(ps[0], s, i, k) && SeqSpans(ps[1..], s, k, j)
  }

  /** The pattern matches `s` from index `i`, its group spanning `s[x..y]`.
      Nothing is required of what follows the match. */
  ghost predicate MatchesWith(pat: Pattern, s: string, i: nat, x: nat, y: nat) {
    && SeqSpans(pat.before, s, i, x)
    && PieceSpans(Number, s, x, y)
    && exists j: nat :: SeqSpans(pat.after, s, y, j)
  }

  // ---------------------------------------------------------------------
  // The greedy scanner and the left-to-right search
  // ---------------------------------------------------------------------

  /** End of the maximal whitespace run starting at `i`. */
  function SpacesEnd(s: string, i: nat): (e: nat)
    requires i <= |s|
    ensures i <= e <= |s|
    ensures forall m :: i <= m < e ==> IsSpace(s[m])
    ensures e == |s| || !IsSpace(s[e])
    decreases |s| - i
  {
    if i < |s| && IsSpace(s[i]) then SpacesEnd(s, i + 1) else i
  }

  /** End of the maximal digit run starting at `i`. */
  function DigitsEnd(s: string, i: nat): (e: nat)
    requires i <= |s|
    ensures i <= e <= |s|
    ensures forall m :: i <= m < e ==> IsDigit(s[m])
    ensures e == |s| || !IsDigit(s[e])
    decreases |s| - i
  {
    if i < |s| && IsDigit(s[i]) then DigitsEnd(s, i + 1) else i
  }

  /** The end of the first alternative, in order, that stands at `i`. */
  function FirstAlt(alts: seq<string>, s: string, i: nat): (r: Option<nat>)
    ensures r.Some? ==> exists a :: a in alts && r.value == i + |a| && LitAt(s, i, a)
    ensures r.None? ==> forall a :: a in alts ==> !LitAt(s, i, a)
  {
    if alts == [] then None
    else if LitAt(s, i, alts[0]) then Some(i + |alts[0]|)
    else FirstAlt(alts[1..], s, i)
  }

  /** Where the piece, matched greedily from `i`, ends. */
  function ScanPiece(p: Piece, s: string, i: nat): (r: Option<nat>)
    requires i <= |s|
    ensures r.Some? ==> i <= r.value <= |s|
  {
    match p
    case Lit(w) => if LitAt(s, i, w) then Some(i + |w|) else None
    case Opt(alts) =>
      (match FirstAlt(alts, s, i)
       case Some(k) => Some(k)
       case None => Some(i))
    case Spaces(plus) =>
      var e := SpacesEnd(s, i);
      if plus && e == i then None else Some(e)
    case Number =>
      var m := DigitsEnd(s, i);
      if m == i then None
      else if m + 1 < |s| && s[m] == '.' && IsDigit(s[m + 1]) then Some(DigitsEnd(s, m + 1))
      else Some(m)
  }

  /** The greedy match of a piece is a match of it. */
  lemma ScanPieceSound(p: Piece, s: string, i: nat)
    requires i <= |s| && ScanPiece(p, s, i).Some?
    ensures PieceSpans(p, s, i, ScanPiece(p, s, i).value)
  {
    if p.Number? {
      var m := DigitsEnd(s, i);
      assert i < m;
      DigitRun(s, i, m);
      if m + 1 < |s| && s[m] == '.' && IsDigit(s[m + 1]) {
        var g := DigitsEnd(s, m + 1);
        assert ScanPiece(p, s, i) == Some(g);
        DigitRun(s, m + 1, g);
        PointedNumeral(s, i, m, g);
      } else {
        assert ScanPiece(p, s, i) == Some(m);
      }
    }
  }

  lemma DigitRun(s: string, a: nat, b: nat)
    requires a <= b <= |s| && forall k :: a <= k < b ==> IsDigit(s[k])
    ensures AllDigits(s[a..b])
  {
    forall k | 0 <= k < b - a ensures IsDigit(s[a..b][k]) {
      assert s[a..b][k] == s[a + k];
    }
  }

  /** Digits, a point and more digits make a numeral. */
  lemma PointedNumeral(s: string, i: nat, m: nat, g: nat)
    requires i < m && m + 1 < g <= |s| && s[m] == '.'
    requires AllDigits(s[i..m]) && AllDigits(s[m + 1..g])
    ensures IsNumeral(s[i..g])
  {
    var t, p := s[i..g], m - i;
    assert t[p] == '.';
    assert t[..p] == s[i..m];
    assert t[p + 1..] == s[m + 1..g];
  }

  /** Where the pieces, each matched greedily in turn from `i`, end. */
  function ScanSeq(ps: seq<Piece>, s: string, i: nat): (r: Option<nat>)
    requires i <= |s|
    ensures r.Some? ==> i <= r.value <= |s|
    decreases |ps|
  {
    if ps == [] then Some(i)
    else
      match ScanPiece(ps[0], s, i)
      case None => None
      case Some(k) => ScanSeq(ps[1..], s, k)
  }

  /** Scanning an optional alternation and then `rest`. */
  lemma ScanOptStep(alts: seq<string>, rest: seq<Piece>, s: string, i: nat)
    requires i <= |s|
    ensures ScanSeq([Opt(alts)] + rest, s, i) == ScanSeq(rest, s, FirstAlt(alts, s, i).GetOr(i))
  {
    assert ([Opt(alts)] + rest)[1..] == rest;
  }

  /** Scanning `\s*` and then `rest`. */
  lemma ScanSpacesStep(rest: seq<Piece>, s: string, i: nat)
    requires i <= |s|
    ensures ScanSeq([Spaces(false)] + rest, s, i) == ScanSeq(rest, s, SpacesEnd(s, i))
  {
    assert ([Spaces(false)] + rest)[1..] == rest;
  }

  /** The greedy match of a sequence of pieces is a match of it. */
  lemma {:induction false} ScanSeqSound(ps: seq<Piece>, s: string, i: nat)
    requires i <= |s| && ScanSeq(ps, s, i).Some?
    ensures SeqSpans(ps, s, i, ScanSeq(ps, s, i).value)
    decreases |ps|
  {
    if ps != [] {
      var k := ScanPiece(ps[0], s, i).value;
      ScanPieceSound(ps[0], s, i);
      ScanSeqSound(ps[1..], s, k);
    }
  }

  /** The greedy match of the pattern at index `i`: the captured text. */
  function MatchAt(pat: Pattern, s: string, i: nat): Option<string>
    requires i <= |s|
  {
    match ScanSeq(pat.before, s, i)
    case None => None
    case Some(x) =>
      match ScanPiece(Number, s, x)
      case None => None
      case Some(y) =>
        if ScanSeq(pat.after, s, y).Some? then Some(s[x..y]) else None
  }

  /** What the greedy scanner finds is a match of the regular expression. */
  lemma MatchAtSound(pat: Pattern, s: string, i: nat)
    requires i <= |s| && MatchAt(pat, s, i).Some?
    ensures exists x: nat, y: nat :: MatchesWith(pat, s, i, x, y) && MatchAt(pat, s, i).value == s[x..y]
  {
    var x := ScanSeq(pat.before, s, i).value;
    var y := ScanPiece(Number, s, x).value;
    ScanSeqSound(pat.before, s, i);
    ScanPieceSound(Number, s, x);
    ScanSeqSound(pat.after, s, y);
    assert MatchesWith(pat, s, i, x, y);
  }

  /** Tries the start positions `i`, `i + 1`, ..., `|s|` in turn and
      returns the first match found. */
  function SearchFrom(pat: Pattern, s: string, i: nat): Option<string>
    requires i <= |s|
    decreases |s| - i
  {
    match MatchAt(pat, s, i)
    case Some(c) => Some(c)
    case None => if i == |s| then None else SearchFrom(pat, s, i + 1)
  }

  /** A search fails exactly when no start position has a greedy match. */
  lemma {:induction false} SearchFromNone(pat: Pattern, s: string, i: nat)
    requires i <= |s|
    ensures SearchFrom(pat, s, i).None? <==> forall m :: i <= m <= |s| ==> MatchAt(pat, s, m).None?
    decreases |s| - i
  {
    if MatchAt(pat, s, i).None? && i < |s| {
      SearchFromNone(pat, s, i + 1);
    }
  }

  /** A search that succeeds returns the greedy match at the first start
      position `m` that has one. */
  lemma {:induction false} SearchFromFirst(pat: Pattern, s: string, i: nat) returns (m: nat)
    requires i <= |s| && SearchFrom(pat, s, i).Some?
    ensures i <= m <= |s| && MatchAt(pat, s, m) == SearchFrom(pat, s, i)
    ensures forall m' :: i <= m' < m ==> MatchAt(pat, s, m').None?
    decreases |s| - i
  {
    if MatchAt(pat, s, i).None? {
      m := SearchFromFirst(pat, s, i + 1);
      forall m' | i <= m' < m ensures MatchAt(pat, s, m').None? {
        if m' != i {
          assert i + 1 <= m' < m;
        }
      }
    } else {
      m := i;
    }
  }

  /** `re.search(pattern, s)` followed by `.group(1)`, or `None`. */
  function Search(pat: Pattern, s: string): Option<string> {
    SearchFrom(pat, s, 0)
  }

  // ---------------------------------------------------------------------
  // When greedy scanning is exact
  // ---------------------------------------------------------------------

  /** An optional choice is well formed when its alternatives are non-empty
      and two alternatives that begin alike have the same length. */
  ghost predicate WellFormed(p: Piece) {
    match p
    case Opt(alts) =>
      && (forall a :: a in alts ==> |a| > 0)
      && forall a, b :: a in alts && b in alts && Fold(a[0]) == Fold(b[0]) ==> |a| == |b|
    case _ => true
  }

  /** `c` can stand just after a match of `p` that is shorter than the
      greedy one. */
  ghost predicate Extends(p: Piece, c: char) {
    match p
    case Lit(_) => false
    case Opt(alts) => exists a :: a in alts && |a| > 0 && Fold(c) == Fold(a[0])
    case Spaces(_) => IsSpace(c)
    case Number => IsDigit(c) || c == '.'
  }

  /** No match of `rest` is empty or begins with `c`. */
  ghost predicate Blocks(rest: seq<Piece>, c: char)
    decreases |rest|
  {
    && |rest| > 0
    && match rest[0]
       case Lit(w) => |w| > 0 && Fold(w[0]) != Fold(c)
       case Opt(alts) =>
         (forall a :: a in alts ==> |a| > 0 && Fold(a[0]) != Fold(c)) && Blocks(rest[1..], c)
       case Spaces(plus) => !IsSpace(c) && (plus || Blocks(rest[1..], c))
       case Number => !IsDigit(c)
  }

  // One step of `Blocks` for a sequence given as a first piece and the rest.

  lemma BlocksLit(w: string, rest: seq<Piece>, c: char)
    requires |w| > 0 && Fold(w[0]) != Fold(c)
    ensures Blocks([Lit(w)] + rest, c)
  {
  }

  lemma BlocksOpt(alts: seq<string>, rest: seq<Piece>, c: char)
    requires forall a :: a in alts ==> |a| > 0 && Fold(a[0]) != Fold(c)
    requires Blocks(rest, c)
    ensures Blocks([Opt(alts)] + rest, c)
  {
    assert ([Opt(alts)] + rest)[1..] == rest;
  }

  lemma BlocksSpaces(plus: bool, rest: seq<Piece>, c: char)
    requires !IsSpace(c) && (plus || Blocks(rest, c))
    ensures Blocks([Spaces(plus)] + rest, c)
  {
    assert ([Spaces(plus)] + rest)[1..] == rest;
  }

  lemma BlocksNumber(rest: seq<Piece>, c: char)
    requires !IsDigit(c)
    ensures Blocks([Number] + rest, c)
  {
  }

  /** Whatever a piece of `ps` could leave unconsumed, the pieces after it
      (followed by `tail`) cannot start with. */
  ghost predicate Unambiguous(ps: seq<Piece>, tail: seq<Piece>) {
    forall idx, c :: 0 <= idx < |ps| && Extends(ps[idx], c) ==> Blocks(ps[idx + 1..] + tail, c)
  }

  /** Greedy scanning of the pieces after the group succeeds wherever they
      can match at all. */
  ghost predicate SuffixComplete(after: seq<Piece>) {
    forall s: string, y: nat, j: nat :: SeqSpans(after, s, y, j) ==> ScanSeq(after, s, y).Some?
  }

  /** A pattern for which greedy scanning is exact. */
  ghost predicate Deterministic(pat: Pattern) {
    && (forall p :: p in pat.before || p in pat.after ==> WellFormed(p))
    && Unambiguous(pat.before, [Number] + pat.after)
    && Unambiguous([Number], pat.after)
    && SuffixComplete(pat.after)
  }

  lemma {:induction false} SeqSpansAppend(a: seq<Piece>, b: seq<Piece>, s: string, i: nat, x: nat, j: nat)
    requires SeqSpans(a, s, i, x) && SeqSpans(b, s, x, j)
    ensures SeqSpans(a + b, s, i, j)
    decreases |a|
  {
    if a == [] {
      assert a + b == b;
    } else {
      var k: nat :| PieceSpans(a[0], s, i, k) && SeqSpans(a[1..], s, k, x);
      SeqSpansAppend(a[1..], b, s, k, x, j);
      assert (a + b)[0] == a[0] && (a + b)[1..] == a[1..] + b;
    }
  }

  /** In a well-formed choice, the first alternative that stands at `i`
      has the length of every other one that does. */
  lemma FirstAltOfWellFormed(alts: seq<string>, s: string, i: nat, a: string)
    requires WellFormed(Opt(alts)) && a in alts && LitAt(s, i, a)
    ensures FirstAlt(alts, s, i) == Some(i + |a|)
  {
    var r := FirstAlt(alts, s, i);
    var b :| b in alts && r.value == i + |b| && LitAt(s, i, b);
    assert Fold(s[i + 0]) == Fold(a[0]) && Fold(s[i + 0]) == Fold(b[0]);
  }

  /** The greedy match of a piece is the longest. */
  lemma PieceMaximal(p: Piece, s: string, i: nat, k: nat)
    requires WellFormed(p) && PieceSpans(p, s, i, k)
    ensures ScanPiece(p, s, i).Some? && k <= ScanPiece(p, s, i).value
  {
    match p
    case Lit(_) =>
    case Opt(alts) =>
      if k != i {
        var a :| a in alts && k == i + |a| && LitAt(s, i, a);
        var r := FirstAlt(alts, s, i);
        var b :| b in alts && r.value == i + |b| && LitAt(s, i, b);
        assert Fold(s[i]) == Fold(a[0]) && Fold(s[i]) == Fold(b[0]);
      }
    case Spaces(_) =>
    case Number =>
      NumberMaximal(s, i, k);
  }

  lemma NumberMaximal(s: string, i: nat, k: nat)
    requires PieceSpans(Number, s, i, k)
    ensures ScanPiece(Number, s, i).Some? && k <= ScanPiece(Number, s, i).value
  {
    var t := s[i..k];
    if |t| > 0 && AllDigits(t) {
      forall q | i <= q < k ensures IsDigit(s[q]) {
        assert s[q] == t[q - i];
      }
    } else {
      var p :| 0 < p < |t| - 1 && t[p] == '.' && AllDigits(t[..p]) && AllDigits(t[p + 1..]);
      assert t[..p] == s[i..i + p] && t[p + 1..] == s[i + p + 1..k] && s[i + p] == t[p];
      FractionMaximal(s, i, k, p);
    }
  }

  lemma FractionMaximal(s: string, i: nat, k: nat, p: nat)
    requires i <= k <= |s| && 0 < p < k - i - 1
    requires s[i + p] == '.' && AllDigits(s[i..i + p]) && AllDigits(s[i + p + 1..k])
    ensures ScanPiece(Number, s, i).Some? && k <= ScanPiece(Number, s, i).value
  {
    var m := DigitsEnd(s, i);
    assert m == i + p by {
      forall q | i <= q < i + p ensures IsDigit(s[q]) {
        assert s[q] == s[i..i + p][q - i];
      }
    }
    assert IsDigit(s[m + 1]) by { assert s[m + 1] == s[i + p + 1..k][0]; }
    var g := DigitsEnd(s, m + 1);
    assert g >= k by {
      forall q | m + 1 <= q < k ensures IsDigit(s[q]) {
        assert s[q] == s[i + p + 1..k][q - m - 1];
      }
    }
  }

  /** A match of a piece shorter than the greedy one stops just before a
      character the piece could have taken. */
  lemma PieceGap(p: Piece, s: string, i: nat, k: nat, g: nat)
    requires WellFormed(p) && PieceSpans(p, s, i, k)
    requires ScanPiece(p, s, i) == Some(g) && k < g
    ensures k < |s| && Extends(p, s[k])
  {
    match p
    case Lit(_) =>
    case Opt(alts) =>
      var b :| b in alts && g == i + |b| && LitAt(s, i, b);
      if k != i {
        assert false;
      }
      assert Fold(s[i]) == Fold(b[0]);
    case Spaces(_) =>
    case Number =>
      NumberGap(s, i, k, g);
  }

  lemma NumberGap(s: string, i: nat, k: nat, g: nat)
    requires PieceSpans(Number, s, i, k)
    requires ScanPiece(Number, s, i) == Some(g) && k < g
    ensures k < |s| && (IsDigit(s[k]) || s[k] == '.')
  {
    var t := s[i..k];
    var m := DigitsEnd(s, i);
    if k > m {
      assert !AllDigits(t) by {
        assert s[m] == t[m - i];
      }
      var p :| 0 < p < |t| - 1 && t[p] == '.' && AllDigits(t[..p]) && AllDigits(t[p + 1..]);
      assert s[i + p] == '.';
    }
  }

  /** If `rest` blocks `c` and matches from `k`, it does not begin with `c`. */
  lemma {:induction false} BlocksSpans(rest: seq<Piece>, c: char, s: string, k: nat, j: nat)
    requires Blocks(rest, c) && SeqSpans(rest, s, k, j)
    ensures k < |s| && s[k] != c
    decreases |rest|
  {
    var k': nat :| PieceSpans(rest[0], s, k, k') && SeqSpans(rest[1..], s, k', j);
    match rest[0]
    case Lit(w) =>
      assert Fold(s[k]) == Fold(w[0]);
    case Opt(alts) =>
      if k' == k {
        BlocksSpans(rest[1..], c, s, k, j);
      } else {
        var a :| a in alts && k' == k + |a| && LitAt(s, k, a);
        assert Fold(s[k]) == Fold(a[0]);
      }
    case Spaces(plus) =>
      if k' == k {
        BlocksSpans(rest[1..], c, s, k, j);
      } else {
        assert IsSpace(s[k]);
      }
    case Number =>
      var t := s[k..k'];
      assert IsDigit(t[0]);
  }

  /** A piece that nothing after it can extend is matched greedily to
      exactly where any match of the whole sequence puts its end. */
  lemma PieceAgrees(p: Piece, rest: seq<Piece>, s: string, i: nat, k: nat, j: nat)
    requires WellFormed(p)
    requires forall c :: Extends(p, c) ==> Blocks(rest, c)
    requires PieceSpans(p, s, i, k) && SeqSpans(rest, s, k, j)
    ensures ScanPiece(p, s, i) == Some(k)
  {
    PieceMaximal(p, s, i, k);
    var g := ScanPiece(p, s, i).value;
    if k < g {
      PieceGap(p, s, i, k, g);
      assert Blocks(rest, s[k]);
      BlocksSpans(rest, s[k], s, k, j);
      assert false;
    }
    assert g == k;
  }

  lemma {:induction false} SeqAgrees(ps: seq<Piece>, tail: seq<Piece>, s: string, i: nat, x: nat, j: nat)
    requires forall p :: p in ps ==> WellFormed(p)
    requires Unambiguous(ps, tail)
    requires SeqSpans(ps, s, i, x) && SeqSpans(tail, s, x, j)
    ensures i <= |s| && ScanSeq(ps, s, i) == Some(x)
    decreases |ps|
  {
    if ps != [] {
      var k: nat :| PieceSpans(ps[0], s, i, k) && SeqSpans(ps[1..], s, k, x);
      SeqSpansAppend(ps[1..], tail, s, k, x, j);
      forall c | Extends(ps[0], c) ensures Blocks(ps[1..] + tail, c) {
        assert Extends(ps[0], c) ==> Blocks(ps[0 + 1..] + tail, c);
      }
      PieceAgrees(ps[0], ps[1..] + tail, s, i, k, j);
      forall idx, c | 0 <= idx < |ps[1..]| && Extends(ps[1..][idx], c)
        ensures Blocks(ps[1..][idx + 1..] + tail, c)
      {
        assert ps[1..][idx] == ps[idx + 1];
        assert ps[1..][idx + 1..] == ps[idx + 2..];
      }
      SeqAgrees(ps[1..], tail, s, k, x, j);
    }
  }

  /** For a deterministic pattern the greedy scanner finds every match the
      regular expression has, at its start position, with the same group. */
  lemma MatchAtComplete(pat: Pattern, s: string, i: nat, x: nat, y: nat)
    requires Deterministic(pat) && MatchesWith(pat, s, i, x, y)
    ensures i <= x <= y <= |s|
    ensures ScanSeq(pat.before, s, i) == Some(x)
    ensures ScanPiece(Number, s, x) == Some(y)
    ensures MatchAt(pat, s, i) == Some(s[x..y])
  {
    var j: nat :| SeqSpans(pat.after, s, y, j);
    var rest := [Number] + pat.after;
    assert rest[0] == Number && rest[1..] == pat.after;
    assert SeqSpans(rest, s, x, j);
    SeqAgrees(pat.before, rest, s, i, x, j);
    forall c | Extends(Number, c) ensures Blocks(pat.after, c) {
      assert [Number][0 + 1..] + pat.after == pat.after;
    }
    PieceAgrees(Number, pat.after, s, x, y, j);
  }

  /** A deterministic pattern matches from a given position in at most one
      way: the group of any two matches from `i` is the same span. */
  lemma MatchIsUnique(pat: Pattern, s: string, i: nat, x: nat, y: nat, x': nat, y': nat)
    requires Deterministic(pat)
    requires MatchesWith(pat, s, i, x, y) && MatchesWith(pat, s, i, x', y')
    ensures x == x' && y == y'
  {
    MatchAtComplete(pat, s, i, x, y);
    MatchAtComplete(pat, s, i, x', y');
  }

  /** `Search` gives what `re.search(...).group(1)` gives: nothing when the
      pattern matches nowhere, and otherwise the group of the match that
      starts leftmost. */
  lemma SearchFindsLeftmostMatch(pat: Pattern, s: string)
    requires Deterministic(pat)
    ensures Search(pat, s).None? <==> forall i: nat, x: nat, y: nat :: !MatchesWith(pat, s, i, x, y)
    ensures Search(pat, s).Some? ==>
      exists i: nat, x: nat, y: nat ::
        && MatchesWith(pat, s, i, x, y)
        && Search(pat, s).value == s[x..y]
        && forall i': nat, x': nat, y': nat :: i' < i ==> !MatchesWith(pat, s, i', x', y')
  {
    var r := Search(pat, s);
    SearchFromNone(pat, s, 0);
    if r.None? {
      forall i: nat, x: nat, y: nat ensures !MatchesWith(pat, s, i, x, y) {
        if MatchesWith(pat, s, i, x, y) {
          MatchAtComplete(pat, s, i, x, y);
        }
      }
    } else {
      var m := SearchFromFirst(pat, s, 0);
      MatchAtSound(pat, s, m);
      var x: nat, y: nat :| MatchesWith(pat, s, m, x, y) && r.value == s[x..y];
      forall i': nat, x': nat, y': nat | i' < m ensures !MatchesWith(pat, s, i', x', y') {
        if MatchesWith(pat, s, i', x', y') {
          MatchAtComplete(pat, s, i', x', y');
        }
      }
      assert MatchesWith(pat, s, m, x, y);
    }
  }

  /** Whatever `Search` returns is a numeral, `\d+(?:\.\d+)?`. */
  lemma SearchNumeral(pat: Pattern, s: string)
    requires Search(pat, s).Some?
    ensures IsNumeral(Search(pat, s).value)
  {
    var m := SearchFromFirst(pat, s, 0);
    MatchAtSound(pat, s, m);
  }

  /** Pieces after the group that nothing can extend are scanned
      completely by the greedy scanner. */
  lemma UnambiguousSuffixComplete(after: seq<Piece>)
    requires forall p :: p in after ==> WellFormed(p)
    requires Unambiguous(after, [])
    ensures SuffixComplete(after)
  {
    forall s: string, y: nat, j: nat | SeqSpans(after, s, y, j)
      ensures ScanSeq(after, s, y).Some?
    {
      assert SeqSpans([], s, j, j);
      SeqAgrees(after, [], s, y, j, j);
    }
  }

  /** Every match contains each literal piece before the group somewhere
      between its start and the group. */
  lemma {:induction false} LiteralBeforeGroup(ps: seq<Piece>, w: string, s: string, i: nat, x: nat)
    requires Lit(w) in ps && SeqSpans(ps, s, i, x)
    ensures exists q :: i <= q && q + |w| <= x && LitAt(s, q, w)
    decreases |ps|
  {
    var k: nat :| PieceSpans(ps[0], s, i, k) && SeqSpans(ps[1..], s, k, x);
    if ps[0] == Lit(w) {
      assert LitAt(s, i, w);
    } else {
      assert Lit(w) in ps[1..];
      LiteralBeforeGroup(ps[1..], w, s, k, x);
    }
  }
}
