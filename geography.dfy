/**
 * The extraction of "Gross Investments by geography" from a strategic-plan
 * document (hello.py). A document is the sequence of its pages' extracted
 * texts, `None` for a page without text. The extractor finds the first
 * page that mentions the section, normalises its whitespace, reads the
 * total investment amount and five regional percentages from it with fixed
 * case-insensitive patterns, and summarises the UK and US share.
 */
module Geography {
  import opened Wrappers
  import opened Text
  import opened Numbers
  import opened Patterns

  // ---------------------------------------------------------------------
  // Locating the page
  // ---------------------------------------------------------------------

  /** The text of a page; a page without text reads as the empty string. */
  function PageText(page: Option<string>): string {
    page.GetOr("")
  }

  datatype LocateError = NotFound(needle: string)

  /** Page `q` is the first page whose raw text contains `needle`. */
  predicate IsFirstPageWith(pages: seq<Option<string>>, needle: string, q: nat) {
    && q < |pages|
    && Contains(PageText(pages[q]), needle)
    && forall q' :: 0 <= q' < q ==> !Contains(PageText(pages[q']), needle)
  }

  /** `get_page_text_containing`: the normalised text of the first page that
      contains `needle`, or an error naming the needle when none does. */
  method GetPageTextContaining(pages: seq<Option<string>>, needle: string) returns (r: Result<string, LocateError>)
    ensures r.Failure? <==> forall q :: 0 <= q < |pages| ==> !Contains(PageText(pages[q]), needle)
    ensures r.Failure? ==> r.error == NotFound(needle)
    ensures r.Success? ==>
      exists q: nat :: IsFirstPageWith(pages, needle, q) && r.value == Normalize(PageText(pages[q]))
  {
    var q := 0;
    while q < |pages|
      invariant 0 <= q <= |pages|
      invariant forall q' :: 0 <= q' < q ==> !Contains(PageText(pages[q']), needle)
    {
      var text := PageText(pages[q]);
      if Contains(text, needle) {
        assert IsFirstPageWith(pages, needle, q);
        return Success(Normalize(text));
      }
      q := q + 1;
    }
    return Failure(NotFound(needle));
  }

  /** At most one page is the first page containing the needle. */
  lemma FirstPageUnique(pages: seq<Option<string>>, needle: string, q: nat, q': nat)
    requires IsFirstPageWith(pages, needle, q) && IsFirstPageWith(pages, needle, q')
    ensures q == q'
  {
  }

  // ---------------------------------------------------------------------
  // The patterns
  // ---------------------------------------------------------------------

  const Currencies: seq<string> := ["Eur", "EUR", "€"]

  /** `\s*Bn`, what both total patterns require after the number. */
  const BnSuffix: seq<Piece> := [Spaces(false), Lit("Bn")]

  /** `(?:Eur|EUR|€)?\s*Bn` */
  const CurrencySuffix: seq<Piece> := [Opt(Currencies)] + BnSuffix

  /** `Gross investments reach\s+Eur\s*~?(\d+(?:\.\d+)?)\s*Bn` */
  const GrossTotal: Pattern :=
    Pattern([Lit("Gross investments reach"), Spaces(true), Lit("Eur"), Spaces(false), Opt(["~"])],
            BnSuffix)

  /** `~?\s*(\d+(?:\.\d+)?)\s*(?:Eur|EUR|€)?\s*Bn` */
  const FallbackTotal: Pattern :=
    Pattern([Opt(["~"]), Spaces(false)], [Spaces(false)] + CurrencySuffix)

  /** `<tag>\s*~\s*(\d+(?:\.\d+)?)%` */
  function PercentPattern(tag: string): Pattern {
    Pattern([Lit(tag), Spaces(false), Lit("~"), Spaces(false)], [Lit("%")])
  }

  lemma FoldKeeps(c: char)
    ensures IsSpace(c) || IsDigit(c) || c == '.' ==> Fold(c) == c
  {
  }

  lemma GrossTotalDeterministic()
    ensures Deterministic(GrossTotal)
  {
    GrossBeforeUnambiguous();
    GrossNumberUnambiguous();
    GrossAfterUnambiguous();
    UnambiguousSuffixComplete(GrossTotal.after);
  }

  lemma GrossBeforeUnambiguous()
    ensures Unambiguous(GrossTotal.before, [Number] + GrossTotal.after)
  {
    var b := GrossTotal.before;
    forall idx, c | 0 <= idx < |b| && Extends(b[idx], c)
      ensures Blocks(b[idx + 1..] + ([Number] + GrossTotal.after), c)
    {
      if idx == 1 {
        GrossAfterReach(c);
      } else if idx == 3 {
        GrossAfterSpaces(c);
      } else {
        assert idx == 4;
        GrossAfterTilde(c);
      }
    }
  }

  /** After `\s+` comes the literal `Eur`, which no whitespace begins. */
  lemma GrossAfterReach(c: char)
    requires IsSpace(c)
    ensures Blocks(GrossTotal.before[2..] + ([Number] + GrossTotal.after), c)
  {
    FoldKeeps(c);
    BlocksLit("Eur", GrossTotal.before[3..] + ([Number] + GrossTotal.after), c);
    assert GrossTotal.before[2..] == [Lit("Eur")] + GrossTotal.before[3..];
  }

  /** After `\s*` come the optional `~` and the number, neither of which
      begins with whitespace. */
  lemma GrossAfterSpaces(c: char)
    requires IsSpace(c)
    ensures Blocks(GrossTotal.before[4..] + ([Number] + GrossTotal.after), c)
  {
    FoldKeeps(c);
    BlocksNumber(BnSuffix, c);
    BlocksOpt(["~"], [Number] + BnSuffix, c);
    assert GrossTotal.before[4..] == [Opt(["~"])];
  }

  /** After `~?` comes the number, which does not begin with `~`. */
  lemma GrossAfterTilde(c: char)
    requires Extends(Opt(["~"]), c)
    ensures Blocks(GrossTotal.before[5..] + ([Number] + GrossTotal.after), c)
  {
    assert Fold(c) == '~';
    FoldKeeps(c);
    BlocksNumber(BnSuffix, c);
    assert GrossTotal.before[5..] == [];
  }

  lemma GrossNumberUnambiguous()
    ensures Unambiguous([Number], GrossTotal.after)
  {
    var a := GrossTotal.after;
    forall idx, c | 0 <= idx < |[Number]| && Extends([Number][idx], c)
      ensures Blocks([Number][idx + 1..] + a, c)
    {
      FoldKeeps(c);
      assert [Number][idx + 1..] + a == a;
      assert Blocks([Lit("Bn")], c);
    }
  }

  lemma GrossAfterUnambiguous()
    ensures Unambiguous(GrossTotal.after, [])
  {
    var a := GrossTotal.after;
    forall idx, c | 0 <= idx < |a| && Extends(a[idx], c)
      ensures Blocks(a[idx + 1..] + [], c)
    {
      FoldKeeps(c);
      assert a[idx + 1..] + [] == [Lit("Bn")];
    }
  }

  lemma PercentPatternDeterministic(tag: string)
    ensures Deterministic(PercentPattern(tag))
  {
    var b, a := PercentPattern(tag).before, PercentPattern(tag).after;
    forall idx, c | 0 <= idx < |b| && Extends(b[idx], c)
      ensures Blocks(b[idx + 1..] + ([Number] + a), c)
    {
      FoldKeeps(c);
      if idx == 1 {
        assert b[idx + 1..] + ([Number] + a) == [Lit("~"), Spaces(false), Number] + a;
      } else {
        assert b[idx + 1..] + ([Number] + a) == [Number] + a;
      }
    }
    forall idx, c | 0 <= idx < |[Number]| && Extends([Number][idx], c)
      ensures Blocks([Number][idx + 1..] + a, c)
    {
      FoldKeeps(c);
      assert [Number][idx + 1..] + a == a;
    }
    UnambiguousSuffixComplete(a);
  }

  lemma FallbackTotalDeterministic()
    ensures Deterministic(FallbackTotal)
  {
    CurrenciesWellFormed();
    assert forall p :: p in FallbackTotal.before || p in FallbackTotal.after ==> WellFormed(p);
    FallbackBeforeUnambiguous();
    FallbackNumberUnambiguous();
    FallbackSuffixComplete();
  }

  lemma FallbackBeforeUnambiguous()
    ensures Unambiguous(FallbackTotal.before, [Number] + FallbackTotal.after)
  {
    var b, t := FallbackTotal.before, [Number] + FallbackTotal.after;
    forall idx, c | 0 <= idx < |b| && Extends(b[idx], c)
      ensures Blocks(b[idx + 1..] + t, c)
    {
      if idx == 0 {
        assert Fold(c) == '~';
        FoldKeeps(c);
        assert b[idx + 1..] + t == [Spaces(false)] + t;
      } else {
        FoldKeeps(c);
        assert b[idx + 1..] + t == t;
      }
    }
  }

  lemma FallbackNumberUnambiguous()
    ensures Unambiguous([Number], FallbackTotal.after)
  {
    var a := FallbackTotal.after;
    forall idx, c | 0 <= idx < |[Number]| && Extends([Number][idx], c)
      ensures Blocks([Number][idx + 1..] + a, c)
    {
      assert [Number][idx + 1..] + a == a;
      NumberEndsBeforeSuffix(c);
    }
  }

  lemma NumberEndsBeforeSuffix(c: char)
    requires IsDigit(c) || c == '.'
    ensures Blocks(FallbackTotal.after, c)
  {
    FoldKeeps(c);
    SuffixBlocks(c);
  }

  lemma SuffixBlocks(c: char)
    requires !IsSpace(c) && Fold(c) != 'b' && Fold(c) != 'e' && Fold(c) != '€'
    ensures Blocks(FallbackTotal.after, c)
  {
    CurrencySuffixBlocks(c);
    BlocksSpaces(false, CurrencySuffix, c);
  }

  lemma CurrencySuffixBlocks(c: char)
    requires !IsSpace(c) && Fold(c) != 'b' && Fold(c) != 'e' && Fold(c) != '€'
    ensures Blocks(CurrencySuffix, c)
  {
    CurrenciesWellFormed();
    BlocksLit("Bn", [], c);
    BlocksSpaces(false, [Lit("Bn")], c);
    assert BnSuffix == [Spaces(false)] + [Lit("Bn")];
    BlocksOpt(Currencies, BnSuffix, c);
  }

  /** The fallback's `\s*(?:Eur|EUR|€)?\s*Bn` can split a whitespace run
      between its two `\s*` in several ways, but the greedy scan still
      completes wherever some split matches. */
  lemma FallbackSuffixComplete()
    ensures SuffixComplete(FallbackTotal.after)
  {
    forall s: string, y: nat, j: nat | SeqSpans(FallbackTotal.after, s, y, j)
      ensures ScanSeq(FallbackTotal.after, s, y).Some?
    {
      FallbackSuffixAt(s, y, j);
    }
  }

  lemma FallbackSuffixAt(s: string, y: nat, j: nat)
    requires SeqSpans(FallbackTotal.after, s, y, j)
    ensures ScanSeq(FallbackTotal.after, s, y).Some?
  {
    var a := FallbackTotal.after;
    var k1: nat :| PieceSpans(a[0], s, y, k1) && SeqSpans(a[1..], s, k1, j);
    var k2: nat :| PieceSpans(a[1], s, k1, k2) && SeqSpans(a[2..], s, k2, j);
    assert a[1..][1..] == a[2..];
    var k3: nat :| PieceSpans(a[2], s, k2, k3) && SeqSpans(a[3..], s, k3, j);
    assert a[2..][1..] == a[3..];
    var k4: nat :| PieceSpans(a[3], s, k3, k4) && SeqSpans(a[4..], s, k4, j);
    assert LitAt(s, k3, "Bn");
    if k2 == k1 {
      FallbackWithoutCurrency(s, y, k3);
    } else {
      var w :| w in Currencies && k2 == k1 + |w| && LitAt(s, k1, w);
      FallbackWithCurrency(s, y, k1, w, k3);
    }
  }

  /** `Bn` starts with a letter, so not with whitespace. */
  lemma BnNotSpace(s: string, k: nat)
    requires LitAt(s, k, "Bn")
    ensures k < |s| && Fold(s[k]) == 'b' && !IsSpace(s[k])
  {
    assert Fold(s[k + 0]) == Fold("Bn"[0]);
    FoldKeeps(s[k]);
  }

  lemma SpacesThenBn(s: string, e: nat, k: nat)
    requires LitAt(s, k, "Bn") && e <= k && forall m :: e <= m < k ==> IsSpace(s[m])
    ensures ScanSeq(BnSuffix, s, e).Some?
  {
    BnNotSpace(s, k);
    assert SpacesEnd(s, e) == k;
    assert BnSuffix[1..] == [Lit("Bn")];
  }

  lemma FallbackWithoutCurrency(s: string, y: nat, k: nat)
    requires LitAt(s, k, "Bn") && y <= k && forall m :: y <= m < k ==> IsSpace(s[m])
    ensures ScanSeq(FallbackTotal.after, s, y).Some?
  {
    BnNotSpace(s, k);
    var e := SpacesEnd(s, y);
    assert e == k;
    assert FirstAlt(Currencies, s, e).None? by {
      forall w | w in Currencies ensures !LitAt(s, e, w) {
        assert Fold(w[0]) != 'b';
      }
    }
    SpacesThenBn(s, e, k);
    ScanSpacesStep(CurrencySuffix, s, y);
    ScanOptStep(Currencies, BnSuffix, s, e);
  }

  lemma FallbackWithCurrency(s: string, y: nat, k1: nat, w: string, k3: nat)
    requires LitAt(s, k3, "Bn") && w in Currencies && LitAt(s, k1, w)
    requires y <= k1 && forall m :: y <= m < k1 ==> IsSpace(s[m])
    requires k1 + |w| <= k3 && forall m :: k1 + |w| <= m < k3 ==> IsSpace(s[m])
    ensures ScanSeq(FallbackTotal.after, s, y).Some?
  {
    CurrencyScan(s, k1, w);
    CurrencyThenBn(s, k1, k1 + |w|, k3);
    assert SpacesEnd(s, y) == k1;
    ScanSpacesStep(CurrencySuffix, s, y);
  }

  lemma CurrencyThenBn(s: string, k1: nat, k2: nat, k3: nat)
    requires k1 <= |s| && FirstAlt(Currencies, s, k1) == Some(k2)
    requires LitAt(s, k3, "Bn") && k2 <= k3 && forall m :: k2 <= m < k3 ==> IsSpace(s[m])
    ensures ScanSeq(CurrencySuffix, s, k1).Some?
  {
    SpacesThenBn(s, k2, k3);
    ScanOptStep(Currencies, BnSuffix, s, k1);
  }

  /** A currency word is scanned whole, and does not begin with whitespace. */
  lemma CurrencyScan(s: string, k: nat, w: string)
    requires w in Currencies && LitAt(s, k, w)
    ensures k < |s| && !IsSpace(s[k])
    ensures FirstAlt(Currencies, s, k) == Some(k + |w|)
  {
    CurrenciesWellFormed();
    assert Fold(s[k + 0]) == Fold(w[0]);
    FoldKeeps(s[k]);
    FirstAltOfWellFormed(Currencies, s, k, w);
  }

  /** Every currency word begins with `e` or `€`, and those that begin
      alike have the same length. */
  lemma CurrenciesWellFormed()
    ensures forall w :: w in Currencies ==> |w| > 0 && Fold(w[0]) in {'e', '€'}
    ensures WellFormed(Opt(Currencies))
  {
  }

  // ---------------------------------------------------------------------
  // Reading the numbers
  // ---------------------------------------------------------------------

  /** `float(m.group(1)) if m else None` where `m` is the case-insensitive
      search for `pat` in `text`, the number read exactly. */
  function FindValue(pat: Pattern, text: string): Option<NonNeg> {
    match Search(pat, text)
    case None => None
    case Some(c) =>
      assert IsNumeral(c) by { SearchNumeral(pat, text); }
      Some(NumeralValue(c))
  }

  /** For a deterministic pattern a value is found exactly when the pattern
      matches somewhere, and then it is the number the leftmost match
      captures. */
  lemma FindValueMeaning(pat: Pattern, text: string)
    requires Deterministic(pat)
    ensures FindValue(pat, text).None? <==> forall i: nat, x: nat, y: nat :: !MatchesWith(pat, text, i, x, y)
    ensures FindValue(pat, text).Some? ==>
      exists i: nat, x: nat, y: nat ::
        && MatchesWith(pat, text, i, x, y)
        && IsNumeral(text[x..y])
        && FindValue(pat, text).value == NumeralValue(text[x..y])
        && forall i': nat, x': nat, y': nat :: i' < i ==> !MatchesWith(pat, text, i', x', y')
  {
    SearchFindsLeftmostMatch(pat, text);
  }

  /** Lines 26-39: the primary pattern, and the fallback only when the
      primary one finds nothing. */
  function ExtractTotal(text: string): Option<NonNeg> {
    var primary := FindValue(GrossTotal, text);
    if primary.Some? then primary else FindValue(FallbackTotal, text)
  }

  /** Wherever the primary pattern matches, the fallback pattern matches
      too, from the start of the number, capturing the same number. */
  lemma PrimaryImpliesFallback(s: string, i: nat, x: nat, y: nat)
    requires MatchesWith(GrossTotal, s, i, x, y)
    ensures MatchesWith(FallbackTotal, s, x, x, y)
  {
    var j: nat :| SeqSpans(GrossTotal.after, s, y, j);
    FallbackAfterFromGross(s, y, j);
    FallbackBeforeEmpty(s, x);
  }

  lemma FallbackBeforeEmpty(s: string, x: nat)
    requires x <= |s|
    ensures SeqSpans(FallbackTotal.before, s, x, x)
  {
    assert SeqSpans([], s, x, x);
    assert PieceSpans(Spaces(false), s, x, x);
    assert [Spaces(false)][1..] == [];
    assert SeqSpans([Spaces(false)], s, x, x);
    assert PieceSpans(Opt(["~"]), s, x, x);
    assert FallbackTotal.before[1..] == [Spaces(false)];
  }

  lemma FallbackAfterFromGross(s: string, y: nat, j: nat)
    requires SeqSpans(GrossTotal.after, s, y, j)
    ensures SeqSpans(FallbackTotal.after, s, y, j)
  {
    var k: nat :| PieceSpans(Spaces(false), s, y, k) && SeqSpans([Lit("Bn")], s, k, j);
    assert PieceSpans(Spaces(false), s, k, k);
    assert BnSuffix[1..] == [Lit("Bn")];
    assert SeqSpans(BnSuffix, s, k, j);
    assert PieceSpans(Opt(Currencies), s, k, k);
    assert CurrencySuffix[1..] == BnSuffix;
    assert SeqSpans(CurrencySuffix, s, k, j);
    assert FallbackTotal.after[1..] == CurrencySuffix;
  }

  /** The total is the primary pattern's number when that pattern matches
      and the fallback's otherwise; it is absent exactly when the fallback
      pattern matches nowhere (and then the primary one cannot match). */
  lemma TotalSelection(text: string)
    ensures (exists i: nat, x: nat, y: nat :: MatchesWith(GrossTotal, text, i, x, y)) ==>
              ExtractTotal(text) == FindValue(GrossTotal, text) && ExtractTotal(text).Some?
    ensures (forall i: nat, x: nat, y: nat :: !MatchesWith(GrossTotal, text, i, x, y)) ==>
              ExtractTotal(text) == FindValue(FallbackTotal, text)
    ensures ExtractTotal(text).None? <==> forall i: nat, x: nat, y: nat :: !MatchesWith(FallbackTotal, text, i, x, y)
  {
    GrossTotalDeterministic();
    FallbackTotalDeterministic();
    FindValueMeaning(GrossTotal, text);
    FindValueMeaning(FallbackTotal, text);
    if exists i: nat, x: nat, y: nat :: MatchesWith(GrossTotal, text, i, x, y) {
      var i: nat, x: nat, y: nat :| MatchesWith(GrossTotal, text, i, x, y);
      PrimaryImpliesFallback(text, i, x, y);
    }
  }

  /** A percentage pattern only matches with a `~` between the name and the
      number and a `%` right after the number. */
  lemma PercentMatchShape(tag: string, s: string, i: nat, x: nat, y: nat)
    requires MatchesWith(PercentPattern(tag), s, i, x, y)
    ensures exists q :: i <= q < x && s[q] == '~'
    ensures y < |s| && s[y] == '%'
  {
    var pat := PercentPattern(tag);
    LiteralBeforeGroup(pat.before, "~", s, i, x);
    var q :| i <= q && q + 1 <= x && LitAt(s, q, "~");
    assert Fold(s[q + 0]) == Fold("~"[0]);
    var j: nat :| SeqSpans(pat.after, s, y, j);
    var k: nat :| PieceSpans(Lit("%"), s, y, k) && SeqSpans([], s, k, j);
    assert Fold(s[y + 0]) == Fold("%"[0]);
  }

  /** Text without a `~` yields no percentage, e.g. "UK 10%". */
  lemma NoTildeNoPercent(tag: string, s: string)
    requires forall q :: 0 <= q < |s| ==> s[q] != '~'
    ensures FindValue(PercentPattern(tag), s).None?
  {
    PercentPatternDeterministic(tag);
    FindValueMeaning(PercentPattern(tag), s);
    forall i: nat, x: nat, y: nat ensures !MatchesWith(PercentPattern(tag), s, i, x, y) {
      if MatchesWith(PercentPattern(tag), s, i, x, y) {
        PercentMatchShape(tag, s, i, x, y);
      }
    }
  }

  lemma UkWithoutTilde()
    ensures FindValue(PercentPattern("UK"), "UK 10%").None?
  {
    NoTildeNoPercent("UK", "UK 10%");
  }

  // ---------------------------------------------------------------------
  // The records
  // ---------------------------------------------------------------------

  /** An entry of the ordered label-to-pattern table. */
  datatype Field = Field(name: string, pattern: Pattern)

  /** A record of `data`: a label and its percentage, when found. */
  datatype Record = Record(name: string, valuePercent: Option<NonNeg>)

  const GeographyFields: seq<Field> := [
    Field("United Kingdom", PercentPattern("UK")),
    Field("United States", PercentPattern("US")),
    Field("Iberia", PercentPattern("Iberia")),
    Field("Brazil", PercentPattern("Brazil")),
    // the "Other EU & Australia" bucket is read from its Australia figure
    Field("Other EU & Australia", PercentPattern("Australia"))
  ]

  const GeographyLabels: seq<string> :=
    ["United Kingdom", "United States", "Iberia", "Brazil", "Other EU & Australia"]

  function Names(data: seq<Record>): seq<string> {
    seq(|data|, i requires 0 <= i < |data| => data[i].name)
  }

  /** The records the loop appends: one per table entry, in table order. */
  function GeographyRecords(text: string): seq<Record> {
    seq(|GeographyFields|, i requires 0 <= i < |GeographyFields| =>
      Record(GeographyFields[i].name, FindValue(GeographyFields[i].pattern, text)))
  }

  /** The dictionary after storing each record's value under its label,
      in order. */
  function RecordMap(data: seq<Record>): map<string, Option<NonNeg>> {
    if data == [] then map[]
    else RecordMap(data[..|data| - 1])[data[|data| - 1].name := data[|data| - 1].valuePercent]
  }

  predicate DistinctNames(data: seq<Record>) {
    forall i, j :: 0 <= i < j < |data| ==> data[i].name != data[j].name
  }

  /** With distinct labels, the dictionary has exactly the labels as keys
      and maps each to its record's value. */
  lemma {:induction false} RecordMapLookup(data: seq<Record>)
    requires DistinctNames(data)
    ensures RecordMap(data).Keys == set i | 0 <= i < |data| :: data[i].name
    ensures forall i :: 0 <= i < |data| ==> RecordMap(data)[data[i].name] == data[i].valuePercent
  {
    if data != [] {
      var init := data[..|data| - 1];
      assert DistinctNames(init);
      RecordMapLookup(init);
      assert forall i :: 0 <= i < |init| ==> init[i] == data[i];
    }
  }

  /** Lines 52-58: one record per table entry appended to `data`, and its
      value stored in `perc_map` under its label. */
  method BuildGeographyRecords(text: string) returns (data: seq<Record>, percMap: map<string, Option<NonNeg>>)
    ensures data == GeographyRecords(text)
    ensures percMap == RecordMap(data)
  {
    data := [];
    percMap := map[];
    for i := 0 to |GeographyFields|
      invariant data == GeographyRecords(text)[..i]
      invariant percMap == RecordMap(data)
    {
      var f := GeographyFields[i];
      var v := FindValue(f.pattern, text);
      percMap := percMap[f.name := v];
      data := data + [Record(f.name, v)];
      assert data[..|data| - 1] == GeographyRecords(text)[..i];
    }
    assert GeographyRecords(text)[..|GeographyFields|] == GeographyRecords(text);
  }

  const GeographyTags: seq<string> := ["UK", "US", "Iberia", "Brazil", "Australia"]

  lemma GeographyFieldsShape()
    ensures |GeographyFields| == |GeographyTags| == |GeographyLabels| == 5
    ensures forall i :: 0 <= i < 5 ==>
      GeographyFields[i] == Field(GeographyLabels[i], PercentPattern(GeographyTags[i]))
  {
  }

  /** `data` holds five records labelled United Kingdom, United States,
      Iberia, Brazil and Other EU & Australia, in that order, and `perc_map`
      maps exactly those labels, each to its record's value. */
  lemma GeographyRecordsLabels(text: string)
    ensures Names(GeographyRecords(text)) == GeographyLabels
    ensures RecordMap(GeographyRecords(text)).Keys == set n | n in GeographyLabels
    ensures forall i :: 0 <= i < |GeographyLabels| ==>
      RecordMap(GeographyRecords(text))[GeographyLabels[i]] == GeographyRecords(text)[i].valuePercent
  {
    var data := GeographyRecords(text);
    GeographyNames(text);
    RecordMapLookup(data);
    assert (set i | 0 <= i < |data| :: data[i].name) == set n | n in GeographyLabels by {
      forall n | n in GeographyLabels ensures n in set i | 0 <= i < |data| :: data[i].name {
        var i :| 0 <= i < |GeographyLabels| && GeographyLabels[i] == n;
        assert data[i].name == n;
      }
    }
  }

  lemma GeographyNames(text: string)
    ensures |GeographyRecords(text)| == |GeographyLabels|
    ensures forall i :: 0 <= i < |GeographyLabels| ==> GeographyRecords(text)[i].name == GeographyLabels[i]
    ensures Names(GeographyRecords(text)) == GeographyLabels
    ensures DistinctNames(GeographyRecords(text))
  {
    GeographyFieldsShape();
    var data := GeographyRecords(text);
    assert Names(data) == GeographyLabels;
  }

  /** Each record's value is absent exactly when its pattern matches nowhere
      in the text, and is otherwise the number of the leftmost match. */
  lemma GeographyRecordsValues(text: string, i: nat)
    requires i < |GeographyFields|
    ensures GeographyRecords(text)[i].valuePercent.None? <==>
      forall j: nat, x: nat, y: nat :: !MatchesWith(GeographyFields[i].pattern, text, j, x, y)
    ensures GeographyRecords(text)[i].valuePercent.Some? ==>
      exists j: nat, x: nat, y: nat ::
        && MatchesWith(GeographyFields[i].pattern, text, j, x, y)
        && IsNumeral(text[x..y])
        && GeographyRecords(text)[i].valuePercent.value == NumeralValue(text[x..y])
        && forall j': nat, x': nat, y': nat :: j' < j ==> !MatchesWith(GeographyFields[i].pattern, text, j', x', y')
  {
    GeographyFieldsShape();
    PercentPatternDeterministic(GeographyTags[i]);
    FindValueMeaning(GeographyFields[i].pattern, text);
  }

  // ---------------------------------------------------------------------
  // The summary
  // ---------------------------------------------------------------------

  /** `x or 0.0` for an optional percentage. */
  function ValueOrZero(v: Option<NonNeg>): NonNeg {
    if v.Some? then v.value else 0.0
  }

  /** `perc_map.get(key)`. */
  function Lookup(percMap: map<string, Option<NonNeg>>, key: string): Option<NonNeg> {
    if key in percMap then percMap[key] else None
  }

  /** Lines 61-63: the UK and US percentages added, a missing one counting 0. */
  function UkUsShare(percMap: map<string, Option<NonNeg>>): NonNeg {
    ValueOrZero(Lookup(percMap, "United Kingdom")) + ValueOrZero(Lookup(percMap, "United States"))
  }

  /** The combined share is the UK and the US values found in the text,
      each counting 0 when absent. */
  lemma UkUsShareOfText(text: string)
    ensures UkUsShare(RecordMap(GeographyRecords(text))) ==
      ValueOrZero(FindValue(PercentPattern("UK"), text)) + ValueOrZero(FindValue(PercentPattern("US"), text))
    ensures FindValue(PercentPattern("UK"), text).None? ==>
      UkUsShare(RecordMap(GeographyRecords(text))) == ValueOrZero(FindValue(PercentPattern("US"), text))
  {
    GeographyRecordsLabels(text);
    GeographyFieldsShape();
    var data := GeographyRecords(text);
    assert GeographyLabels[0] == "United Kingdom" && GeographyLabels[1] == "United States";
    assert data[0].valuePercent == FindValue(PercentPattern("UK"), text);
    assert data[1].valuePercent == FindValue(PercentPattern("US"), text);
  }

  /** Lines 64-66: the share of the total, rounded to the nearest integer
      (ties to even), or nothing when there is no total. */
  function ApproxAmount(total: Option<NonNeg>, share: NonNeg): (a: Option<nat>)
    ensures a.None? <==> total.None?
    ensures a.Some? ==> -0.5 <= total.value * share / 100.0 - a.value as real <= 0.5
  {
    if total.Some? then Some(RoundHalfEven(total.value * share / 100.0)) else None
  }

  /** A total of 58 with UK 10% and US 15% gives 14.5, which rounds to 14. */
  lemma ApproxAmountSample()
    ensures ApproxAmount(Some(58.0), 10.0 + 15.0) == Some(14)
  {
    assert 58.0 * 25.0 / 100.0 == 14.5;
    assert (14.5).Floor == 14;
  }

  const UndeterminedSummary: string := "UK and US combined share could not be fully determined from the text."

  const SummaryStart: string := "Approximately "
  const ShareWords: string := "% of gross investments "
  const SummaryTail: string := " are allocated to the UK and US combined."

  /** `(~<n> Bn EUR)`, the amount as the summary writes it. */
  function AmountPhrase(n: nat): string {
    "(~" + FormatNat(n) + " Bn EUR)"
  }

  /** Lines 68-74: the sentence stating the rounded share and the amount,
      or the fixed sentence when there is no amount. */
  function SummaryText(approx: Option<nat>, share: NonNeg): (s: string)
    ensures s == UndeterminedSummary <==> approx.None?
  {
    if approx.Some? then
      var s := SummaryStart + (FormatNat(RoundHalfEven(share)) + ShareWords) + (AmountPhrase(approx.value) + SummaryTail);
      assert s[0] == 'A';
      s
    else UndeterminedSummary
  }

  /** The sentence names the share, rounded, right after "Approximately ",
      and then the amount. */
  lemma SummaryStatesFigures(approx: Option<nat>, share: NonNeg)
    requires approx.Some?
    ensures OccursAt(SummaryText(approx, share), FormatNat(RoundHalfEven(share)) + ShareWords, |SummaryStart|)
    ensures Contains(SummaryText(approx, share), AmountPhrase(approx.value))
  {
    var a, b := FormatNat(RoundHalfEven(share)) + ShareWords, AmountPhrase(approx.value);
    var s := SummaryText(approx, share);
    assert s == SummaryStart + a + (b + SummaryTail);
    assert s[|SummaryStart|..|SummaryStart| + |a|] == a;
    assert s == (SummaryStart + a) + b + SummaryTail;
    assert s[|SummaryStart + a|..|SummaryStart + a| + |b|] == b;
    assert OccursAt(s, b, |SummaryStart + a|);
  }

  // ---------------------------------------------------------------------
  // The whole extraction
  // ---------------------------------------------------------------------

  const Needle: string := "Gross Investments by geography"
  const Title: string := "Gross Investments by Geography 2025-28"

  /** The dictionary the extractor returns. */
  datatype Extraction = Extraction(
    title: string,
    totalInvestmentsEurBn: Option<NonNeg>,
    data: seq<Record>,
    summary: string)

  /** What the extractor computes from the located page's normalised text. */
  function Report(text: string): (e: Extraction)
    ensures e.title == Title
    ensures e.totalInvestmentsEurBn == ExtractTotal(text)
    ensures Names(e.data) == GeographyLabels
    ensures e.summary == UndeterminedSummary <==> ExtractTotal(text).None?
  {
    var total := ExtractTotal(text);
    var data := GeographyRecords(text);
    GeographyRecordsLabels(text);
    var share := UkUsShare(RecordMap(data));
    Extraction(Title, total, data, SummaryText(ApproxAmount(total, share), share))
  }

  /** `extract_gross_investments_by_geography`: locates the page, then
      reads the total, the records and the summary from its text. */
  method ExtractGrossInvestmentsByGeography(pages: seq<Option<string>>) returns (r: Result<Extraction, LocateError>)
    ensures r.Failure? <==> forall q :: 0 <= q < |pages| ==> !Contains(PageText(pages[q]), Needle)
    ensures r.Failure? ==> r.error == NotFound(Needle)
    ensures r.Success? ==>
      exists q: nat :: IsFirstPageWith(pages, Needle, q) && r.value == Report(Normalize(PageText(pages[q])))
  {
    var located := GetPageTextContaining(pages, Needle);
    if located.Failure? {
      return Failure(located.error);
    }
    var text := located.value;
    var total := ExtractTotal(text);
    var data, percMap := BuildGeographyRecords(text);
    var share := UkUsShare(percMap);
    var approx := ApproxAmount(total, share);
    var summary := SummaryText(approx, share);
    r := Success(Extraction(Title, total, data, summary));
  }
}
