# Gross investments by geography — a Dafny model

This project models `hello.py`. That script reads a strategic-plan PDF and extracts the "Gross Investments by geography" figures:

1. It finds the first page whose text contains `Gross Investments by geography`.
2. It collapses that page's whitespace.
3. It reads the total investment in billions of euros. It tries a specific pattern first (`Gross investments reach Eur ~58 Bn`) and falls back to a generic one (`58 Eur Bn`, `~58 Bn`).
4. It reads five regional percentages, each with a `<name> ~ <n>%` pattern.
5. It keeps the percentages both as an ordered list of records and as a dictionary.
6. It returns a title, the total, the records, and one summary sentence. The sentence gives the UK and US share and the amount it represents.

The model is split into five modules, one file each:

- `wrappers.dfy` (`Wrappers`): `Option` and `Result`.
- `text.dfy` (`Text`):
  - Python's whitespace class (`str.isspace`);
  - the case-insensitive comparison key;
  - the substring test `needle in text`;
  - the normaliser `" ".join(text.split())`.
- `numbers.dfy` (`Numbers`):
  - the numeral a capture group returns, and its exact value;
  - Python's `round()`;
  - the decimal printing of an integer.
- `patterns.dfy` (`Patterns`): the extractor's regular expressions, as sequences of pieces around one capture group `(\d+(?:\.\d+)?)`. There are two semantics, and the main theorem links them:
  - `MatchesWith` is the declarative one: which substrings the regular expression describes.
  - `Search` is the operational one: a greedy scanner, tried at start positions from left to right as `re.search` does.
  - For "deterministic" patterns, `Search` finds a match exactly when the regular expression matches somewhere. It then returns the capture of the leftmost match, and every match at that position captures the same text. That is the answer Python's backtracking matcher gives.
- `geography.dfy` (`Geography`):
  - the page locator, as a loop;
  - the two total patterns, with proofs that both are deterministic;
  - the selection between primary and fallback;
  - the five percentage patterns;
  - the loop that builds the list and the dictionary;
  - the combined share, the rounded amount and the summary sentence;
  - the whole extraction.

A document is given as the sequence of its pages' extracted texts. `None` stands for a page without text, which `extract_text()` reports as `None` and the script reads as `""`.

Python's `round(14.5)` is 14, because ties go to the even neighbour. `Geography.ApproxAmountSample` states that a total of 58 with a 25% share gives an amount of 14.

## Model

| member | source | states |
|---|---|---|
| Text.IsSpace | hello.py:13 | the whitespace `str.split()` breaks on and `\s` matches: the characters of Python's `str.isspace()`; `Text.NormalizeCollapses` and `Patterns.SpacesEnd` carry its use |
| Text.Fold | hello.py:29 | the case-insensitive comparison key of `re.IGNORECASE` for the patterns' characters; `Patterns.FirstAlt` and the determinism lemmas use it |
| Text.Split | hello.py:13 | `str.split()` with no separator: the whitespace-free words of the text, in order; every word is non-empty and whitespace-free, and `Text.VisibleIsConcatOfSplit` and `Text.SplitEmptyIffBlank` carry its meaning |
| Text.JoinSpace | hello.py:13 | `" ".join(words)`; `Text.SplitJoinSpace` proves that splitting undoes it |
| Text.Normalize | hello.py:13 | `" ".join(text.split())`; its result is collapsed, and the `Normalize*` lemmas carry the rest |
| Text.Contains | hello.py:11 | `needle in text` holds exactly when the needle occurs at some index of the text |
| Text.NormalizeCollapses | hello.py:13 | the normalised text has no leading or trailing blank, no two adjacent blanks, and its only whitespace is single spaces between words |
| Text.NormalizeKeepsWords | hello.py:13 | splitting the normalised text gives the same words as splitting the page text |
| Text.NormalizeKeepsVisible | hello.py:13 | normalising keeps every non-whitespace character, in order |
| Text.NormalizeIdempotent | hello.py:13 | normalising twice is normalising once |
| Text.NormalizeFixpoint | hello.py:13 | a text is left unchanged by the normaliser exactly when it is already collapsed |
| Text.NormalizeBlank | hello.py:13 | the normalised text is empty exactly when the page text is all whitespace |
| Text.SplitJoinSpace | hello.py:13 | `" ".join` of whitespace-free words splits back into the same words |
| Text.VisibleIsConcatOfSplit | hello.py:13 | `str.split()` drops exactly the whitespace: the words concatenated are the text's non-whitespace characters |
| Text.SplitEmptyIffBlank | hello.py:13 | `str.split()` gives no words exactly when the text is all whitespace |
| Geography.PageText | hello.py:10 | `page.extract_text() or ""`: a page without text reads as the empty string; `Geography.GetPageTextContaining` uses it |
| Geography.GetPageTextContaining | hello.py:7-14 | fails, naming the needle, exactly when no page contains it; otherwise returns the normalised text of the first page that contains it |
| Geography.FirstPageUnique | hello.py:9-13 | the first page containing the needle is unique |
| Numbers.NumeralValue | hello.py:39 | `float(m.group(1))` read exactly: the integer digits plus the fraction digits over a power of ten; `Numbers.NumeralValueMeaning` carries its properties |
| Numbers.IsNumeral | hello.py:27 | the strings the group `\d+(?:\.\d+)?` matches: digits, or digits, a point and digits; `Numbers.NumeralShape` and `Patterns.SearchNumeral` carry its use |
| Numbers.NumeralShape | hello.py:27 | a captured `\d+(?:\.\d+)?` is digits, optionally followed by a point and at least one more digit |
| Numbers.NumeralValueMeaning | hello.py:39 | the value of a captured numeral has the integer part its leading digits spell, and a numeral without a point is exactly the value of its digits |
| Numbers.RoundHalfEven | hello.py:65 | `round()` is within one half of its argument, breaks ties to the even integer, and is non-negative for a non-negative argument |
| Numbers.FormatNat | hello.py:71 | the printed integer is a non-empty digit string without leading zeros whose value is the integer |
| Patterns.MatchesWith | hello.py:26-30 | what a match of a pattern at a start position is, with no search strategy: the pieces before the group, the group's numeral and the pieces after it, each spanning consecutive parts of the text; `Patterns.MatchAtComplete` and `Patterns.SearchFindsLeftmostMatch` prove the scanner against it |
| Patterns.Search | hello.py:26-30 | `re.search(pattern, text, re.IGNORECASE).group(1)`, or nothing; `Patterns.SearchFindsLeftmostMatch` proves it returns the capture of the leftmost match |
| Patterns.SpacesEnd | hello.py:27 | `\s*` taken greedily consumes a maximal run of whitespace |
| Patterns.DigitsEnd | hello.py:27 | `\d+` taken greedily consumes a maximal run of digits |
| Patterns.FirstAlt | hello.py:34 | the chosen alternative of the optional currency `Eur`, `EUR` or `€` is one that matches here; none is chosen only when none matches |
| Patterns.ScanPieceSound | hello.py:26-30 | what the greedy scanner takes for one piece is a match of that piece |
| Patterns.ScanSeqSound | hello.py:26-30 | what the greedy scanner takes for a sequence of pieces is a match of that sequence |
| Patterns.MatchAtSound | hello.py:26-30 | a scanner hit at a position is a match of the whole pattern there, and its value is the captured text |
| Patterns.SearchFromNone | hello.py:26-30 | the search finds nothing exactly when the scanner fails at every position from the start on |
| Patterns.SearchFromFirst | hello.py:26-30 | the search returns the scanner's hit at the first position where it succeeds |
| Patterns.SearchNumeral | hello.py:39 | what a search captures is a numeral, so `float(m.group(1))` is defined |
| Patterns.FirstAltOfWellFormed | hello.py:34 | when alternatives that begin alike have equal lengths, the one chosen is the one that matches |
| Patterns.PieceMaximal | hello.py:26-30 | the greedy match of a piece is at least as long as any match of it |
| Patterns.PieceGap | hello.py:26-30 | where a match of a piece stops short of the greedy one, the next character could extend it |
| Patterns.BlocksSpans | hello.py:26-30 | a sequence that cannot begin with a character matches nothing that begins with it |
| Patterns.PieceAgrees | hello.py:26-30 | a piece whose continuation blocks every extension is scanned to exactly where any full match puts its end |
| Patterns.SeqAgrees | hello.py:26-30 | an unambiguous sequence is scanned to exactly where any full match puts its end |
| Patterns.MatchAtComplete | hello.py:26-30 | for a deterministic pattern, every match at a position is found by the scanner there, with the same capture |
| Patterns.MatchIsUnique | hello.py:26-30 | for a deterministic pattern, all matches at one position capture the same span |
| Patterns.SearchFindsLeftmostMatch | hello.py:26-30 | for a deterministic pattern, the search finds nothing exactly when there is no match; otherwise it returns the capture of a match at the leftmost position where any match starts |
| Patterns.UnambiguousSuffixComplete | hello.py:26-30 | the greedy scan of an unambiguous suffix succeeds wherever the suffix matches |
| Patterns.LiteralBeforeGroup | hello.py:44 | a literal among the pieces before the group occurs in the text before the capture |
| Patterns.SeqSpansAppend | hello.py:26-30 | matches of two sequences, end to end, match their concatenation |
| Geography.GrossTotal | hello.py:27 | the primary total regex, piece by piece: `Gross investments reach`, `\s+`, `Eur`, `\s*`, `~?`, the group, `\s*`, `Bn`; `Geography.GrossTotalDeterministic` proves it deterministic |
| Geography.FallbackTotal | hello.py:34 | the fallback total regex, piece by piece: `~?`, `\s*`, the group, `\s*`, the optional currency `Eur`, `EUR` or `€`, `\s*`, `Bn`; `Geography.FallbackTotalDeterministic` proves it deterministic |
| Geography.PercentPattern | hello.py:44-49 | the percentage regex for a name: the name, `\s*`, `~`, `\s*`, the group, `%`; `Geography.PercentPatternDeterministic` and `Geography.PercentMatchShape` carry its properties |
| Geography.GrossTotalDeterministic | hello.py:26-30 | the primary total pattern is deterministic, so its search returns the leftmost match's number |
| Geography.FallbackTotalDeterministic | hello.py:33-37 | the fallback total pattern is deterministic |
| Geography.FallbackSuffixComplete | hello.py:34 | the greedy scan of the suffix (spaces, an optional currency, spaces, `Bn`) succeeds wherever that suffix matches, however the whitespace is split between its two `\s*` |
| Geography.PercentPatternDeterministic | hello.py:44-49 | every `<name>\s*~\s*(...)%` pattern is deterministic |
| Geography.FindValue | hello.py:55-56 | the value of a pattern's first match in the text, or nothing; the total (line 39) is read the same way; `Geography.FindValueMeaning` carries its meaning |
| Geography.ExtractTotal | hello.py:26-39 | the primary pattern's value, else the fallback's; `Geography.TotalSelection` carries its meaning |
| Geography.FindValueMeaning | hello.py:39 | for a deterministic pattern, no value exactly when there is no match; otherwise the value of the leftmost match's numeral |
| Geography.PrimaryImpliesFallback | hello.py:26-37 | wherever the primary pattern matches, the fallback pattern matches from the number on, with the same capture |
| Geography.TotalSelection | hello.py:26-39 | the total is the primary pattern's number when it matches, and the fallback's otherwise; it is absent exactly when the fallback pattern matches nowhere |
| Geography.PercentMatchShape | hello.py:44-49 | a percentage match has a `~` between its start and the number, and a `%` right after the number |
| Geography.NoTildeNoPercent | hello.py:44-49 | a text without `~` yields no percentage |
| Geography.UkWithoutTilde | hello.py:44 | "UK 10%" yields no UK percentage |
| Geography.GeographyRecords | hello.py:52-58 | the list `data`: one record per table entry, with its label and its pattern's value; `Geography.GeographyRecordsLabels` and `Geography.GeographyRecordsValues` carry its properties |
| Geography.RecordMap | hello.py:53-57 | the dictionary `perc_map` after storing each record's value under its label in order; `Geography.RecordMapLookup` carries its properties |
| Geography.RecordMapLookup | hello.py:57 | with distinct labels, the dictionary's keys are exactly the labels, each mapped to its record's value |
| Geography.BuildGeographyRecords | hello.py:52-58 | the loop appends one record per table entry, in table order, and leaves the dictionary holding each record's value under its label |
| Geography.GeographyFields | hello.py:43-50 | the ordered label-to-pattern table: United Kingdom with UK, United States with US, Iberia, Brazil, and Other EU & Australia with Australia; `Geography.GeographyFieldsShape` states its shape |
| Geography.GeographyFieldsShape | hello.py:43-50 | the table has five entries, each label paired with the pattern of its name (Australia for "Other EU & Australia") |
| Geography.GeographyRecordsLabels | hello.py:52-58 | the records are labelled United Kingdom, United States, Iberia, Brazil and Other EU & Australia, in that order, and the dictionary maps exactly those labels to the records' values |
| Geography.GeographyNames | hello.py:52-58 | there are five records, with distinct labels, in table order |
| Geography.GeographyRecordsValues | hello.py:54-58 | each record's value is absent exactly when its pattern matches nowhere, and is otherwise the number of the leftmost match |
| Geography.Lookup | hello.py:61-62 | `perc_map.get(key)`: the stored value, or nothing for a missing key; `Geography.UkUsShareOfText` uses it |
| Geography.ValueOrZero | hello.py:61-62 | `x or 0.0` for an optional percentage: its value, or 0 when absent; `Geography.UkUsShareOfText` uses it |
| Geography.UkUsShare | hello.py:61-63 | the UK value plus the US value read from the dictionary, a missing or absent one counting 0; `Geography.UkUsShareOfText` ties it to the text |
| Geography.UkUsShareOfText | hello.py:61-63 | the combined share is the UK value plus the US value, a missing one counting 0 |
| Geography.ApproxAmount | hello.py:64-66 | there is an amount exactly when there is a total, and it is within one half of total times share over 100 |
| Geography.ApproxAmountSample | hello.py:64-66 | a total of 58 with a share of 25% gives 14 |
| Geography.SummaryText | hello.py:68-74 | the summary is the "could not be determined" sentence exactly when there is no amount |
| Geography.SummaryStatesFigures | hello.py:69-72 | the summary gives the rounded share right after "Approximately " and contains "(~n Bn EUR)" for the amount |
| Geography.Report | hello.py:76-81 | the result has the fixed title, the selected total, the five labels in order, and the fallback summary exactly when there is no total |
| Geography.ExtractGrossInvestmentsByGeography | hello.py:17-81 | fails, naming the section heading, exactly when no page mentions it; otherwise returns the report of the first such page's normalised text |

## Left out

- The PDF library (`pdfplumber.open`, `extract_text`) is not modelled. A document is given as its pages' texts, with `None` for a page without text.
- `print(text)` (hello.py:22) and the `__main__` block with `json.dumps` (hello.py:84-87) are output only and are not modelled.
- `rew.py` is not part of this model.
- Floating point is not modelled: numbers are exact reals. `float(...)` is read as the exact decimal value. `round()` and the `:.0f` format are both taken as exact round-half-to-even. The binary representation errors of Python floats are not modelled.
- Numbers.NumeralValueMeaning: states the integer part of every numeral and the exact value of numerals without a point. It does not spell out the fractional digits' value separately; `Numbers.NumeralValue` defines that value.
- `\d` is modelled as the ASCII digits. Python also accepts other Unicode decimal digits.
- Case-insensitive matching is modelled only as far as these patterns need. The patterns' literals are made of ASCII letters, the space character, `~`, `%` and `€`; the space, `~`, `%` and `€` have no case and match only themselves. ASCII letters fold to lower case, and four other characters fold to the ASCII letter Python's matcher treats as equal (U+0130, U+0131, U+017F, U+212A).
- The search is proved equal to Python's backtracking search only for deterministic patterns. All seven patterns of the script are proved deterministic; no other regular expression is modelled.
- The dictionary key `"label"` of each record is named `name` in the model, because `label` is a reserved word in Dafny. `value_percent` is `valuePercent`.
- The `RuntimeError` of the locator is modelled as a `Failure` result carrying the needle. The exception type and its message text are not modelled.
