# NOAA surf-bulletin parser, modelled in Dafny

This project models `lib/noaa/parser.ts`, the parser that turns NOAA's
Hawaiian surf bulletin into a surf report. The bulletin is an RSS channel.
It has a `lastBuildDate` and a list of items, and each item has a title and
an HTML description. Parsing an island's bulletin works in four steps:

- it picks the item titled `Forecast for <Island>`, with the island name
  capitalized, and the item titled `Discussion`;
- from the forecast's first `<table>` it reads one wave-height entry per data
  row with at least three cells: a direction, a height range, a min/max pair
  and a trend computed from the next period's range;
- from the forecast's `<div>` blocks it reads one record per day: a day label
  plus the Weather, Temperature, Winds, Sunrise and Sunset fields;
- from the discussion item it reads the paragraphs with their tags stripped
  and the empty ones dropped.

The model is split into files that follow the source's layers:

- `wrappers.dfy`: the `Option` and `Result` types.
- `text.dfy`: the JavaScript string primitives the parser uses. These are
  `trim` and its white-space set, `charAt(0)`, ASCII `toUpperCase` and
  `toLowerCase`, and `split` on one character.
- `numbers.dfy`: JavaScript numbers in the positions the parser uses them
  (`undefined`, `NaN` or a finite value), plus `parseFloat` on decimal literals.
- `patterns.dfy`: each regular expression of the parser as a deterministic
  scanner. Every pattern has the shape `opener [head] (.*?) closer`. It comes
  with:
  - a declarative definition of "is a match" (`IsMatchOf`);
  - proofs that the scanner finds exactly that match and that a global match
    skips none;
  - the tag stripper `replace(/<[^>]*>/g, "")`.
- `parser.dfy`: the parser itself, as described below.

The parser's pure parts are functions with lemmas: `capitalizeFirstLetter`,
the `find` lookups, `parseDiscussion` and `extractField`. Read-back lemmas
give their values on concrete shapes of input: a paragraph `<p>v</p>`, a
cell `<td>v</td>` and a field cell `name</th><td>v</td>` each read back as
`v` trimmed.

`parseWaveHeights` and `parseGeneralDayInfo` push into an array inside a
`forEach`, so they are methods with loops. Each one is proved equal to a
specification function (`CollectWaveHeights`, `CollectDayInfo`). The
properties that the source promises are then proved about those functions:
- one entry per data row with at least three cells;
- orders strictly increasing;
- the sort is a no-op;
- the wave height trimmed;
- every day-info field single-line, and every one but the day label trimmed.

`parseNoaaReport` is a method that returns a `Result`. The error it throws
for a missing island becomes `NotFound`. The `TypeError` it raises when no
`Discussion` item exists becomes `DiscussionMissing`.

Regular-expression semantics kept from the source:
- A lazy `.*?` ends at the first closer.
- Without the `s` flag (`<td>`, `<p>`, `<span><strong>`, the field pattern),
  the lazy group cannot cross a line terminator. With it (`<table>`, `<tr>`,
  `<div>`), the group can.
- `[^>]*>` stops at the first `>`.
- A global match resumes where the previous match ended.

Facts about the code that the model keeps:
- Paragraphs are not HTML-entity decoded: the code only strips tags and trims.
- There is no default region: the island argument is always used.
- A `<p>` paragraph that spans a line break is not extracted, because the
  pattern has no `s` flag.
- A missing `Discussion` item is an error, raised after the forecast lookup.

The regular expressions are the constants of `patterns.dfy`:
- `Table`: lib/noaa/parser.ts:63
- `Row`: line 67
- `Cell`: line 74
- `Tag`: line 78
- `Section`: line 117
- `DayLabel`: line 122
- `Paragraph`: line 144
- `Field(name)`: lines 153-155

`NoaaParser.HeaderRows` is the 3 of line 71, and `NoaaParser.TrendThreshold`
is the 0.5 of line 96. Several one-expression helpers are covered by the
rows of the members whose contracts state their meaning:
- `Numbers.Add`, `Sub`, `Half`, `Abs` and `Exceeds` (lines 90-98) model
  JavaScript arithmetic and comparison on `undefined` and `NaN`. Their rows
  are `NoaaParser.Midpoint` and `NoaaParser.TrendOf`.
- `NoaaParser.ForecastTitle` (line 27) has the row
  `NoaaParser.ForecastTitleIgnoresCase`.
- `NoaaParser.HasValue` (line 135) has the row `NoaaParser.DayInfoOf`.

Some members are proof helpers and model no source line of their own:
`Text.SliceOfSuffix`, `Text.SplitHead`, `Text.SubMultisetKeepsSingleLine`,
`Text.SliceOfSlice`, `Text.ConcatAssoc`, `Text.CaseMappingsSettle`,
`Text.ThreeParts`, `Numbers.AllDigitsConcat`, `Patterns.StartsWithChar`,
`Patterns.OrderedSpans`, `Patterns.OrderedSpansTail`, `Patterns.CutSpansCons`,
`Patterns.WrapIsMatch`, `Patterns.WrapSlices`, `Patterns.FieldCellLayout`,
`Patterns.StripFromEnd`, `Patterns.StripFromBetweenTags`, `Patterns.MatchShapeAt`,
`Patterns.LeadIsHead`, `Patterns.GroupOnOneLine`, `Patterns.GroupBeforeCloser`,
`Patterns.StartsWithWithin`, `Patterns.FirstThenRest`, `Patterns.WrapAllSplits`,
`Patterns.FieldHeadAt`, `Patterns.CellGroupLazy`, `Patterns.GroupWithoutLt`,
`Patterns.SpanLabelLayout`, `Patterns.SuffixWithin`, `Patterns.KeepCharTagless`,
`NoaaParser.TableEdgesHoldNoRow`, `NoaaParser.TagsLackRowOpener`,
`NoaaParser.TagHoldsNoRow`, `NoaaParser.StartsWithAtChar`,
`NoaaParser.FieldNamesByLetters`, `NoaaParser.LettersOfPieces`,
`NoaaParser.ExampleSectionPieces`, `NoaaParser.ExampleSectionLetters`,
`NoaaParser.ExampleSectionLabel`, `NoaaParser.ExampleSectionTexts`,
`NoaaParser.ExampleLabelLacksW`, `NoaaParser.ExampleLabelLacksS`,
`NoaaParser.ExampleLabelLacksT`, `NoaaParser.ExampleCellLetters`,
`NoaaParser.ExampleSectionFields`, `NoaaParser.EmptyLabelTexts`, `NoaaParser.WrapOf`,
`NoaaParser.WrapAllOfThree`, `NoaaParser.OneParagraphLayout`,
`NoaaParser.ExampleDiscussionLayout`, `NoaaParser.ExampleDiscussionPieces`,
`NoaaParser.ExampleDiscussionTexts`, `NoaaParser.ExampleRowLayout`,
`NoaaParser.ExampleRowPieces`, `NoaaParser.ExampleRowTexts` and
`NoaaParser.ExampleRowCells`. `Patterns.Lead`, `Patterns.Wrap`,
`Patterns.WrapAll` and `Patterns.Wrappable` describe the input shapes the
read-back lemmas start from.

## Model

| member | source | states |
|---|---|---|
| NoaaParser.CapitalizeFirstLetter | lib/noaa/parser.ts:159-161 | keeps the length; the first character is upper-cased, every later one lower-cased |
| NoaaParser.CapitalizeIdempotent | lib/noaa/parser.ts:159-161 | capitalizing twice is capitalizing once |
| NoaaParser.ForecastTitleIgnoresCase | lib/noaa/parser.ts:27 | the forecast title depends on the island name only up to case: names equal once lower-cased select the same item |
| NoaaParser.FindIndex | lib/noaa/parser.ts:25-28 | the index found holds the title, and no earlier item holds it |
| NoaaParser.FindItem | lib/noaa/parser.ts:25-28 | `find`: nothing iff no item has the title; otherwise the first item that has it |
| NoaaParser.NotFoundMessage | lib/noaa/parser.ts:31 | the not-found message names the island |
| NoaaParser.ParseNoaaReport | lib/noaa/parser.ts:14-59 | without the island's forecast it fails with NotFound naming the island; with the forecast but no Discussion item it fails; otherwise it succeeds with the report built from the first item of each title, and that report is well formed (clean paragraphs, strictly increasing orders, day records with a value) |
| NoaaParser.CleanText | lib/noaa/parser.ts:148 | strip tags then trim: the result is trimmed and tagless |
| NoaaParser.FilterNonEmpty | lib/noaa/parser.ts:149 | keeps only non-empty strings of the input, no more of them than there were |
| NoaaParser.FilterNonEmptyExact | lib/noaa/parser.ts:149 | the filter keeps order (subsequence), keeps no empty string, and keeps every non-empty string as often as it occurs |
| NoaaParser.CleanParagraphs | lib/noaa/parser.ts:144-148 | one cleaned string per `<p>` match, each trimmed and tagless |
| NoaaParser.ParseDiscussion | lib/noaa/parser.ts:143-150 | at most one paragraph per `<p>` match, each non-empty, trimmed and tagless |
| NoaaParser.DiscussionInSourceOrder | lib/noaa/parser.ts:143-150 | the discussion is the cleaned paragraphs in source order with only the empty ones dropped |
| NoaaParser.CleanTextOfWrapped | lib/noaa/parser.ts:148 | a `<p>` or `<td>` element whose text has no `<` cleans to that text, trimmed |
| NoaaParser.CleanParagraphsReadBack | lib/noaa/parser.ts:144-148 | paragraphs `<p>v</p>` one after the other, each `v` single-line and free of `<`, give one cleaned paragraph per `v`, equal to `v` trimmed |
| NoaaParser.ParseDiscussionOfParagraph | lib/noaa/parser.ts:143-150 | one paragraph `<p>v</p>` gives `v` trimmed, or nothing when that is empty |
| NoaaParser.DiscussionExample | lib/noaa/parser.ts:143-150 | `<p>Surf building.</p><p></p><p>  </p>` gives just `Surf building.`: the empty and the blank paragraph are dropped |
| NoaaParser.DiscussionSingleLine | lib/noaa/parser.ts:144 | the `<p>` pattern has no `s` flag, so every discussion paragraph is single-line |
| NoaaParser.DataRows | lib/noaa/parser.ts:71 | `slice(3)`: the rows after the three header rows, none when there are at most three |
| NoaaParser.TableRows | lib/noaa/parser.ts:63-68 | no rows without a table; every row opens with `<tr` and closes with `</tr>` |
| NoaaParser.TableRowsOfLeftmostTable | lib/noaa/parser.ts:63-68 | the rows are the global `<tr…</tr>` matches in the text of the leftmost table match (any table match with none starting before it); no rows when no table matches anywhere |
| NoaaParser.TableRowsReadBack | lib/noaa/parser.ts:63-68 | `<table>R0…Rk</table>`, each `Ri` a row `<tr…</tr>` whose group holds no `</tr>`, with no `</table>` starting inside the table body, gives exactly the rows `R0, …, Rk`, in order |
| NoaaParser.TableGivesConsecutiveOrders | lib/noaa/parser.ts:63-110 | such a table whose rows after the three header rows each have at least three cells gives one entry per data row, with orders 0, 1, …, N-1, and none when it has at most three rows |
| NoaaParser.CellsOf | lib/noaa/parser.ts:74 | every cell is a match that opens with `<td` and closes with `</td>` |
| NoaaParser.HeightRangeOfDigits | lib/noaa/parser.ts:85-88 | a height `lo-hi` of digit strings reads as the two integers |
| NoaaParser.HeightRange | lib/noaa/parser.ts:85-88 | without a `-` the min reads the whole text and the max is undefined; with one, the min reads the text before the first `-` and the max the text between the first and the second `-` |
| NoaaParser.Midpoint | lib/noaa/parser.ts:90-91 | a number only when both bounds are numbers (NaN and undefined propagate), and then equidistant from them and between them |
| NoaaParser.TrendOf | lib/noaa/parser.ts:90-100 | increasing iff the next midpoint is more than 0.5 above the current one, decreasing iff more than 0.5 below, otherwise steady (exactly 0.5 included); steady whenever a bound is NaN or undefined |
| NoaaParser.CompactRowTrend | lib/noaa/parser.ts:85-100 | heights 3-5 then 4-6 read as 3, 5, 4, 6 and give an increasing trend; a midpoint difference of exactly 0.5 is steady |
| NoaaParser.RowEntry | lib/noaa/parser.ts:74-109 | a row gives an entry iff it has at least three cells, and the entry's order is the row's index |
| NoaaParser.CellsReadBack | lib/noaa/parser.ts:74-82 | cells `<td>v</td>` one after the other, each `v` single-line and free of `<`, are one cell per `v`, and each cleans to `v` trimmed |
| NoaaParser.RowEntryExample | lib/noaa/parser.ts:73-109 | the row `<td>N</td><td>3-5</td><td>4-6</td>` gives direction `N`, height `3-5`, bounds 3 and 5, an increasing trend and its index as order |
| NoaaParser.RowEntryFields | lib/noaa/parser.ts:77-106 | the direction is at most one character and starts the cleaned first cell (empty iff that cell is); the height is the cleaned second cell; the min reads its first `-`-separated piece and the max its second piece, undefined iff there is no `-`; the trend compares the midpoint of the third cell's range against that of the height's range |
| NoaaParser.RowEntries | lib/noaa/parser.ts:73-75 | the entry, if any, of every data row, indexed by row |
| NoaaParser.CollectWaveHeights | lib/noaa/parser.ts:73-110 | at most one entry per data row |
| NoaaParser.WaveHeightsMatchRows | lib/noaa/parser.ts:73-110 | every entry is the one its row gives; orders strictly increase; a row is represented iff it has at least three cells |
| NoaaParser.PresentByOrder | lib/noaa/parser.ts:102-109 | pushing entries tagged with their index yields each entry at its order, with strictly increasing orders, and every present entry represented |
| NoaaParser.FullRowsGiveConsecutiveOrders | lib/noaa/parser.ts:73-110 | when every data row has three cells there are exactly as many entries as rows, with orders 0, 1, …, N-1 |
| NoaaParser.InsertByOrder | lib/noaa/parser.ts:112 | insertion adds exactly the one element |
| NoaaParser.SortByOrder | lib/noaa/parser.ts:112 | the sort is a permutation of its input |
| NoaaParser.InsertByOrderSorted | lib/noaa/parser.ts:112 | inserting into a sequence sorted by order keeps it sorted |
| NoaaParser.SortByOrderSorts | lib/noaa/parser.ts:112 | the sort's output is sorted by order |
| NoaaParser.SortOfIncreasingIsIdentity | lib/noaa/parser.ts:112 | sorting entries whose orders already increase leaves them unchanged |
| NoaaParser.ParseRow | lib/noaa/parser.ts:73-110 | the `forEach` callback, with its mutable trend, pushes exactly the row's entry |
| NoaaParser.ParseRows | lib/noaa/parser.ts:73-110 | the loop over the data rows collects exactly the rows' entries in row order |
| NoaaParser.ParseWaveHeights | lib/noaa/parser.ts:61-113 | the entries of the data rows of the first table; empty without a table; at most max(0, rows - 3) entries |
| NoaaParser.ExtractField | lib/noaa/parser.ts:152-157 | "" when the field pattern does not match; otherwise a trimmed, single-line value |
| NoaaParser.ExtractFieldIsLeftmostCapture | lib/noaa/parser.ts:152-157 | the value is the trimmed capture of the leftmost match of the field pattern: every match with no match starting before it gives the value, and there is such a match whenever the pattern matches; "" when no match exists anywhere |
| NoaaParser.ExtractFieldReadsCell | lib/noaa/parser.ts:152-157 | a field cell `name</th><td>v</td>`, with `v` single-line and free of `<`, reads back as `v` trimmed |
| NoaaParser.DayInfoOf | lib/noaa/parser.ts:121-137 | no record without a day label; with one, a record is emitted iff the day label's capture or one of the five extracted fields is non-empty, and the record holds exactly that capture and those five fields |
| NoaaParser.DayInfoIsLeftmostLabel | lib/noaa/parser.ts:122-137 | the day is the capture of the leftmost day-label match (any match with none starting before it); the record of that day and the five fields is emitted iff one of its values is non-empty; no record when no day label matches anywhere |
| NoaaParser.DayInfoExample | lib/noaa/parser.ts:121-137 | the section `<span><strong>Monday</strong></span>Weather</th><td>Sunny</td>` gives the record with day `Monday`, weather `Sunny` and the other four fields "" |
| NoaaParser.DayInfoOfEmptyLabel | lib/noaa/parser.ts:122-137 | the section `<span><strong></strong>` gives no record: its day label and all five fields are "" |
| NoaaParser.AbsentField | lib/noaa/parser.ts:152-156 | a field whose name occurs nowhere in the section reads as "" |
| NoaaParser.DayInfoFieldsClean | lib/noaa/parser.ts:122-133 | a record's day label is single-line and its other fields are trimmed and single-line |
| NoaaParser.SectionRecords | lib/noaa/parser.ts:121-138 | the record, if any, of every section, indexed by section |
| NoaaParser.CollectDayInfo | lib/noaa/parser.ts:115-141 | at most one record per `<div>` section |
| NoaaParser.DayInfoMatchesSections | lib/noaa/parser.ts:115-141 | each record is the one its section gives, in section order; every section that gives a record is represented; every record has a value and clean fields |
| NoaaParser.ParseSection | lib/noaa/parser.ts:121-138 | the `forEach` callback pushes exactly the section's record |
| NoaaParser.ParseGeneralDayInfo | lib/noaa/parser.ts:115-141 | the loop collects exactly the sections' records in section order |
| NoaaParser.Present | lib/noaa/parser.ts:136 | pushing only some elements collects no more than there are |
| NoaaParser.PresentOfPrefix | lib/noaa/parser.ts:136 | one more step of the loop appends the step's value, if any |
| NoaaParser.SomeIndices | lib/noaa/parser.ts:135-136 | the indices of the pushed elements are in range and increase |
| NoaaParser.PresentAtSomeIndices | lib/noaa/parser.ts:135-136 | the j-th collected value is the j-th pushed element, and every pushed element is collected |
| NoaaParser.AllPresent | lib/noaa/parser.ts:102-109 | when every step pushes, the collected indices are 0, 1, …, N-1 |
| NoaaParser.PresentOfOrderedEntries | lib/noaa/parser.ts:102-109 | when every row pushes an entry whose order is its index, all entries are collected, with orders 0, 1, …, N-1 |
| Patterns.FindChar | lib/noaa/parser.ts:78 | the first occurrence of a character at or after a position, or none |
| Patterns.Find | lib/noaa/parser.ts:63 | the first occurrence of a literal at or after a position, or none |
| Patterns.FindInLine | lib/noaa/parser.ts:74 | without the `s` flag, a lazy group ends at the first closer, and only if no line terminator comes before it |
| Patterns.GroupStartAt | lib/noaa/parser.ts:154 | where the lazy group of a match starts, after the opener |
| Patterns.LazyTail | lib/noaa/parser.ts:144 | the group and closer of a match, within the text |
| Patterns.MatchAt | lib/noaa/parser.ts:74 | the match at a position lies within the text, group inside the match |
| Patterns.LazyTailSound | lib/noaa/parser.ts:144 | what the scanner returns is a lazy group up to the first closer |
| Patterns.LazyTailComplete | lib/noaa/parser.ts:144 | every lazy group up to the first closer is the one the scanner returns |
| Patterns.GroupStartSound | lib/noaa/parser.ts:154 | the head the scanner finds is a head of the pattern (`[^>]*>`, `[^>]*><strong>`, `[^>]*</th><td[^>]*>`) |
| Patterns.GroupStartComplete | lib/noaa/parser.ts:154 | every head of the pattern is the one the scanner finds |
| Patterns.FieldHeadMatches | lib/noaa/parser.ts:154 | the two-tag head of a field pattern is a head |
| Patterns.FieldHeadComplete | lib/noaa/parser.ts:154 | the two-tag head of a field pattern is the one the scanner finds |
| Patterns.FindCharFirstGt | lib/noaa/parser.ts:74 | `[^>]*>` stops at the first `>` |
| Patterns.MatchAtSound | lib/noaa/parser.ts:63 | what the scanner returns at a position is a match there |
| Patterns.MatchAtComplete | lib/noaa/parser.ts:63 | a match at a position is unique and is the one the scanner returns |
| Patterns.NoMatchInAt | lib/noaa/parser.ts:67 | a range with no match has no match at any of its positions |
| Patterns.FirstMatch | lib/noaa/parser.ts:63 | `match` without `g`: a match at or after the start, within the text |
| Patterns.FirstMatchIsLeftmost | lib/noaa/parser.ts:63 | the match returned is the leftmost one; with none returned, no match exists |
| Patterns.FirstMatchSound | lib/noaa/parser.ts:122 | the match returned is a match of the pattern |
| Patterns.LeftmostIsFirstMatch | lib/noaa/parser.ts:153-155 | a match with no match starting before it is what the non-global `match` returns |
| Patterns.NoMatchIsNoFirstMatch | lib/noaa/parser.ts:153-155 | with no match anywhere, the non-global `match` returns nothing |
| Patterns.NoOpenerNoMatch | lib/noaa/parser.ts:67 | no match starts where the pattern's opener does not |
| Patterns.NoMatchInSkips | lib/noaa/parser.ts:67 | across a stretch where no match starts, matching from its start or from its end finds the same, for the global and the non-global `match` |
| Patterns.AllMatches | lib/noaa/parser.ts:67 | the global matches are in the text, in order and non-overlapping |
| Patterns.AllMatchesNoneBefore | lib/noaa/parser.ts:67 | no match is skipped before the first |
| Patterns.AllMatchesNoneBetween | lib/noaa/parser.ts:67 | no match is skipped between two consecutive ones |
| Patterns.AllMatchesNoneAfter | lib/noaa/parser.ts:67 | no match is skipped after the last |
| Patterns.AllMatchesFound | lib/noaa/parser.ts:67 | every global match is the match found at its start |
| Patterns.MatchAll | lib/noaa/parser.ts:74 | `match` with `g`: the text of every global match, in order |
| Patterns.MatchTextShape | lib/noaa/parser.ts:67 | a match's text starts with the opener and ends with the closer |
| Patterns.MatchAllShape | lib/noaa/parser.ts:67 | every text a global match returns opens with the pattern's opener and closes with its closer |
| Patterns.MatchTextSingleLine | lib/noaa/parser.ts:144 | without the `s` flag and a head, a match's text contains no line terminator |
| Patterns.MatchAllSingleLine | lib/noaa/parser.ts:144 | every global match of such a pattern is single-line |
| Patterns.WrapMatchAt | lib/noaa/parser.ts:144 | the opener, a group in which no closer starts before the closing one and (without `s`) no line terminator occurs, and the closer form the leftmost match from where they start, with that group as capture |
| Patterns.WrappableWithoutCloserChar | lib/noaa/parser.ts:144 | a group without the closer's first character (and single-line, for a pattern without `s`) is read whole by the lazy `(.*?)` |
| Patterns.AllMatchesOfWrapped | lib/noaa/parser.ts:144 | over such wrapped groups one after the other, the global match finds one match per group, whose text is that group wrapped |
| Patterns.MatchAllOfWrapped | lib/noaa/parser.ts:74 | `match` with `g` over wrapped groups gives each wrapped group, in order |
| Patterns.FieldMatchOfCell | lib/noaa/parser.ts:154 | `name</th><td>v</td>` after any prefix, with `v` single-line and free of `<`, is a match of the field pattern from where `name` starts, whose capture is `v` |
| Patterns.FieldMatchAt | lib/noaa/parser.ts:154 | wherever `name`, `</th><td>`, a single-line `v` without `<` and `</td>` lie one after the other, the field pattern matches from `name` with capture `v` |
| Patterns.DayLabelOfSpan | lib/noaa/parser.ts:122 | `<span><strong>d</strong>` at the start of a text, with `d` single-line and free of `<`, is the leftmost day-label match, whose capture is `d` |
| Patterns.NoTagMeansNoGt | lib/noaa/parser.ts:78 | a `<` where no tag match starts has no `>` anywhere after it |
| Patterns.StripFrom | lib/noaa/parser.ts:78 | the global replacement scan from a position: the result is tagless and made of the characters from that position on |
| Patterns.StripTags | lib/noaa/parser.ts:78 | `replace(/<[^>]*>/g, "")`: the result is tagless and made of the input's characters |
| Patterns.CutSpans | lib/noaa/parser.ts:78 | the text with a sequence of ordered, non-overlapping spans cut out |
| Patterns.CutSpansSkip | lib/noaa/parser.ts:78 | cutting a span that starts at the current position skips to its end |
| Patterns.StripStepTag | lib/noaa/parser.ts:78 | at a tag match, both the replacement and the global match list move past the tag |
| Patterns.StripStepChar | lib/noaa/parser.ts:78 | at a position with no tag match, the replacement keeps the character and the match list is unchanged |
| Patterns.StripFromCutsMatches | lib/noaa/parser.ts:78 | the replacement from a position is that text with exactly the global tag matches from there cut out |
| Patterns.StripTagsCutsMatches | lib/noaa/parser.ts:78 | `replace(/<[^>]*>/g, "")` cuts out exactly the global matches of the tag pattern and keeps every other character, in order |
| Patterns.TaglessSlice | lib/noaa/parser.ts:148 | a slice of tagless text is tagless |
| Patterns.TrimKeepsTagless | lib/noaa/parser.ts:148 | trimming keeps text tagless |
| Patterns.StripFromOfTagless | lib/noaa/parser.ts:148 | on tagless text the scan keeps everything from its position on |
| Patterns.StripTagsOfTagless | lib/noaa/parser.ts:148 | tagless text is left unchanged |
| Patterns.StripTagsIdempotent | lib/noaa/parser.ts:148 | stripping tags twice is stripping them once |
| Patterns.NoTagWithoutLt | lib/noaa/parser.ts:78 | no tag match starts at a character other than `<` |
| Patterns.TagAt | lib/noaa/parser.ts:78 | a `<` whose first later `>` is at `j` starts the tag match that ends just after `j` |
| Patterns.StripFromKeeps | lib/noaa/parser.ts:148 | the replacement keeps a stretch without `<` character for character |
| Patterns.StripTagsOfEnclosed | lib/noaa/parser.ts:148 | text without `<` between two tags is exactly what stripping leaves |
| Text.TrimStart | lib/noaa/parser.ts:79 | drops exactly the leading white space |
| Text.TrimEnd | lib/noaa/parser.ts:79 | drops exactly the trailing white space |
| Text.Trim | lib/noaa/parser.ts:79 | `trim`: the result neither starts nor ends with white space |
| Text.TrimRemovesOnlyWhiteSpace | lib/noaa/parser.ts:81 | `trim` yields the slice between a white-space prefix and a white-space suffix |
| Text.TrimOfTrimmed | lib/noaa/parser.ts:81 | `trim` leaves text that neither starts nor ends with white space unchanged |
| Text.TrimOfBlank | lib/noaa/parser.ts:81 | `trim` turns text made only of white space into "" |
| Text.SliceKeepsSingleLine | lib/noaa/parser.ts:156 | a slice of single-line text is single-line |
| Text.TrimKeepsSingleLine | lib/noaa/parser.ts:156 | trimming keeps text single-line |
| Text.FirstChar | lib/noaa/parser.ts:80 | `charAt(0)`: the first character, or "" for "" |
| Text.Lowercase | lib/noaa/parser.ts:160 | lower-cases each character, keeping the length |
| Text.Uppercase | lib/noaa/parser.ts:160 | upper-cases each character, keeping the length |
| Text.IndexOf | lib/noaa/parser.ts:86 | the first position of the separator |
| Text.Split | lib/noaa/parser.ts:86 | `split("-")`: at least one piece, none holding the separator, joining back to the input |
| Numbers.DigitRun | lib/noaa/parser.ts:87 | the length of the leading run of digits |
| Numbers.ParseFloat | lib/noaa/parser.ts:87 | `parseFloat` never yields undefined |
| Numbers.ParseFloatOfDigits | lib/noaa/parser.ts:87 | a digit string reads as the integer it spells |
| Numbers.ParseFloatOfNonNumber | lib/noaa/parser.ts:87 | text starting with no white space, sign, point or digit reads as NaN |

## Left out

- XML decoding with `fast-xml-parser` (lib/noaa/parser.ts:15-22) is a foreign library. The input is the decoded channel: `lastBuildDate` and the items' titles and descriptions as strings. Two library behaviours are not modelled: a lone `item` decoded as an object rather than an array, and numeric titles decoded as numbers.
- A channel with no `item` at all: the decoder then leaves `channel.item` undefined, and `channel.item.find` (lib/noaa/parser.ts:25) throws a `TypeError`. The model's items are a sequence, so an empty one gives the not-found error instead.
- `lastBuildDateObject: new Date(...)` (lib/noaa/parser.ts:51) is library date parsing, so the report has no date object.
- `surfReportSchema.parse` (lib/noaa/parser.ts:58) is zod validation and is taken as the identity. The report's shape is fixed by its datatype, and what the code guarantees is stated as `WellFormedReport`.
- Numbers.ParseFloat: finite values are exact reals. Rounding to a double, `Infinity` and literals that overflow to it are not modelled: `Infinity` reads as NaN here.
- Numbers.ParseFloatOfNonNumber: text starting with `Infinity` (or a sign and `Infinity`) reads as NaN in the model, while `parseFloat` reads it as an infinite number.
- Text.Lowercase: maps ASCII letters only; the Unicode mapping of `toLowerCase` is not modelled.
- Text.Uppercase: maps ASCII letters only; the Unicode mapping of `toUpperCase`, which can change the length ("ß" becomes "SS"), is not modelled.
- Strings are sequences of Unicode scalar values, not UTF-16 code units, so lone surrogates cannot be represented.
- NoaaParser.SortByOrder models `Array.prototype.sort` with the comparator `a.order - b.order` as a stable insertion sort. The engine's algorithm is not modelled; every stable sort gives the same result.
- Only the compact three-cell table format of this revision is modelled. The expanded multi-day format of other revisions is not part of this model.
- Callers of the parser (the surf-report services, API routes, UI components) are not part of this model.
