# CPI dashboard: a verified model of its data pipeline

The dashboard reads an embedded CSV text of monthly consumer price indices. It parses the text
into records, filters them by sector and, optionally, by a selected year, and shows three
aggregates:

- KPI cards: the average general index, the inflation between the earliest and the latest
  month, and the category with the highest average;
- one bar per year, holding that year's average general index;
- a ranking of eight commodities by their average.

A trend chart plots the filtered records. Its x-axis ticks are every date when there are at most
twelve records, and otherwise the first date of each year.

This project models that pipeline in Dafny and proves what it promises. The modules are:

| module | file | models |
|---|---|---|
| `Wrappers` | wrappers.dfy | `Option` |
| `Seqs` | seqs.dfy | `Array.prototype.filter`, `join`, `String.prototype.split` |
| `Text` | text.dfy | `String.prototype.trim`, the `/^"\|"$/g` quote stripping, quote counting |
| `Types` | types.dfy | the record shape and the `SectorType` values (types.ts) |
| `Parser` | parser.dfy | `parseCSV` (utils/parser.ts) |
| `Sorting` | sorting.dfy | the two `Array.prototype.sort` calls of utils/analytics.ts |
| `Analytics` | analytics.dfy | `filterData`, `getKPIMetrics`, `getYearlyAverages`, `getCommodityAverages` |
| `Trend` | trend.dfy | `customTicks` and the multi-year `tickFormatter` (TrendChart.tsx) |
| `App` | app.dfy | the page state, its actions and the derived views (App.tsx) |

Modelling choices:

- A record is a map from header name to `Text(string)` or `Num(real)`. A numeric column the record
  lacks reads as 0, as `d[key] || 0` does.
- `parseFloat` is the parameter `parseNum: string -> Option<real>`. `None` stands for `NaN`, which
  the parser stores as 0.
- Numbers are exact reals. `toFixed(1)` is kept symbolic in the card values (`Shown`). Where the
  source reads the rounded text back with `parseFloat`, `Round1` rounds to the nearest tenth,
  with halves rounded away from zero.
- A zero starting index in the inflation card is modelled as the source computes it. The card
  shows `Infinity%`, `-Infinity%` or `NaN%` according to the sign of the final index.
- With no records, every commodity average is `NaN`, modelled as `None`. The comparator
  `b.value - a.value` is then `NaN`, which the standard sort treats as a tie, so the list order is
  kept (`Sorting.RankSortAllNaN`).
- The two sorts are stable insertion sorts on fresh sequences, standing for the standard stable sort.
- `parseCSV` and the category scan of `getKPIMetrics` are methods with loops proved equal to the
  functions that specify them. The same holds for `customTicks` with its set of seen years.
- The page is the class `App.Dashboard`, whose fields are the four pieces of React state.

## Model

| member | source | states |
|---|---|---|
| Text.Trim | utils/parser.ts:4 | no contract of its own; `Text.TrimShape`, `Text.TrimIdempotent` and `Text.TrimAllSpace` characterise it |
| Text.TrimShape | utils/parser.ts:4 | trimming cuts only leading and trailing white space, and the result neither starts nor ends with white space |
| Text.TrimIdempotent | utils/parser.ts:10 | trimming twice is trimming once |
| Text.TrimAllSpace | utils/parser.ts:4 | text made only of white space trims to the empty string |
| Text.StripQuotes | utils/parser.ts:10 | the result is at most two characters shorter than the token |
| Text.StripQuotesShape | utils/parser.ts:10 | only the ends are cut: one leading `"` exactly when the token starts with one, one trailing `"` exactly when what is left ends with one, nothing else |
| Text.StripQuotesLeading | utils/parser.ts:30 | a token that starts but does not end with a quote loses only that quote; a lone `"` becomes empty |
| Text.StripQuotesTrailing | utils/parser.ts:30 | a token that ends but does not start with a quote loses only that quote |
| Text.StripQuotesWrapped | utils/parser.ts:30 | a token wrapped in one pair of quotes loses exactly that pair |
| Text.StripQuotesPlain | utils/parser.ts:30 | a token with no quote at either end is unchanged |
| Parser.IsSplitComma | utils/parser.ts:7 | no contract of its own: the look-ahead of the regex, a comma followed by an even number of quotes; `Parser.SplitLineShape`, `Parser.NoSplitInField` and `Parser.SplitLineJoin` state what splitting on it does |
| Parser.SplitLine | utils/parser.ts:7 | a line always splits into at least one token |
| Parser.SplitLineShape | utils/parser.ts:7 | joining the tokens with `,` gives back the line; no token contains a split comma; every boundary is a comma followed by an even number of quotes |
| Parser.NoSplitInField | utils/parser.ts:7 | no comma inside a well-quoted field is a split point when the rest of the line has an even number of quotes |
| Parser.SplitFieldFirst | utils/parser.ts:7 | a field with no split comma inside, then a comma followed by an even number of quotes, splits off as the first token |
| Parser.SplitLineJoin | utils/parser.ts:18 | a line joined from well-quoted fields splits back into exactly those fields, commas inside quotes included |
| Parser.QuotedHeaderTokens | utils/parser.ts:18 | the line `A,"B, C",D` splits into the three tokens `A`, `"B, C"` and `D` |
| Parser.Clean | utils/parser.ts:28-30 | no contract of its own: trim, then strip one quote from each end; `Parser.CleanUnpadded`, `Parser.CleanWrapped`, `Parser.CleanSingle`, `Text.TrimShape` and `Text.StripQuotesShape` characterise it |
| Parser.Headers | utils/parser.ts:10 | one header name per token: the token trimmed and stripped of its quotes |
| Parser.HeadersOfJoin | utils/parser.ts:10 | a well-quoted header line yields its fields, cleaned |
| Parser.QuotedHeaderExample | utils/parser.ts:10 | the header `A,"B, C",D` yields the names `A`, `B, C` and `D` |
| Parser.CleanUnpadded | utils/parser.ts:28-30 | cleaning a token without surrounding white space only strips its quotes |
| Parser.CleanWrapped | utils/parser.ts:28-30 | a token in one pair of quotes, with nothing outside them, cleans to what is inside |
| Parser.CleanSingle | utils/parser.ts:28-30 | a one-character token other than a quote or white space is its own cleaned name |
| Parser.Cell | utils/parser.ts:28-38 | no contract of its own; `Parser.CellTyping` states the value of each kind of column |
| Parser.CellTyping | utils/parser.ts:32-38 | `Sector`, `Month` and `Date` hold the cleaned text; any other column holds the parsed number, or exactly 0 when the token does not parse |
| Parser.EntryOf | utils/parser.ts:25-39 | no contract of its own; `Parser.EntryKeys`, `Parser.EntryField` and `Parser.EntryOfStep` characterise the record |
| Parser.EntryKeys | utils/parser.ts:27-39 | a record's keys are exactly the header names |
| Parser.EntryField | utils/parser.ts:27-39 | the field of column `i` holds the cell of token `i` unless a later column has the same name |
| Parser.EntryOfStep | utils/parser.ts:27-39 | each further column adds or overwrites exactly its own key in the record |
| Parser.BuildEntry | utils/parser.ts:25-39 | the loop over the headers builds the record `EntryOf` specifies |
| Parser.Lines | utils/parser.ts:4 | there is always a first line, the header |
| Parser.Rows | utils/parser.ts:14-41 | no contract of its own; `Parser.RowsFromRetainedLines` and `Parser.RetainedIndicesExact` state which lines give records and in what order |
| Parser.ParsedRecords | utils/parser.ts:3-44 | no record comes from the header line, so there are at most as many records as lines minus one |
| Parser.ParseCSV | utils/parser.ts:3-44 | the line loop returns exactly `ParsedRecords` of the text |
| Parser.RetainedIndices | utils/parser.ts:14-23 | every position used is a data line after the header that is non-empty and has the header's token count |
| Parser.RetainedIndicesExact | utils/parser.ts:14-23 | the positions used ascend, so file order is kept and no line is used twice, and every retained data line is used |
| Parser.RowsFromRetainedLines | utils/parser.ts:14-41 | one record per retained line: record `k` is built from the `k`-th retained data line |
| Parser.ParseBlank | utils/parser.ts:4 | empty or blank text gives no records |
| Sorting.ChronoSort | utils/analytics.ts:16-19 | the copy is sorted by (year, month number) and is a permutation of the records |
| Sorting.ChronoInsertSorted | utils/analytics.ts:16-19 | inserting into a chronologically sorted sequence keeps it sorted |
| Sorting.ChronoSortedUnique | utils/analytics.ts:16-19 | two sorted permutations of records with distinct months are equal |
| Sorting.ChronoSortPermutation | utils/analytics.ts:16-19 | when no two records share a month, the sorted copy does not depend on the input order |
| Sorting.ChronoEnds | utils/analytics.ts:20-21 | the first element of the sorted copy is the earliest record and the last is the latest |
| Sorting.RankSort | utils/analytics.ts:84 | the ranking is in non-increasing value order and is a permutation of its input |
| Sorting.RankInsertRanked | utils/analytics.ts:84 | inserting into a ranked sequence keeps it ranked |
| Sorting.RankSortStable | utils/analytics.ts:84 | entries of equal value keep their relative order |
| Sorting.RankSortAllNaN | utils/analytics.ts:84 | when every value is NaN the order is unchanged |
| Sorting.RankInsertLast | utils/analytics.ts:84 | an entry of NaN value is placed last |
| Analytics.FilterData | utils/analytics.ts:3-5 | never more records than the input, and every record kept is an input record of the sector; `Analytics.FilterDataKeeps` gives the exact multiplicities |
| Analytics.FilterDataKeeps | utils/analytics.ts:3-5 | exactly the sector's records are kept, each with all of its occurrences |
| Analytics.FilterDataOrder | utils/analytics.ts:3-5 | the filter distributes over concatenation, so input order is kept |
| Analytics.FilterDataIdempotent | utils/analytics.ts:3-5 | filtering twice by the same sector is filtering once |
| Analytics.YearData | utils/analytics.ts:54 | never more records than the input, and every record kept is an input record of that year |
| Analytics.SectorYearCommute | utils/analytics.ts:4 | filtering by sector and by year commute |
| Analytics.YearDataNonEmpty | utils/analytics.ts:54 | a year that occurs in the data has at least one record |
| Analytics.SumOf | utils/analytics.ts:11 | no contract of its own; `Analytics.SumConcat`, `Analytics.SumPermutation` and `Analytics.SumBounds` characterise it |
| Analytics.SumConcat | utils/analytics.ts:11 | the sum over two concatenated sequences is the sum of the two sums |
| Analytics.SumPermutation | utils/analytics.ts:11 | the sum does not depend on record order |
| Analytics.SumBounds | utils/analytics.ts:35 | a sum of n values between lo and hi lies between n copies of lo and n copies of hi |
| Analytics.ScaledIsProduct | utils/analytics.ts:36 | n copies of x add up to n·x |
| Analytics.QuotientBounds | utils/analytics.ts:36 | a total between n·lo and n·hi, divided by n, lies between lo and hi |
| Analytics.Mean | utils/analytics.ts:12 | no contract of its own; `Analytics.MeanBounds` and `Analytics.MeanPermutation` characterise it |
| Analytics.MeanBounds | utils/analytics.ts:12 | the mean lies between the least and the greatest value |
| Analytics.MeanPermutation | utils/analytics.ts:36 | the mean does not depend on record order |
| Analytics.Round1 | utils/analytics.ts:58 | the rounded value is within 0.05 of the exact one |
| Analytics.HalfUp | utils/analytics.ts:58 | the integer is within one half of its argument |
| Analytics.Round1OnGrid | utils/analytics.ts:58 | the rounded value is a whole number of tenths |
| Analytics.Round1Negate | utils/analytics.ts:79 | rounding is symmetric about zero |
| Analytics.Round1Tenths | utils/analytics.ts:79 | a value already given in tenths is unchanged |
| Analytics.PercentChange | utils/analytics.ts:22 | a finite percentage exactly when the start is nonzero, with start·(1 + x/100) = end; otherwise the infinity or NaN text that matches the sign of the end value |
| Analytics.Highest | utils/analytics.ts:31-41 | the running maximum is at least 0, names "" or a scanned category, and bounds every category mean |
| Analytics.HighestIsFirstMax | utils/analytics.ts:34-41 | the name is the first category of largest positive mean; with no positive mean it is "" and the value 0 |
| Analytics.HighestPermutation | utils/analytics.ts:34-41 | the category scan does not depend on record order |
| Analytics.KPIOf | utils/analytics.ts:7-12 | with no records the cards are `0`, `0%`, `-` and `0`, and the "-" name appears only then; otherwise the average card shows the mean general index |
| Analytics.GetKPIMetrics | utils/analytics.ts:7-48 | the method, with its loop over the categories, returns `KPIOf(data)` |
| Analytics.KPIAverageBounds | utils/analytics.ts:11-12 | the average card shows a value between the least and the greatest general index |
| Analytics.KPIInflationEnds | utils/analytics.ts:16-22 | inflation is the percentage change from an earliest record to a latest one |
| Analytics.KPIHighest | utils/analytics.ts:25-47 | the category card shows a category with maximal mean and that mean, or "" and 0 when no mean is positive |
| Analytics.KPIOrderFree | utils/analytics.ts:7-48 | the cards do not depend on record order when months are distinct |
| Analytics.Years | utils/analytics.ts:52 | one year per record, position by position |
| Analytics.InsertYear | utils/analytics.ts:52 | inserting into an increasing sequence keeps it increasing and adds only that year |
| Analytics.DistinctSorted | utils/analytics.ts:52 | the distinct years in strictly ascending order, each year of the input exactly once |
| Analytics.IncreasingUnique | utils/analytics.ts:52 | two strictly increasing sequences with the same elements are equal |
| Analytics.YearPointOf | utils/analytics.ts:53-59 | a bar holds its year and the rounded mean general index of that year's records |
| Analytics.YearlyAverages | utils/analytics.ts:51-60 | there are at most as many bars as records |
| Analytics.YearlyShape | utils/analytics.ts:52-53 | bar `i` is the bar of the `i`-th distinct year |
| Analytics.YearlyAscending | utils/analytics.ts:52 | the bars are in strictly ascending year order |
| Analytics.YearlyCoversYears | utils/analytics.ts:51-60 | there is a bar for every year of the data and for no other year |
| Analytics.YearlyValues | utils/analytics.ts:54-58 | each bar's value is the rounded mean general index of its year |
| Analytics.YearlyOrderFree | utils/analytics.ts:51-60 | the bars do not depend on record order |
| Analytics.ShortName | utils/analytics.ts:78 | every name other than "Pulses and products" is kept as it is, and no display name is longer than its commodity's name |
| Analytics.CommodityNames | utils/analytics.ts:64-78 | the eight labels are the list's names in list order with only "Pulses and products" shortened to "Pulses", and no two labels are equal |
| Analytics.AverageShown | utils/analytics.ts:76-79 | the value is NaN exactly when there are no records, and otherwise the column's mean rounded to a tenth |
| Analytics.Unranked | utils/analytics.ts:75-81 | eight entries in list order; entry `i` carries the label of commodity `i` and that commodity's shown average |
| Analytics.CommodityAverages | utils/analytics.ts:63-84 | eight entries in non-increasing value order, a permutation of the unranked results |
| Analytics.CommodityEntries | utils/analytics.ts:75-84 | every ranked entry is the entry of one commodity, with its label and its average |
| Analytics.CommodityOrderFree | utils/analytics.ts:63-84 | the ranking does not depend on record order |
| Analytics.CommodityTies | utils/analytics.ts:84 | entries of equal value keep their list order |
| Analytics.CommodityNoData | utils/analytics.ts:79-84 | with no records every value is NaN and the list order is kept |
| Trend.FirstIndices | components/charts/TrendChart.tsx:21-26 | the positions kept all lie before the bound |
| Trend.DatesAt | components/charts/TrendChart.tsx:26 | one date per kept position: tick `t` is the date of the record at position `t` |
| Trend.CustomTicks | components/charts/TrendChart.tsx:15-28 | no contract of its own; `Trend.SingleYearTicks`, `Trend.OneTickPerYear`, `Trend.TicksAreDates` and `Trend.ComputeTicks` characterise it |
| Trend.SingleYearTicks | components/charts/TrendChart.tsx:12-18 | with at most twelve records the ticks are all the dates, in input order |
| Trend.TicksAreDates | components/charts/TrendChart.tsx:15-28 | every tick is the date of some record |
| Trend.TrendViewOf | components/charts/TrendChart.tsx:10-12 | "No Data Available" exactly when there are no records; the single-year view exactly when there are at most twelve |
| Trend.ComputeTicks | components/charts/TrendChart.tsx:15-28 | the loop with its set of seen years returns `CustomTicks` |
| Trend.FirstIndicesAreFirsts | components/charts/TrendChart.tsx:22-25 | the kept positions ascend and each holds the first record of its year |
| Trend.EarliestOfYear | components/charts/TrendChart.tsx:22-25 | every record has a first record of its year at or before it |
| Trend.FirstIndicesComplete | components/charts/TrendChart.tsx:22-25 | every position that opens a year is kept |
| Trend.FirstIndicesCover | components/charts/TrendChart.tsx:22-25 | every year of the records has a kept position |
| Trend.OneTickPerYear | components/charts/TrendChart.tsx:20-26 | with more than twelve records there is exactly one tick per year: the date of its first record, in input order |
| Trend.YearLabel | components/charts/TrendChart.tsx:49-54 | a label exists exactly when the date has at least three `-`-separated parts |
| Trend.YearLabelOfDate | components/charts/TrendChart.tsx:49-54 | a date written day-month-year is labelled with its year |
| App.ToggleYear | App.tsx:50-52 | clicking the selected year clears the selection; clicking any other year selects it |
| App.ToggleTwice | App.tsx:50-52 | two clicks on a year restore the selection when it was empty or that year |
| App.ToggleTwiceFromOther | App.tsx:50-52 | from another selected year, two clicks on a year clear the selection |
| App.FilteredData | App.tsx:26-32 | no contract of its own; `App.FilteredExactly` and `App.FilteredWithinSector` characterise it |
| App.Derive | App.tsx:26-48 | always eight commodity entries; the trend shows no data exactly when the filtered view is empty |
| App.FilteredOrder | App.tsx:26-32 | the filtered view keeps input order: filtering a concatenation is concatenating the filtered parts |
| App.FilteredExactly | App.tsx:26-32 | the filtered view holds exactly the sector's records, and the selected year's when one is active, with all their occurrences |
| App.FilteredWithinSector | App.tsx:26-36 | the filtered view lies within the sector view, which lies within the records |
| App.KPIsDescribeFiltered | App.tsx:38-40 | the KPI cards are computed from the filtered view |
| App.YearlyIgnoresSelection | App.tsx:42-44 | the yearly bars do not depend on the selected year |
| App.SelectionNarrows | App.tsx:26-48 | selecting a year keeps the yearly bars and narrows the other views to that year's records of the sector |
| App.ResetShowsSector | App.tsx:78 | after a reset the filtered view is the whole sector |
| App.Dashboard.constructor | App.tsx:13-16 | the page starts with no records, both sectors combined, no year selected and loading |
| App.Dashboard.Load | App.tsx:18-24 | only while loading: the records are those parsed from the text, loading stops, and sector and selection are kept |
| App.Dashboard.HandleYearClick | App.tsx:50-52 | the selection is toggled and nothing else changes |
| App.Dashboard.ResetYear | App.tsx:78 | the selection is cleared and nothing else changes |
| App.Dashboard.SetSector | App.tsx:90 | only the sector changes |

## Left out

- Floating point: numbers are exact reals, so accumulated rounding errors of the sums are not modelled.
- `parseFloat` is a parameter (`parseNum`), so its prefix rules and the text it accepts are not modelled.
- `toFixed(1)`: the card texts keep the exact value (`Shown`). Where the rounded text is read back, the half-away-from-zero rule is applied to the exact decimal value, not to its binary approximation.
- Analytics.SumOf: a record without `General index` gives `NaN` in `getKPIMetrics` and `getYearlyAverages`; the model reads it as 0. Parsed records always have the header's columns, so this only matters for a header that lacks the column.
- Analytics.DistinctSorted: `.sort()` without a comparator orders the years as strings; the model orders them numerically. This is the same order for years of four digits.
- Sorting.Outranks: a `NaN` difference is a tie. With the real-valued `parseNum` every cell is finite, so either every commodity average is a number or none is. The source keeps a `parseFloat` result of `Infinity` or `-Infinity`. A column holding both would make that commodity's sum `NaN` while the others stay numbers. The comparator is then inconsistent, and the model does not cover the order the sort produces in that case.
- Types.DateOf: a record without `Date` has the empty string as its date, where the source has `undefined`.
- App.YearActive: a selected year of 0 is falsy and counts as no selection, as in the source.
- App.Dashboard.Load: the `setTimeout` delay, the React effect and `useMemo` caching are not modelled. Loading is one step, and the views are recomputed from the state by `Dashboard.Current`.
- The CSV generator of constants.ts uses `Math.random`, so constants.ts is not part of this model.
- Rendering is not part of this model: the JSX of App.tsx and TrendChart.tsx, the loading spinner and the chart components.
- The single-year tick labels use `Date` and `toLocaleString`, a locale-dependent foreign call, so they are not modelled.
- Stability is stated for the commodity ranking (`Sorting.RankSortStable`). The chronological sort is stable too, but only its order-independence under distinct months is proved.
