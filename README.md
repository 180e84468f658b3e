# GTCI dashboard: indicator reconciliation and listing, in Dafny

The dashboard compares two editions (2023 and 2025) of an indicator catalog. Each catalog
row has a code, a name, a pillar, a sub-pillar, two optional scores, a source, a website, a
data owner and a lineage tag (`replaced`, `new`, `code-changed`, `removed` or none). This
project models the logic that reconciles and lists those rows and proves properties of it:

- **Indicators** (`src/data/indicators.ts`): the catalog built from the raw list, with its ids,
  its null defaults and the derived `is2023Only` flag, and `getIndicatorStats`. The stats take
  a 2025 comparison universe and count improved, declined and missing rows in it.
- **IndicatorTable**: the `filteredIndicators` pipeline and `handleSort`. The pipeline is a
  year filter, a status filter, a pillar filter and a case-insensitive search, then a stable
  sort that puts absent scores last.
- **QuerySystem**: keyword routing with first-match priority, and the five reports with
  their tally dictionaries. Also `handleQuery` and the suggested queries.
- **SourceViewer**: the last-writer-wins code-to-name dictionary, and the code cell's
  split/trim/lookup. Also the three-state column sort cycle, the row filter, backslash
  stripping and the sheet split into headers and data.
- **PillarsBento**: the deduplicated pillar data owners and the "+N more" note, the pillar
  and sub-pillar indicator lists, and the score and rank difference badges. Also the pillar
  palettes and the sparkline. The sparkline's rule is that nothing is drawn for fewer than
  two values. Its point geometry (`PointAt`, `SparklineInBox` and the helpers `PointInBox`,
  `UnitFraction`, `SelfQuotient`) goes beyond that rule: it is an extra, kept because it
  checks that the drawing stays in its box.
- **DataSidebar**: the insertion-ordered group-by on sub-pillars, the group heading and the
  score inputs.
- **ShippedRows**: a few rows of the shipped catalog and what the rules above make of them.

Support modules:

- **Seqs**: `filter`, `slice(0, n)`, `[...new Set(..)]` and the counting lemmas about them.
- **Sorting**: `Array.prototype.sort`, modelled as a stable insertion sort. Its result is
  sorted, a permutation of its input and stable. An in-place array version is proved equal
  to it.
- **Text**: `toLowerCase`, `includes`, `trim`, `split`, `startsWith`, `substring`, `replace`
  of backslashes, and the decimal ids.

Scores are `Option<real>`. Every rule only tests whether a score is present and the sign
of `score2025 - score2023`. For finite doubles that sign agrees with the comparison of the
reals. Loops that fill dictionaries are methods with `while`/`for` loops, proved equal to
a recursive specification function:

- `QuerySystem.CountBy` (the source and ministry tallies);
- `SourceViewer.BuildCodeToName`;
- `DataSidebar.GroupIndicators`.

The copy-then-sort pipelines are methods over an `array`: `IndicatorTable.FilteredIndicators`
and `SourceViewer.FilteredAndSortedData`. React state updates (`setSortKey`, `setSortConfig`,
`setQuery`) are functions from the old state to the new one.

Three quirks of the code are kept as written:

- The "2023" year button keeps only untagged rows. The comment beside it says otherwise.
- The "2025" year button has no filter of its own.
- A null score sorts last in both directions (null becomes +∞ ascending and −∞ descending).
  The code is followed here, not the statement that absent scores come first when descending.

## Model

| member | source | states |
|---|---|---|
| Indicators.CatalogFields | src/data/indicators.ts:222-236 | Row k of the catalog keeps every raw field (website included) and its tag. `replacedBy` becomes null exactly when it is absent or empty, and otherwise keeps its value. `is2023Only` is the derived flag. |
| Indicators.CatalogIdsDistinct | src/data/indicators.ts:222-223 | Row k gets the id `ind_{k+1}`, so two different rows never share an id. |
| Indicators.Is2023OnlyRows | src/data/indicators.ts:235-236 | `is2023Only` holds exactly for (1.2.5, "ICT Infrastructure") and for (1.2.6, "Urbanisation", tagged replaced). |
| Indicators.CatalogFilterCount | src/data/indicators.ts:222-237 | A filter that ignores the id keeps as many catalog rows as raw rows. |
| Indicators.CategoriesDisjoint | src/data/indicators.ts:245-254 | Each row is in exactly one of improved, declined, missing and unchanged-or-incomparable. |
| Indicators.StatsBound | src/data/indicators.ts:241-257 | improved + declined + missing <= total. |
| Indicators.StatsPartition | src/data/indicators.ts:241-257 | improved + declined + missing plus the unchanged universe rows equals total. |
| Indicators.StatsTotal | src/data/indicators.ts:241-257 | total is the list size less the rows that are 2023-only, replaced or removed. |
| Indicators.StatsPermutation | src/data/indicators.ts:241-257 | Reordering the list leaves all four counts unchanged. |
| Indicators.StatsConcat | src/data/indicators.ts:241-257 | The stats of two lists joined are the sums of their stats. |
| Indicators.StatsOfOne | src/data/indicators.ts:241-257 | Where one row is counted: nowhere outside the universe; inside it, total 1 and one mark per category it meets. |
| IndicatorTable.YearFilterRows | src/components/dashboard/IndicatorTable.tsx:31-37 | Year "2023" leaves exactly the untagged rows. Years "2025" and "all" leave the list unchanged. |
| IndicatorTable.StageIsFilter | src/components/dashboard/IndicatorTable.tsx:29-67 | The four filter stages together are one filter by the conjunction of their predicates. |
| IndicatorTable.ListingMembership | src/components/dashboard/IndicatorTable.tsx:29-92 | A row is listed iff it is in the input and passes the year, status, pillar and search filters. |
| IndicatorTable.ListingSubMultiset | src/components/dashboard/IndicatorTable.tsx:29-92 | The listing is a permutation of the filtered rows, so it is a sub-multiset of the input. |
| IndicatorTable.StagesKeepOrder | src/components/dashboard/IndicatorTable.tsx:29-67 | Before the sort, the filtered rows are a subsequence of the input. |
| IndicatorTable.MissingCountMatchesStats | src/components/dashboard/IndicatorTable.tsx:48-52 | With status "missing", a year other than "2023" and no pillar or search filter, the listing has `getIndicatorStats(..).missing` rows. |
| IndicatorTable.ImprovedIgnoresLineage | src/components/dashboard/IndicatorTable.tsx:40-43 | Every improved row is listed under status "improved", replaced and removed rows included. |
| IndicatorTable.CompareZeroIffEqualKeys | src/components/dashboard/IndicatorTable.tsx:70-92 | The comparator is 0 exactly when the sort keys are equal, and it is antisymmetric. |
| IndicatorTable.GtStrictWeakOrder | src/components/dashboard/IndicatorTable.tsx:70-92 | The comparator's "sorts after" relation is a strict weak order for every key and direction. |
| IndicatorTable.LexLessTransitive | src/components/dashboard/IndicatorTable.tsx:88-89 | String `<` on the code, name and owner columns is transitive. |
| IndicatorTable.LexLessTotal | src/components/dashboard/IndicatorTable.tsx:88-89 | Two different strings are always ordered one way or the other. |
| IndicatorTable.ListingSorted | src/components/dashboard/IndicatorTable.tsx:70-92 | The listing is sorted by the comparator. |
| IndicatorTable.ListingStable | src/components/dashboard/IndicatorTable.tsx:70-92 | Rows with equal sort keys keep their filtered order. |
| IndicatorTable.NullsLast | src/components/dashboard/IndicatorTable.tsx:77-86 | When sorting on a score in either direction, every row after a row with no score also has no score. |
| IndicatorTable.DiffNeverNull | src/components/dashboard/IndicatorTable.tsx:74-76 | The "diff" key is `score2025 - score2023` with a missing score read as 0, so it is never null. |
| IndicatorTable.FilteredIndicators | src/components/dashboard/IndicatorTable.tsx:28-94 | The in-place pipeline on a copy of the input array returns exactly the listing. |
| IndicatorTable.HandleSortSameKey | src/components/dashboard/IndicatorTable.tsx:96-103 | Clicking the current key toggles the direction, and two clicks restore the state. |
| IndicatorTable.HandleSortNewKey | src/components/dashboard/IndicatorTable.tsx:96-103 | Clicking another key selects it ascending and leaves the filters alone. |
| Sorting.SortByPermutation | src/components/dashboard/IndicatorTable.tsx:70 | Sorting returns a permutation of its input. |
| Sorting.SortBySorted | src/components/dashboard/IndicatorTable.tsx:70 | Under a strict weak order, the sorted list has no pair out of order. |
| Sorting.SortByStable | src/components/dashboard/IndicatorTable.tsx:70 | Rows that compare equal keep their relative order. |
| Sorting.SortInPlace | src/components/dashboard/IndicatorTable.tsx:70-92 | Sorting an array in place leaves it holding the sorted sequence of its old contents. |
| QuerySystem.GroupContents | src/components/dashboard/QuerySystem.tsx:161-165 | The five keyword groups are exactly "improve"; "decline"; "miss"/"no data"; "source"/"database"; "ministry"/"department"/"owner". |
| QuerySystem.RouteFirstMatch | src/components/dashboard/QuerySystem.tsx:159-171 | The query goes to group k's report iff its lowercase matches group k and no earlier group. It goes to the general search iff no group matches. |
| QuerySystem.SearchShape | src/components/dashboard/QuerySystem.tsx:169-171 | The search returns at most 5 matching rows in catalog order, and all of them when at most 5 match. |
| QuerySystem.ChangeReportsCoverStats | src/components/dashboard/QuerySystem.tsx:16-66 | The improved and declined reports count the whole catalog: at least the stats' counts, with shown plus "more" equal to the count. |
| QuerySystem.MissingReportCoversStats | src/components/dashboard/QuerySystem.tsx:74-77 | The missing report, which also counts a 2025 score of 0 and keeps removed rows, counts at least the stats' missing. |
| QuerySystem.ValuesMembership | src/components/dashboard/QuerySystem.tsx:96-100 | The non-empty values of a column are exactly the rows' non-empty field values. |
| QuerySystem.ValuesCount | src/components/dashboard/QuerySystem.tsx:96-100 | There are as many non-empty values as rows with a non-empty field. |
| QuerySystem.TallyKeys | src/components/dashboard/QuerySystem.tsx:97-102 | The tally's keys are the distinct values, in first-occurrence order. |
| QuerySystem.TallyCounts | src/components/dashboard/QuerySystem.tsx:97-102 | Each tally count is the number of occurrences of its key, and the counts sum to the number of values. |
| QuerySystem.CountBy | src/components/dashboard/QuerySystem.tsx:97-102 | The forEach loop that fills the dictionary yields the tally of the non-empty field values. |
| QuerySystem.ByCountDescOrder | src/components/dashboard/QuerySystem.tsx:103-136 | "Larger count first" is a strict weak order. |
| QuerySystem.TopEntries | src/components/dashboard/QuerySystem.tsx:103-105 | The first n sorted entries: exactly min(n, number of distinct values) of them, each key once, in non-increasing count order, each with its key's true count, and no entry left out has a larger count than a listed one. |
| QuerySystem.TallySum | src/components/dashboard/QuerySystem.tsx:97-134 | The tallies sum to the number of rows with a non-empty field. |
| QuerySystem.DistinctValues | src/components/dashboard/QuerySystem.tsx:96 | The number of distinct values is the size of the set of non-empty field values. |
| QuerySystem.SourceReportFacts | src/components/dashboard/QuerySystem.tsx:95-113 | Unique sources = distinct non-empty sources. The 8 most used sources are listed (all when fewer), each once, in non-increasing count order, with true counts; none left out outranks a listed one. The tallies sum to the rows with a source. |
| QuerySystem.MinistryReportFacts | src/components/dashboard/QuerySystem.tsx:128-147 | Agencies = distinct non-empty owners. The 10 owners with most rows are listed (all when fewer), each once, in non-increasing count order, with true counts; none left out outranks a listed one. The tallies sum to the rows with an owner. |
| QuerySystem.GenerateSourceReport | src/components/dashboard/QuerySystem.tsx:95-113 | The imperative report returns the source report. |
| QuerySystem.GenerateMinistryReport | src/components/dashboard/QuerySystem.tsx:128-147 | The imperative report returns the ministry report. |
| QuerySystem.BlankQueryUnchanged | src/components/dashboard/QuerySystem.tsx:191-194 | A blank or whitespace-only query leaves query and result unchanged. Any other query sets the result to its report. |
| QuerySystem.UnknownSuggestion | src/components/dashboard/QuerySystem.tsx:204-213 | An unknown suggested key sets the empty query, whose search shows the first 5 catalog rows. |
| QuerySystem.SuggestedImprovedRoute | src/components/dashboard/QuerySystem.tsx:159-206 | The "improved" canned query routes to the improved report. |
| QuerySystem.SuggestedDataOwnersRoute | src/components/dashboard/QuerySystem.tsx:159-207 | "Which ministries manage GTCI indicators?" matches no keyword ("ministries" lacks "ministry"), so it falls through to the general search. |
| QuerySystem.SuggestedSourcesRoute | src/components/dashboard/QuerySystem.tsx:159-208 | "List all data sources used" routes to the source report. |
| QuerySystem.SuggestedMinistriesRoute | src/components/dashboard/QuerySystem.tsx:159-209 | "What government departments provide data?" routes to the ministry report. |
| QuerySystem.SuggestedMissingRoute | src/components/dashboard/QuerySystem.tsx:159-210 | "Which indicators have no 2025 data?" matches no keyword, so it falls through to the general search. |
| SourceViewer.CodeToNameStep | src/components/dashboard/SourceViewer.tsx:24-26 | One more row writes its own code's entry and leaves every other entry alone. |
| SourceViewer.BuildCodeToName | src/components/dashboard/SourceViewer.tsx:23-26 | The forEach loop builds exactly the last-writer-wins map. |
| SourceViewer.CodeToNameLastWins | src/components/dashboard/SourceViewer.tsx:23-26 | The map's keys are exactly the catalog codes. Each maps to the name of a row with that code that no later row shares. |
| SourceViewer.CodeToNameAt | src/components/dashboard/SourceViewer.tsx:23-26 | The last row with a given code provides that code's name. |
| SourceViewer.LookupName | src/components/dashboard/SourceViewer.tsx:243 | The lookup gives "Unknown indicator" iff the code is absent or maps to the empty string (or to that text). Otherwise it gives the mapped name. |
| SourceViewer.CodeLabels | src/components/dashboard/SourceViewer.tsx:241-243 | One label per ","-separated piece, with the piece trimmed and its name looked up. |
| SourceViewer.CodeLabelsFacts | src/components/dashboard/SourceViewer.tsx:241-243 | A label's code has no comma and no surrounding whitespace. A code no catalog row has resolves to "Unknown indicator". |
| SourceViewer.HandleSortValid | src/components/dashboard/SourceViewer.tsx:34-79 | Direction null iff column -1 holds initially and after every click. |
| SourceViewer.ThreeClicks | src/components/dashboard/SourceViewer.tsx:70-79 | From any other state, clicks on a column give ascending, then descending, then the unsorted state. |
| SourceViewer.ViewRowsFacts | src/components/dashboard/SourceViewer.tsx:91-121 | An empty query keeps every row. Otherwise a row is kept iff some cell's lowercase contains the lowercased query. The filtered rows keep their order, nothing is reordered unless column >= 0 and a direction is set, and the result is a permutation of the filtered rows. |
| SourceViewer.FilteredAndSortedData | src/components/dashboard/SourceViewer.tsx:91-121 | The copy-filter-sort on an array returns exactly the view's rows. |
| SourceViewer.StripBackslashes | src/components/dashboard/SourceViewer.tsx:230-235 | The result is the text with every backslash removed: no backslash is left, every other character keeps its multiplicity, and the survivors keep their order (a subsequence of the text). |
| SourceViewer.LinkHasNoBackslash | src/components/dashboard/SourceViewer.tsx:227-236 | The last column's link text and href have no backslash, and the href is "https://" plus the text. |
| SourceViewer.SheetToTable | src/components/dashboard/SourceViewer.tsx:54-57 | An empty sheet leaves headers and data empty. Otherwise the headers followed by the data rows are the sheet. |
| PillarsBento.AllOwnersMembership | src/components/dashboard/PillarsBento.tsx:151-153 | An owner is listed iff it is non-empty and owns some row of the pillar. |
| PillarsBento.PillarDataOwnersFacts | src/components/dashboard/PillarsBento.tsx:151-155 | At most 5 owners, distinct and non-empty, each owning a row of the pillar. They are a prefix of all owners (all of them when there are at most 5), in first-occurrence order. |
| PillarsBento.MoreOwnersNoteFacts | src/components/dashboard/PillarsBento.tsx:165-195 | The note as written is never shown. The corrected note is shown iff the pillar has more than 5 distinct owners, and then gives how many more. |
| PillarsBento.IndicatorListsFacts | src/components/dashboard/PillarsBento.tsx:169-229 | The pillar list is the pillar's rows not tagged replaced, removed ones kept. The sub-pillar list is the pillar-list rows whose sub-pillar starts with the id. Both are subsequences of their source. |
| PillarsBento.IndDiff | src/components/dashboard/PillarsBento.tsx:248 | The per-indicator diff is present iff both scores are. |
| PillarsBento.IndDiffAgreesWithStats | src/components/dashboard/PillarsBento.tsx:248 | An upward diff is exactly "improved" in the stats, a downward one exactly "declined". |
| PillarsBento.TrendOf | src/components/dashboard/PillarsBento.tsx:83-85 | Up iff the difference is positive, down iff negative. |
| PillarsBento.RankDiff | src/components/dashboard/PillarsBento.tsx:77 | The rank difference is positive iff the 2025 rank is better (smaller). |
| PillarsBento.RankBadgeRoundTrip | src/components/dashboard/PillarsBento.tsx:77-95 | The arrow and the absolute magnitude give back `rank2023 - rank2025`. ▲ iff the rank improved, ▼ iff it worsened, and the badge is – with magnitude 0 iff the ranks are equal. |
| PillarsBento.PillarColor | src/components/dashboard/PillarsBento.tsx:107-148 | A known pillar gets its palette, any other name the muted default. |
| PillarsBento.PillarColorFacts | src/components/dashboard/PillarsBento.tsx:107-148 | The palette keys are exactly the six pillars, none of which gets the default. The six colours are distinct. |
| PillarsBento.SparklinePoints | src/components/dashboard/PillarsBento.tsx:16-29 | Nothing is drawn for fewer than 2 values. Otherwise there is one point per value. |
| PillarsBento.SparklineInBox | src/components/dashboard/PillarsBento.tsx:18-29 | Beyond the core rule: every point lies in the padded 60x32 box, and the line spans x = 4 to 56. |
| PillarsBento.SparklineStroke | src/components/dashboard/PillarsBento.tsx:16-33 | The stroke is "success" iff the last value exceeds the first, and "danger" iff it is below it. |
| DataSidebar.GroupIndicators | src/components/dashboard/DataSidebar.tsx:18-24 | The forEach loop that creates buckets and pushes rows yields the groups in first-occurrence order. |
| DataSidebar.GroupedFacts | src/components/dashboard/DataSidebar.tsx:18-78 | A group holds exactly the rows with its sub-pillar, in catalog order. It is non-empty, so `inds[0]` exists and has the group's sub-pillar. Keys are distinct, every row has a group, and groups follow first occurrence. |
| DataSidebar.GroupedSizes | src/components/dashboard/DataSidebar.tsx:18-24 | The group sizes sum to the catalog size. |
| DataSidebar.Heading | src/components/dashboard/DataSidebar.tsx:79 | The heading is the sub-pillar without its first 4 characters, and empty when it is shorter. |
| DataSidebar.ScoreInput | src/components/dashboard/DataSidebar.tsx:102-112 | The input is blank iff the score is null. |
| DataSidebar.ScoreInputRoundTrip | src/components/dashboard/DataSidebar.tsx:102-112 | The input gives the score back, and a score of 0 shows as 0, not blank. |
| Text.TrimEmptyIffBlank | src/components/dashboard/QuerySystem.tsx:192 | `trim()` is empty exactly for an all-whitespace string. |
| Text.JoinSplit | src/components/dashboard/SourceViewer.tsx:241 | Joining the pieces of a split with the separator gives back the string. |
| Text.RemoveCharConcat | src/components/dashboard/SourceViewer.tsx:230 | Removing a character from a concatenation removes it from each part separately. |
| ShippedRows.ReplacedRowsAre2023Only | src/data/indicators.ts:124-236 | Of the shipped 1.2.5–1.2.7 rows, exactly the two replaced 2023 rows are 2023-only, so there `is2023Only` implies `replaced`. |
| ShippedRows.ReplacementLookups | src/components/dashboard/SourceViewer.tsx:23-26 | With no later reuse of the codes, 1.2.5 looks up "Population covered by at least a 3G mobile network" and 1.2.6 "Internet access in schools". |
| ShippedRows.MeasuredZeroIsDeclined | src/data/indicators.ts:218-254 | 6.2.6 (5.33 to 0.00) counts as declined, not missing. |
| ShippedRows.UnchangedRowsUncounted | src/data/indicators.ts:163-254 | 3.2.1 (0 to 0) and 4.1.1 (100 to 100) are in the universe but in none of the three categories. |

## Findings

| source | as written | input that shows it | evidently intended | confidence | as-written member | corrected member |
|---|---|---|---|---|---|---|
| src/components/dashboard/PillarsBento.tsx:193-195 | The "+N more" note compares `dataOwners.length` with `getPillarDataOwners(pillar.name).length`. These are the same capped list, so the condition is always false and the note never shows. | a pillar whose rows have 6 distinct non-empty data owners: 5 are listed and no note appears | Show "+N more" where N is the number of distinct owners beyond the 5 listed | not executed | PillarsBento.MoreOwnersNoteAsWritten | PillarsBento.MoreOwnersNote, with PillarsBento.MoreOwnersNoteFacts |

## Left out

- Rendering, Tailwind classes, icons, tooltips and collapsibles, and the React hook and memo mechanics. State updates are functions from the old state to the new one.
- Loading the spreadsheet with `fetch` and `XLSX.read`, and the download link. These are network and file I/O through a foreign library. The sheet is a parameter of `SourceViewer.SheetToTable`.
- SourceViewer's comparator, which uses `parseFloat` and `localeCompare` (runtime float parsing and locale collation). `SourceViewer.ViewRows` takes it as a parameter; only its sorting and permutation are stated, not its order.
- `toFixed` formatting and the sparkline's SVG path string. Coordinates are reals, not doubles.
- `toLowerCase` is modelled on ASCII letters only. `trim` uses a fixed set of whitespace characters. String `<` compares code points, where JavaScript compares UTF-16 code units.
- Scores are reals. NaN and infinities never occur in the data and are not modelled.
- Dictionary quirks of plain JavaScript objects are not modelled: integer-like keys listed first by `Object.entries`, and inherited keys such as "constructor" answering a lookup. Tallies, groups and lookups are modelled as insertion-ordered maps of their own keys.
- SourceViewer.CellOf: requires a column inside the row. Reading past a short row's end (an `undefined` cell) is not modelled.
- The whole shipped 81-row catalog is not embedded, so its totals (77 in the stats universe, 61 untagged rows) are not proved for the literal list. The general lemmas state them for any list: `Indicators.StatsTotal`, `IndicatorTable.YearFilterRows`, `Indicators.Is2023OnlyRows` and `SourceViewer.CodeToNameLastWins`. ShippedRows holds the rows those claims single out.
- `pillarDataStructure` (pillar and sub-pillar scores and ranks), `source`, `website` and `replacedBy` text are static data kept opaque. The rank badge takes ranks as parameters.
- DataSidebar's rank inputs and lock toggle: UI state with no rules attached.
- PillarCharts, RankingBoard, SummaryCards, TabNavigation, DashboardHeader and the Index page are presentation only and are not part of this model.
