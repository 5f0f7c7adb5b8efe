# Store → link cleaning, in Dafny

This project models the data-cleaning core of a small set of spreadsheet
tools that turn "store → visit link" sheets into clean, deduplicated lists of
links per store, and proves what each step guarantees. The tools are:

- `app_links.py`, a web app with two modes. Mode 1 cleans the (store, link)
  pairs of one sheet and shows them three ways: one row per pair, one column
  per link, and a count with the joined links. Mode 2 compares the stores of
  two files and lists, side by side, the links each file has for the stores
  found in both.
- `extraer_tienda_links.py`, a script that reads a store column and a link
  column cell by cell. It takes the URL from the cell's hyperlink target, else
  from a `=HIPERVINCULO(`/`=HYPERLINK(` formula, else from a bare visit GUID
  with a fixed URL prefix. It then deduplicates, sorts and groups the pairs.
- `dedup_por_tienda.py`, a script that detects the link column, checks for
  the store column, cleans and deduplicates the pairs, and writes the
  per-store table, a summary and one link per store.

A table is a header sequence and rows of cells. Each cell is an
`Option<string>`, where `None` is pandas' NaN. Columns are positional, and a
name lookup finds the first column of that name. Strings are compared by code
point, as Python compares them. Pandas' `sort_values` is modelled by an
insertion sort. `drop_duplicates`, `dict.fromkeys` and the "seen" set all
become `Distinct`, which keeps the first occurrence.

The modules follow the tools. `Text`, `Tables`, `Sequences` and `Ordering`
hold the shared vocabulary: `str.strip`, the `\s+` collapse, prefix and infix
tests that ignore case, joining, tables, deduplication and orders. `AppLinks`
holds the cleaning and aggregation functions of `app_links.py`. `LinkPairs`
holds the pair pipeline that mode 1 and `dedup_por_tienda.py` share.
`StoreComparison` holds mode 2's store sets and its side-by-side table.
`LinkExtraction` holds the extraction script, and `LinkDedup` the dedup script.

Where the source updates a variable step by step, the model has a method
with loop invariants. Its `ensures` ties the result to a function, and the
lemmas state what that function guarantees. The loops modelled this way are
`links_por_fila`'s two loops, the column and cell cleaning of `limpiar_df`,
the wide view, the extraction loop, the `agrupado` grouping and the pair
cleaning.

Three places where the code and its intent or documentation part ways are
modelled as the code behaves:

- **Cleaning is not idempotent.** A header such as `" Unnamed: 0"` escapes
  the `^Unnamed` filter because of its leading blank, and is then stripped to
  `"Unnamed: 0"`. A second cleaning drops it (`AppLinks.CleanedTwiceDropsMore`).
- **Grouped lists are sorted.** Pandas' `groupby` sorts its keys, so the
  aggregated store lists come out ordered by store, not in first-seen order.
  Only the path with no link columns keeps first-seen order
  (`AppLinks.AggregatedStores`).
- **A blank hyperlink target still gives a pair.** A target made only of
  blanks is truthy, so the row gives a pair whose link strips to `""`
  (`LinkExtraction.BlankTargetGivesEmptyLink`).

## Model

| member | source | states |
|---|---|---|
| Text.StripRemovesOnlyEnds | app_links.py:70 | str.strip() yields a contiguous part of its input; everything before and after that part is whitespace, and the result has no whitespace at either end |
| Text.Strip | app_links.py:70 | str.strip() leaves no whitespace at either end and never lengthens its input |
| Text.StripTrimmed | app_links.py:76 | text with no whitespace at either end is left unchanged by str.strip() |
| Text.CollapseSpaces | app_links.py:77 | re.sub(r"\s+", " ") leaves no blank other than a single space and never two blanks in a row; the result is empty exactly when the input is; its first and last characters are the input's, a blank one becoming a space |
| Text.CollapsedIsFixed | app_links.py:77 | collapsing text that already has only single spaces changes nothing |
| Text.NormalizeSpaces | app_links.py:73-78 | a normalised store value has no whitespace at either end and no run of two blanks |
| Text.WordEnd | app_links.py:77 | a word starting at i runs over non-blank characters up to the next blank or the end |
| Text.WordsFrom | app_links.py:77 | str.split(): every word is non-empty and holds no blank |
| Text.CollapseJoinsWords | app_links.py:77 | collapsing a stretch that starts and ends on a non-blank character, with only blanks after it, gives its words joined by single spaces |
| Text.NormalizeSpacesJoinsWords | app_links.py:73-78 | the normalised store value is " ".join(s.split()): the words of the value, in order, separated by single spaces |
| Text.NormalizeSpacesIdempotent | app_links.py:73-78 | normalising a store value twice gives the same as normalising it once |
| Text.ContainsIgnoreCase | dedup_por_tienda.py:19-22 | a case-insensitive search finds the pattern exactly when it starts at some position of the text |
| Tables.ColumnIndex | app_links.py:98 | a name lookup fails exactly when the name is not a header; otherwise it gives the first column carrying that name |
| Tables.Get | app_links.py:98 | row.get(c, None): the cell of the first column named c, or None when there is no such column |
| Sequences.Distinct | app_links.py:125 | dict.fromkeys / drop_duplicates keep each value once and lose none |
| Sequences.Flatten | app_links.py:125 | [v for sub in lists for v in sub] holds exactly the values of the lists |
| Sequences.TruePositions | app_links.py:83 | the positions whose flag is set: each one flagged, all of them, strictly ascending |
| Sequences.DistinctKeepsFirstOccurrenceOrder | app_links.py:102-107 | deduplicated values keep the order of their first occurrences |
| Sequences.DistinctIdempotent | app_links.py:207-211 | deduplicating twice is deduplicating once |
| Sequences.DistinctOfNoDup | app_links.py:207-211 | a sequence without repeats is its own deduplication |
| Sequences.CountAtLeastTwo | app_links.py:72-73 | a name occurs twice among the headers exactly when two positions carry it |
| Ordering.StrLtIsStrictTotalOrder | app_links.py:209 | Python's < on str is irreflexive, transitive and total |
| Ordering.PairLtIsStrictTotalOrder | app_links.py:209 | sorting by ["tienda", "link"] uses a strict total order on pairs |
| Ordering.KeyLtIsStrictTotalOrder | app_links.py:124 | the order of groupby keys with dropna=False (text ascending, NaN last) is a strict total order |
| Ordering.Insert | app_links.py:209 | inserting into a sorted sequence adds exactly the new element |
| Ordering.InsertSorted | app_links.py:209 | inserting into a sorted sequence keeps it sorted |
| Ordering.Sort | app_links.py:209 | sort_values returns a permutation of its input |
| Ordering.SortSorted | app_links.py:209 | sort_values returns its input in ascending order |
| Ordering.SortOfSorted | app_links.py:209 | sorting sorted input changes nothing |
| Ordering.StrictlySortedUnique | app_links.py:303-305 | two strictly ascending sequences with the same elements are equal |
| Ordering.SortOfDistinctIsStrict | app_links.py:207-211 | sorting a sequence without repeats gives a strictly ascending sequence with the same elements |
| AppLinks.KeptColumns | app_links.py:68 | the kept positions are exactly those whose header does not start with "Unnamed" (ignoring case), in ascending order |
| AppLinks.ProjectRows | app_links.py:68 | selecting the kept columns keeps every row and gives each row one cell per kept column |
| AppLinks.NormalizeColumn | app_links.py:73-78 | rewriting the store column keeps every row and its width |
| AppLinks.CleanColumns | app_links.py:68-70 | the column loop returns the kept positions and the stripped headers |
| AppLinks.NormalizeStoreRows | app_links.py:73-78 | the cell loop normalises the store cell of every row and nothing else |
| AppLinks.CleanTable | app_links.py:65-79 | limpiar_df step by step computes the cleaned table, or fails when two columns are named "tienda" |
| AppLinks.NormalizeStoreColumn | app_links.py:72-78 | the "tienda" step keeps the headers and the number of rows |
| AppLinks.Cleaned | app_links.py:65-79 | a cleaned table is well formed and keeps every row |
| AppLinks.NormalizeStoreColumnCells | app_links.py:72-78 | the "tienda" step normalises exactly the cells of the "tienda" column and leaves every other cell as it was |
| AppLinks.CleanedLayout | app_links.py:65-79 | cleaning keeps exactly the columns not named "Unnamed…", in order, with stripped headers; every cell is carried over, and the "tienda" cells are normalised |
| AppLinks.CleanedStoresNormalized | app_links.py:72-78 | after cleaning, every "tienda" value is present, has no whitespace at either end and no run of blanks |
| AppLinks.CleanHeadersKeepStore | app_links.py:68-70 | a "tienda" header survives the header cleaning |
| AppLinks.CleanedKeepsStoreColumn | app_links.py:65-79 | a "tienda" column survives cleaning |
| AppLinks.CleanedErrCount | app_links.py:72-78 | past the empty-table case, cleaning fails exactly when two cleaned headers are "tienda" |
| AppLinks.KeptPosition | app_links.py:68-70 | a column not named "Unnamed…" has a cleaned header, which is its stripped header |
| AppLinks.TwoStoreColumnsGiveHeaders | app_links.py:68-73 | two kept columns that strip to "tienda" give two "tienda" headers |
| AppLinks.HeadersGiveTwoStoreColumns | app_links.py:68-73 | two "tienda" headers come from two kept columns that strip to "tienda" |
| AppLinks.TwoCleanedStoreHeaders | app_links.py:68-73 | two cleaned "tienda" headers exist exactly when two kept columns strip to "tienda" |
| AppLinks.CleanedFails | app_links.py:65-79 | cleaning fails exactly when the table has rows and columns and two columns not named "Unnamed…" strip to "tienda" |
| AppLinks.LeadingBlankNotUnnamed | app_links.py:68 | a header " Unnamed: 0" (leading blank) is not dropped by the ^Unnamed filter |
| AppLinks.LeadingBlankHeaderKept | app_links.py:68-70 | the headers " Unnamed: 0", "x" clean to "Unnamed: 0", "x" |
| AppLinks.StrippedUnnamedHeaderDropped | app_links.py:68-70 | the headers "Unnamed: 0", "x" clean to "x" |
| AppLinks.CleanedTwiceDropsMore | app_links.py:65-79 | cleaning a cleaned table can drop another column: cleaning is not idempotent |
| AppLinks.StrippedAtSnoc | app_links.py:70 | stripping one more kept header appends it to the headers |
| AppLinks.KeptColumnsStep | app_links.py:68 | looking at one more column appends its position exactly when its header does not start with "Unnamed" |
| AppLinks.StoreHeaderPlain | app_links.py:68 | "tienda" is neither an "Unnamed…" nor a "link…" header |
| AppLinks.DetectLinkColumns | app_links.py:81-83 | the detected columns are exactly the headers starting with "link" (ignoring case); none are detected when no header does |
| AppLinks.DetectLinkColumnsOrder | app_links.py:83 | the detected columns keep table order: they are the headers at strictly ascending positions, and every link header's position is among them |
| AppLinks.LinkFallbackUnreachable | app_links.py:114-116 | a column named "link" is always detected, so the fallback to ["link"] never changes the columns used |
| AppLinks.RowValues | app_links.py:96-100 | every collected value is non-empty and stripped |
| AppLinks.RowValuesMembers | app_links.py:96-100 | a value is collected exactly when one of the link columns holds a value that strips to it and is not blank |
| AppLinks.RowValuesLast | app_links.py:97-100 | the last link column adds its value, if it gives one, and nothing else |
| AppLinks.AppendedValue | app_links.py:99-100 | appending a cell's stripped value, when not blank, adds exactly that value |
| AppLinks.RowValuesStep | app_links.py:97-100 | the first loop appends the stripped value of each column in turn |
| AppLinks.CollectRowValues | app_links.py:96-100 | the first loop of links_por_fila computes the collected values |
| AppLinks.KeepFirstSeen | app_links.py:102-106 | the seen-set loop returns the values without repeats, in first-seen order |
| AppLinks.LinksPerRow | app_links.py:94-107 | links_por_fila returns the collected values with later repeats removed |
| AppLinks.ListsWithKeyRows | app_links.py:124-125 | the lists grouped under a store are those of the rows holding that store, all of them, in row order |
| AppLinks.ListsWithKeyMembers | app_links.py:124-125 | a link is in a store's concatenated lists exactly when some row of that store lists it |
| AppLinks.AggregatedStores | app_links.py:109-128 | agregar_links_por_tienda gives each store of the table once; with link columns, stores are strictly ascending (NaN last); without, in order of first appearance |
| AppLinks.AggregatedLinks | app_links.py:117-127 | a store's list has no repeats, is empty when there are no link columns, and holds exactly the links of that store's rows |
| AppLinks.AggregatedLinksOrder | app_links.py:110-125 | with link columns, a store's links come in the order of their first occurrence in the concatenation of its rows' lists |
| AppLinks.KeepColumns | app_links.py:360-361 | the kept table is well formed, keeps every row, and is headed "tienda" followed by the chosen columns, the store column renamed "tienda" and, when asked (the corrected build_links), the chosen URL column renamed "link" |
| AppLinks.KeepColumnsRows | app_links.py:360-361 | each kept row is the row's store cell followed by its cells of the chosen columns |
| AppLinks.KeepOneColumnNames | app_links.py:360-361 | keeping one chosen column gives the headers "tienda" and that column's name, or "link" when it is renamed |
| AppLinks.KeepOneColumnRow | app_links.py:360-361 | each kept row is the store cell and the chosen cell |
| AppLinks.NoLinkNamesNoAggregationColumns | app_links.py:114-117 | with no header starting with "link", agregar_links_por_tienda uses no link column |
| AppLinks.CleanedStoreAndOneColumn | app_links.py:65-79 | a table headed "tienda" and one column that does not strip to "tienda" cleans without error |
| AppLinks.CleanedStoreAndPlainColumn | app_links.py:65-79 | a table headed "tienda" and a stripped, plain column cleans to the same headers, with only the store cell normalised |
| AppLinks.CleanedStoreRow | app_links.py:72-78 | in such a table each cleaned row is the normalised store cell and the untouched second cell |
| AppLinks.AggregatedStoreLinkRow | app_links.py:121-127 | in a "tienda", "link" table, a row's non-blank link appears in the list of its store |
| AppLinks.BuildLinksAsWrittenIgnoresChosenColumn | app_links.py:352-363 | as written, a chosen URL column not named "link…" is kept under its own name, so every store's list is empty |
| AppLinks.BuildLinksUsesChosenColumn | app_links.py:352-363 | with the chosen column used as "link", a row's non-blank URL appears in the list of that row's normalised store |
| AppLinks.BuildLinksChosenColumnDiffers | app_links.py:352-363 | whenever the chosen column holds a non-blank URL, the as-written and the intended build_links give different tables |
| AppLinks.BuildLinksChosenColumnExample | app_links.py:352-363 | on a one-row table headed "tienda", "url" the two versions of build_links differ |
| AppLinks.SheetName | app_links.py:139 | the sheet name is the first min(31, length) characters of the requested name |
| AppLinks.SheetNameIdempotent | app_links.py:139 | truncating a sheet name twice is truncating it once; short names are unchanged |
| LinkPairs.DropMissing | app_links.py:197 | dropna keeps every row whose store and link are present, and nothing else |
| LinkPairs.DropEmptyLinks | app_links.py:204 | the filter keeps exactly the rows whose link is not "" |
| LinkPairs.DropMissingRows | dedup_por_tienda.py:40 | the dropna step computes the rows with store and link present |
| LinkPairs.StripColumns | dedup_por_tienda.py:41-42 | the step that strips the store and link columns in place strips both values of every row |
| LinkPairs.DropEmptyLinkRows | dedup_por_tienda.py:43 | the filter step computes the rows with a non-empty link |
| LinkPairs.CleanBase | app_links.py:195-204 | the cleaning steps, applied in order, compute the cleaned pairs |
| LinkPairs.CleanPairsFromKeptRows | app_links.py:195-204 | every cleaned pair is the stripped store and link of a row whose store and link are present and whose link is not blank |
| LinkPairs.KeptRowsAreCleaned | app_links.py:195-204 | every such row gives its stripped pair |
| LinkPairs.CleanPairsTrimmed | app_links.py:195-204 | every cleaned pair has a stripped store, a stripped link and a non-empty link |
| LinkPairs.UniquePairsSpec | app_links.py:207-211 | the unique pairs are strictly ascending by (store, link), have no repeats, and are exactly the cleaned pairs |
| LinkPairs.UniquePairsFixedPoint | app_links.py:207-211 | deduplicating and sorting the unique pairs again returns them unchanged |
| LinkPairs.UniqueCleanPairsTrimmed | app_links.py:195-211 | every unique pair has a stripped store, a stripped link and a non-empty link |
| LinkPairs.StoresSpec | app_links.py:216 | the groups' stores are strictly ascending, without repeats, and are exactly the stores of the pairs |
| LinkPairs.LinksOf | app_links.py:216 | a store's group holds exactly the links paired with it |
| LinkPairs.LinksOfSorted | app_links.py:216 | the links of a store keep the pairs' order: sorted pairs give sorted links, and strictly sorted pairs give strictly sorted links |
| LinkPairs.LinksOfNoDup | app_links.py:216 | without repeated pairs, no store lists a link twice |
| LinkPairs.GroupsSpec | app_links.py:216 | each group of the unique pairs is non-empty, strictly ascending, and holds exactly the store's links |
| LinkPairs.MaxLinks | app_links.py:217 | max_links is the size of the largest group, and 0 without groups |
| LinkPairs.WideView | app_links.py:216-220 | the wide view has "tienda" and one "link_k" column per position up to max_links; each row is the store and its links padded with "" |
| LinkPairs.UnpadPaddedRow | app_links.py:219-220 | the padding adds only "" cells: dropping them gives back the store's links |
| LinkPairs.SummariesSpec | app_links.py:222-228 | each row of links_por_tienda is a store of the groups, in order, with the number of its links (at least one) and the links joined by newlines |
| LinkPairs.SummaryTotal | dedup_por_tienda.py:62-67 | the per-store counts add up to the number of unique pairs |
| LinkPairs.PrefixTotals | dedup_por_tienda.py:62-67 | the counts of the first m stores add up to the pairs of those stores |
| LinkPairs.PairsInStep | dedup_por_tienda.py:62-67 | removing the last pair lowers the pair count of the stores by the number of times its store is listed |
| LinkPairs.PairsInAll | dedup_por_tienda.py:62-67 | counting the pairs of every store, each store listed once, counts every pair |
| LinkPairs.PairsInNone | dedup_por_tienda.py:62-67 | with no pairs, every store count is 0 |
| LinkPairs.FirstLinkIsSmallest | dedup_por_tienda.py:76-80 | in sorted pairs, the first link of a store is paired with it and no other link of that store is smaller |
| LinkPairs.SortKeepsPairs | dedup_por_tienda.py:77 | re-sorting the unique pairs keeps exactly the same pairs |
| LinkPairs.StoresOfSorted | dedup_por_tienda.py:77-78 | re-sorting does not change the set of stores |
| LinkPairs.OnePerStoreStores | dedup_por_tienda.py:76-80 | uno_por_tienda has one row per store, in the order of the stores |
| LinkPairs.OnePerStoreSmallest | dedup_por_tienda.py:76-80 | each row of uno_por_tienda is one of the pairs, and carries that store's smallest link |
| StoreComparison.StoreColumnTable | app_links.py:294-295 | the chosen store column alone, renamed "tienda", keeps every row |
| StoreComparison.StoreColumnKept | app_links.py:296-297 | cleaning keeps the single header "tienda" as it is |
| StoreComparison.CleanedStoreColumn | app_links.py:296-297 | cleaning a one-column "tienda" table with rows never fails and normalises every cell |
| StoreComparison.StoreValuesNormalized | app_links.py:294-300 | the stores of a file are its store cells, read as text and normalised, row by row |
| StoreComparison.SortedSetSpec | app_links.py:303-305 | sorted(set(s)) is strictly ascending, holds exactly the elements of s, and is the only strictly ascending sequence that does |
| StoreComparison.Select | app_links.py:303-305 | the selection keeps exactly the elements of a that are in b (or not in b) |
| StoreComparison.ComparisonSpec | app_links.py:299-305 | coinc = A ∩ B, solo_A = A − B and solo_B = B − A; each is strictly ascending; the three are pairwise disjoint and together make A ∪ B |
| StoreComparison.CommonSymmetric | app_links.py:303 | the coincidences do not depend on which file is A |
| StoreComparison.JoinedLinksOfRow | app_links.py:369-379 | a store with a row in the links table gets that row's links joined by newlines |
| StoreComparison.JoinedLinksMissing | app_links.py:369-379 | a store with no row in the links table gets "" |
| StoreComparison.SideBySide | app_links.py:369-379 | the side-by-side table has one row per coincidence, in coinc order |
| StoreComparison.JoinedLinksFirstRow | app_links.py:369-379 | a store with rows in the links table gets the links of its first row joined by newlines |
| StoreComparison.SideBySideLinks | app_links.py:369-379 | each coincidence's links_A is the joined links of its first row in A, or "" when A has no row for it; links_B likewise from B |
| LinkExtraction.GuidFromGroups | extraer_tienda_links.py:19 | five hex groups of 8, 4, 4, 4 and 12 digits joined by hyphens match GUID_RE |
| LinkExtraction.GuidGroups | extraer_tienda_links.py:19 | every string matching GUID_RE is such a hyphen-joined sequence of five hex groups |
| LinkExtraction.GuidGroupHex | extraer_tienda_links.py:19 | a GUID holds hex digits everywhere but the hyphen positions |
| LinkExtraction.GuidJoin | extraer_tienda_links.py:19 | a GUID is its five groups joined by hyphens |
| LinkExtraction.NextQuote | extraer_tienda_links.py:24 | the next double quote at or after a position, or the end of the text |
| LinkExtraction.QuotedUrlAtIsUpToNextQuote | extraer_tienda_links.py:24 | a quoted URL at a position is exactly the text up to the next quote, when that text starts with http:// or https:// (ignoring case) and has more after the scheme |
| LinkExtraction.FindQuotedUrlSpec | extraer_tienda_links.py:24-27 | the search returns the quoted URL at the first position holding one, and None when no position does |
| LinkExtraction.ExtractUrlFromFormulaSpec | extraer_tienda_links.py:21-27 | extraer_url_de_formula returns the first quoted http(s) URL of the formula, and None when it has none |
| LinkExtraction.TargetFirst | extraer_tienda_links.py:46-47 | a non-empty hyperlink target is the URL, whatever the cell holds |
| LinkExtraction.FormulaSecond | extraer_tienda_links.py:49-51 | without a target, a HIPERVINCULO/HYPERLINK formula with a quoted URL gives that URL |
| LinkExtraction.FormulaIsNoGuid | extraer_tienda_links.py:50-54 | a formula never passes the GUID test, so the GUID step cannot replace a formula's result |
| LinkExtraction.GuidThird | extraer_tienda_links.py:53-55 | with neither target nor formula URL, a stripped GUID gives the prefix followed by the GUID, and anything else gives no URL |
| LinkExtraction.DetectedUrlPresent | extraer_tienda_links.py:44-55 | a detected URL is never "" |
| LinkExtraction.GuidUrlStripped | extraer_tienda_links.py:55-58 | a URL built from a GUID is already stripped |
| LinkExtraction.SomesMembers | extraer_tienda_links.py:57-58 | a pair is collected exactly when some row gives it |
| LinkExtraction.ScannedPairsMembers | extraer_tienda_links.py:57-58 | a pair is collected exactly when some row has a truthy store and a detected URL that give it, stripped |
| LinkExtraction.ScannedPairsSnoc | extraer_tienda_links.py:57-58 | scanning one more row appends that row's pair, if it gives one |
| LinkExtraction.DetectUrl | extraer_tienda_links.py:44-55 | the three URL steps, each overriding the previous only when it found nothing, compute the detected URL |
| LinkExtraction.ScanRow | extraer_tienda_links.py:41-66 | one pass of the loop computes the row's pair, if any, and its diagnostic entry |
| LinkExtraction.ScanRows | extraer_tienda_links.py:37-66 | the loop collects the pairs of the rows in row order and one diagnostic entry per row |
| LinkExtraction.DiagHead | extraer_tienda_links.py:79 | the diagnostic table is the first min(50, n) entries |
| LinkExtraction.BlankTargetGivesEmptyLink | extraer_tienda_links.py:46-58 | a blank hyperlink target is truthy, so the row gives a pair whose link is "" |
| LinkExtraction.GroupedLinks | extraer_tienda_links.py:75-76 | df_group has one row per group of the unique pairs |
| LinkExtraction.GroupLinks | extraer_tienda_links.py:72-76 | the agrupado loop and the sorted items give each store with its links joined by newlines |
| LinkExtraction.GroupedLinksSpec | extraer_tienda_links.py:68-76 | on the unique pairs of the scan, each df_group row is a store and its strictly ascending links, joined by newlines, which are exactly that store's scanned links |
| LinkDedup.FirstTrue | dedup_por_tienda.py:16-23 | the search returns the first position whose flag is set, or None when none is |
| LinkDedup.AutodetectLinkColumn | dedup_por_tienda.py:14-24 | a detected link column is a column of the table; failure is the "no link column" error |
| LinkDedup.AutodetectPreferred | dedup_por_tienda.py:16-18 | when some preferred name is a column, the first such name in prefer order is returned |
| LinkDedup.AutodetectByContent | dedup_por_tienda.py:19-23 | otherwise the first column, in table order, holding an http(s):// value is returned |
| LinkDedup.AutodetectFails | dedup_por_tienda.py:24 | detection fails exactly when no preferred name is a column and no column holds an http(s):// value |
| LinkDedup.RunDedup | dedup_por_tienda.py:32-80 | the step-by-step run computes the dedup outputs or the error |
| LinkDedup.DedupErrors | dedup_por_tienda.py:32-34 | link detection runs first; a missing "tienda" column then fails with the list of columns; otherwise the run succeeds |
| LinkDedup.CleanedBase | dedup_por_tienda.py:36-43 | a pair is in the cleaned base exactly when some row has store and link present, a link that strips to non-blank, and gives that stripped pair |
| LinkDedup.DedupPairs | dedup_por_tienda.py:46-50 | pares_unicos is strictly ascending, without repeats, a fixed point of dedup and sort, trimmed with non-empty links, and holds exactly the pairs the rows give |
| LinkDedup.DedupStores | dedup_por_tienda.py:53-59 | links_por_tienda has one row per store of the unique pairs, strictly ascending |
| LinkDedup.DedupPerStore | dedup_por_tienda.py:53-59 | each row counts its store's distinct links (at least one) and joins them, strictly ascending, by newlines |
| LinkDedup.DedupSummary | dedup_por_tienda.py:62-71 | the summary gives the original row count, the number of unique pairs, the number of stores (0 exactly when there are no pairs), a link total equal to the number of unique pairs, and the columns used |
| LinkDedup.DedupOnePerStore | dedup_por_tienda.py:76-80 | uno_por_tienda has one row per store, in order, each a unique pair carrying its store's smallest link |

## Left out

- The Streamlit interface is not modelled: page setup, sidebar, select boxes, radios, checkboxes, metrics, data frames and download buttons. The user's choices of sheet, store column and link column are parameters.
- Reading and writing files is not modelled: CSV, Excel and openpyxl workbooks, `ExcelWriter`, `BytesIO`, `Path` and `print`. Of the writer, only the 31-character sheet-name truncation is kept. Cells are given as present or missing text, and a link cell as a value with an optional hyperlink target.
- Configuration constants are parameters: paths, sheet names, column letters and the start row. The `ONE_PER_STORE` switch (dedup_por_tienda.py:11) is left out: the model always produces the one-link-per-store sheet, as the script does with its default setting. Converting a column letter to an index is a library call and is left out. The preference list of the dedup script is the `prefer` parameter. The store column name "tienda" is a constant.
- The default link column that mode 1 preselects (app_links.py:177-192) is left out. It is only the initial value of a choice the user makes, and the model takes the chosen column as a parameter. A similar search is a real step of the dedup script (`LinkDedup.AutodetectLinkColumn`), but the two differ: mode 1 looks for the substring "http" (app_links.py:188) and falls back to the first column (app_links.py:190), while the dedup script looks for `http://` or `https://` and fails when no column has one (dedup_por_tienda.py:19-24).
- The averages are left out: `round(mean, 2)` in app_links.py:234 and dedup_por_tienda.py:67 is floating point. `LinkDedup.DedupSummary` gives the integer link total and the number of stores instead; the average is their quotient.
- Pandas' type handling is not modelled. A missing value read as text becomes "nan". A value that is not text is given by the text it shows and its truth value. Numbers are not distinguished from text.
- Repeated column names behave positionally: a name lookup finds the first column of that name. Pandas' behaviour when `df[name]` returns several columns is modelled only where it makes cleaning fail (two "tienda" columns).
- StoreComparison.SideBySide: when the `merge` in app_links.py:369-374 finds a store twice in a links table, it repeats the row; the model takes the first row (`StoreComparison.JoinedLinksFirstRow`). Each aggregated table lists each store once (`AppLinks.AggregatedStores`), so this does not arise for the tables build_links produces.
- LinkPairs.SelectPairs: when the user picks the same column as store and link column, mode 1 selects it twice (app_links.py:196), and the `.str` accessor on the duplicated name fails (app_links.py:200-201). The model returns the pairs of that column with itself instead of the error.
- Two outputs whose names collide after truncation to 31 characters overwrite each other in the workbook. This is writer behaviour and is left out.
- AppLinks.DetectLinkColumns: the fallback to a column named "link" (app_links.py:115-116) is modelled, but it can never change the outcome (`AppLinks.LinkFallbackUnreachable`).
- Case-insensitive matching is exact for the fixed ASCII words compared here ("unnamed", "link", "http://", "https://"). That includes the two non-ASCII characters that Python folds to them: ſ to s and the Kelvin sign to k. General Unicode case folding is not modelled.
- The `\s` class and `str.strip()` are modelled by one whitespace set, the characters Python treats as whitespace in `str`. The information-separator characters U+001C to U+001F, which `str.strip()` removes, are included.

## Findings

| source | as written | input that shows it | evidently intended | confidence | as-written member | corrected member |
|---|---|---|---|---|---|---|
| app_links.py:352-363 | when no `link_*` column exists and a URL column is chosen, build_links keeps that column under its own name; agregar_links_por_tienda then detects no link column and gives every store an empty list | a file headed "tienda", "url" with one row ("S", "http://a"), and "url" chosen as the link column | the comment on line 354 says the chosen column is used as "link": renamed, store S gets ["http://a"] | not executed; the as-written lemmas prove it for every such input | AppLinks.BuildLinksChosenColumnExample | AppLinks.BuildLinksUsesChosenColumn |
