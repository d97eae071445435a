# csvtable query engine in Dafny

This project models the core of `csvtable.js`, a script that loads a CSV
source and renders it as one or more HTML tables. Each table is declared
with a small configuration language:
- a columns attribute: `key: Header [type:number; decimals:2]; ...`;
- static filters: `Region=East; Name~an; Status<>Closed`;
- an aggregation map: `Sales: sum; Name: first`;
- an optional group-by column.

The model covers the path from CSV text to the rows and totals a table
shows:
- the CSV loader: `parseCsvLine` and `parseCsv`;
- the configuration parsers: `splitOutsideBrackets`, `parseColumns`,
  `parseStaticFilters` and `parseAgg`;
- the data store: `buildHeaderIndex`, `getRowSourceValue` and `mapRows`;
- the filter engine: `staticFilterPredicate` and `applyDynamicFilters`;
- the aggregation engine: `AGG_FUNCS` and `groupAndAggregate`;
- the sort engine: the header click cycle in `setupSort`, and `applySort`;
- `computeTotals`;
- the order in which `renderTable` chains these stages.

Everything is pure functions over immutable datatypes, plus four methods:
`computeTotals` with its nested loops (`Totals.ComputeTotals`,
`Totals.AccumulateRow`, `Totals.AddColumn`) and `Pipeline.Render`. The JavaScript built-ins whose
results are not specified here are parameters of an `Env` record
(`Records.Env`):
- `parseFloat`, returning `None` for `NaN`;
- `String(number)`;
- the collation order behind `localeCompare`, given as a real-valued rank.

The modules follow the script's sections:

| file | module | models |
|---|---|---|
| wrappers.dfy | Wrappers | `Option` |
| seqs.dfy | Seqs | `filter`, `map`-then-filter, distinct values, sums |
| strings.dfy | Strings | `trim`, `split`, `join`, `indexOf`, `lastIndexOf`, `includes`, `toLowerCase`, `parseInt` |
| csv.dfy | Csv | `parseCsvLine`, `parseCsv` |
| dsl.dfy | Dsl | `splitOutsideBrackets`, `parseColumns`, `parseStaticFilters`, `parseAgg` |
| records.dfy | Records | mapped rows, output rows, cell values, the host functions |
| store.dfy | Store | `buildHeaderIndex`, `getRowSourceValue`, `mapRows` |
| filters.dfy | Filters | `staticFilterPredicate`, `applyDynamicFilters` |
| aggregate.dfy | Aggregation | `AGG_FUNCS`, `groupAndAggregate` |
| sorting.dfy | Sorting | the click cycle, `applySort` |
| totals.dfy | Totals | `computeTotals`, the footer placeholder |
| pipeline.dfy | Pipeline | the stage order of `renderTable` |

## Model

| member | source | states |
|---|---|---|
| Strings.Trim | csvtable.js:82 | The result has no whitespace at either end, and a string already trimmed is returned unchanged. |
| Strings.TrimIsInnerSlice | csvtable.js:82 | The result is a slice `s[a..b]` of the input with only whitespace outside it, so trimming removes the outer whitespace and nothing else. |
| Strings.Split | csvtable.js:87 | There is one more piece than there are separators, no piece holds the separator, and joining the pieces gives back the text. |
| Strings.SplitJoin | csvtable.js:87 | Splitting inverts joining when no part contains the separator. |
| Strings.IndexOf | csvtable.js:135 | `None` exactly when the character is absent; otherwise the position of its first occurrence. |
| Strings.LastIndexOf | csvtable.js:144 | `None` exactly when the character is absent; otherwise the position of its last occurrence. |
| Strings.IndexOfString | csvtable.js:187 | `None` exactly when the pattern occurs nowhere from `from` on; otherwise the first position where it occurs. |
| Strings.ParseIntNatToString | csvtable.js:169 | `parseInt` reads back the decimal text of any natural number. |
| Csv.ScanFields | csvtable.js:53-84 | Every field the tokenizer emits is trimmed. There is at most one field per comma, and exactly one per comma when the line has no quote characters. |
| Csv.ParseCsvLine | csvtable.js:53-84 | A line gives between one field and one more than its number of commas, all trimmed. Without quote characters it gives exactly one more than its number of commas. |
| Csv.UnquotedLineIsSplit | csvtable.js:53-84 | A line without quote characters parses to its comma-separated pieces, each trimmed. |
| Csv.PlainRoundTrip | csvtable.js:53-84 | Trimmed fields without commas or quote characters, joined with commas, parse back to themselves. |
| Csv.ScanEscaped | csvtable.js:61-71 | Inside a field quoted with `"` or `'`, a doubled quote character is read as one, other characters are kept, and the closing quote leaves the quoted state. |
| Csv.LateQuoteIsLiteral | csvtable.js:72-79 | A quote character met after the field has started is kept as an ordinary character. |
| Csv.QuotedRoundTrip | csvtable.js:53-84 | Any fields, quoted with `"` or with `'` (inner occurrences of that quote doubled) and joined with commas, parse back to the trimmed fields: one field per input field. The fields may contain commas and both quote characters. |
| Csv.MixedRoundTrip | csvtable.js:53-84 | A line whose fields are each written plain (trimmed, no comma, no quote character) or quoted with `"` or `'`, mixed freely and joined with commas, parses back to the trimmed fields, one field per written field; so its field count is one more than the commas met outside quotes. |
| Csv.MixedLineExample | csvtable.js:53-84 | The line `a,"b,c",d` parses to the three fields `a`, `b,c` and `d`. |
| Csv.BlankLineSkipped | csvtable.js:99 | A blank line adds no row, wherever it stands. |
| Csv.NonBlankKept | csvtable.js:99-102 | A non-blank line is kept as a row. |
| Csv.ParseRows | csvtable.js:98-103 | Every data row has exactly as many cells as there are headers: short rows are padded with `""` and long rows are cut. |
| Csv.ParseCsv | csvtable.js:86-106 | The table is rectangular and its headers are trimmed. It has no headers exactly when there are no lines or the first line (after a blank last line is dropped) is blank, and then it is the empty table; so is any text made only of whitespace. |
| Csv.SerializeRoundTrip | csvtable.js:86-106 | A table of safe fields, written as comma-separated lines and loaded again, is the same table. |
| Dsl.FeedSegments | csvtable.js:114-124 | Each step of the bracket-aware splitter keeps the segments found so far. It adds only trimmed, non-blank segments, at most one per `;`. |
| Dsl.SplitOutsideBrackets | csvtable.js:109-127 | The segments are trimmed and non-blank, and there are at most one more than the value has `;`. |
| Dsl.SplitFlat | csvtable.js:109-127 | A value without brackets splits into its trimmed non-blank `;`-pieces. |
| Dsl.BracketBlock | csvtable.js:114-121 | A bracketed block whose brackets match, nested blocks included, joins the current segment whole, `;` included, and the depth is restored afterwards. |
| Dsl.FeedInside | csvtable.js:114-121 | While the depth stays above 0, text is appended to the current segment verbatim, no segment is emitted, and the depth moves by the text's net bracket count. |
| Dsl.StrayCloseClamped | csvtable.js:116-118 | A `]` with no bracket open leaves the depth at 0, so a later `;` still splits. |
| Dsl.SplitPair | csvtable.js:135-139 | `None` exactly when there is no `:`. Otherwise the key holds no `:` and is trimmed, and the value is trimmed. |
| Dsl.SplitPairJoin | csvtable.js:135-139 | A trimmed key without `:`, written before `:` and a value, is read back as that key and the trimmed value. |
| Dsl.ApplyOptions | csvtable.js:162-175 | Applying options never changes the key or the source header. |
| Dsl.ApplyOptionsLastWins | csvtable.js:162-175 | After the options are applied in order, every option has the value of the last piece naming it. An option no piece names keeps its default. |
| Dsl.UnknownOptionsIgnored | csvtable.js:162-175 | Pieces that name no known option leave the column unchanged. |
| Dsl.HeaderAndOptionsSplit | csvtable.js:141-149 | With an option block, the right side is `pre [options] post`, with no `[` in `pre` and no `]` in `post`, and the header is `pre` trimmed. Without a block, the header is the whole side and there are no options. |
| Dsl.ParseColumnSpec | csvtable.js:134-178 | A segment gives a column exactly when it holds a `:`. The column's key holds no `:` and is trimmed. |
| Dsl.ParseColumns | csvtable.js:129-181 | There is at most one column per segment, and every key is trimmed and free of `:`. |
| Dsl.PlainColumnSpec | csvtable.js:151-160 | A spec without an option block gives the default column: text type, 0 decimals and no totals. |
| Dsl.ColumnSpecWithOptions | csvtable.js:141-175 | A spec with an option block gives the default column configured by the block's pieces, with the last piece naming an option winning. |
| Dsl.ParseFilterSpec | csvtable.js:184-194 | The segment is not a filter exactly when it holds none of `<>`, `~` and `=`. It is `neq` exactly when it contains `<>`, and `contains` exactly when it has `~` but no `<>`. The column and the value are trimmed. |
| Dsl.FilterRoundTrip | csvtable.js:184-194 | A writable filter, written as `column op value`, reads back as the same filter. |
| Dsl.StaticFiltersRoundTrip | csvtable.js:183-196 | Writable filters, joined with `;`, parse back to the same filters in order. |
| Dsl.AggLastWins | csvtable.js:198-206 | A key is in the aggregation map exactly when some piece names it. Its value is the lower-cased value of the last piece naming it. |
| Records.Lift | csvtable.js:320 | The ungrouped output row is the input row with only the `_isGroup` mark set: the mapped row can be read back from it unchanged. |
| Store.HeaderIndexDomain | csvtable.js:209-214 | The header index covers exactly the headers. |
| Store.HeaderIndexLast | csvtable.js:209-214 | A repeated header is indexed at its last occurrence. |
| Store.HeaderIndexUnique | csvtable.js:209-214 | A header that occurs once is indexed at its own position. |
| Store.SourceValueAtHeader | csvtable.js:254-258 | Under a header that occurs once, a row gives the cell at that header's position. |
| Store.ColumnFieldsDomain | csvtable.js:483-494 | A mapped row has a field exactly for each column key. |
| Store.ColumnFieldsLastWins | csvtable.js:483-494 | When two columns share a key, the later one decides the field's value. |
| Store.MapRow | csvtable.js:481-502 | For every header, a mapped row's `_source` gives the same value as `getRowSourceValue` on the raw row. It has a field exactly for each column key, holding the cell under the source header of the last column with that key. |
| Store.MapRows | csvtable.js:478-504 | There is one mapped row per CSV row, in order. Row `i` gives every header's cell of CSV row `i` through `_source`, has a field for exactly the column keys, and each field holds the cell under the source header of the last column with that key. |
| Filters.StaticAcceptsAll | csvtable.js:260-271 | The filter loop accepts a row exactly when every filter passes, so an empty filter list accepts every row. |
| Filters.StaticStageMembers | csvtable.js:516 | A row survives the static stage exactly when it is an input row and passes every filter on its raw cells. |
| Filters.StaticPredicateReadsSource | csvtable.js:254-271 | On a mapped row, the intended predicate tests each filter against the CSV cell under the filter's column. |
| Filters.AsWrittenIgnoresRow | csvtable.js:254-258 | Unless some column key is a decimal numeral, the predicate as applied reads `""` for every filter. Its verdict then does not depend on the row. |
| Filters.AsWrittenDropsMatchingRow | csvtable.js:516 | On a concrete table, the predicate as applied rejects a row that the intended predicate accepts. |
| Filters.DynamicAcceptsAll | csvtable.js:276-286 | A row passes exactly when its raw cell equals the value of every binding that demands one. A missing control, `""` and `All` demand nothing. |
| Filters.UnconstrainedKeepsAll | csvtable.js:273-288 | When no control demands a value, every row passes, in order. |
| Filters.DynamicStageOrder | csvtable.js:273-288 | The dynamic stage distributes over concatenation: it only drops rows and keeps the order of the rest. |
| Filters.DynamicStageMembers | csvtable.js:273-288 | A row survives the dynamic stage exactly when it is an input row that matches every control demanding a value. |
| Aggregation.ResolveAgg | csvtable.js:344 | A name resolves to `first` exactly when it is `first` or unknown, and to `mean` exactly when it is `mean` or `avg`. |
| Aggregation.ResolveAggName | csvtable.js:291-317 | Every aggregate function is found under its own name. |
| Aggregation.SumOfParsed | csvtable.js:292-294 | `sum` is the sum of the values that parse; the others count as 0. |
| Aggregation.CountOf | csvtable.js:295-297 | `count` is the number of values that are not `""`. So it equals the number of values exactly when none is `""`, and is 0 exactly when all are. |
| Aggregation.MinOf | csvtable.js:303-306 | The minimum is one of the numbers and no number is smaller. |
| Aggregation.MaxOf | csvtable.js:307-310 | The maximum is one of the numbers and no number is larger. |
| Aggregation.MeanBetweenMinAndMax | csvtable.js:298-310 | When some value parses, `min <= mean <= max`. |
| Aggregation.NUniqueCountsValues | csvtable.js:311-313 | `nunique` is the size of the set of values. |
| Aggregation.Aggregate | csvtable.js:291-317 | `sum` is the sum of the parsed values. `count` counts the non-empty values. `mean`, `min` and `max` are 0 when no value parses; otherwise `mean` is the average of the parsed values, between `min` and `max`, and `min`/`max` are the smallest/largest parsed value. `nunique` is the size of the set of values. `first` is the first value, or `""` for none. Only `first` gives text. |
| Aggregation.FirstOf | csvtable.js:314-316 | `first` is the first value, or `""` when there is none. |
| Aggregation.ChooseAggName | csvtable.js:343 | A non-empty entry for the source header wins; otherwise a non-empty entry for the key; otherwise `sum` for a number column and `first` for a text column. The name is never empty. |
| Aggregation.AddNewKey | csvtable.js:330-334 | A new key opens a group at the end of the map's insertion order. |
| Aggregation.AddKnownKey | csvtable.js:330-334 | A known key appends the row to its own group and leaves the other groups alone. |
| Aggregation.CollectGroupsIsReference | csvtable.js:328-335 | The group fold builds one group per distinct key, in first-seen order, and each group holds exactly the rows with that key, in order. |
| Aggregation.GroupsPartitionRows | csvtable.js:328-335 | The multiset of all rows the groups hold equals the multiset of the input rows, so every row is in exactly one group, and the group sizes add up to the number of rows. |
| Aggregation.FindGroupColumn | csvtable.js:322-324 | The found column is the first whose key or source header is the group-by name. `None` means no column matches. |
| Aggregation.GroupFieldsKey | csvtable.js:339-342 | A group row's group column holds the group's key. |
| Aggregation.GroupFieldsColumn | csvtable.js:338-347 | A group row's field for a column whose key no later column repeats is the key or that column's aggregate. |
| Aggregation.GroupAndAggregate | csvtable.js:319-352 | There are never more output rows than input rows. Without a group-by name, every row passes through unchanged, in order, marked as not grouped. With a group-by name that matches no column, every row passes through unchanged, in order, with no mark. |
| Aggregation.OneRowPerDistinctKey | csvtable.js:319-352 | With a matching group column there is exactly one row per distinct key, in first-seen order. Each is marked as a group, holds its key in the group column, and aggregates exactly the rows with that key. |
| Sorting.Click | csvtable.js:365-375 | A new column sorts ascending, ascending turns descending, and descending clears both the index and the direction. The same column with no direction sorts ascending. |
| Sorting.ClickWellFormed | csvtable.js:365-375 | The index and the direction are always set or cleared together, and a sorted state names the column last clicked. |
| Sorting.ClickCycle | csvtable.js:365-375 | Three clicks on one header of an unsorted table go ascending, descending, then unsorted. |
| Sorting.SortedByPairs | csvtable.js:402-409 | In sorted output, any earlier row's key is no larger than any later row's key. |
| Sorting.SortBy | csvtable.js:400-411 | The sort result is a permutation of its input, ordered by the key. |
| Sorting.SortByStable | csvtable.js:402-409 | The sort is stable: the rows with any one key keep their input order. |
| Sorting.ApplySort | csvtable.js:393-412 | With no column, a missing column or no rows, the rows come back unchanged. Otherwise the result is a permutation of the rows ordered by the active comparator. |
| Sorting.ApplySortStable | csvtable.js:393-412 | Rows that compare equal keep their relative order. |
| Sorting.DescendingReversesKeys | csvtable.js:397-409 | In descending order one row sorts before another exactly when it would sort after it in ascending order. |
| Totals.AddColumn | csvtable.js:450-456 | One column step adds the cell to the total under the column's key and, when the column is in the row total, to the running row total. |
| Totals.AccumulateRow | csvtable.js:447-458 | After a row, the totals hold every number column's key, each at its reference total over the rows so far. The row total is the reference row total. |
| Totals.ComputeTotals | csvtable.js:444-461 | There is one row total per row, each the sum of its row-total columns, and the grand total is their sum. The totals cover the number-column keys, or nothing when there are no rows, and each is the reference total for its key. |
| Totals.KeyTotalByColumns | csvtable.js:444-461 | The total under a key is the column's sum counted once for every number column with that key. |
| Totals.SingleColumnTotal | csvtable.js:444-461 | When one number column alone has a key, the total under that key is the column's sum. |
| Totals.GrandTotalByColumns | csvtable.js:444-461 | The grand total equals the sum of the row-total columns' sums. |
| Totals.TextFooterPolicy | csvtable.js:563-564 | A text column's footer shows `null` when no row is shown. It is blank otherwise, unless a number column shares its key. |
| Pipeline.VisibleMembers | csvtable.js:514-516 | A mapped row reaches the grouping stage exactly when it maps a CSV row that passes every static filter and matches every control demanding a value. Both tests read the row's own cells. |
| Pipeline.Render | csvtable.js:506-525 | At most one shown row per CSV row, and exactly one row total per shown row. Ungrouped, the shown rows are a permutation of the visible rows, and without an active sort they keep source order. Grouped, there is one row per distinct key. |

## Left out

- `loadSource`: it fetches the source over the network or reads a script element, which are I/O. The model starts from the CSV text.
- `renderTable`'s DOM work is left out: `ensureTableParts`, row and cell creation, CSS classes, `data-*` attributes and the "No data" row. Only the order of its stages and the footer placeholder are modelled.
- `resolveTemplateTags`, `setupFilters`, `mergeDeclarativeConfig`, `init` and the `DOMContentLoaded` hookup are DOM traversal and event wiring.
- The `onFilter` and `onRender` hooks are user callbacks.
- The header-class toggling in `setupSort` is DOM work; only the click cycle is modelled.
- `formatNumber` and `formatValue`: they depend on `Intl.NumberFormat` and on user-supplied formatters. The footer is modelled for text columns only.
- `parseFloat`, `String(number)` and `localeCompare` are parameters of the model. A number produced by an aggregate is taken to read back as itself.
- `NaN` and the infinities are not modelled. `NaN` appears only as "does not parse".
- Strings.ToLower: only ASCII letters are folded; JavaScript's `toLowerCase` folds every Unicode letter.
- Strings.ParseInt: JavaScript numbers lose precision beyond 2^53; the model keeps the exact integer.
- Objects are modelled as maps. Inherited prototype properties such as `constructor` or `__proto__` used as keys, and a column key `_source` that overwrites the mapped row's source object, are not modelled.
- Aggregation.CountOf: `null` values are not modelled, because cells of a mapped row are always strings.
- MeanBetweenMinAndMax: arithmetic is exact real arithmetic. In IEEE doubles the mean of three `0.1` values is `0.10000000000000002`, above the maximum, so the lemma holds of the model, not of the program's doubles.
- KeyTotalByColumns: it regroups the sum by columns, which holds for exact reals; with doubles the reordered sum may differ by rounding.
- GrandTotalByColumns: it regroups the sum by columns, which holds for exact reals; with doubles the reordered sum may differ by rounding.
- Totals.ComputeTotals and Aggregation.Aggregate: sums and the mean are exact reals; the program rounds each addition and the division to a double.
- StaticStageMembers: it describes the corrected static stage of "## Findings", which reads each filter's column from `_source`. The code as written reads `""` for every filter (Filters.AsWrittenIgnoresRow), so the table it shows can differ.
- VisibleMembers: it uses the corrected static stage of "## Findings", not the predicate as `renderTable` applies it at line 516.
- Render: its rows pass through the corrected static stage of "## Findings", not the predicate as `renderTable` applies it at line 516. The program can show different rows: as written every filter reads `""` when no column key is a numeral, so an `=` or `~` filter with a non-empty value drops every row and a `<>` filter with a non-empty value keeps every row.
- Sorting.ApplySort: JavaScript's `sort` accepts any consistent comparator. The model represents `localeCompare` by a real-valued rank and uses a stable insertion sort. That is the ordering a stable sort gives under the same comparator.

Three behaviours of the code worth noting, which the model keeps:
- `count` counts every value that is not `""`, so `["10", "20", "x", ""]` gives 3.
- `applyDynamicFilters` applies every binding, whether or not it is marked static, so `Filters.Binding` has no such mark.
- `decimals` may be negative: `parseInt("-3", 10)` is -3.

## Findings

| source | as written | input that shows it | evidently intended | confidence | as-written member | corrected member |
|---|---|---|---|---|---|---|
| csvtable.js:516, csvtable.js:254-258 | `renderTable` passes the mapped row objects to the static predicate. `getRowSourceValue` then reads `sourceRow[idx]` as a numeric property of the mapped object, which exists only when a column key is a decimal numeral. Every filter therefore sees `""`. | Headers `Region`, one row `East`, columns `col1: Region`, static filter `Region=East`: the row is dropped, so the table is empty. | Test each filter against the row's raw cell under the filter's column, which the mapped row keeps in `_source`. | not executed | Filters.AsWrittenDropsMatchingRow | Filters.StaticPredicateReadsSource |
