# CsvCount core in Dafny

CsvCount is a command-line tool for large delimited files. This project
models its core:

- **Column resolution.** `RowExtensions.GetIndex` and `GetIndices` map header
  names to positions, ignoring case. `GetIndex` takes the first match.
  `GetIndices` fills a dictionary, so the last match wins.
- **Row filters.** `MustHaveColumnsFilter` and `WhereFilter` resolve their
  column positions on the first row they see and cache them in a field.
- **The view.** `View` holds the column selection, the `Take` limit and the
  filter pipeline. `IsRowIncluded` stops at the first filter that rejects a
  row.
- **The commands of `Program`:**
  - the fast preview (`PrintFastSummary`) and the line count
    (`GetTotalRows`);
  - the filtered, projected copy (`ApplyFilter`, with `EscapeCsvCell`);
  - the one-row vertical preview (`PreviewVertical`);
  - the case-insensitive histogram (`ShowHist`);
  - the header rewrites `AdjustHeader` and `Rename`.
- **The diff.** `CsvDiff.Diff` compares two files keyed by a primary-key
  column. Its report counts two things: keys present in only one file, and
  shared keys whose tracked cells differ.

How the model is laid out:

- Files become sequences: a file's lines are a `seq<string>`, and a parsed
  file is a `Table` of column names and rows.
- What the tool writes is a result value: the output lines and the counters
  it prints.
- Exceptions are `Err` values of `Results.Result`. These cover a missing
  column, a missing header line, and the two malformed header fields that
  make `Rename` throw.
- Loops in the source are methods with loops. Each is proved equal to a
  specification function, and the meaning of that function is proved in
  lemmas.
- The filters are classes whose cache fields the `IsValid` methods update.
- `IRowFilter` is a datatype over the two filter classes.

## Model

| member | source | states |
|---|---|---|
| RowExtensions.IndexOfMeaning | CsvCount/RowExtensions.cs:27-38 | the position found is the first whose name equals the requested one ignoring case; failure means no column has that name, and reports it |
| RowExtensions.GetIndex | CsvCount/RowExtensions.cs:27-38 | the linear scan returns exactly the first case-insensitive match, or the column-not-found error |
| RowExtensions.ColumnMapMeaning | CsvCount/RowExtensions.cs:16-21 | the dictionary has every header name (folded) as a key, and maps it to the last position holding that name |
| RowExtensions.LastIndexOfMeaning | CsvCount/RowExtensions.cs:16-23 | a dictionary lookup yields the last case-insensitive match; a miss means the header lacks the name |
| RowExtensions.ResolveMeaning | CsvCount/RowExtensions.cs:12-38 | under either rule, a resolved position is a match of that rule's kind, and a failure means the name is absent |
| RowExtensions.ResolveFindsColumn | CsvCount/RowExtensions.cs:12-38 | a name resolves under either rule iff the header has it |
| RowExtensions.ResolveAllMeaning | CsvCount/RowExtensions.cs:23 | converting a list of names succeeds iff every name is present; then position k is the resolution of name k |
| RowExtensions.ResolveAllError | CsvCount/RowExtensions.cs:23 | a failed conversion reports the first missing name |
| RowExtensions.GetIndices | CsvCount/RowExtensions.cs:12-25 | filling the dictionary and then looking up every required name gives the last-match position of each, or the error of the first missing name |
| RowExtensions.ResolveAllSucceeds | CsvCount/RowExtensions.cs:23 | a list of per-name positions, all resolved, is the conversion's result |
| RowExtensions.ResolveAllFails | CsvCount/RowExtensions.cs:23 | when name k is the first missing one, the conversion fails naming it |
| RowExtensions.DuplicateNamesResolveApart | CsvCount/RowExtensions.cs:12-38 | with a name repeated in the header, GetIndex answers no later than the first copy and GetIndices no earlier than the last |
| RowExtensions.ResolveIgnoresCase | CsvCount/RowExtensions.cs:17 | names that differ only in case resolve alike under either rule |
| RowExtensions.DistinctNamesResolveAlike | CsvCount/RowExtensions.cs:12-38 | without case-insensitive duplicates in the header, first-match and last-match resolution agree |
| RowFilters.MustHaveColumnsFilter.constructor | CsvCount/RowFilters.cs:22-25 | the filter keeps its column names and starts with no cached positions |
| RowFilters.MustHaveColumnsFilter.IsValid | CsvCount/RowFilters.cs:27-44 | the answer is whether every required cell is non-blank, using GetIndices positions; the first call caches them iff it succeeds, and later calls leave the cache alone |
| RowFilters.CachedPositions | CsvCount/RowFilters.cs:35-42 | once the positions are resolved, the filter checks exactly the cells at those positions |
| RowFilters.WhereFilter.constructor | CsvCount/RowFilters.cs:53-57 | the filter keeps its column and value, with the cache at -1 |
| RowFilters.WhereFilter.IsValid | CsvCount/RowFilters.cs:58-67 | the answer is whether the cell of the first matching column equals the value, case-sensitively; the first call sets the cache to a valid position on success and leaves -1 on failure; a set cache never changes |
| RowFilters.RowFilter.IsValid | CsvCount/RowFilters.cs:11-14 | calling the interface method gives the answer of whichever filter kind is behind it. Its cache stays consistent with the header. A resolved cache never changes, a successful call leaves the cache resolved, and a failing call leaves it as it was |
| RowFilters.NoRequiredColumnsAcceptsAll | CsvCount/RowFilters.cs:35-43 | a filter with no required columns accepts every row |
| RowFilters.MustHaveColumnsMeaning | CsvCount/RowFilters.cs:27-44 | a row passes iff every named column exists and its cell, at the last match, has a non-whitespace character |
| Views.View.GetSelectedIndices | CsvCount/View.cs:24-33 | without a selection, every column in order. Otherwise one first-match position per selected name, in selection order. It fails iff some selected name is missing, and then reports the first missing one |
| Views.View.IsRowIncluded | CsvCount/View.cs:35-53 | the answer is the AND of the filters in order (true without filters). Filters after the first rejecting one keep their caches. No resolved cache changes. Every filter that was run and answered has its positions resolved |
| Views.RunFilters | CsvCount/View.cs:43-52 | the loop over the filters answers the pipeline's verdict. Filters after the first rejecting one keep their caches, no resolved cache changes, and every filter that answered is resolved |
| Views.InvokeFilter | CsvCount/View.cs:45 | one filter call answers that filter's verdict. It touches no other filter's cache and changes no resolved cache, and a successful call leaves the called filter resolved |
| Views.PipelineAcceptsMeaning | CsvCount/View.cs:43-52 | the pipeline accepts iff every filter accepts; otherwise its answer is that of the first filter that does not accept |
| Views.EvaluatedMeaning | CsvCount/View.cs:43-52 | an accepted row runs every filter; otherwise exactly the filters up to and including the first rejecting one run |
| CsvWriter.EscapeCsvCell | CsvCount/Program.cs:574-586 | a null cell is written empty; otherwise the output holds a double quote iff the cell has a comma; stripping one pair of surrounding quotes gives the cell with `"` turned into `'` |
| CsvWriter.EscapePlainCell | CsvCount/Program.cs:580-585 | a cell without quotes or commas is written unchanged |
| CsvWriter.EscapeRoundTrip | CsvCount/Program.cs:580-585 | a cell without double quotes is read back exactly, commas included |
| CsvWriter.Ascending | CsvCount/Program.cs:456-467 | the positions visited are exactly the selected positions below the column count, in strictly increasing order |
| CsvWriter.SelectedCellsInOrder | CsvCount/Program.cs:483-495 | a written line holds each selected column's cell once, in source column order, whatever the order or repetitions of the selection |
| CsvWriter.WriteSelected | CsvCount/Program.cs:455-468 | the comma-separated line of the selected cells, with no leading comma |
| CsvWriter.PrintFastSummary | CsvCount/Program.cs:521-554 | every line is counted; the lines written are the file's first N-1 lines (N is Take, or 5), never more than the file has |
| CsvWriter.FastPathOneShort | CsvCount/Program.cs:541 | with Take = t ≥ 1 the fast path writes t-1 lines, where the filtered copy would write up to t rows |
| CsvWriter.GetTotalRows | CsvCount/Program.cs:557-571 | the count is the number of lines |
| CsvWriter.ScanRows | CsvCount/Program.cs:471-505 | the row loop never reads more rows than there are and writes one line per counted row |
| CsvWriter.ApplyFilter | CsvCount/Program.cs:440-516 | the fast path is taken iff there is neither a selection nor filters. Otherwise: a missing selected column fails before any output; then come the header line and the scan of the rows. The filters stay consistent, and no filter whose positions were resolved resolves them again |
| CsvWriter.CopyRows | CsvCount/Program.cs:471-505 | the row loop with its counters and the early stop computes the specified scan; resolved filter caches are kept from row to row |
| CsvWriter.ProcessRow | CsvCount/Program.cs:476-496 | the row's inclusion is the view's verdict; an included row is written as its selected cells, escaped and comma-separated; resolved filter caches are kept |
| CsvWriter.KeptRows | CsvCount/Program.cs:476-480 | the rows the view includes, in order, never more than there are |
| CsvWriter.ScanCounts | CsvCount/Program.cs:471-509 | without a failure, skipped + written equals rows read. A failure is the error of the last row read and never comes with an early stop. A scan that neither stops nor fails reads every row |
| CsvWriter.ScanKeptCount | CsvCount/Program.cs:498-504 | when no filter fails, the rows written are the included rows, up to the Take quota. The loop stops early iff the quota is reached |
| CsvWriter.ScanWritesKept | CsvCount/Program.cs:482-496 | when no filter fails, the lines written are those of the first included rows, in order |
| CsvWriter.CopiedWritesKept | CsvCount/Program.cs:448-516 | the header line comes first, then the included rows. Without Take, all of them are written. With Take t ≥ 1, min(t, kept) are written, stopping early iff t ≤ kept. With Take ≤ 0, one row is written if there is any |
| Preview.FirstIncludedFrom | CsvCount/Program.cs:415-420 | a row found lies within the rows searched |
| Preview.FirstIncludedMeaning | CsvCount/Program.cs:415-432 | a found row is included and every earlier row excluded; nothing is found iff every row is excluded |
| Preview.FirstIncludedFails | CsvCount/Program.cs:417 | a failed search carries the error of a row whose filters fail, all earlier rows being excluded |
| Preview.VerticalLinesInOrder | CsvCount/Program.cs:422-429 | one `name: value` line per selected column, in ascending column order |
| Preview.PreviewVertical | CsvCount/Program.cs:405-434 | prints the selected cells of the first included row and stops; prints nothing when no row is included; filter failures propagate; resolved filter caches are kept |
| Preview.PreviewShowsFirstKept | CsvCount/Program.cs:415-432 | when no filter fails, the previewed row is the first row ApplyFilter would write, and none is shown iff none would be written |
| Preview.FirstKept | CsvCount/Program.cs:415-432 | the same from any starting row |
| Histogram.Tally | CsvCount/Program.cs:316-324 | every count in the dictionary is at least 1 |
| Histogram.TallyMeaning | CsvCount/Program.cs:311-324 | one entry per value ignoring case. Its count is the number of cells equal to the value in any case. Its key keeps the spelling of the first occurrence |
| Histogram.TallySum | CsvCount/Program.cs:316-324 | the counts add up to the number of rows |
| Histogram.CountAtMostTotal | CsvCount/Program.cs:316-324 | no count exceeds the number of rows |
| Histogram.ShowHist | CsvCount/Program.cs:309-324 | counts `total` rows and the case-insensitive dictionary of the histogram column (first match), or fails when that column is missing |
| Histogram.HistogramTotals | CsvCount/Program.cs:309-324 | fails iff the column is missing. Otherwise total is the row count, the counts sum to it, and each count lies between 1 and total |
| Histogram.Wrap32 | CsvCount/Program.cs:330 | the result is in C# `int` range, congruent to the input modulo 2^32, and never above a non-negative input |
| Histogram.PercentOverflows | CsvCount/Program.cs:330 | with 21474837 rows all holding one value, the source prints -99%; the intended percentage is 100 |
| Histogram.Percent | CsvCount/Program.cs:330 | the truncated percentage: r·total ≤ 100·count < (r+1)·total, and at most 100 when count ≤ total |
| Histogram.PercentAsWrittenSmall | CsvCount/Program.cs:330 | below the overflow the source's arithmetic gives exactly the intended percentage |
| Histogram.PercentAsWrittenAtMost100 | CsvCount/Program.cs:330 | a count no larger than the total never prints above 100%, with or without overflow |
| Histogram.ReportPercentages | CsvCount/Program.cs:328-331 | every printed line, with the percentage computed as the source does, has a count between 1 and the number of rows and a percentage of at most 100. When 100 times the row count fits in an `int`, the printed lines are the intended ones and no percentage is negative |
| HeaderTools.AdjustHeader | CsvCount/Program.cs:263-306 | writes the new header (tab-delimited if the first line is), then the first line unless it is dropped, then every later line; an empty file gives nothing |
| HeaderTools.AdjustedShape | CsvCount/Program.cs:274-304 | an empty file gives no output. Otherwise the output has one line more for a new header and one less for a dropped one, ends with every line after the first, starts with the new header, and with no option is the file itself |
| HeaderTools.ReplaceHeader | CsvCount/Program.cs:282-299 | replacing the header of a comma file writes the new header followed by the data lines |
| HeaderTools.HeaderForTabs | CsvCount/Program.cs:285-288 | the header for a tab file has the same length, has no comma left, and changes no other character |
| HeaderTools.RenameFrom | CsvCount/Program.cs:344-356 | a successful conversion has one name per header field |
| HeaderTools.RenameFromSucceeds | CsvCount/Program.cs:344-356 | the conversion succeeds iff every field converts; each new name is its field stripped of quotes, or the destination when it equals the source name ignoring case |
| HeaderTools.RenameFromFails | CsvCount/Program.cs:344-356 | a failed conversion reports the first field that does not convert |
| HeaderTools.RenameWithoutMatch | CsvCount/Program.cs:341-369 | when every header field is non-empty, unquoted and different from the source name, the file is written back unchanged |
| HeaderTools.Rename | CsvCount/Program.cs:334-377 | writes the renamed header, joined by commas, then every later line unchanged. An empty file or a malformed header field fails |
| HeaderTools.RenamedHeaderFields | CsvCount/Program.cs:341-369 | after a rename whose destination has no comma, the new header splits into one renamed field per old field; the line count and every data line are kept |
| HeaderTools.RenameRejectsBrokenHeader | CsvCount/Program.cs:347-349 | an empty header field, or a field that is a lone `"`, makes the rename fail at that field |
| CsvDiff.GetKeys | CsvCount/CsvDiff.cs:79-95 | one pair per row, in row order |
| CsvDiff.GetKeysMeaning | CsvCount/CsvDiff.cs:79-95 | fails iff the key or a tracked column is missing, naming it. Otherwise row k gives its lower-cased key cell and the lower-cased `;`-join of its tracked cells, all at first matches |
| CsvDiff.FillMapKeys | CsvCount/CsvDiff.cs:29-35 | the first pass maps exactly the keys of file 1 |
| CsvDiff.FillMapMeaning | CsvCount/CsvDiff.cs:29-35 | each key maps to the tracked cells of the last row of file 1 with that key |
| CsvDiff.FillMapUnique | CsvCount/CsvDiff.cs:29-35 | with unique keys, each row's key maps to its own tracked cells |
| CsvDiff.ReconcileLeftover | CsvCount/CsvDiff.cs:40-62 | after the second pass, what is left of the map is the first-pass map without the keys of file 2 |
| CsvDiff.ReconcileKeyCount | CsvCount/CsvDiff.cs:40-62 | with unique keys in file 2, the pass counts the keys of file 2 absent from the map once each |
| CsvDiff.ReconcileExtrasCount | CsvCount/CsvDiff.cs:40-62 | with unique keys in file 2, the pass counts the shared keys whose tracked cells differ once each |
| CsvDiff.FirstPass | CsvCount/CsvDiff.cs:28-35 | counts the rows of file 1 and builds the last-wins map |
| CsvDiff.SecondPass | CsvCount/CsvDiff.cs:39-62 | counts the rows of file 2 and computes the specified reconciliation: what is left of the map and both counters |
| CsvDiff.Diff | CsvCount/CsvDiff.cs:18-77 | reports both counters (the leftover keys added to the different keys), their total and both row counts; a missing column fails |
| CsvDiff.CompareCounts | CsvCount/CsvDiff.cs:18-68 | with unique keys in file 2: different keys are those in exactly one file; value differences are the shared keys whose tracked cells differ; total is their sum; the row counts are the file lengths |
| CsvDiff.CompareSymmetric | CsvCount/CsvDiff.cs:11-12 | with unique keys in each file, swapping the files leaves both counters and the total unchanged |
| CsvDiff.DuplicateKeyAsymmetry | CsvCount/CsvDiff.cs:40-65 | a key repeated in file 2 breaks the symmetry: one row against two rows gives one different key, the other way round none |
| CsvDiff.MismatchExample | CsvCount/CsvDiff.cs:44-50 | a shared key with different tracked cells is one value difference and no key difference |

## Left out

- File and console I/O are not modelled. `StreamReader`, `TextWriter` and `DataTable.New.ReadLazy` become sequences of lines or a parsed `Table`. The lazy row enumeration becomes a finite sequence.
- The console messages are not modelled: progress dots, `[n columns]`, `[File has n rows]`, the stop message, `Where clause skipped`, `Total rows` and the histogram title. The counters those messages print are modelled.
- The `DataAccess` library is not part of this model. `DataTable.GetColumnIndex` is taken to be the first case-insensitive match, like `GetIndex`. CSV parsing is assumed to give every row one cell per header column, which is a precondition here.
- `GetStats` and the diff error rate are not modelled, because both use floating point. The error rate also divides by zero when both files are empty.
- Case folding is ASCII only. .NET's ordinal case-insensitive comparison also folds non-ASCII letters.
- Counters are unbounded integers. Only the histogram percentage, whose overflow is reachable, models 32-bit wrap-around.
- Histogram.Report: the dictionary's enumeration order is not modelled; the printed lines are a set. It requires fewer than 2^31 rows, because beyond that the source's `int` row counter itself wraps.
- Cells, column names and header lines are non-null strings. The source's null cases are not modelled: `IsNullOrWhiteSpace(null)` in MustHaveColumnsFilter, `string.Equals(null, value)` in WhereFilter, `ToLower()` of a null cell in GetKeys, and a null histogram key. Only EscapeCsvCell takes a nullable cell, and ApplyFilter never passes it null.
- Views.View.IsRowIncluded: a filter object shared between two positions of the pipeline is not tracked beyond the first call; the frame states that filters on other objects keep their caches.
- RowFilters.MustHaveColumnsFilter.IsValid, RowFilters.WhereFilter.IsValid, RowFilters.RowFilter.IsValid, Views.InvokeFilter, Views.RunFilters, Views.View.IsRowIncluded, CsvWriter.ProcessRow, CsvWriter.CopyRows, CsvWriter.ApplyFilter, Preview.PreviewVertical: each requires that every filter cache already set was resolved against the same header. The source builds one view per file and never mixes headers, and a view reused on a file with another header is not modelled.
- The helper methods `ProcessRow`, `CopyRows`, `RunFilters`, `InvokeFilter`, `FirstPass` and `SecondPass` split one source method each so that proofs stay small. Together they do what the source's loop does.
- Exceptions become `Err` values. `KeyNotFoundException`, `InvalidOperationException`, `NullReferenceException`, `IndexOutOfRangeException` and `ArgumentOutOfRangeException` become `ColumnNotFound`, `NoHeaderLine`, `EmptyHeaderField` and `LoneQuoteField`. The console output written before an error is not modelled.

## Findings

| source | as written | input that shows it | evidently intended | confidence | as-written member | corrected member |
|---|---|---|---|---|---|---|
| CsvCount/Program.cs:330 | `kv.Value * 100 / total` multiplies in unchecked 32-bit `int` | a histogram column of 21474837 rows all holding one value: 21474837 * 100 wraps to -2147483596, and -99% is printed | the truncated percentage `count * 100 / total`, here 100% (Histogram.IntendedReport prints it) | high (arithmetic), not executed | Histogram.PercentOverflows | Histogram.Percent |
