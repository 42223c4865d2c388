# CSV extraction viewer: the extraction rule and its result slot

The viewer (`codever1.py`) loads a CSV export, keeps a fixed selection of its
rows and columns, shows the selection in a grid and saves it as a workbook.
This project models the part with real logic:

- **The extraction rule** (module `Extraction`, built on the DataFrame
  operations of module `Frames`). It starts from a parsed table: a header and
  rows of cells, where a cell is `None` when the value is missing (NaN). It
  takes rows 1, 2 and 3 when they exist. Then it takes every row from position
  70 on whose `"Unnamed: 9"` cell is present. Both groups are cut down to 21
  fixed column positions, concatenated (forced rows first) and stripped of exact
  repeats, keeping first occurrences. Loading is refused when the header has no
  `"Unnamed: 9"` column. It also fails when a kept column position is not a
  column of the input (input width at most 160).
- **The result slot** (module `Viewer`, class `App`). The current result starts
  empty. Only a successful load replaces it, and it replaces it wholesale. A
  dismissed dialog, an unreadable file, a missing condition column or a narrow
  input leaves it as it was. Saving with no result only warns. Otherwise it
  writes the result's header and rows, with no index column.

The rule is stated with pure functions. The row index is pandas' default
`RangeIndex`, so a row's label is its position. Each function has an
independent characterisation proved as lemmas:

- `Dedup` (`drop_duplicates`) keeps exactly the elements of its input and
  has no repeats. It orders the kept elements by their first occurrence.
  Deduplicating a concatenation keeps the deduplicated first part as a prefix.
- `Extract` selects exactly the projections of the selected source rows. It
  puts the forced rows first, keeps a filtered row equal to a forced row only
  once (in the forced position), and has the declared shape and error cases.

## Model

| member | source | states |
|---|---|---|
| `Frames.IndexOf` | codever1.py:35 | the result is None exactly when the name is absent; otherwise it is a position holding the name with no earlier occurrence |
| `Frames.Select` | codever1.py:42 | picking by a position list gives one element per position, element k being the one at positions[k] |
| `Frames.Columns` | codever1.py:47 | `iloc[:, cols]` keeps the row count and cuts row i to the cells at `cols` |
| `Frames.ColumnsOfSelect` | codever1.py:46-47 | rows picked by position and cut to `cols` are exactly the cuts of the rows at those positions |
| `Frames.Intersect` | codever1.py:46 | the positions kept are exactly the listed ones below the row count, still ascending; the others are skipped without error |
| `Frames.PresentFrom` | codever1.py:40-41 | a position is kept iff it is at or after the window start, is a row, and that row's condition cell is present; ascending order |
| `Frames.Dedup` | codever1.py:50 | no longer than the input, holds only the input's elements (the reverse is `DedupMembership`), no two equal |
| `Frames.DedupMembership` | codever1.py:50 | an element is kept iff it occurs in the input: nothing but repeats is lost |
| `Frames.DedupOfDistinct` | codever1.py:50 | input without repeats passes through unchanged |
| `Frames.DedupIdempotent` | codever1.py:50 | removing duplicates twice equals removing them once |
| `Frames.DedupAppend` | codever1.py:50 | dedup of a ++ b has dedup of a as prefix; each later element comes from b and equals nothing in a |
| `Frames.DedupFirstOccurrenceOrder` | codever1.py:50 | kept elements appear in the order of their first occurrences in the input (keep='first') |
| `Extraction.Range` | codever1.py:30 | `list(range(lo, hi))`: hi - lo elements (none when lo >= hi), element k being lo + k |
| `Extraction.ExtractColumnsAsWritten` | codever1.py:28-32 | the column list equals the literal parts and the two ranges it is built from |
| `Extraction.ExtractColumnsFacts` | codever1.py:28-32 | 21 distinct positions, all below 161, including 160 |
| `Extraction.ExtractColumnsFit` | codever1.py:42 | the column list fits an input exactly when it has more than 160 columns |
| `Extraction.FixedPositions` | codever1.py:46 | the forced positions are ascending and are exactly those of 1, 2, 3 below the row count |
| `Extraction.FixedPositionsExact` | codever1.py:45-46 | forced rows are exactly those of 1, 2, 3 below the row count, ascending; row 0 never |
| `Extraction.FilteredPositions` | codever1.py:40-41 | the filtered positions are ascending row positions, and a position is among them iff it is at least 70 and its condition cell is present |
| `Extraction.FilterPathExact` | codever1.py:40-41 | a row is on the filter path iff its position is at least 70 and its condition cell is present; rows below 70 never are |
| `Extraction.FixedPart` | codever1.py:46-47 | `fixed_result`: one row per forced position, row i being the source row at forced position i cut to the 21 kept columns |
| `Extraction.FilteredPart` | codever1.py:40-42 | `filtered_result`: one row per filtered position, row i being the source row at filtered position i cut to the 21 kept columns |
| `Extraction.ResultRows` | codever1.py:50 | the concatenated and deduplicated rows: no two equal, each one a row of `FixedPart` ++ `FilteredPart`, no more rows than both parts together |
| `Extraction.SelectedPositions` | codever1.py:40-46 | the forced positions followed by the filtered ones are exactly the row positions that are forced or filtered-in |
| `Extraction.Extract` | codever1.py:26-50 | fails iff the header lacks "Unnamed: 9" or the input has at most 160 columns; on success the table is well formed and 21 columns wide |
| `Extraction.ExtractValue` | codever1.py:50 | with the condition column at c and more than 160 columns, the load succeeds and its rows are `Dedup(FixedPart ++ FilteredPart)`, that is `ResultRows` |
| `Extraction.MissingColumnRejected` | codever1.py:35-37 | the load fails with MissingConditionColumn iff the header lacks "Unnamed: 9" |
| `Extraction.NarrowInputRejected` | codever1.py:42 | with the condition column present, the load fails with PositionOutOfBounds iff the input has at most 160 columns, and succeeds otherwise |
| `Extraction.ExtractShape` | codever1.py:42-47 | output header j is input header at ExtractColumns[j]; header and every row have 21 cells |
| `Extraction.ExtractSelectsExactly` | codever1.py:40-50 | every output row is the projection of a source row that is forced (1, 2, 3) or at position >= 70 with the condition cell present, and every such projection is in the output |
| `Extraction.FixedRowsFirst` | codever1.py:50 | the deduplicated forced rows form a prefix of the output; every later row is a filtered row equal to no forced row |
| `Extraction.EqualFilteredRowDropped` | codever1.py:50 | a filtered row equal to a forced row appears exactly once, in the forced prefix |
| `Extraction.ExtractNoRepeats` | codever1.py:50 | no two output rows are equal; output rows are exactly the rows of forced ++ filtered; length at most the sum of both parts |
| `Viewer.HeaderLine` | codever1.py:101 | the header line has one present cell per header name, in order |
| `Viewer.Sheet` | codever1.py:101 | the exported sheet is the header line followed by the rows; every line is as wide as the header (no index column) |
| `Viewer.App.constructor` | codever1.py:5 | the result starts empty |
| `Viewer.App.Load` | codever1.py:7-57 | the result is replaced by the extraction exactly when it succeeds; every other outcome leaves it unchanged; the stored result stays a 21-column table |
| `Viewer.App.Save` | codever1.py:85-101 | no result: warning only; dismissed dialog (no path or the empty path): nothing; otherwise the export is the sheet of the current result |
| `Viewer.SaveBeforeLoad` | codever1.py:87-89 | on a fresh viewer, after one load that stored nothing, saving only warns |

## Left out

- CSV decoding and parsing (codever1.py:20-23), including the UTF-8 then cp932 fallback and pandas' rules for which texts become NaN. The model starts from a parsed table. A failed read is the `Unreadable` input of `Load`.
- Cell types: cells are strings or missing. pandas' per-column dtypes are not modelled. Repeats are decided by equality of the parsed values. Missing equals missing, as NaN does in `drop_duplicates`.
- Duplicate header names: `IndexOf` takes the first match. `read_csv` renames repeated header names, so the name is unique in any table it produces.
- `Frames.Intersect` requires an ascending position list without repeats. pandas' `intersection` also sorts and removes repeats. The configured `[1, 2, 3]` already has that form.
- The grid display (`show_table`, codever1.py:52, 59-83): widgets, scrollbars, column widths and row striping. It is presentation only.
- Dialogs and message boxes (codever1.py:10-16, 36, 57, 88, 91-98, 102-104): their choices are parameters (`ReadOutcome`, the save `destination`). Their messages are the `LoadStatus` and `SaveStatus` values.
- Workbook writing via `to_excel` (codever1.py:101): the model produces the sheet as rows of cells. The file format and an I/O failure while writing (codever1.py:103-104) are foreign code.
- Exceptions other than the read failure and the out-of-bounds column position (for example running out of memory) are not modelled.
- The traceback printed on failure (codever1.py:55-56) is diagnostic output only.
- The row index of the result after `concat(ignore_index=True)` and `drop_duplicates`: it is never observable, since the export omits it.
- Window setup and the event loop (codever1.py:106-125).
