# Finviz snapshot scraper: a Dafny model of its extraction core

The program loads a stock's quote page on finviz.com and parses every HTML table on it. It picks the
"snapshot" table of financial metrics and turns it into (metric, value) pairs. It then writes those
pairs, under a `Metric | Value` header, to a tab of a Google spreadsheet.

This project models the part of `finviz_tool/main.py` that makes decisions:

- **Table selection** (`Snapshot.SelectTable`): the first parsed table whose rendered text mentions
  both `Market Cap` and `P/E`, or none.
- **Flattening** (`Snapshot.FlattenTable`, `Snapshot.AppendRowPairs`): each row is read as cell pairs
  0/1, 2/3, …. Both cells are stripped of whitespace. A pair is dropped when its label is empty or is
  `nan`/`none` in any letter case. A trailing unpaired cell is ignored.
- **Windowing** (`Snapshot.WindowSnapshot`): collection starts at the first `Index` label and stops
  right after the first `Change` from there on. With no `Index` label at all, the whole flattened
  sequence is the result.
- **The upload payload** (`Sheet.SheetRows`): the header row followed by one row per metric.
- **The run gates of `main`** (`Sheet.Run`): a missing or placeholder sheet id stops the run before
  the fetch. A failed or empty extraction means nothing is written.

The loops of the source are Dafny methods with loop invariants. Each is proved equal to a pure
specification function (`SelectedTable`, `Flatten`, `Window`, `Extraction`), and the lemmas state
what those functions guarantee. The page's tables are an input to the model. The table library's
rendering of a table (`df.to_string()`) is a parameter `text: Table -> string`, so every property
holds whatever that rendering prints. `Scenario.JoinedCells`, a plain join of the cells, is a
stand-in used only in the worked examples.

Files: `wrappers.dfy` (Option), `seqs.dfy` (first matching position, sub-sequences), `text.dfy`
(`str.strip`, `str.lower`, substring test), `snapshot.dfy` (extraction), `sheet.dfy` (payload and
run), `scenario.dfy` (worked runs).

`Scenario.QuoteRun` proves that four metrics give five written rows: the header and one row per
metric (`main.py:133`).

## Model

| member | source | states |
|---|---|---|
| `Snapshot.IsSnapshotTable` | finviz_tool/main.py:69 | the heuristic `'Market Cap' in flat_str and 'P/E' in flat_str` on the table's rendering; a rendering that passes it is at least as long as "Market Cap" |
| `Snapshot.SelectTable` | finviz_tool/main.py:64-71 | the scan over the parsed tables returns exactly the table `SelectedTable` chooses |
| `Snapshot.SelectedTableIsFirst` | finviz_tool/main.py:64-75 | nothing is selected iff no table's text contains both "Market Cap" and "P/E"; otherwise the selected table passes that test and every table before it fails it |
| `Text.Strip` | finviz_tool/main.py:82-83 | the stripped string has no whitespace (Python's `str.isspace` set) at either end and is no longer than the input |
| `Text.StripIsSlice` | finviz_tool/main.py:82-83 | the input is some whitespace, then the stripped string, then some more whitespace, so only the two ends are removed |
| `Text.StripIdempotent` | finviz_tool/main.py:82-83 | stripping twice gives the same string as stripping once |
| `Text.Contains` | finviz_tool/main.py:69 | Python's `sub in s`: a contained string is never longer than the string containing it |
| `Text.ContainsInContext` | finviz_tool/main.py:69 | a string found in part of a rendering is found in the whole rendering, whatever surrounds that part |
| `Text.Lower` | finviz_tool/main.py:84 | the ASCII-only `Lower` that stands for `str.lower()` keeps the string's length |
| `Text.LowerSpec` | finviz_tool/main.py:84 | lowering leaves no ASCII capital, changes a string exactly when it has one, and lowering twice is lowering once |
| `Text.LowerIsNan` | finviz_tool/main.py:84 | `key.lower() == "nan"` holds exactly for the eight letter-case spellings of "nan" |
| `Text.LowerIsNone` | finviz_tool/main.py:84 | `key.lower() == "none"` holds exactly for the sixteen letter-case spellings of "none" |
| `Snapshot.IsMetricLabel` | finviz_tool/main.py:84 | a label is kept iff it is non-empty and is none of the letter-case spellings of "nan" or "none", stated without lowering |
| `Snapshot.AppendRowPairs` | finviz_tool/main.py:80-85 | the loop over a row's column pairs appends exactly the row's kept candidate pairs, in order, to the accumulator |
| `Snapshot.FlattenTable` | finviz_tool/main.py:78-85 | the nested row/column loops produce exactly `Flatten(t)`: the kept candidates of all rows, row by row |
| `Snapshot.KeepMetrics` | finviz_tool/main.py:84-85 | filtering never lengthens the candidate sequence |
| `Snapshot.KeepMetricsIsFilter` | finviz_tool/main.py:84-85 | a pair is kept iff it is a candidate and its label is non-empty and not "nan"/"none" in any case; each such pair is kept as many times as it occurs among the candidates, and not at all otherwise; the kept pairs are a sub-sequence of the candidates, in their original order |
| `Snapshot.KeepMetricsAppend` | finviz_tool/main.py:79-85 | filtering row by row gives the same result as filtering the whole table's candidates at once |
| `Snapshot.CandidatesFromCellPairs` | finviz_tool/main.py:79-83 | a pair is a candidate iff it is the stripped cells `2k` and `2k+1` of one row, for some `k` with `2k+1` inside the row |
| `Snapshot.FlattenSpec` | finviz_tool/main.py:78-85 | a pair is flattened iff its label passes the filter and it is the stripped cells `2k`, `2k+1` of some row; every occurrence of such a candidate is flattened, so a label repeated across rows appears as often as it occurs; the flattened pairs keep row-major, left-to-right order; no label or value has surrounding whitespace |
| `Snapshot.RowContribution` | finviz_tool/main.py:80-81 | a row of `n` cells contributes at most `n / 2` pairs |
| `Snapshot.TrailingCellIgnored` | finviz_tool/main.py:80-81 | adding a cell to a row of even length changes none of its candidates: an unpaired trailing cell is never used |
| `Snapshot.WindowSnapshot` | finviz_tool/main.py:88-99 | the scan with the `start_found` flag and the early exit returns exactly `Window(raw)` |
| `Snapshot.WindowShape` | finviz_tool/main.py:88-99 | the window is empty iff no label is "Index"; otherwise it is the slice from the first "Index" pair through the first "Change" pair at or after it, or through the end when there is none |
| `Snapshot.WithFallback` | finviz_tool/main.py:101-104 | the result is empty exactly when the flattened sequence is, and never longer than it |
| `Snapshot.FallbackSpec` | finviz_tool/main.py:101-104 | with no "Index" label the result is the whole flattened sequence, otherwise the window; the result is a sub-sequence of the flattened pairs in their order and no longer than them |
| `Snapshot.ExtractionSpec` | finviz_tool/main.py:63-104 | extraction fails iff no table passes the heuristic; on success the result is drawn in order from the flattened first passing table and every label passes the filter |
| `Snapshot.ExtractSnapshot` | finviz_tool/main.py:63-104 | select, flatten, window and fall back compute exactly `Extraction(text, tables)` |
| `Seqs.FirstIndex` | finviz_tool/main.py:91-99 | the result is the first position from `from` on whose element passes the test, or the end when none does |
| `Seqs.SliceIsSubsequence` | finviz_tool/main.py:91-99 | a contiguous slice keeps the order of the sequence it is cut from |
| `Seqs.SubsequenceBounded` | finviz_tool/main.py:91-104 | a sub-sequence is no longer than its source and holds only its elements |
| `Sheet.DataRows` | finviz_tool/main.py:133 | one two-cell row `[key, value]` per metric, in the metrics' order |
| `Sheet.SheetRows` | finviz_tool/main.py:133 | there is one row more than there are metrics: the `["Metric", "Value"]` header, then row `k + 1` is metric `k` |
| `Sheet.SheetRoundTrip` | finviz_tool/main.py:133-137 | reading the written rows back below the header gives exactly the metrics, in order |
| `Sheet.IsConfigured` | finviz_tool/main.py:145 | the negation of `not SHEET_ID or SHEET_ID == "YOUR_GOOGLE_SHEET_ID_HERE"`: an id is usable iff it is present, non-empty and not the placeholder |
| `Sheet.FinvizData` | finviz_tool/main.py:57-104 | `get_finviz_data` returns data iff the page was fetched and parsed and some table passes the heuristic; every returned label passes the filter |
| `Sheet.Run` | finviz_tool/main.py:144-154 | `main` stops before fetching exactly when the sheet id is missing, empty or the placeholder; a write goes to the configured id and always carries the header and at least one metric row |
| `Sheet.UnconfiguredStopsFirst` | finviz_tool/main.py:145-147 | an absent, empty or placeholder sheet id ends the run whatever the page would have held, before any fetch |
| `Sheet.RunWritesOnlyExtractedData` | finviz_tool/main.py:145-154 | the run writes iff the sheet id is usable, the page was fetched, some table passes the heuristic and the extraction is not empty; it then writes the header plus the extracted metrics, all with kept labels |
| `Scenario.QuoteRun` | finviz_tool/main.py:144-154 | a decoy table with only "Market Cap" followed by the four-row quote table leads to writing the header and the four metrics: five rows |
| `Scenario.WindowCutsMetadata` | finviz_tool/main.py:88-99 | pairs before "Index" and after the first "Change" are cut off |

## Left out

- Browser automation (`main.py:32-61`) is not modelled. The parsed tables are an input `Option<seq<Table>>`, and `None` stands for a navigation, rendering or parsing failure. Timeouts, the wait for the selector, and closing the browser are left out.
- `pd.read_html` and `df.to_string()` (`main.py:55`, `68`) are library calls whose output cannot be seen here. Tables are given as rows of string cells. The rendering is the parameter `text`.
- Conversion of cells with `str()` is not modelled: cells are already strings, and an empty cell is the string "nan". A table's header row, which `iterrows()` does not visit, is not part of a `Table`. `row[i]` is taken as positional access. Rows may have different lengths in the model, which is more general than a data frame.
- Configuration loading and `sys.exit` (`main.py:11-25`) are not modelled, nor is building the URL from the symbol. The sheet id is an input `Option<string>`.
- Publishing is not modelled: the credentials-file check (`main.py:112-114`), authentication, opening the spreadsheet, finding or creating the tab (100 × 10), `clear()` and `update()` (`main.py:116-142`). `Sheet.Run` ends in `Write(sheetId, rows)` with the rows it hands to the upload. Whether the upload then succeeds is not modelled.
- Console output (`print`) is left out.
- Exceptions raised inside `main.py:63-104` (for example by the rendering) are not modelled.
- Text.Lower: maps only the ASCII letters `A`-`Z`, where Python's `str.lower()` maps every Unicode letter and can also lengthen a string (`'İ'` lowers to two code points). No non-ASCII character lowers to `n`, `a`, `o` or `e`, and no lengthening mapping produces them, so the filter on "nan"/"none" (`Snapshot.IsMetricLabel`) is exact.
- Text.Contains: its own contract states only the length bound. The heuristic's substring test is its body, `sub` equal to a slice of `s` starting at some position; `Text.ContainsInContext` is the fact about it that the worked runs use.
