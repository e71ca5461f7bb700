/** What the run writes to the spreadsheet (`upload_to_sheet`), and when it writes at all (`main`). */
module Sheet {
  import opened Wrappers
  import opened Snapshot

  /** One row of the destination tab, its cells left to right. */
  type SheetRow = seq<string>

  /** The fixed header row written above the metrics. */
  const Header: SheetRow := ["Metric", "Value"]

  /** The sheet id the configuration file ships with, which a user must replace. */
  const Placeholder: string := "YOUR_GOOGLE_SHEET_ID_HERE"

  /** One metric as a two-cell row. */
  function MetricRow(p: Pair): SheetRow {
    [p.key, p.value]
  }

  /** The metrics as rows, one per metric, in order. */
  function DataRows(data: seq<Pair>): (rows: seq<SheetRow>)
    ensures |rows| == |data|
    ensures forall k :: 0 <= k < |data| ==> rows[k] == MetricRow(data[k])
  {
    if data == [] then [] else [MetricRow(data[0])] + DataRows(data[1..])
  }

  /** The rows written from the top-left cell: the header, then every metric in order. */
  function SheetRows(data: seq<Pair>): (rows: seq<SheetRow>)
    ensures |rows| == |data| + 1
    ensures rows[0] == Header
    ensures forall k :: 0 <= k < |data| ==> rows[k + 1] == MetricRow(data[k])
  {
    [Header] + DataRows(data)
  }

  /** Reading the metrics back from rows below the header: each must have exactly two cells. */
  function ReadRows(rows: seq<SheetRow>): Option<seq<Pair>> {
    if rows == [] then Some([])
    else if |rows[0]| != 2 then None
    else
      match ReadRows(rows[1..])
      case None => None
      case Some(rest) => Some([Pair(rows[0][0], rows[0][1])] + rest)
  }

  /** Reading a whole tab back: a header row, then the metrics. */
  function ReadSheet(rows: seq<SheetRow>): Option<seq<Pair>> {
    if rows == [] || rows[0] != Header then None else ReadRows(rows[1..])
  }

  /** The metric rows hold exactly the metrics. */
  lemma {:induction false} ReadDataRows(data: seq<Pair>)
    ensures ReadRows(DataRows(data)) == Some(data)
  {
    if data != [] {
      ReadDataRows(data[1..]);
      assert DataRows(data)[1..] == DataRows(data[1..]);
      assert [data[0]] + data[1..] == data;
    }
  }

  /** The written tab holds the header and exactly the metrics, in order, and nothing else. */
  lemma SheetRoundTrip(data: seq<Pair>)
    ensures ReadSheet(SheetRows(data)) == Some(data)
  {
    ReadDataRows(data);
  }

  // ---------------------------------------------------------------------------------------------
  // The run
  // ---------------------------------------------------------------------------------------------

  /** A sheet id is usable unless it is missing or empty (falsy in Python) or is the shipped
      placeholder; a usable id is a non-empty string other than the placeholder. */
  predicate IsConfigured(sheetId: Option<string>): (b: bool)
    ensures b <==> sheetId.Some? && |sheetId.value| > 0 && sheetId.value != Placeholder
  {
    !(sheetId.None? || sheetId.value == "" || sheetId.value == Placeholder)
  }

  /** How a run ends. */
  datatype Outcome =
    | NotConfigured                            // stopped before fetching anything
    | NoData                                   // fetch or extraction failed, or nothing was extracted
    | Write(sheetId: string, rows: seq<SheetRow>)  // these rows are written to the tab

  /** `get_finviz_data`: `fetched` is the parsed tables of the page, or `None` when loading or
      parsing the page failed. */
  function FinvizData(text: Table -> string, fetched: Option<seq<Table>>): (r: Option<seq<Pair>>)
    ensures r.Some? <==>
              fetched.Some? && exists k :: 0 <= k < |fetched.value| && IsSnapshotTable(text, fetched.value[k])
    ensures r.Some? ==> forall p :: p in r.value ==> IsMetricLabel(p.key)
  {
    match fetched
    case None => None
    case Some(tables) => ExtractionSpec(text, tables); Extraction(text, tables)
  }

  /** `main`: check the sheet id, extract, and write when there is something to write. */
  function Run(sheetId: Option<string>, text: Table -> string, fetched: Option<seq<Table>>): (o: Outcome)
    ensures o == NotConfigured <==> !IsConfigured(sheetId)
    ensures o.Write? ==> o.sheetId == sheetId.value && |o.rows| >= 2 && o.rows[0] == Header
  {
    if !IsConfigured(sheetId) then NotConfigured
    else
      match FinvizData(text, fetched)
      case Some(data) => if data != [] then Write(sheetId.value, SheetRows(data)) else NoData
      case None => NoData
  }

  /** A missing or placeholder sheet id ends the run whatever the page would have held: nothing
      is fetched. */
  lemma UnconfiguredStopsFirst(sheetId: Option<string>, text: Table -> string,
                               fetched1: Option<seq<Table>>, fetched2: Option<seq<Table>>)
    requires sheetId.None? || sheetId == Some("") || sheetId == Some(Placeholder)
    ensures Run(sheetId, text, fetched1) == NotConfigured
    ensures Run(sheetId, text, fetched2) == Run(sheetId, text, fetched1)
  {
  }

  /** A run writes exactly when the sheet id is usable, the page was fetched, some table passes
      the snapshot heuristic and the extraction is not empty; what it writes is the header
      followed by the extracted metrics, one row per metric, all with metric labels. */
  lemma RunWritesOnlyExtractedData(sheetId: Option<string>, text: Table -> string,
                                    fetched: Option<seq<Table>>)
    ensures Run(sheetId, text, fetched).Write? <==>
              IsConfigured(sheetId) && fetched.Some?
              && (exists k :: 0 <= k < |fetched.value| && IsSnapshotTable(text, fetched.value[k]))
              && Extraction(text, fetched.value).value != []
    ensures Run(sheetId, text, fetched).Write? ==>
              var data := Extraction(text, fetched.value).value;
              var rows := Run(sheetId, text, fetched).rows;
              && Run(sheetId, text, fetched).sheetId == sheetId.value
              && rows == SheetRows(data) && |rows| == |data| + 1
              && ReadSheet(rows) == Some(data)
              && forall p :: p in data ==> IsMetricLabel(p.key)
  {
    if fetched.Some? {
      ExtractionSpec(text, fetched.value);
      if Extraction(text, fetched.value).Some? {
        SheetRoundTrip(Extraction(text, fetched.value).value);
      }
    }
  }
}
