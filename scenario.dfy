/** Worked runs: the snapshot page with a decoy table, and the window on a sequence with
    metadata around the snapshot block. */
module Scenario {
  import opened Wrappers
  import opened Seqs
  import opened Text
  import opened Snapshot
  import opened Sheet

  /** A stand-in for the table library's rendering: every cell followed by a space, row after
      row. The real rendering also prints row and column labels and padding. */
  function JoinedCells(t: Table): string {
    if t == [] then [] else JoinedRow(t[0]) + JoinedCells(t[1..])
  }

  function JoinedRow(row: Row): string {
    if row == [] then [] else row[0] + " " + JoinedRow(row[1..])
  }

  /** A string cannot contain a non-empty string whose first character it lacks. */
  lemma NotContainsWithoutFirst(s: string, sub: string)
    requires sub != [] && sub[0] !in s
    ensures !Contains(s, sub)
  {
  }

  /** The rendering of a row mentions each of its cells. */
  lemma {:induction false} JoinedRowMentions(row: Row, c: nat)
    requires c < |row|
    ensures Contains(JoinedRow(row), row[c])
  {
    if c == 0 {
      assert row[0] <= JoinedRow(row)[0..];
    } else {
      JoinedRowMentions(row[1..], c - 1);
      ContainsInContext(row[0] + " ", JoinedRow(row[1..]), [], row[c]);
      assert row[0] + " " + JoinedRow(row[1..]) + [] == JoinedRow(row);
    }
  }

  /** The rendering of a table mentions each of its cells. */
  lemma {:induction false} JoinedCellsMentions(t: Table, r: nat, c: nat)
    requires r < |t| && c < |t[r]|
    ensures Contains(JoinedCells(t), t[r][c])
  {
    if r == 0 {
      JoinedRowMentions(t[0], c);
      ContainsInContext([], JoinedRow(t[0]), JoinedCells(t[1..]), t[r][c]);
      assert [] + JoinedRow(t[0]) + JoinedCells(t[1..]) == JoinedCells(t);
    } else {
      var cell := t[r][c];
      assert t[1..][r - 1][c] == cell;
      JoinedCellsMentions(t[1..], r - 1, c);
      ContainsInContext(JoinedRow(t[0]), JoinedCells(t[1..]), [], cell);
      assert JoinedRow(t[0]) + JoinedCells(t[1..]) + [] == JoinedCells(t);
    }
  }

  /** A table that mentions "Market Cap" but not "P/E". */
  const Decoy: Table := [["Market Cap", "1"]]

  /** The snapshot table of the scenario. */
  const Quote: Table := [["Index", "S&P 500"], ["P/E", "12.3"], ["Market Cap", "400B"], ["Change", "-1.2%"]]

  /** The decoy table fails the heuristic: one key is not enough. */
  lemma DecoyIsRejected()
    ensures !IsSnapshotTable(JoinedCells, Decoy)
  {
    assert JoinedRow(["1"]) == "1 ";
    assert JoinedRow(Decoy[0]) == "Market Cap 1 ";
    assert JoinedCells(Decoy) == "Market Cap 1 ";
    NotContainsWithoutFirst(JoinedCells(Decoy), "P/E");
  }

  /** The quote table passes the heuristic. */
  lemma QuoteIsSelected()
    ensures IsSnapshotTable(JoinedCells, Quote)
  {
    JoinedCellsMentions(Quote, 2, 0);
    JoinedCellsMentions(Quote, 1, 0);
  }

  /** A two-cell row whose cells need no stripping flattens to its own pair. */
  lemma PairRow(key: string, value: string)
    requires IsStripped(key) && IsStripped(value)
    ensures RowCandidates([key, value]) == [Pair(key, value)]
  {
    StripKeepsStripped(key);
    StripKeepsStripped(value);
  }

  /** The metrics of the quote table, in order. */
  const QuoteMetrics: seq<Pair> :=
    [Pair("Index", "S&P 500"), Pair("P/E", "12.3"), Pair("Market Cap", "400B"), Pair("Change", "-1.2%")]

  /** With the decoy first, the quote table is the one selected. */
  lemma QuoteChosenOverDecoy()
    ensures SelectedTable(JoinedCells, [Decoy, Quote]) == Some(Quote)
  {
    DecoyIsRejected();
    QuoteIsSelected();
    var p := (t: Table) => IsSnapshotTable(JoinedCells, t);
    assert !p([Decoy, Quote][0]) && p([Decoy, Quote][1]);
    FirstIndexUnique([Decoy, Quote], p, 0, 1);
  }

  /** A string that begins and ends with a visible ASCII character needs no stripping. */
  lemma VisibleEnds(s: string)
    requires s != [] && '!' <= s[0] <= '~' && '!' <= s[|s| - 1] <= '~'
    ensures IsStripped(s)
  {
  }

  /** The quote table's cells need no stripping. */
  lemma QuoteCellsStripped()
    ensures IsStripped("Index") && IsStripped("S&P 500") && IsStripped("P/E") && IsStripped("12.3")
    ensures IsStripped("Market Cap") && IsStripped("400B") && IsStripped("Change")
    ensures IsStripped("-1.2%")
  {
    VisibleEnds("Index");
    VisibleEnds("S&P 500");
    VisibleEnds("P/E");
    VisibleEnds("12.3");
    VisibleEnds("Market Cap");
    VisibleEnds("400B");
    VisibleEnds("Change");
    VisibleEnds("-1.2%");
  }

  /** Each row of the quote table is one candidate pair. */
  lemma QuoteCandidates()
    ensures Candidates(Quote) == QuoteMetrics
  {
    QuoteCellsStripped();
    PairRow("Index", "S&P 500");
    PairRow("P/E", "12.3");
    PairRow("Market Cap", "400B");
    PairRow("Change", "-1.2%");
    var m := QuoteMetrics;
    assert Quote[..1][..0] == [];
    assert Candidates(Quote[..1]) == m[..1];
    assert Quote[..2][..1] == Quote[..1];
    assert Candidates(Quote[..2]) == m[..2];
    assert Quote[..3][..2] == Quote[..2];
    assert Candidates(Quote[..3]) == m[..3];
    assert Quote[..4] == Quote && Quote[..4][..3] == Quote[..3];
  }

  /** Every label of the quote table is a metric label. */
  lemma QuoteLabelsKept()
    ensures KeepMetrics(QuoteMetrics) == QuoteMetrics
  {
    var m := QuoteMetrics;
    assert Lower("P/E")[0] == 'p';
    assert m[..0] == [];
    assert KeepMetrics(m[..1]) == m[..1];
    assert m[..2][..1] == m[..1];
    assert KeepMetrics(m[..2]) == m[..2];
    assert m[..3][..2] == m[..2];
    assert KeepMetrics(m[..3]) == m[..3];
    assert m[..4] == m && m[..4][..3] == m[..3];
  }

  /** The quote's block runs from its first to its last row, so the window is all of it. */
  lemma QuoteWindow()
    ensures Window(QuoteMetrics) == QuoteMetrics
  {
    var m := QuoteMetrics;
    FirstIndexUnique(m, IsStart, 0, 0);
    assert !IsEnd(m[0]) && !IsEnd(m[1]) && !IsEnd(m[2]) && IsEnd(m[3]);
    FirstIndexUnique(m, IsEnd, 0, 3);
    assert m[0..4] == m;
  }

  /** The decoy is skipped and the whole quote block is extracted. */
  lemma QuoteExtracted()
    ensures Extraction(JoinedCells, [Decoy, Quote]) == Some(QuoteMetrics)
  {
    QuoteChosenOverDecoy();
    QuoteCandidates();
    QuoteLabelsKept();
    assert Flatten(Quote) == QuoteMetrics;
    QuoteWindow();
    assert WithFallback(QuoteMetrics) == QuoteMetrics;
  }

  /** The rows written for the quote's metrics. */
  lemma QuoteRows()
    ensures SheetRows(QuoteMetrics) == [["Metric", "Value"], ["Index", "S&P 500"], ["P/E", "12.3"],
                                        ["Market Cap", "400B"], ["Change", "-1.2%"]]
  {
    var rows := SheetRows(QuoteMetrics);
    assert rows[1] == MetricRow(QuoteMetrics[0]) && rows[2] == MetricRow(QuoteMetrics[1]);
    assert rows[3] == MetricRow(QuoteMetrics[2]) && rows[4] == MetricRow(QuoteMetrics[3]);
  }

  /** With the decoy first and the quote second, the run selects the quote, keeps all four
      metrics, and writes the header and those four rows: five rows in all. */
  lemma QuoteRun()
    ensures Run(Some("abc123"), JoinedCells, Some([Decoy, Quote]))
            == Write("abc123", [["Metric", "Value"], ["Index", "S&P 500"], ["P/E", "12.3"],
                                ["Market Cap", "400B"], ["Change", "-1.2%"]])
  {
    QuoteExtracted();
    QuoteRows();
  }

  /** Everything before "Index" and after the first "Change" is cut off. */
  lemma WindowCutsMetadata()
    ensures Window([Pair("Z", "0"), Pair("Index", "1"), Pair("A", "2"), Pair("B", "3"),
                    Pair("Change", "4"), Pair("Z", "5")])
            == [Pair("Index", "1"), Pair("A", "2"), Pair("B", "3"), Pair("Change", "4")]
  {
  }
}
