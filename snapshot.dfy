/** The extraction pipeline of `get_finviz_data`: choose the snapshot table among the parsed
    tables, flatten it into (label, value) pairs, and cut out the block from "Index" to "Change". */
module Snapshot {
  import opened Wrappers
  import opened Seqs
  import opened Text

  /** One row of a parsed table, its cells already converted to strings. */
  type Row = seq<string>
  /** A parsed table: its data rows, in order. */
  type Table = seq<Row>
  /** One metric of the snapshot block. */
  datatype Pair = Pair(key: string, value: string)

  // ---------------------------------------------------------------------------------------------
  // Table selection
  // ---------------------------------------------------------------------------------------------

  /** The selection heuristic: the table's rendered text mentions both "Market Cap" and "P/E".
      `text` stands for the table library's rendering of a table, which this model leaves open. */
  predicate IsSnapshotTable(text: Table -> string, t: Table): (b: bool)
    ensures b ==> |text(t)| >= |"Market Cap"|
  {
    Contains(text(t), "Market Cap") && Contains(text(t), "P/E")
  }

  /** The first table that passes the heuristic, if any. */
  function SelectedTable(text: Table -> string, tables: seq<Table>): Option<Table> {
    var k := FirstIndex(tables, (t: Table) => IsSnapshotTable(text, t), 0);
    if k < |tables| then Some(tables[k]) else None
  }

  /** Nothing is selected exactly when no table passes the heuristic; otherwise the selected
      table passes it and every table before it fails it. */
  lemma SelectedTableIsFirst(text: Table -> string, tables: seq<Table>)
    ensures SelectedTable(text, tables).None?
            <==> forall k :: 0 <= k < |tables| ==> !IsSnapshotTable(text, tables[k])
    ensures SelectedTable(text, tables).Some? ==>
              exists i :: 0 <= i < |tables| && tables[i] == SelectedTable(text, tables).value
                          && IsSnapshotTable(text, tables[i])
                          && forall m :: 0 <= m < i ==> !IsSnapshotTable(text, tables[m])
  {
    var p := (t: Table) => IsSnapshotTable(text, t);
    var k := FirstIndex(tables, p, 0);
    assert forall m :: 0 <= m < k ==> !IsSnapshotTable(text, tables[m]) by {
      forall m | 0 <= m < k ensures !IsSnapshotTable(text, tables[m]) {
        assert !p(tables[m]);
      }
    }
    if k < |tables| {
      assert p(tables[k]);
    }
  }

  /** The scan over the parsed tables, stopping at the first that passes the heuristic. */
  method SelectTable(text: Table -> string, tables: seq<Table>) returns (snapshot: Option<Table>)
    ensures snapshot == SelectedTable(text, tables)
  {
    ghost var p := (t: Table) => IsSnapshotTable(text, t);
    snapshot := None;
    var n := 0;
    while n < |tables|
      invariant 0 <= n <= |tables|
      invariant forall m :: 0 <= m < n ==> !p(tables[m])
    {
      var t := tables[n];
      if Contains(text(t), "Market Cap") && Contains(text(t), "P/E") {
        snapshot := Some(t);
        assert FirstIndex(tables, p, 0) == n by {
          FirstIndexUnique(tables, p, 0, n);
        }
        return;
      }
      n := n + 1;
    }
    FirstIndexUnique(tables, p, 0, n);
  }

  // ---------------------------------------------------------------------------------------------
  // Flattening
  // ---------------------------------------------------------------------------------------------

  /** A label worth keeping: not empty, and not the "nan"/"none" left by an empty grid cell,
      in any letter case. */
  predicate IsMetricLabel(key: string): (b: bool)
    ensures b <==> key != "" && !SpellsNan(key) && !SpellsNone(key)
  {
    LowerIsNan(key);
    LowerIsNone(key);
    key != "" && Lower(key) != "nan" && Lower(key) != "none"
  }

  /** The candidate pair made of cells `i` and `i+1` of a row, both stripped. */
  function CandidateAt(row: Row, i: nat): Pair
    requires i + 1 < |row|
  {
    Pair(Strip(row[i]), Strip(row[i + 1]))
  }

  /** The candidate pairs of one row, left to right; a trailing unpaired cell makes none. */
  function RowCandidates(row: Row): (ps: seq<Pair>)
    ensures |ps| == |row| / 2
  {
    seq(|row| / 2, k requires 0 <= k < |row| / 2 => CandidateAt(row, 2 * k))
  }

  /** The candidate pairs of a whole table, row by row. */
  function Candidates(t: Table): seq<Pair> {
    if t == [] then [] else Candidates(t[..|t| - 1]) + RowCandidates(t[|t| - 1])
  }

  /** The candidates with a metric label, in their original order. */
  function KeepMetrics(ps: seq<Pair>): (r: seq<Pair>)
    ensures |r| <= |ps|
  {
    if ps == [] then []
    else
      var last := ps[|ps| - 1];
      KeepMetrics(ps[..|ps| - 1]) + (if IsMetricLabel(last.key) then [last] else [])
  }

  /** The flattened table: what the flattening loop collects. */
  function Flatten(t: Table): seq<Pair> {
    KeepMetrics(Candidates(t))
  }

  /** Appending one candidate appends it to the kept metrics exactly when its label is kept. */
  lemma KeepMetricsSnoc(ps: seq<Pair>, p: Pair)
    ensures KeepMetrics(ps + [p]) == KeepMetrics(ps) + (if IsMetricLabel(p.key) then [p] else [])
  {
    assert (ps + [p])[..|ps|] == ps;
  }

  /** Filtering distributes over concatenation. */
  lemma {:induction false} KeepMetricsAppend(a: seq<Pair>, b: seq<Pair>)
    ensures KeepMetrics(a + b) == KeepMetrics(a) + KeepMetrics(b)
    decreases |b|
  {
    if b != [] {
      var b' := b[..|b| - 1];
      var last := b[|b| - 1];
      assert b == b' + [last];
      assert a + b == (a + b') + [last];
      KeepMetricsAppend(a, b');
      KeepMetricsSnoc(a + b', last);
      KeepMetricsSnoc(b', last);
    } else {
      assert a + b == a;
    }
  }

  /** Handling column pair `k` of a row appends its candidate, when kept, to what the earlier
      pairs of the row added to `raw`. */
  lemma CandidateStep(raw: seq<Pair>, row: Row, i: nat, k: nat)
    requires i == 2 * k && i + 1 < |row|
    ensures raw + KeepMetrics(RowCandidates(row)[..k + 1])
            == raw + KeepMetrics(RowCandidates(row)[..k])
               + (if IsMetricLabel(Strip(row[i])) then [Pair(Strip(row[i]), Strip(row[i + 1]))] else [])
  {
    var cs := RowCandidates(row);
    var c := cs[k];
    assert c == Pair(Strip(row[i]), Strip(row[i + 1]));
    assert cs[..k + 1] == cs[..k] + [c];
    KeepMetricsSnoc(cs[..k], c);
    assert KeepMetrics(cs[..k + 1])
           == KeepMetrics(cs[..k]) + (if IsMetricLabel(c.key) then [c] else []);
  }

  /** Finishing row `r` appends that row's candidates to those of the rows before it. */
  lemma RowStep(t: Table, r: nat)
    requires r < |t|
    ensures KeepMetrics(Candidates(t[..r + 1]))
            == KeepMetrics(Candidates(t[..r])) + KeepMetrics(RowCandidates(t[r]))
  {
    assert t[..r + 1][..r] == t[..r];
    KeepMetricsAppend(Candidates(t[..r]), RowCandidates(t[r]));
  }

  /** The inner loop over pairs of columns: appends the kept pairs of one row to `raw`. */
  method AppendRowPairs(raw: seq<Pair>, row: Row) returns (raw': seq<Pair>)
    ensures raw' == raw + KeepMetrics(RowCandidates(row))
  {
    ghost var cs := RowCandidates(row);
    raw' := raw;
    var i := 0;
    ghost var done := 0;  // the candidates of the row handled so far
    assert cs[..0] == [];
    while i < |row|
      invariant done <= |row| / 2
      invariant i == 2 * done || (i == |row| + 1 && done == |row| / 2)
      invariant raw' == raw + KeepMetrics(cs[..done])
    {
      if i + 1 < |row| {
        var key := Strip(row[i]);
        var val := Strip(row[i + 1]);
        CandidateStep(raw, row, i, done);
        if IsMetricLabel(key) {
          raw' := raw' + [Pair(key, val)];
        }
        done := done + 1;
      }
      i := i + 2;
    }
    assert cs[..done] == cs;
  }

  /** The outer loop over the rows of the table. */
  method FlattenTable(t: Table) returns (raw: seq<Pair>)
    ensures raw == Flatten(t)
  {
    raw := [];
    for r := 0 to |t|
      invariant raw == KeepMetrics(Candidates(t[..r]))
    {
      raw := AppendRowPairs(raw, t[r]);
      RowStep(t, r);
    }
    assert t[..|t|] == t;
  }

  /** The candidate pairs of one row are exactly its stripped cell pairs `2k`, `2k+1`. */
  lemma RowCandidatesFromCellPairs(row: Row, p: Pair)
    ensures p in RowCandidates(row) <==> exists k :: 0 <= k < |row| / 2 && p == CandidateAt(row, 2 * k)
  {
    if p in RowCandidates(row) {
      var k :| 0 <= k < |row| / 2 && RowCandidates(row)[k] == p;
      assert p == CandidateAt(row, 2 * k);
    }
    if exists k :: 0 <= k < |row| / 2 && p == CandidateAt(row, 2 * k) {
      var k :| 0 <= k < |row| / 2 && p == CandidateAt(row, 2 * k);
      assert RowCandidates(row)[k] == p;
    }
  }

  /** Every candidate of a table is the pair of stripped cells `2k` and `2k+1` of one row. */
  lemma {:induction false} CandidateFromCells(t: Table, p: Pair)
    requires p in Candidates(t)
    ensures exists r, k :: 0 <= r < |t| && 0 <= k < |t[r]| / 2 && p == CandidateAt(t[r], 2 * k)
    decreases |t|
  {
    var t' := t[..|t| - 1];
    var last := |t| - 1;
    if p in Candidates(t') {
      CandidateFromCells(t', p);
      var r, k :| 0 <= r < |t'| && 0 <= k < |t'[r]| / 2 && p == CandidateAt(t'[r], 2 * k);
      assert t[r] == t'[r];
    } else {
      RowCandidatesFromCellPairs(t[last], p);
    }
  }

  /** Every stripped pair of cells `2k` and `2k+1` of a row is a candidate. */
  lemma {:induction false} CellsAreCandidate(t: Table, r: nat, k: nat)
    requires r < |t| && 2 * k + 1 < |t[r]|
    ensures CandidateAt(t[r], 2 * k) in Candidates(t)
    decreases |t|
  {
    var t' := t[..|t| - 1];
    if r < |t| - 1 {
      assert t'[r] == t[r];
      CellsAreCandidate(t', r, k);
    } else {
      RowCandidatesFromCellPairs(t[r], CandidateAt(t[r], 2 * k));
    }
  }

  /** Every candidate of a table is the pair of stripped cells `2k` and `2k+1` of one row,
      and every such pair is a candidate. */
  lemma CandidatesFromCellPairs(t: Table, p: Pair)
    ensures p in Candidates(t)
            <==> exists r, k :: 0 <= r < |t| && 0 <= k < |t[r]| / 2 && p == CandidateAt(t[r], 2 * k)
  {
    if p in Candidates(t) {
      CandidateFromCells(t, p);
    }
    if exists r, k :: 0 <= r < |t| && 0 <= k < |t[r]| / 2 && p == CandidateAt(t[r], 2 * k) {
      var r, k :| 0 <= r < |t| && 0 <= k < |t[r]| / 2 && p == CandidateAt(t[r], 2 * k);
      CellsAreCandidate(t, r, k);
    }
  }

  /** Filtering keeps exactly the candidates with a metric label. */
  lemma {:induction false} KeepMetricsMembers(ps: seq<Pair>)
    ensures forall p :: p in KeepMetrics(ps) <==> p in ps && IsMetricLabel(p.key)
  {
    if ps != [] {
      var ps' := ps[..|ps| - 1];
      var last := ps[|ps| - 1];
      KeepMetricsMembers(ps');
      assert ps == ps' + [last];
    }
  }

  /** Filtering keeps every occurrence of a candidate with a metric label. */
  lemma {:induction false} KeepMetricsCounts(ps: seq<Pair>)
    ensures forall p :: multiset(KeepMetrics(ps))[p] == if IsMetricLabel(p.key) then multiset(ps)[p] else 0
  {
    if ps != [] {
      var ps' := ps[..|ps| - 1];
      var last := ps[|ps| - 1];
      KeepMetricsCounts(ps');
      assert ps == ps' + [last];
      assert multiset(ps) == multiset(ps') + multiset([last]);
      assert multiset(KeepMetrics(ps)) == multiset(KeepMetrics(ps'))
                                          + multiset(if IsMetricLabel(last.key) then [last] else []);
    }
  }

  /** Filtering keeps the candidates' order. */
  lemma {:induction false} KeepMetricsOrder(ps: seq<Pair>)
    ensures IsSubsequence(KeepMetrics(ps), ps)
  {
    if ps != [] {
      var ps' := ps[..|ps| - 1];
      var last := ps[|ps| - 1];
      KeepMetricsOrder(ps');
      var r := KeepMetrics(ps);
      if IsMetricLabel(last.key) {
        assert r[..|r| - 1] == KeepMetrics(ps');
      } else {
        assert r == KeepMetrics(ps');
      }
    }
  }

  /** The kept metrics are exactly the candidates with a metric label, in their original order,
      each kept as often as it occurs among the candidates. */
  lemma KeepMetricsIsFilter(ps: seq<Pair>)
    ensures forall p :: p in KeepMetrics(ps) <==> p in ps && IsMetricLabel(p.key)
    ensures forall p :: multiset(KeepMetrics(ps))[p] == if IsMetricLabel(p.key) then multiset(ps)[p] else 0
    ensures IsSubsequence(KeepMetrics(ps), ps)
  {
    KeepMetricsMembers(ps);
    KeepMetricsCounts(ps);
    KeepMetricsOrder(ps);
  }

  /** A pair is flattened exactly when it is the stripped pair of cells `2k` and `2k+1` of some
      row and its label is a metric label; every occurrence of such a candidate is kept; the
      flattened pairs keep the row-major, left-to-right order of the cells; no label or value
      carries surrounding whitespace. */
  lemma FlattenSpec(t: Table)
    ensures forall p :: p in Flatten(t) <==>
              IsMetricLabel(p.key)
              && exists r, k :: 0 <= r < |t| && 0 <= k < |t[r]| / 2 && p == CandidateAt(t[r], 2 * k)
    ensures forall p :: multiset(Flatten(t))[p]
                        == if IsMetricLabel(p.key) then multiset(Candidates(t))[p] else 0
    ensures IsSubsequence(Flatten(t), Candidates(t))
    ensures forall p :: p in Flatten(t) ==> IsStripped(p.key) && IsStripped(p.value)
  {
    KeepMetricsIsFilter(Candidates(t));
    forall p
      ensures p in Flatten(t) <==>
                IsMetricLabel(p.key)
                && exists r, k :: 0 <= r < |t| && 0 <= k < |t[r]| / 2 && p == CandidateAt(t[r], 2 * k)
    {
      CandidatesFromCellPairs(t, p);
    }
  }

  /** A row of `n` cells contributes at most `n / 2` pairs. */
  lemma RowContribution(row: Row)
    ensures |Flatten([row])| <= |row| / 2
  {
    assert [row][..0] == [];
    assert Candidates([row]) == RowCandidates(row);
  }

  /** A trailing unpaired cell never contributes anything. */
  lemma TrailingCellIgnored(row: Row, cell: string)
    requires |row| % 2 == 0
    ensures RowCandidates(row + [cell]) == RowCandidates(row)
  {
    var longer := row + [cell];
    forall k | 0 <= k < |row| / 2
      ensures RowCandidates(longer)[k] == RowCandidates(row)[k]
    {
      assert longer[2 * k] == row[2 * k] && longer[2 * k + 1] == row[2 * k + 1];
    }
  }

  // ---------------------------------------------------------------------------------------------
  // Windowing
  // ---------------------------------------------------------------------------------------------

  /** The first label of the snapshot block. */
  predicate IsStart(p: Pair) { p.key == "Index" }

  /** The last label of the snapshot block. */
  predicate IsEnd(p: Pair) { p.key == "Change" }

  /** The block from the first "Index" pair through the first "Change" pair after it (or through
      the end when none follows); empty when no pair is labelled "Index". */
  function Window(ps: seq<Pair>): seq<Pair> {
    var i := FirstIndex(ps, IsStart, 0);
    if i == |ps| then []
    else
      var j := FirstIndex(ps, IsEnd, i);
      if j == |ps| then ps[i..] else ps[i..j + 1]
  }

  /** The window is empty exactly when no label is "Index"; otherwise it is the slice
      `ps[i..j]` where `i` is the first "Index" pair, and `j - 1` is the first "Change" pair from
      `i` on, or `j` is the end when there is none. */
  lemma WindowShape(ps: seq<Pair>)
    ensures Window(ps) == [] <==> forall m :: 0 <= m < |ps| ==> ps[m].key != "Index"
    ensures (exists m :: 0 <= m < |ps| && ps[m].key == "Index") ==>
              exists i, j :: 0 <= i < j <= |ps| && Window(ps) == ps[i..j]
                && ps[i].key == "Index"
                && (forall m :: 0 <= m < i ==> ps[m].key != "Index")
                && (forall m :: i <= m < j - 1 ==> ps[m].key != "Change")
                && (j == |ps| || ps[j - 1].key == "Change")
  {
    var i := FirstIndex(ps, IsStart, 0);
    if i < |ps| {
      var j := FirstIndex(ps, IsEnd, i);
      var e := if j == |ps| then j else j + 1;
      assert Window(ps) == ps[i..e];
      assert forall m :: i <= m < e - 1 ==> !IsEnd(ps[m]);
    }
  }

  /** The scan over the flattened pairs with its `start_found` flag and its early exit. */
  method WindowSnapshot(raw: seq<Pair>) returns (final: seq<Pair>)
    ensures final == Window(raw)
  {
    var startFound := false;
    final := [];
    ghost var start := FirstIndex(raw, IsStart, 0);
    for n := 0 to |raw|
      invariant !startFound ==> final == [] && n <= start
      invariant startFound ==>
        start < n && final == raw[start..n] && forall m :: start <= m < n ==> !IsEnd(raw[m])
    {
      var p := raw[n];
      if p.key == "Index" {
        startFound := true;
      }
      if startFound {
        final := final + [p];
      }
      if startFound && p.key == "Change" {
        assert FirstIndex(raw, IsEnd, start) == n by {
          FirstIndexUnique(raw, IsEnd, start, n);
        }
        return;
      }
    }
    if startFound {
      FirstIndexUnique(raw, IsEnd, start, |raw|);
    }
  }

  /** The result of the extraction step: the window, or every flattened pair when the window
      is empty. */
  function WithFallback(raw: seq<Pair>): (r: seq<Pair>)
    ensures r == [] <==> raw == []
    ensures |r| <= |raw|
  {
    var w := Window(raw);
    if w == [] then raw else w
  }

  /** Without an "Index" label the whole flattened sequence is the result; with one, the window.
      Either way the result keeps the relative order of the flattened pairs and is no longer. */
  lemma FallbackSpec(raw: seq<Pair>)
    ensures (forall m :: 0 <= m < |raw| ==> raw[m].key != "Index") ==> WithFallback(raw) == raw
    ensures (exists m :: 0 <= m < |raw| && raw[m].key == "Index") ==> WithFallback(raw) == Window(raw)
    ensures IsSubsequence(WithFallback(raw), raw)
    ensures |WithFallback(raw)| <= |raw|
  {
    WindowShape(raw);
    var w := WithFallback(raw);
    if Window(raw) == [] {
      SliceIsSubsequence(raw, 0, |raw|);
      assert raw[0..|raw|] == raw;
    } else {
      var i, j :| 0 <= i < j <= |raw| && Window(raw) == raw[i..j];
      SliceIsSubsequence(raw, i, j);
    }
    SubsequenceBounded(w, raw);
  }

  // ---------------------------------------------------------------------------------------------
  // The whole extraction
  // ---------------------------------------------------------------------------------------------

  /** What `get_finviz_data` returns once the tables are parsed: `None` when no table passes
      the heuristic, otherwise the windowed (or fallback) pairs of the first one that does. */
  function Extraction(text: Table -> string, tables: seq<Table>): Option<seq<Pair>> {
    match SelectedTable(text, tables)
    case None => None
    case Some(t) => Some(WithFallback(Flatten(t)))
  }

  /** Extraction fails exactly when no table passes the heuristic; on success its result is
      drawn, in order, from the flattened first snapshot table. */
  lemma ExtractionSpec(text: Table -> string, tables: seq<Table>)
    ensures Extraction(text, tables).None?
            <==> forall k :: 0 <= k < |tables| ==> !IsSnapshotTable(text, tables[k])
    ensures Extraction(text, tables).Some? ==>
              exists i :: 0 <= i < |tables| && IsSnapshotTable(text, tables[i])
                && (forall m :: 0 <= m < i ==> !IsSnapshotTable(text, tables[m]))
                && IsSubsequence(Extraction(text, tables).value, Flatten(tables[i]))
                && forall p :: p in Extraction(text, tables).value ==> IsMetricLabel(p.key)
  {
    SelectedTableIsFirst(text, tables);
    if SelectedTable(text, tables).Some? {
      var t := SelectedTable(text, tables).value;
      var raw := Flatten(t);
      var data := WithFallback(raw);
      assert Extraction(text, tables) == Some(data);
      FallbackSpec(raw);
      KeepMetricsIsFilter(Candidates(t));
      SubsequenceBounded(data, raw);
      var i :| 0 <= i < |tables| && tables[i] == t && IsSnapshotTable(text, tables[i])
               && forall m :: 0 <= m < i ==> !IsSnapshotTable(text, tables[m]);
      assert forall p :: p in data ==> IsMetricLabel(p.key);
    }
  }

  /** Lines 63-104 of `get_finviz_data`: select, flatten, window, fall back. */
  method ExtractSnapshot(text: Table -> string, tables: seq<Table>) returns (data: Option<seq<Pair>>)
    ensures data == Extraction(text, tables)
  {
    var snapshot := SelectTable(text, tables);
    if snapshot.None? {
      return None;
    }
    var raw := FlattenTable(snapshot.value);
    var final := WindowSnapshot(raw);
    if final == [] {
      return Some(raw);
    }
    return Some(final);
  }
}
