/**
 * The table loop of `extract_transactions` in src/hdfc_converter.py: every
 * table the extractor found is either skipped or turned into records, by the
 * splitter when its body is one row of multi-line cells and by the row
 * validator and parser otherwise, and each processed table adds a page
 * statistic.
 */
module Extraction {
  import opened Wrappers
  import opened Rows
  import opened Seqs
  import opened Splitter

  /** One table found on a page: its page number, its column count and its rows of cell texts. */
  datatype Table = Table(page: int, columns: nat, rows: seq<Row>)

  /** A data frame is rectangular: every row has one cell per column. */
  predicate WellFormed(t: Table) {
    forall i :: 0 <= i < |t.rows| ==> |t.rows[i]| == t.columns
  }

  predicate AllWellFormed(tables: seq<Table>) {
    forall i :: 0 <= i < |tables| ==> WellFormed(tables[i])
  }

  /** A transaction table has at least five columns. */
  const MinColumns: nat := 5

  /** A table is processed when it has a row and at least five columns; all others are skipped. */
  predicate Processed(t: Table) {
    |t.rows| >= 1 && t.columns >= MinColumns
  }

  /** `transaction_rows`: the rows of the table, without the header row on page 1. */
  function Body(t: Table): (body: seq<Row>)
    requires |t.rows| >= 1
    ensures |body| == if t.page == 1 then |t.rows| - 1 else |t.rows|
  {
    if t.page == 1 then t.rows[1..] else t.rows
  }

  /** The split path: exactly one row whose first cell holds a line break. */
  predicate Concatenated(body: seq<Row>) {
    |body| == 1 && |body[0]| > 0 && '\n' in body[0][0]
  }

  /** The record of one row on the per-row path: validated, then parsed. */
  function RowRecord(row: Row, page: int): Option<Transaction>
    requires |row| > 0
  {
    if IsValidTransactionRow(row) then ParseRow(row, page) else None
  }

  /** The per-row path: the records of the valid rows, in row order. */
  function RowRecords(body: seq<Row>, page: int): (ts: seq<Transaction>)
    requires forall i :: 0 <= i < |body| ==> |body[i]| > 0
    ensures |ts| <= |body|
  {
    if |body| == 0 then []
    else
      var r := RowRecord(body[|body| - 1], page);
      RowRecords(body[..|body| - 1], page) + if r.Some? then [r.value] else []
  }

  /** The records one processed table contributes. */
  function TableRecords(t: Table): seq<Transaction>
    requires WellFormed(t) && Processed(t)
  {
    var body := Body(t);
    if Concatenated(body) then SplitRow(body[0], t.page) else RowRecords(body, t.page)
  }

  /** The number of records carrying page number `page`. */
  function CountOnPage(ts: seq<Transaction>, page: int): (n: nat)
    ensures n <= |ts|
  {
    if |ts| == 0 then 0
    else CountOnPage(ts[..|ts| - 1], page) + if ts[|ts| - 1].page == page then 1 else 0
  }

  /** One entry of `page_stats`. */
  datatype PageStat = PageStat(page: int, rowsProcessed: nat, validTransactions: nat)

  /** What the loop has built: the records and the page statistics. */
  datatype Extracted = Extracted(transactions: seq<Transaction>, stats: seq<PageStat>)

  /** The loop over the tables, one table at a time in table order. */
  function Extract(tables: seq<Table>): Extracted
    requires AllWellFormed(tables)
  {
    if |tables| == 0 then Extracted([], [])
    else
      var prev := Extract(tables[..|tables| - 1]);
      var t := tables[|tables| - 1];
      if !Processed(t) then prev
      else
        var ts := prev.transactions + TableRecords(t);
        Extracted(ts, prev.stats + [PageStat(t.page, |Body(t)|, CountOnPage(ts, t.page))])
  }

  /** The per-row path as the source runs it: validate each row, parse it, keep what parses. */
  method ParseRows(body: seq<Row>, page: int) returns (ts: seq<Transaction>)
    requires forall i :: 0 <= i < |body| ==> |body[i]| > 0
    ensures ts == RowRecords(body, page)
  {
    ts := [];
    var j := 0;
    while j < |body|
      invariant 0 <= j <= |body|
      invariant ts == RowRecords(body[..j], page)
    {
      var row := body[j];
      RowRecordsStep(body, j, page);
      if IsValidTransactionRow(row) {
        var r := ParseTransactionRow(row, page);
        if r.Some? {
          ts := ts + [r.value];
        }
      }
      j := j + 1;
    }
    assert body[..|body|] == body;
  }

  /** One more row adds its record, if it has one. */
  lemma RowRecordsStep(body: seq<Row>, j: nat, page: int)
    requires forall i :: 0 <= i < |body| ==> |body[i]| > 0
    requires j < |body|
    ensures RowRecords(body[..j + 1], page) == RowRecords(body[..j], page) +
      if RowRecord(body[j], page).Some? then [RowRecord(body[j], page).value] else []
  {
    assert body[..j + 1][..j] == body[..j];
  }

  /** One processed table: drop the page-1 header, then the split path or the per-row path. */
  method TableTransactions(t: Table) returns (body: seq<Row>, ts: seq<Transaction>)
    requires WellFormed(t) && Processed(t)
    ensures body == Body(t) && ts == TableRecords(t)
  {
    body := if t.page == 1 then t.rows[1..] else t.rows;
    assert forall i :: 0 <= i < |body| ==> body[i] in t.rows;
    if |body| == 1 && '\n' in body[0][0] {
      ts := SplitConcatenatedRows(body[0], t.page);
    } else {
      ts := ParseRows(body, t.page);
    }
  }

  /** The loop as the source runs it, over the tables in order. */
  method ExtractTransactions(tables: seq<Table>) returns (all: seq<Transaction>, stats: seq<PageStat>)
    requires AllWellFormed(tables)
    ensures Extracted(all, stats) == Extract(tables)
  {
    all := [];
    stats := [];
    var i := 0;
    while i < |tables|
      invariant 0 <= i <= |tables|
      invariant Extracted(all, stats) == Extract(tables[..i])
    {
      var t := tables[i];
      assert tables[..i + 1][..i] == tables[..i];
      if |t.rows| >= 1 && t.columns >= MinColumns {
        var body, ts := TableTransactions(t);
        all := all + ts;
        stats := stats + [PageStat(t.page, |body|, CountOnPage(all, t.page))];
      }
      i := i + 1;
    }
    assert tables[..|tables|] == tables;
  }

  // ---------------------------------------------------------------------
  // Properties
  // ---------------------------------------------------------------------

  /** A skipped table (no rows, or fewer than five columns) adds neither records nor a statistic. */
  lemma SkippedTableAddsNothing(tables: seq<Table>, t: Table)
    requires AllWellFormed(tables) && WellFormed(t) && !Processed(t)
    ensures Extract(tables + [t]) == Extract(tables)
  {
    assert (tables + [t])[..|tables|] == tables;
  }

  /** A processed table appends its own records after all earlier ones, and one statistic. */
  lemma ProcessedTableAppends(tables: seq<Table>, t: Table)
    requires AllWellFormed(tables) && WellFormed(t) && Processed(t)
    ensures Extract(tables + [t]).transactions == Extract(tables).transactions + TableRecords(t)
    ensures Extract(tables + [t]).stats == Extract(tables).stats +
      [PageStat(t.page, |Body(t)|, CountOnPage(Extract(tables + [t]).transactions, t.page))]
  {
    assert (tables + [t])[..|tables|] == tables;
  }

  /** Later tables only append: the records and statistics of a prefix of the tables are prefixes of the whole. */
  lemma {:induction false} ExtractInTableOrder(tables: seq<Table>, k: nat)
    requires AllWellFormed(tables) && k <= |tables|
    ensures Extract(tables[..k]).transactions <= Extract(tables).transactions
    ensures Extract(tables[..k]).stats <= Extract(tables).stats
  {
    if k < |tables| {
      var init := tables[..|tables| - 1];
      ExtractInTableOrder(init, k);
      assert init[..k] == tables[..k];
    } else {
      assert tables[..k] == tables;
    }
  }

  /** The page-1 header row is never read: replacing it changes nothing. */
  lemma HeaderRowIgnored(columns: nat, header: Row, other: Row, rest: seq<Row>)
    requires WellFormed(Table(1, columns, [header] + rest)) && WellFormed(Table(1, columns, [other] + rest))
    requires columns >= MinColumns
    ensures TableRecords(Table(1, columns, [header] + rest)) == TableRecords(Table(1, columns, [other] + rest))
    ensures Body(Table(1, columns, [header] + rest)) == rest
  {
    assert ([header] + rest)[1..] == rest;
    assert ([other] + rest)[1..] == rest;
  }

  /** A page-1 table holding only its header row yields no records and a statistic of zero rows. */
  lemma HeaderOnlyTable(tables: seq<Table>, columns: nat, header: Row)
    requires AllWellFormed(tables) && |header| == columns >= MinColumns
    ensures Extract(tables + [Table(1, columns, [header])]).transactions == Extract(tables).transactions
    ensures Extract(tables + [Table(1, columns, [header])]).stats[|Extract(tables).stats|].rowsProcessed == 0
  {
    var t := Table(1, columns, [header]);
    ProcessedTableAppends(tables, t);
    assert Body(t) == [];
    assert RowRecords([], 1) == [];
  }

  /** A row of at least five cells that yields a record yields one with a date of the date shape and the given page. */
  lemma RowRecordSpec(row: Row, page: int)
    requires |row| >= MinColumns
    ensures RowRecord(row, page).Some? <==> IsValidTransactionRow(row)
    ensures RowRecord(row, page).Some? ==>
      LooksLikeDate(RowRecord(row, page).value.date) && RowRecord(row, page).value.page == page
  {
    if IsValidTransactionRow(row) {
      ValidRowParses(row, page);
      ParseRowFields(row, page);
    }
  }

  /** Every record of the per-row path has a date of the date shape and the table's page. */
  lemma {:induction false} RowRecordsSpec(body: seq<Row>, page: int)
    requires forall i :: 0 <= i < |body| ==> |body[i]| >= MinColumns
    ensures forall r :: r in RowRecords(body, page) ==> LooksLikeDate(r.date) && r.page == page
  {
    if |body| > 0 {
      var init := body[..|body| - 1];
      var last := body[|body| - 1];
      RowRecordsSpec(init, page);
      RowRecordSpec(last, page);
    }
  }

  /** Every record a table contributes has a date of the date shape and the table's page. */
  lemma TableRecordsSpec(t: Table)
    requires WellFormed(t) && Processed(t)
    ensures forall r :: r in TableRecords(t) ==> LooksLikeDate(r.date) && r.page == t.page
  {
    var body := Body(t);
    if Concatenated(body) {
      SplitDates(body[0], t.page);
    } else {
      assert forall i :: 0 <= i < |body| ==> body[i] in t.rows;
      RowRecordsSpec(body, t.page);
    }
  }

  /** Counting a page over two runs of records adds up. */
  lemma {:induction false} CountOnPageAppend(a: seq<Transaction>, b: seq<Transaction>, page: int)
    ensures CountOnPage(a + b, page) == CountOnPage(a, page) + CountOnPage(b, page)
    decreases |b|
  {
    if |b| > 0 {
      var init := b[..|b| - 1];
      CountOnPageAppend(a, init, page);
      assert (a + b)[..|a + b| - 1] == a + init;
    } else {
      assert a + b == a;
    }
  }

  /** Records all on `page` are all counted. */
  lemma {:induction false} CountOnPageAll(ts: seq<Transaction>, page: int)
    requires forall r :: r in ts ==> r.page == page
    ensures CountOnPage(ts, page) == |ts|
  {
    if |ts| > 0 {
      var init := ts[..|ts| - 1];
      assert forall r :: r in init ==> r in ts;
      CountOnPageAll(init, page);
    }
  }

  /**
   * The statistic of a processed table counts its own records plus every
   * earlier record of the same page, so it is never below its own contribution.
   */
  lemma StatCountsOwnTable(tables: seq<Table>, t: Table)
    requires AllWellFormed(tables) && WellFormed(t) && Processed(t)
    ensures var s := Extract(tables + [t]).stats[|Extract(tables).stats|];
      && s.page == t.page
      && s.validTransactions == CountOnPage(Extract(tables).transactions, t.page) + |TableRecords(t)|
      && s.validTransactions >= |TableRecords(t)|
  {
    ProcessedTableAppends(tables, t);
    TableRecordsSpec(t);
    CountOnPageAppend(Extract(tables).transactions, TableRecords(t), t.page);
    CountOnPageAll(TableRecords(t), t.page);
  }

  /** The processed tables, in order. */
  function ProcessedTables(tables: seq<Table>): (ps: seq<Table>)
    ensures forall k :: 0 <= k < |ps| ==> ps[k] in tables && Processed(ps[k])
  {
    if |tables| == 0 then []
    else
      var init := tables[..|tables| - 1];
      var last := tables[|tables| - 1];
      assert forall p :: p in init ==> p in tables;
      ProcessedTables(init) + if Processed(last) then [last] else []
  }

  /**
   * One statistic per processed table, in table order, with the table's page
   * and the number of rows left after the header is dropped.
   */
  lemma {:induction false} StatsPerProcessedTable(tables: seq<Table>)
    requires AllWellFormed(tables)
    ensures |Extract(tables).stats| == |ProcessedTables(tables)|
    ensures forall k :: 0 <= k < |ProcessedTables(tables)| ==>
      Extract(tables).stats[k].page == ProcessedTables(tables)[k].page &&
      Extract(tables).stats[k].rowsProcessed == |Body(ProcessedTables(tables)[k])|
  {
    if |tables| > 0 {
      StatsPerProcessedTable(tables[..|tables| - 1]);
    }
  }

  /** Every record has a date of the date shape and the page of a processed table. */
  lemma {:induction false} ExtractedRecordsFromTables(tables: seq<Table>)
    requires AllWellFormed(tables)
    ensures forall r :: r in Extract(tables).transactions ==>
      LooksLikeDate(r.date) && exists i :: 0 <= i < |tables| && Processed(tables[i]) && r.page == tables[i].page
  {
    if |tables| > 0 {
      var n := |tables| - 1;
      var init := tables[..n];
      var t := tables[n];
      ExtractedRecordsFromTables(init);
      assert forall i :: 0 <= i < n ==> init[i] == tables[i];
      if Processed(t) {
        TableRecordsSpec(t);
        forall r | r in Extract(tables).transactions
          ensures LooksLikeDate(r.date) && exists i :: 0 <= i < |tables| && Processed(tables[i]) && r.page == tables[i].page
        {
          if r in TableRecords(t) {
            assert r.page == tables[n].page;
          }
        }
      }
    }
  }
}
