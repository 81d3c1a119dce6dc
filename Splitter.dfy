/**
 * Recovery of transactions from one row whose cells hold several lines each
 * (`_split_concatenated_rows` in src/hdfc_converter.py): the first seven
 * cells are split on '\n' and the pieces are re-zipped by line index.
 */
module Splitter {
  import opened Wrappers
  import opened PyStr
  import opened Amounts
  import opened Rows
  import opened Seqs

  /** Only the first seven cells are read: date, narration, reference, value date, the three amounts. */
  const SplitColumns: nat := 7

  /** The lines of cell `k`, or none when the row has no such cell. */
  function Pieces(row: Row, k: nat): (pieces: seq<string>)
    ensures k < |row| ==> |pieces| >= 1
  {
    if k < |row| then Split(row[k], '\n') else []
  }

  /** The line counts of the seven cells (0 for a cell the row does not have). */
  function PieceCounts(row: Row): (counts: seq<nat>)
    ensures |counts| == SplitColumns
  {
    seq(SplitColumns, k requires 0 <= k < SplitColumns => |Pieces(row, k)|)
  }

  /** `max_len`: the line count of the longest of the seven split cells. */
  function MaxPieces(row: Row): nat {
    MaxOf(PieceCounts(row))
  }

  /** Line `i` of a split cell, and '' when the cell has fewer lines. */
  function LineAt(pieces: seq<string>, i: nat): string {
    if i < |pieces| then pieces[i] else ""
  }

  /** Line `i` of cell `k`. */
  function Piece(row: Row, k: nat, i: nat): string {
    LineAt(Pieces(row, k), i)
  }

  /** The record built from the seven pieces of one line: text fields stripped, amount pieces cleaned as they are. */
  function LineFields(date: string, narration: string, refNo: string, valueDate: string,
      withdrawal: string, deposit: string, balance: string, page: int): Transaction
  {
    Transaction(Strip(date), Strip(narration), Strip(refNo), Strip(valueDate),
      CleanAmount(withdrawal), CleanAmount(deposit), CleanAmount(balance), page)
  }

  /** The record for line `i`, if its date piece passes `_is_valid_date`. */
  function LineRecord(row: Row, i: nat, page: int): Option<Transaction> {
    var date := Piece(row, 0, i);
    if !IsValidDate(date) then None
    else
      Some(LineFields(date, Piece(row, 1, i), Piece(row, 2, i), Piece(row, 3, i),
        Piece(row, 4, i), Piece(row, 5, i), Piece(row, 6, i), page))
  }

  /** The record of line `i`, given the seven pieces of that line. */
  lemma LineRecordOf(row: Row, i: nat, page: int,
      date: string, narration: string, refNo: string, valueDate: string,
      withdrawal: string, deposit: string, balance: string)
    requires date == Piece(row, 0, i) && narration == Piece(row, 1, i) && refNo == Piece(row, 2, i)
    requires valueDate == Piece(row, 3, i) && withdrawal == Piece(row, 4, i)
    requires deposit == Piece(row, 5, i) && balance == Piece(row, 6, i)
    ensures LineRecord(row, i, page) ==
      if date != "" && IsValidDate(date) then
        Some(LineFields(date, narration, refNo, valueDate, withdrawal, deposit, balance, page))
      else None
  {
  }

  /** Rows that agree on their seven split cells give the same line records. */
  lemma LineRecordSameCells(a: Row, b: Row, i: nat, page: int)
    requires forall k :: 0 <= k < SplitColumns ==> Pieces(a, k) == Pieces(b, k)
    ensures LineRecord(a, i, page) == LineRecord(b, i, page)
  {
    assert forall k :: 0 <= k < SplitColumns ==> Piece(a, k, i) == Piece(b, k, i);
  }

  /** The candidate record of every line index below `max_len`. */
  function LineRecords(row: Row, page: int): (lines: seq<Option<Transaction>>)
    ensures |lines| == MaxPieces(row)
  {
    seq(MaxPieces(row), i requires 0 <= i < MaxPieces(row) => LineRecord(row, i, page))
  }

  /**
   * `_split_concatenated_rows(row, page)`: the records of the valid lines in
   * line order. An empty row makes the read of its first cell fail, which the
   * splitter reports as no records.
   */
  function SplitRow(row: Row, page: int): seq<Transaction> {
    if |row| == 0 then [] else Flatten(LineRecords(row, page))
  }

  /** The splitter as the source runs it: split the seven cells, then walk the line indices. */
  method SplitConcatenatedRows(row: Row, page: int) returns (ts: seq<Transaction>)
    ensures ts == SplitRow(row, page)
  {
    ts := [];
    if |row| == 0 {
      return;
    }
    var dates := Pieces(row, 0);
    var narrations := Pieces(row, 1);
    var refNos := Pieces(row, 2);
    var valueDates := Pieces(row, 3);
    var withdrawals := Pieces(row, 4);
    var deposits := Pieces(row, 5);
    var balances := Pieces(row, 6);
    var maxLen := MaxOf([|dates|, |narrations|, |refNos|, |valueDates|, |withdrawals|, |deposits|, |balances|]);
    assert [|dates|, |narrations|, |refNos|, |valueDates|, |withdrawals|, |deposits|, |balances|] == PieceCounts(row);
    assert maxLen == MaxPieces(row);
    ghost var lines := LineRecords(row, page);
    var i := 0;
    while i < maxLen
      invariant 0 <= i <= maxLen
      invariant ts == Flatten(lines[..i])
    {
      var date := LineAt(dates, i);
      var narration := LineAt(narrations, i);
      var refNo := LineAt(refNos, i);
      var valueDate := LineAt(valueDates, i);
      var withdrawal := LineAt(withdrawals, i);
      var deposit := LineAt(deposits, i);
      var balance := LineAt(balances, i);
      SplitStep(row, page, i, date, narration, refNo, valueDate, withdrawal, deposit, balance);
      if date != "" && IsValidDate(date) {
        var t := LineFields(date, narration, refNo, valueDate, withdrawal, deposit, balance, page);
        ts := ts + [t];
      }
      i := i + 1;
    }
    assert lines[..maxLen] == lines;
  }

  /** One turn of the splitter's loop: line `i` adds its record, if it has one. */
  lemma SplitStep(row: Row, page: int, i: nat,
      date: string, narration: string, refNo: string, valueDate: string,
      withdrawal: string, deposit: string, balance: string)
    requires i < MaxPieces(row)
    requires date == Piece(row, 0, i) && narration == Piece(row, 1, i) && refNo == Piece(row, 2, i)
    requires valueDate == Piece(row, 3, i) && withdrawal == Piece(row, 4, i)
    requires deposit == Piece(row, 5, i) && balance == Piece(row, 6, i)
    ensures Flatten(LineRecords(row, page)[..i + 1]) == Flatten(LineRecords(row, page)[..i]) +
      if date != "" && IsValidDate(date)
      then [LineFields(date, narration, refNo, valueDate, withdrawal, deposit, balance, page)]
      else []
  {
    FlattenPrefixStep(LineRecords(row, page), i);
    LineRecordOf(row, i, page, date, narration, refNo, valueDate, withdrawal, deposit, balance);
  }

  // ---------------------------------------------------------------------
  // Properties
  // ---------------------------------------------------------------------

  /** A line yields a record exactly when its date piece is valid; the record's date has the date shape. */
  lemma LineRecordSpec(row: Row, i: nat, page: int)
    ensures LineRecord(row, i, page).Some? <==> IsValidDate(Piece(row, 0, i))
    ensures LineRecord(row, i, page).Some? ==>
      LooksLikeDate(LineRecord(row, i, page).value.date) && LineRecord(row, i, page).value.page == page
  {
  }

  /** The splitter never yields more records than the longest split cell has lines. */
  lemma SplitCountBound(row: Row, page: int)
    ensures |SplitRow(row, page)| <= MaxPieces(row)
  {
  }

  /** The line indices whose date piece passes the validator, in increasing order. */
  function ValidLines(row: Row, page: int): seq<nat> {
    if |row| == 0 then [] else PresentIndices(LineRecords(row, page))
  }

  /**
   * Records are emitted for exactly the lines whose date piece is valid, in
   * increasing line order, and record `j` is built from the `j`-th such line.
   */
  lemma SplitAligned(row: Row, page: int)
    ensures Increasing(ValidLines(row, page))
    ensures forall i :: i in ValidLines(row, page) <==>
      |row| > 0 && 0 <= i < MaxPieces(row) && IsValidDate(Piece(row, 0, i))
    ensures |SplitRow(row, page)| == |ValidLines(row, page)|
    ensures forall j :: 0 <= j < |SplitRow(row, page)| ==>
      LineRecord(row, ValidLines(row, page)[j], page) == Some(SplitRow(row, page)[j])
  {
    if |row| > 0 {
      var lines := LineRecords(row, page);
      PresentIndicesSpec(lines);
      FlattenAligned(lines);
      forall i | 0 <= i < |lines|
        ensures lines[i].Some? <==> IsValidDate(Piece(row, 0, i))
      {
        LineRecordSpec(row, i, page);
      }
    }
  }

  /** Every record carries a date of the date shape and the given page number. */
  lemma SplitDates(row: Row, page: int)
    ensures forall t :: t in SplitRow(row, page) ==> LooksLikeDate(t.date) && t.page == page
  {
    if |row| > 0 {
      var lines := LineRecords(row, page);
      forall t | t in SplitRow(row, page)
        ensures LooksLikeDate(t.date) && t.page == page
      {
        FlattenMembers(lines, t);
        var i :| 0 <= i < |lines| && lines[i] == Some(t);
        LineRecordSpec(row, i, page);
      }
    }
  }

  /** The splitter gives the same records when the row is cut to its first seven cells. */
  lemma SplitReadsFirstSeven(row: Row, page: int)
    requires |row| >= SplitColumns
    ensures SplitRow(row, page) == SplitRow(row[..SplitColumns], page)
  {
    var short := row[..SplitColumns];
    forall k | 0 <= k < SplitColumns
      ensures Pieces(row, k) == Pieces(short, k)
    {
      assert row[k] == short[k];
    }
    assert PieceCounts(row) == PieceCounts(short);
    forall i | 0 <= i < MaxPieces(row)
      ensures LineRecords(row, page)[i] == LineRecords(short, page)[i]
    {
      LineRecordSameCells(row, short, i, page);
    }
    assert LineRecords(row, page) == LineRecords(short, page);
  }

  /** A cell of two lines splits into those two lines. */
  lemma TwoLinePieces(row: Row, k: nat, first: string, second: string)
    requires k < |row| && row[k] == first + "\n" + second
    requires '\n' !in first && '\n' !in second
    ensures Pieces(row, k) == [first, second]
  {
    SplitAround(first, second, '\n');
    SplitWhole(second, '\n');
  }

  /** When the date cell has two lines and no read cell has more, there are two line indices. */
  lemma TwoLinesLongest(row: Row)
    requires |Pieces(row, 0)| == 2
    requires forall k :: 1 <= k < SplitColumns ==> |Pieces(row, k)| <= 2
    ensures MaxPieces(row) == 2
  {
    var counts := PieceCounts(row);
    assert counts[0] == 2;
    assert forall k :: 0 <= k < |counts| ==> counts[k] <= 2;
  }

  /**
   * A row whose date cell splits into two valid dates, and whose other six
   * read cells have at most two lines each, gives exactly two records, line
   * by line: the first from the first lines, the second from the second.
   */
  lemma SplitTwoLines(row: Row, page: int, date1: string, date2: string, text1: string, text2: string)
    requires |row| >= 2 && Pieces(row, 0) == [date1, date2] && Pieces(row, 1) == [text1, text2]
    requires IsValidDate(date1) && IsValidDate(date2)
    requires forall k :: 2 <= k < SplitColumns ==> |Pieces(row, k)| <= 2
    ensures |SplitRow(row, page)| == 2
    ensures SplitRow(row, page)[0].date == Strip(date1) && SplitRow(row, page)[0].narration == Strip(text1)
    ensures SplitRow(row, page)[1].date == Strip(date2) && SplitRow(row, page)[1].narration == Strip(text2)
  {
    TwoLinesLongest(row);
    assert Piece(row, 0, 0) == date1 && Piece(row, 1, 0) == text1;
    assert Piece(row, 0, 1) == date2 && Piece(row, 1, 1) == text2;
    SplitTwoRecords(row, page);
  }

  /** Two line indices, both with a valid date piece, give two records in line order. */
  lemma SplitTwoRecords(row: Row, page: int)
    requires |row| > 0 && MaxPieces(row) == 2
    requires IsValidDate(Piece(row, 0, 0)) && IsValidDate(Piece(row, 0, 1))
    ensures |SplitRow(row, page)| == 2
    ensures SplitRow(row, page)[0].date == Strip(Piece(row, 0, 0))
    ensures SplitRow(row, page)[0].narration == Strip(Piece(row, 1, 0))
    ensures SplitRow(row, page)[1].date == Strip(Piece(row, 0, 1))
    ensures SplitRow(row, page)[1].narration == Strip(Piece(row, 1, 1))
  {
    var lines := LineRecords(row, page);
    LineRecordDateText(row, 0, page);
    LineRecordDateText(row, 1, page);
    assert lines[0] == LineRecord(row, 0, page) && lines[1] == LineRecord(row, 1, page);
    FlattenTwo(lines);
  }

  /** A line with a valid date piece gives a record with that date and that narration piece, stripped. */
  lemma LineRecordDateText(row: Row, i: nat, page: int)
    requires IsValidDate(Piece(row, 0, i))
    ensures LineRecord(row, i, page).Some?
    ensures LineRecord(row, i, page).value.date == Strip(Piece(row, 0, i))
    ensures LineRecord(row, i, page).value.narration == Strip(Piece(row, 1, i))
  {
  }

  /** A row without line breaks splits into one line per cell. */
  lemma SingleLinePieces(row: Row)
    requires |row| == SplitColumns
    requires forall k :: 0 <= k < SplitColumns ==> '\n' !in row[k]
    ensures forall k :: 0 <= k < SplitColumns ==> Pieces(row, k) == [row[k]]
    ensures MaxPieces(row) == 1
  {
    forall k | 0 <= k < SplitColumns
      ensures Pieces(row, k) == [row[k]]
    {
      SplitWhole(row[k], '\n');
    }
    assert PieceCounts(row) == [1, 1, 1, 1, 1, 1, 1];
  }

  /** A row whose seven cells are single lines has exactly one line record. */
  lemma SingleLineRecords(row: Row, page: int)
    requires |row| == SplitColumns
    requires forall k :: 0 <= k < SplitColumns ==> '\n' !in row[k]
    ensures LineRecords(row, page) == [LineRecord(row, 0, page)]
  {
    SingleLinePieces(row);
  }

  /** The one line of single-line cells is the cells themselves. */
  lemma SingleLineRecord(row: Row, page: int)
    requires |row| == SplitColumns
    requires forall k :: 0 <= k < SplitColumns ==> Pieces(row, k) == [row[k]]
    requires IsValidDate(row[0])
    ensures LineRecord(row, 0, page) == Some(LineFields(row[0], row[1], row[2], row[3], row[4], row[5], row[6], page))
  {
    assert forall k :: 0 <= k < SplitColumns ==> Piece(row, k, 0) == row[k];
  }

  /** A seven-cell row without line breaks and with a valid date yields the one record of its cells. */
  lemma SplitSingleLine(row: Row, page: int)
    requires |row| == SplitColumns
    requires forall k :: 0 <= k < SplitColumns ==> '\n' !in row[k]
    requires IsValidDate(row[0])
    ensures SplitRow(row, page) == [LineFields(row[0], row[1], row[2], row[3], row[4], row[5], row[6], page)]
  {
    var t := LineFields(row[0], row[1], row[2], row[3], row[4], row[5], row[6], page);
    SingleLinePieces(row);
    SingleLineRecord(row, page);
    SingleLineRecords(row, page);
    FlattenSnoc([], Some(t));
    assert [] + [Some(t)] == [Some(t)];
  }

  /** The row parser on a seven-cell row reads the same fields as one line of the splitter. */
  lemma ParseSevenCells(row: Row, page: int)
    requires |row| == SplitColumns
    requires Strip(row[1]) != NanText
    requires forall k :: 4 <= k < SplitColumns ==> Strip(row[k]) == row[k]
    ensures ParseRow(row, page) == Some(LineFields(row[0], row[1], row[2], row[3], row[4], row[5], row[6], page))
  {
    KeptUpToStep(StripCells(row), 1, Strip(row[1]));
    assert Narration(row) == Strip(row[1]);
  }

  /**
   * On a seven-cell row without line breaks the splitter and the row parser
   * agree, provided the narration cell is not "nan" and the amount cells
   * carry no surrounding whitespace (the splitter cleans amounts unstripped).
   */
  lemma SplitAgreesWithParse(row: Row, page: int)
    requires |row| == SplitColumns
    requires forall k :: 0 <= k < SplitColumns ==> '\n' !in row[k]
    requires IsValidDate(row[0]) && Strip(row[1]) != NanText
    requires forall k :: 4 <= k < SplitColumns ==> Strip(row[k]) == row[k]
    ensures SplitRow(row, page) == [ParseRow(row, page).value]
  {
    SplitSingleLine(row, page);
    ParseSevenCells(row, page);
  }

  /**
   * An amount cell of only whitespace is cleaned to "" by the splitter, which
   * does not strip it first, but to "0.00" by the row parser, which does.
   */
  lemma BlankAmountPathsDiffer(cell: string)
    requires |cell| > 0 && forall i :: 0 <= i < |cell| ==> IsSpace(cell[i])
    ensures CleanAmount(cell) == ""
    ensures CleanAmount(Strip(cell)) == "0.00"
  {
    CleanAmountBlank(cell);
    StripAllSpace(cell);
  }
}
