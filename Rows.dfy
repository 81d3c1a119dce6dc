/**
 * One table row: the date-shape validators and the fixed-offset row parser
 * (`_is_valid_date`, `_is_valid_transaction_row` and `_parse_transaction_row`
 * in src/hdfc_converter.py). A row is the sequence of its cell texts.
 */
module Rows {
  import opened Wrappers
  import opened PyStr
  import opened Amounts

  /** One extracted transaction record; the amounts are `_clean_amount` outputs. */
  datatype Transaction = Transaction(
    date: string,
    narration: string,
    referenceNumber: string,
    valueDate: string,
    withdrawal: string,
    deposit: string,
    closingBalance: string,
    page: int)

  type Row = seq<string>

  // ---------------------------------------------------------------------
  // Validators
  // ---------------------------------------------------------------------

  /** The date-shape test on already stripped text: long enough, a digit, a '/'. */
  predicate LooksLikeDate(t: string) {
    |t| >= 8 && HasDigit(t) && '/' in t
  }

  /** `_is_valid_date(s)`: "" and "nan" are refused before the strip. */
  predicate IsValidDate(s: string) {
    s != "" && s != NanText && LooksLikeDate(Strip(s))
  }

  /** `_is_valid_transaction_row(row)`: the date shape of the stripped first cell. */
  predicate IsValidTransactionRow(row: Row)
    requires |row| > 0
  {
    LooksLikeDate(Strip(row[0]))
  }

  /** The explicit "" and "nan" test of `_is_valid_date` changes nothing: both fail the length test. */
  lemma IsValidDateIsShapeTest(s: string)
    ensures IsValidDate(s) <==> LooksLikeDate(Strip(s))
  {
    if s == NanText {
      StripUnchanged(NanText);
    }
  }

  /** The row validator and the date validator agree on the first cell. */
  lemma RowValidIffDateValid(row: Row)
    requires |row| > 0
    ensures IsValidTransactionRow(row) <==> IsValidDate(row[0])
  {
    IsValidDateIsShapeTest(row[0]);
  }

  lemma HasDigitAt(s: string, i: int)
    requires 0 <= i < |s| && IsDigit(s[i])
    ensures HasDigit(s)
  {
  }

  /** "15/07/2020" is accepted. */
  lemma DateAccepted()
    ensures IsValidDate("15/07/2020")
  {
    StripUnchanged("15/07/2020");
    HasDigitAt("15/07/2020", 0);
    assert "15/07/2020"[2] == '/';
  }

  /** "Total" is refused. */
  lemma TotalRefused()
    ensures !IsValidDate("Total")
  {
    StripUnchanged("Total");
  }

  // ---------------------------------------------------------------------
  // Narration
  // ---------------------------------------------------------------------

  /** A stripped narration cell is kept unless it is empty or the text "nan". */
  predicate KeptPart(part: string) {
    part != "" && part != NanText
  }

  /** Every cell of the row, stripped (`str(row.iloc[i]).strip()`). */
  function StripCells(row: Row): (cells: seq<string>)
    ensures |cells| == |row|
    ensures forall i :: 0 <= i < |row| ==> cells[i] == Strip(row[i])
  {
    seq(|row|, i requires 0 <= i < |row| => Strip(row[i]))
  }

  /** Stripping a stripped cell changes nothing. */
  lemma StripCellsStripped(row: Row)
    ensures forall i :: 0 <= i < |row| ==> Strip(StripCells(row)[i]) == StripCells(row)[i]
  {
    forall i | 0 <= i < |row|
      ensures Strip(StripCells(row)[i]) == StripCells(row)[i]
    {
      StripIdempotent(row[i]);
    }
  }

  /** The kept cells among `cells[1..hi]`, in column order. */
  function KeptUpTo(cells: seq<string>, hi: int): (parts: seq<string>)
    requires hi <= |cells|
    ensures hi <= 1 ==> parts == []
    ensures |parts| <= if hi <= 1 then 0 else hi - 1
  {
    if hi <= 1 then []
    else KeptUpTo(cells, hi - 1) + if KeptPart(cells[hi - 1]) then [cells[hi - 1]] else []
  }

  /** Moving `hi` past one more cell appends that cell when it is kept. */
  lemma KeptUpToStep(cells: seq<string>, i: int, part: string)
    requires 1 <= i < |cells| && part == cells[i]
    ensures KeptUpTo(cells, i + 1) == KeptUpTo(cells, i) + if KeptPart(part) then [part] else []
  {
  }

  /** A kept cell strictly between the first column and `hi` is among the kept cells. */
  lemma {:induction false} KeptCellIsPart(cells: seq<string>, hi: int, i: int)
    requires hi <= |cells| && 1 <= i < hi && KeptPart(cells[i])
    ensures cells[i] in KeptUpTo(cells, hi)
  {
    var last := if KeptPart(cells[hi - 1]) then [cells[hi - 1]] else [];
    assert KeptUpTo(cells, hi) == KeptUpTo(cells, hi - 1) + last;
    if i < hi - 1 {
      KeptCellIsPart(cells, hi - 1, i);
    }
  }

  /** Every kept cell comes from a kept position strictly between the first column and `hi`. */
  lemma {:induction false} PartIsKeptCell(cells: seq<string>, hi: int, p: string)
    requires hi <= |cells| && p in KeptUpTo(cells, hi)
    ensures exists i :: 1 <= i < hi && KeptPart(cells[i]) && p == cells[i]
  {
    var rest := KeptUpTo(cells, hi - 1);
    var last := if KeptPart(cells[hi - 1]) then [cells[hi - 1]] else [];
    assert KeptUpTo(cells, hi) == rest + last;
    if p in rest {
      PartIsKeptCell(cells, hi - 1, p);
    } else {
      assert p in last;
    }
  }

  /** The kept parts of stripped cells are kept and stripped. */
  lemma {:induction false} KeptStaysStripped(cells: seq<string>, hi: int)
    requires hi <= |cells|
    requires forall i :: 0 <= i < |cells| ==> Strip(cells[i]) == cells[i]
    ensures forall k :: 0 <= k < |KeptUpTo(cells, hi)| ==>
      KeptPart(KeptUpTo(cells, hi)[k]) && Strip(KeptUpTo(cells, hi)[k]) == KeptUpTo(cells, hi)[k]
  {
    if hi > 1 {
      KeptStaysStripped(cells, hi - 1);
    }
  }

  /** The narration parts: the kept stripped cells at indices 1 up to, not including, `n - 5`. */
  function NarrationParts(row: Row): seq<string>
    requires |row| >= 5
  {
    KeptUpTo(StripCells(row), |row| - 5)
  }

  /** The narration parts are exactly the stripped narration cells that are neither empty nor "nan". */
  lemma NarrationPartsFrom(row: Row, p: string)
    requires |row| >= 5
    ensures p in NarrationParts(row) <==>
      exists i :: 1 <= i < |row| - 5 && KeptPart(Strip(row[i])) && p == Strip(row[i])
  {
    var cells := StripCells(row);
    if p in NarrationParts(row) {
      PartIsKeptCell(cells, |row| - 5, p);
    }
    if exists i :: 1 <= i < |row| - 5 && KeptPart(Strip(row[i])) && p == Strip(row[i]) {
      var i :| 1 <= i < |row| - 5 && KeptPart(Strip(row[i])) && p == Strip(row[i]);
      KeptCellIsPart(cells, |row| - 5, i);
    }
  }

  /** Joining non-empty stripped parts with single spaces gives stripped text. */
  lemma {:induction false} JoinOfStrippedIsStripped(parts: seq<string>)
    requires forall k :: 0 <= k < |parts| ==> parts[k] != "" && Strip(parts[k]) == parts[k]
    ensures var j := Join(parts, " ");
      j == [] || (!IsSpace(j[0]) && !IsSpace(j[|j| - 1]))
    ensures |parts| > 0 ==> Join(parts, " ") != []
  {
    if |parts| > 1 {
      JoinOfStrippedIsStripped(parts[1..]);
      var j := Join(parts, " ");
      var tail := Join(parts[1..], " ");
      assert j == parts[0] + " " + tail;
      assert j[0] == parts[0][0];
      assert j[|j| - 1] == tail[|tail| - 1];
    } else if |parts| == 1 {
      assert Strip(parts[0]) == parts[0];
    }
  }

  /** `' '.join(narration_parts)`. */
  function Narration(row: Row): (narration: string)
    requires |row| >= 5
    ensures Strip(narration) == narration
    ensures |row| <= 6 ==> narration == ""
  {
    var parts := NarrationParts(row);
    StripCellsStripped(row);
    KeptStaysStripped(StripCells(row), |row| - 5);
    JoinOfStrippedIsStripped(parts);
    StripUnchanged(Join(parts, " "));
    Join(parts, " ")
  }

  // ---------------------------------------------------------------------
  // Row parser
  // ---------------------------------------------------------------------

  /**
   * `_parse_transaction_row(row, page)`: fields at fixed offsets from both ends,
   * the middle cells as narration. A row of fewer than five cells makes the
   * negative indexing fail, which the parser reports as None.
   */
  function ParseRow(row: Row, page: int): Option<Transaction>
  {
    var n := |row|;
    if n < 5 then None
    else
      Some(Transaction(
        Strip(row[0]),
        Narration(row),
        Strip(row[n - 5]),
        Strip(row[n - 4]),
        CleanAmount(Strip(row[n - 3])),
        CleanAmount(Strip(row[n - 2])),
        CleanAmount(Strip(row[n - 1])),
        page))
  }

  /** The narration loop of the parser: the kept cells `1 .. n - 6`, stripped, in order. */
  method CollectNarrationParts(row: Row) returns (parts: seq<string>)
    requires |row| >= 5
    ensures parts == NarrationParts(row)
  {
    ghost var cells := StripCells(row);
    var narrationEnd := |row| - 5;
    parts := [];
    var i := 1;
    while i < narrationEnd
      invariant 1 <= i <= |row|
      invariant if narrationEnd <= 1 then i == 1 else i <= narrationEnd
      invariant parts == KeptUpTo(cells, i)
    {
      var part := Strip(row[i]);
      KeptUpToStep(cells, i, part);
      if KeptPart(part) {
        parts := parts + [part];
      }
      i := i + 1;
    }
  }

  /** The parser as the source runs it: fixed offsets, then the narration loop. */
  method ParseTransactionRow(row: Row, page: int) returns (r: Option<Transaction>)
    ensures r == ParseRow(row, page)
  {
    var n := |row|;
    if n < 5 {
      return None;
    }
    var date := Strip(row[0]);
    var balance := Strip(row[n - 1]);
    var deposit := Strip(row[n - 2]);
    var withdrawal := Strip(row[n - 3]);
    var valueDate := Strip(row[n - 4]);
    var refNo := Strip(row[n - 5]);
    var parts := CollectNarrationParts(row);
    var narration := Join(parts, " ");
    assert narration == Narration(row);
    r := Some(Transaction(date, narration, refNo, valueDate,
      CleanAmount(withdrawal), CleanAmount(deposit), CleanAmount(balance), page));
  }

  /** What the parser reads from where: every field at its offset, None exactly below five cells. */
  lemma ParseRowFields(row: Row, page: int)
    ensures ParseRow(row, page).Some? <==> |row| >= 5
    ensures |row| >= 5 ==>
      var t := ParseRow(row, page).value;
      var n := |row|;
      && t.date == Strip(row[0])
      && t.referenceNumber == Strip(row[n - 5])
      && t.valueDate == Strip(row[n - 4])
      && t.withdrawal == CleanAmount(Strip(row[n - 3]))
      && t.deposit == CleanAmount(Strip(row[n - 2]))
      && t.closingBalance == CleanAmount(Strip(row[n - 1]))
      && t.page == page
      && t.narration == Join(NarrationParts(row), " ")
  {
  }

  /** With exactly five cells the date and the reference number are both read from the first cell. */
  lemma FiveCellsShareDate(row: Row, page: int)
    requires |row| == 5
    ensures ParseRow(row, page).value.referenceNumber == ParseRow(row, page).value.date
    ensures ParseRow(row, page).value.narration == ""
  {
  }

  /** Every text field of a parsed record is stripped, and so is its narration. */
  lemma ParsedFieldsStripped(row: Row, page: int)
    requires |row| >= 5
    ensures var t := ParseRow(row, page).value;
      && Strip(t.date) == t.date
      && Strip(t.narration) == t.narration
      && Strip(t.referenceNumber) == t.referenceNumber
      && Strip(t.valueDate) == t.valueDate
  {
    var n := |row|;
    StripIdempotent(row[0]);
    StripIdempotent(row[n - 5]);
    StripIdempotent(row[n - 4]);
  }

  /** A row that passes the validator parses to a record whose date has the date shape. */
  lemma ValidRowParses(row: Row, page: int)
    requires |row| >= 5 && IsValidTransactionRow(row)
    ensures ParseRow(row, page).Some?
    ensures LooksLikeDate(ParseRow(row, page).value.date)
  {
  }
}
