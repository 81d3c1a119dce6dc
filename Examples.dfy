/**
 * Concrete cases worked through the model: the repository's test inputs for
 * `_clean_amount`, its dates and a two-line merged row.
 */
module Examples {
  import opened Wrappers
  import opened PyStr
  import opened Amounts
  import opened Rows
  import opened Splitter

  lemma ThousandsParts()
    ensures "1234" + "." + "56" == "1234.56"
  {
  }

  lemma ThousandsSplit()
    ensures "1" + [','] + "234.56" == "1,234.56"
    ensures "1" + "234.56" == "1234.56"
  {
  }

  lemma ThousandsCleaned(s: string)
    requires s == "1,234.56"
    ensures Cleaned(s) == "1234.56"
  {
    var head, tail := "1", "234.56";
    ThousandsSplit();
    assert s == (head + [',']) + tail;
    DeleteCharConcat(head + [','], tail, ',');
    DeleteCharConcat(head, [','], ',');
    assert DeleteChar([','], ',') == [];
    assert ',' !in head && ',' !in tail;
    assert DeleteChar(s, ',') == head + tail;
    StripUnchanged("1234.56");
  }

  lemma ThousandsPrinted()
    ensures NatToString(DigitsValue("1234")) == "1234"
  {
    assert NatToString(1) == "1";
    assert NatToString(12) == "12";
    assert NatToString(123) == "123";
    assert NatToString(1234) == "1234";
  }

  /** "1,234.56" becomes "1234.56" (a case from the test suite). */
  lemma CleanAmountThousands()
    ensures CleanAmount("1,234.56") == "1234.56"
  {
    ThousandsCleanAmount("1,234.56");
  }

  lemma ThousandsCleanAmount(s: string)
    requires s == "1,234.56"
    ensures CleanAmount(s) == "1234.56"
  {
    ThousandsCleaned(s);
    ThousandsPrinted();
    ThousandsParts();
    CanonicalCleansToItself(s, "1234", "56");
  }

  /** "0" becomes "0.00" (a case from the test suite). */
  lemma CleanAmountZero()
    ensures CleanAmount("0") == "0.00"
  {
    assert DeleteChar("0", ',') == "0";
    StripUnchanged("0");
    assert DeleteChar(DeleteChar("0", '.'), '-') == "0";
    assert Split("0", '.') == ["0"];
    var n := Numeral(false, "0", "");
    assert ParseFloat("0") == Some(n);
    assert NatToString(0) == "0";
    assert Cents(n) == 0;
    NumericRoute("0", n);
  }

  lemma NotAFloatCleaned()
    ensures Cleaned("1.2.3") == "1.2.3"
  {
    assert DeleteChar("1.2.3", ',') == "1.2.3";
    StripUnchanged("1.2.3");
  }

  lemma NotAFloatRefused()
    ensures ParseFloat("1.2.3") == None
  {
    SplitAround("1", "2.3", '.');
    SplitAround("2", "3", '.');
    assert "1" + "." + "2.3" == "1.2.3";
    assert "2" + "." + "3" == "2.3";
    assert |Split("1.2.3", '.')| == 3;
  }

  /** "1.2.3" passes the digit guard but not `float()`, so it comes back as it is. */
  lemma CleanAmountNotAFloat()
    ensures CleanAmount("1.2.3") == "1.2.3"
  {
    NotAFloatCleaned();
    NotAFloatRefused();
    NotAFloatRoute("1.2.3");
  }

  /** "" and "nan" become "0.00" (cases from the test suite). */
  lemma CleanAmountMissing()
    ensures CleanAmount("") == "0.00"
    ensures CleanAmount("nan") == "0.00"
  {
  }

  /** A `dd/mm/yyyy` text with no surrounding space passes `_is_valid_date`. */
  lemma SlashDateValid(d: string)
    requires |d| == 10 && IsDigit(d[0]) && d[2] == '/' && IsDigit(d[9])
    ensures IsValidDate(d)
  {
    StripUnchanged(d);
    HasDigitAt(d, 0);
    assert d[2] in d;
  }

  /** The date cell of the example row breaks into its two dates. */
  lemma ExampleDateLines(row: Row)
    requires |row| >= 1 && row[0] == "01/01/2024\n02/01/2024"
    ensures Pieces(row, 0) == ["01/01/2024", "02/01/2024"]
  {
    var d1, d2 := "01/01/2024", "02/01/2024";
    assert row[0] == d1 + "\n" + d2;
    assert '\n' !in d1 && '\n' !in d2;
    TwoLinePieces(row, 0, d1, d2);
  }

  /** The narration cell of the example row breaks into its two texts. */
  lemma ExampleTextLines(row: Row)
    requires |row| >= 2 && row[1] == "A\nB"
    ensures Pieces(row, 1) == ["A", "B"]
  {
    assert row[1] == "A" + "\n" + "B";
    TwoLinePieces(row, 1, "A", "B");
  }

  /** Both example dates are valid and carry no surrounding space. */
  lemma ExampleDatesValid()
    ensures IsValidDate("01/01/2024") && Strip("01/01/2024") == "01/01/2024"
    ensures IsValidDate("02/01/2024") && Strip("02/01/2024") == "02/01/2024"
    ensures Strip("A") == "A" && Strip("B") == "B"
  {
    SlashDateValid("01/01/2024");
    SlashDateValid("02/01/2024");
    StripUnchanged("01/01/2024");
    StripUnchanged("02/01/2024");
    StripUnchanged("A");
    StripUnchanged("B");
  }

  /**
   * A row whose date cell holds two dates on two lines and whose narration
   * cell holds two lines gives two records, aligned line by line.
   */
  lemma TwoDateRowSplits(row: Row, page: int)
    requires |row| >= 2 && row[0] == "01/01/2024\n02/01/2024" && row[1] == "A\nB"
    requires forall k :: 2 <= k < SplitColumns ==> |Pieces(row, k)| <= 2
    ensures |SplitRow(row, page)| == 2
    ensures SplitRow(row, page)[0].date == "01/01/2024" && SplitRow(row, page)[0].narration == "A"
    ensures SplitRow(row, page)[1].date == "02/01/2024" && SplitRow(row, page)[1].narration == "B"
  {
    ExampleDateLines(row);
    ExampleTextLines(row);
    ExampleDatesValid();
    SplitTwoLines(row, page, "01/01/2024", "02/01/2024", "A", "B");
  }
}
