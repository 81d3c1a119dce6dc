# HDFC statement converter — a Dafny model of its core

The converter reads the tables that a PDF table extractor finds in an HDFC
bank statement and turns them into transaction records. It then gives each
record a spending category and summarises the records. A small Flask
backend accepts the uploaded PDF and serves the converter's output files.

This project models the logic in between, on values: table cells are
strings and a table is a sequence of rows. The modules are:

- `PyStr`: the Python string operations the code relies on (`strip`,
  `split('\n')`, `' '.join`, `lower`, `in`, `endswith`, `replace(',', '')`,
  `isdigit`, string comparison). `strip` removes every character that
  Python's `str.isspace` accepts.
- `Amounts`: `_clean_amount`, together with the part of `float()` and
  `f"{x:.2f}"` that it uses. Numbers are decimal numerals, and their value
  is counted in whole cents.
- `Rows`: the date test, the row validator and the row parser (fields at
  fixed offsets from both ends; the narration cells in between).
- `Splitter`: the splitter for a table whose rows camelot has concatenated
  into one row with line breaks. `Seqs` holds the sequence helpers it uses.
- `Categories`: the first-match keyword rules of `categorize_transactions`.
- `Extraction`: the table loop of `extract_transactions`, which produces
  the records and the per-page statistics.
- `Summary`: the counts, totals, per-category breakdown and date range of
  `generate_summary`.
- `Backend`: `allowed_file` and the choice of file in `download_file`, with
  the output names of `save_results`.

The methods are written as the source runs: the parser's narration loop,
the splitter's line loop, the categoriser's loop, the table loop and the
download search. Each is proved equal to a specification function. The
lemmas state what those functions promise.

One consequence of the code as written is proved as well. The summary
download looks for a `.md` file whose name contains "summary". The only
`.md` file the converter writes is `EXTRACTION_REPORT_<stamp>.md`.
`Backend.SummaryDownloadNeverFound` therefore shows that a summary
download over the converter's outputs always answers "not found".

## Model

| member | source | states |
|---|---|---|
| Amounts.CleanAmount | src/hdfc_converter.py:292-307 | "" and "nan" give "0.00"; a cell that passes the digit guard and that `float()` reads gives fixed two-digit text; any other cell comes back with its commas removed and its surrounding whitespace stripped |
| Amounts.Cleaned | src/hdfc_converter.py:298 | the cleaned text has no comma and no surrounding whitespace |
| Amounts.FormatReadsBack | src/hdfc_converter.py:303 | text printed with two decimals reads back through `float()` with the same sign and the same number of cents |
| Amounts.CleanAmountKeepsValue | src/hdfc_converter.py:301-303 | a numeric cell keeps its sign and its value rounded to the cent |
| Amounts.CleanAmountIdempotent | src/hdfc_converter.py:292-307 | cleaning a cleaned amount again changes nothing, unless the first cleaning produced "" or "nan" |
| Amounts.CleanAmountBlank | src/hdfc_converter.py:294-298 | a non-empty cell of only whitespace gets past the missing test and cleans to "", not to "0.00" |
| Amounts.CanonicalCleansToItself | src/hdfc_converter.py:298-303 | a cell that cleans to canonical `w.ff` text comes back as exactly that text |
| Examples.CleanAmountThousands | tests/test_converter.py:92 | "1,234.56" cleans to "1234.56" |
| Examples.CleanAmountZero | tests/test_converter.py:93 | "0" cleans to "0.00" |
| Examples.CleanAmountMissing | tests/test_converter.py:94-95 | "" and "nan" clean to "0.00" |
| Examples.CleanAmountNotAFloat | src/hdfc_converter.py:301-307 | "1.2.3" passes the digit guard, `float()` refuses it, and it comes back unchanged |
| Rows.IsValidDate | src/hdfc_converter.py:214-221 | the date test: not missing, and the stripped text has at least 8 characters, a digit and a '/' |
| Rows.IsValidTransactionRow | src/hdfc_converter.py:223-229 | the row validator: a non-empty row whose first cell passes the date test |
| Rows.ParseRow | src/hdfc_converter.py:231-290 | the row parser: None below five cells, otherwise the fields at their offsets from both ends |
| Rows.IsValidDateIsShapeTest | src/hdfc_converter.py:214-221 | the explicit "" and "nan" test changes nothing: the date test is exactly the shape test (at least 8 characters, a digit, a '/') on the stripped text |
| Rows.RowValidIffDateValid | src/hdfc_converter.py:214-229 | a row is valid exactly when its first cell passes the date test |
| Rows.DateAccepted | src/hdfc_converter.py:214-221 | "15/07/2020" is a date |
| Rows.TotalRefused | src/hdfc_converter.py:214-221 | "Total" is not a date |
| Rows.Narration | src/hdfc_converter.py:261-270 | the joined narration is stripped, and it is empty when the row has at most six cells |
| Rows.NarrationPartsFrom | src/hdfc_converter.py:261-268 | a text is a narration part exactly when it is a stripped cell between the first column and the fifth from last that is neither empty nor "nan" |
| Rows.CollectNarrationParts | src/hdfc_converter.py:265-268 | the loop collects exactly the narration parts, in column order |
| Rows.ParseTransactionRow | src/hdfc_converter.py:231-290 | the parser as written equals the parse function |
| Rows.ParseRowFields | src/hdfc_converter.py:231-290 | a row parses exactly when it has at least five cells; each field is the stripped cell at its offset, and the amounts are cleaned |
| Rows.FiveCellsShareDate | src/hdfc_converter.py:244-259 | with exactly five cells, the reference number is read from the date cell |
| Rows.ParsedFieldsStripped | src/hdfc_converter.py:244-270 | every text field of a parsed record is stripped |
| Rows.ValidRowParses | src/hdfc_converter.py:223-290 | a row of at least five cells that passes the validator parses, and the record's date has the date shape |
| Splitter.SplitRow | src/hdfc_converter.py:159-212 | the splitter: the first seven cells split at line breaks, one record per line index whose date piece is valid |
| Splitter.SplitTwoLines | src/hdfc_converter.py:159-212 | a row whose date and narration cells each hold two lines, both dates valid and no read cell longer than two lines, gives two records, line `i`'s date with line `i`'s narration |
| Examples.TwoDateRowSplits | src/hdfc_converter.py:159-212 | the row "01/01/2024\n02/01/2024" / "A\nB" gives the records ("01/01/2024", "A") and ("02/01/2024", "B") |
| Splitter.SplitConcatenatedRows | src/hdfc_converter.py:159-212 | the splitter as written equals the split function |
| Splitter.SplitAligned | src/hdfc_converter.py:174-207 | records come from exactly the line indices below `max_len` whose date piece is valid, in increasing order, record `j` from the `j`-th such line |
| Splitter.LineRecordSpec | src/hdfc_converter.py:177-207 | a line yields a record exactly when its date piece is valid, and the record's date has the date shape |
| Splitter.SplitDates | src/hdfc_converter.py:187-205 | every record has a date of the date shape and the given page |
| Splitter.SplitCountBound | src/hdfc_converter.py:173-177 | there are never more records than the longest split cell has lines |
| Splitter.SplitReadsFirstSeven | src/hdfc_converter.py:165-171 | cells after the seventh are ignored |
| Splitter.SplitSingleLine | src/hdfc_converter.py:165-207 | a seven-cell row without line breaks and with a valid date yields the one record of its cells |
| Splitter.SplitAgreesWithParse | src/hdfc_converter.py:159-290 | on such a row, the splitter and the row parser give the same record, provided the narration is not "nan" and the amounts are stripped |
| Splitter.BlankAmountPathsDiffer | src/hdfc_converter.py:192-194 | a whitespace-only amount cell becomes "" in the splitter, which does not strip it, and "0.00" in the row parser, which does |
| Categories.CategoryOf | src/hdfc_converter.py:309-347 | the category of a narration: the first rule whose keywords occur in its lower-cased text, else "Other" |
| Categories.CategorizeTransactions | src/hdfc_converter.py:309-347 | one categorised record per input record, in order, unchanged, with the category of its narration |
| Categories.CategoryOfFirstMatch | src/hdfc_converter.py:315-339 | rule `j`'s category is given exactly when rule `j`'s keywords occur in the lower-cased narration and no earlier rule's do |
| Categories.CategoryOfOther | src/hdfc_converter.py:340-341 | "Other" is given exactly when no rule fires |
| Categories.CategoryIgnoresCase | src/hdfc_converter.py:315 | a narration and its lower-cased form get the same category |
| Categories.DepositIsCardPayment | src/hdfc_converter.py:324-325 | matching is by substring: "deposit" holds "pos" and is a card payment |
| Categories.UpiCardIsUpiPayment | src/hdfc_converter.py:322-325 | the earlier rule wins: "upi card" is a UPI payment |
| Categories.NoKeywordInitialIsOther | src/hdfc_converter.py:318-341 | a narration without any keyword's first letter, in either case, is "Other" |
| Categories.RandomTextIsOther | src/hdfc_converter.py:315-341 | "random text" fires no rule and is "Other", although ten keywords start with one of its letters |
| Extraction.Extract | src/hdfc_converter.py:98-146 | the records and per-page statistics of a sequence of tables |
| Extraction.ParseRows | src/hdfc_converter.py:130-134 | the row loop appends the parsed record of each valid row, in order |
| Extraction.TableTransactions | src/hdfc_converter.py:116-134 | the body drops the header row on page 1 only; a one-row body whose first cell holds a line break goes through the splitter, any other body through the row loop |
| Extraction.ExtractTransactions | src/hdfc_converter.py:92-146 | the table loop as written equals the extraction function |
| Extraction.SkippedTableAddsNothing | src/hdfc_converter.py:108-113 | an empty table or one with fewer than five columns adds no record and no statistic |
| Extraction.ProcessedTableAppends | src/hdfc_converter.py:113-140 | a processed table appends its records and one statistic: its page, its body length, and the records on its page so far |
| Extraction.ExtractInTableOrder | src/hdfc_converter.py:92-146 | the records and statistics of a prefix of the tables are a prefix of those of all the tables |
| Extraction.HeaderRowIgnored | src/hdfc_converter.py:116-118 | on page 1, the first row is never read |
| Extraction.HeaderOnlyTable | src/hdfc_converter.py:116-140 | a page-1 table holding only its header adds no record and a statistic of 0 rows processed |
| Extraction.RowRecordSpec | src/hdfc_converter.py:131-134 | a row of at least five cells gives a record exactly when it is valid, with a date of the date shape and the table's page |
| Extraction.TableRecordsSpec | src/hdfc_converter.py:124-134 | every record of a table has a date of the date shape and the table's page |
| Extraction.StatCountsOwnTable | src/hdfc_converter.py:136-140 | a table's statistic counts all records so far on its page, and at least the table's own |
| Extraction.StatsPerProcessedTable | src/hdfc_converter.py:113-140 | there is one statistic per processed table, in order, with that table's page and body length |
| Extraction.ExtractedRecordsFromTables | src/hdfc_converter.py:92-146 | every record has a date of the date shape and the page of some processed table |
| Summary.GenerateSummary | src/hdfc_converter.py:349-393 | the summary: None on an empty list, otherwise counts, totals, breakdown and date range |
| Summary.AmountCents | src/hdfc_converter.py:356-363 | `pd.to_numeric` of the comma-free amount in signed cents, None where pandas gives NaN |
| Summary.ToNumericPlusSign | src/hdfc_converter.py:356-363 | a leading '+' ahead of an unsigned amount reads as the amount itself |
| Summary.AmountCentsOfCleaned | src/hdfc_converter.py:356-363 | the summary reads a cleaned numeric amount as the signed cents of the value `_clean_amount` read |
| Summary.Breakdown | src/hdfc_converter.py:371-385 | the per-category rows of `category_summary` |
| Summary.InCategory | src/hdfc_converter.py:371 | a group holds exactly the records of its category |
| Summary.GroupsPartitionTotal | src/hdfc_converter.py:366-379 | summing group by group over distinct categories that cover all records gives the overall sum |
| Summary.RecordsTotal | src/hdfc_converter.py:374-382 | counting records gives the number of records |
| Summary.SummaryFailsOnlyWhenEmpty | src/hdfc_converter.py:353-363 | the summary fails exactly on an empty list |
| Summary.SummaryFields | src/hdfc_converter.py:366-391 | the total count, the withdrawal and deposit totals, the net amount (deposits minus withdrawals), the breakdown and the date range |
| Summary.SummaryBreakdownAddsUp | src/hdfc_converter.py:366-379 | the per-category counts add up to the number of records, and the per-category withdrawals, deposits and nets add up to the totals |
| Summary.BreakdownCoversCategories | src/hdfc_converter.py:371-375 | there is one row per category that occurs and no other row, each holding that category's group |
| Summary.BreakdownInLabelOrder | src/hdfc_converter.py:371 | the rows come in strictly increasing string order of the category texts, the order `groupby` sorts its keys in |
| Summary.LabelOrderIsTextOrder | src/hdfc_converter.py:371 | the key order is strictly increasing in the string order of the category texts |
| Summary.RankOrderIsTextOrder | src/hdfc_converter.py:371 | a category earlier in the key order has the smaller text |
| Summary.SummaryBreakdownRows | src/hdfc_converter.py:371-386 | the summary's breakdown has one row per occurring category, with that category's group, in increasing string order of the category texts |
| Summary.LabelOrderComplete | src/hdfc_converter.py:318-341 | the key order lists every category exactly once |
| Summary.MinDate | src/hdfc_converter.py:388 | the start is one of the dates and is no greater than any of them |
| Summary.MaxDate | src/hdfc_converter.py:389 | the end is one of the dates and is no smaller than any of them |
| Summary.SummaryDateRange | src/hdfc_converter.py:387-390 | start and end are Date values of some records, and every Date lies between them in string order |
| Backend.AllowedFile | web-ui/backend.py:47-48 | the upload test: a '.' in the name and "pdf" after the last one, in any letter case |
| Backend.Wanted | web-ui/backend.py:160-188 | "csv" looks for a ".csv" name holding "transactions" in any case, "excel" for a ".xlsx" name, "summary" for a ".md" name holding "summary" in any case; any other type for nothing |
| Backend.Selection | web-ui/backend.py:160-188 | the first listed name the type wants, with its media type, or nothing |
| Backend.AllowedFileIffPdfSuffix | web-ui/backend.py:45-48 | a name is accepted exactly when it ends in ".pdf", in any letter case |
| Backend.AfterLastDot | web-ui/backend.py:48 | the extension is the dot-free text after the last '.' |
| Backend.UpperCasePdfAccepted | web-ui/backend.py:47-48 | "statement.PDF" is accepted |
| Backend.DoubleExtensionRefused | web-ui/backend.py:47-48 | "statement.pdf.exe" is refused |
| Backend.NoDotRefused | web-ui/backend.py:47-48 | a name without a '.' is refused |
| Backend.FindListed | web-ui/backend.py:162-167 | the search loop stops at the first wanted name, with the type's media type |
| Backend.SelectDownload | web-ui/backend.py:160-188 | the chosen file is the selection of the requested type |
| Backend.SelectionIsFirstWanted | web-ui/backend.py:160-188 | nothing is chosen exactly when no listed name is wanted; otherwise the first wanted name is chosen |
| Backend.UnknownTypeSelectsNothing | web-ui/backend.py:160-188 | a type other than csv, excel and summary chooses nothing |
| Backend.SelectionIgnoresLaterNames | web-ui/backend.py:162-167 | names listed after a wanted one never change the choice |
| Backend.ReportIsNotSummary | src/hdfc_converter.py:433 | the markdown report's name ends in ".md" but holds no "summary" |
| Backend.OutputNotSummary | src/hdfc_converter.py:397-433 | no output name of the converter is wanted by the summary download |
| Backend.AllowedNotWanted | web-ui/backend.py:47-48 | no download type wants a name that `allowed_file` accepts |
| Backend.SummaryDownloadNeverFound | web-ui/backend.py:176-188 | over the converter's outputs and any uploads `allowed_file` accepts (".pdf" in any letter case), in any listing order, the summary download chooses nothing |

## Left out

- Reading the PDF (`camelot.read_pdf`), the fallback from lattice to stream mode, logging and garbage collection are left out. A table is given as its page, its column count and its rows.
- The batching of tables five at a time is left out. It visits the tables in the same order as one loop over all of them, and one loop is what the model has.
- Extraction.ExtractTransactions: tables are assumed rectangular (every row has as many cells as the table has columns). pandas data frames always are.
- The exceptions that the per-table `try` swallows are left out. The parser's and splitter's own failures are modelled: the parser returns None for a row of fewer than five cells, and the splitter returns no records for an empty row.
- Amounts.CleanAmount: values are exact decimals counted in whole cents, rounded half to even on the exact decimal value. Binary double rounding, overflow and exponent forms are not modelled. Neither are `float()`'s other accepted spellings ("inf", "nan", underscores, exponents), which the digit guard rules out anyway except for digit-only forms.
- Summary.AmountCents: reads plain decimal numerals with an optional sign, including a leading '+'. Exponent forms ("1e3"), "inf" and "infinity", and the other spellings `pd.to_numeric` accepts are not modelled: the model takes them as NaN, which a pandas sum skips, where pandas would add their value. A numeral with more than two fraction digits is counted rounded to the cent. The `.round(2)` of the breakdown has no effect on cent values.
- Summary.GenerateSummary: an empty list makes pandas raise on the missing amount column, which the model reports as None. The `DataFrame` itself, its column types and the report writing are left out.
- `isdigit` and `lower` are modelled on ASCII: non-ASCII digits and letters are not. `strip` is not limited to ASCII; it removes the whole `str.isspace` set.
- Categories.CategorizeTransactions: the source adds the category key to each input dictionary in place, so the input list sees the change as well. The model returns new records and leaves the inputs unchanged.
- The test case "1,000,000.00" has no lemma of its own. `Amounts.CanonicalCleansToItself` covers it once its cleaned text is shown canonical.
- The Flask routes, sessions, `os.listdir`, `os.path.exists`, `send_file`, file writing in `save_results`, the markdown report's contents and the command-line entry point are left out. The backend model takes the directory listing as a parameter. The output names are modelled with the time stamp as a parameter.
