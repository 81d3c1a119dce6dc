/**
 * The two pure rules of the web back end (web-ui/backend.py): the upload
 * extension check `allowed_file`, and the choice of the file to download
 * from the listing of a session directory in `download_file`.
 */
module Backend {
  import opened Wrappers
  import opened PyStr

  // ---------------------------------------------------------------------
  // allowed_file
  // ---------------------------------------------------------------------

  /** `ALLOWED_EXTENSIONS`. */
  const AllowedExtensions: set<string> := {"pdf"}

  /** `name.rsplit('.', 1)[1]`: the text after the last '.'. */
  function AfterLastDot(name: string): (ext: string)
    requires '.' in name
    ensures |ext| < |name| && name[|name| - |ext| - 1] == '.'
    ensures name[|name| - |ext|..] == ext && '.' !in ext
  {
    var n := |name| - 1;
    if name[n] == '.' then ""
    else
      assert '.' in name[..n] by {
        var i :| 0 <= i < |name| && name[i] == '.';
        assert name[..n][i] == '.';
      }
      var rest := AfterLastDot(name[..n]);
      assert name[..n][n - |rest|..] == rest;
      rest + [name[n]]
  }

  /** `allowed_file(name)`: a '.' and, after the last one, "pdf" in any letter case. */
  predicate AllowedFile(name: string) {
    '.' in name && Lower(AfterLastDot(name)) in AllowedExtensions
  }

  /** Lowering leaves '.' alone and makes no '.' from another character. */
  lemma LowerDot(c: char)
    ensures LowerChar(c) == '.' <==> c == '.'
  {
  }

  /** A name ending in ".pdf" in any letter case has its last '.' four characters from the end. */
  lemma PdfSuffixDots(name: string)
    requires |name| >= 4 && Lower(name[|name| - 4..]) == ".pdf"
    ensures name[|name| - 4] == '.'
    ensures name[|name| - 3] != '.' && name[|name| - 2] != '.' && name[|name| - 1] != '.'
  {
    var tail := name[|name| - 4..];
    var low := Lower(tail);
    assert low[0] == '.' && low[1] == 'p' && low[2] == 'd' && low[3] == 'f';
    LowerDot(tail[0]);
    LowerDot(tail[1]);
    LowerDot(tail[2]);
    LowerDot(tail[3]);
  }

  /** A name is accepted exactly when it ends in ".pdf", compared without regard to letter case. */
  lemma AllowedFileIffPdfSuffix(name: string)
    ensures AllowedFile(name) <==> |name| >= 4 && Lower(name[|name| - 4..]) == ".pdf"
  {
    if |name| >= 4 && Lower(name[|name| - 4..]) == ".pdf" {
      var tail := name[|name| - 4..];
      PdfSuffixDots(name);
      assert '.' in name;
      var ext := AfterLastDot(name);
      assert |ext| == 3;
      assert tail == ['.'] + ext;
      assert Lower(tail) == ['.'] + Lower(ext);
      assert Lower(ext) == Lower(tail)[1..] == ".pdf"[1..] == "pdf";
      assert AllowedFile(name);
    }
    if AllowedFile(name) {
      var ext := AfterLastDot(name);
      assert Lower(ext) == "pdf";
      assert name[|name| - 4..] == ['.'] + ext;
      assert Lower(['.'] + ext) == ['.'] + Lower(ext);
      assert ['.'] + "pdf" == ".pdf";
    }
  }

  /** "statement.PDF" is accepted. */
  lemma UpperCasePdfAccepted()
    ensures AllowedFile("statement.PDF")
  {
    AllowedFileIffPdfSuffix("statement.PDF");
    assert "statement.PDF"[9..] == ".PDF";
    assert Lower(".PDF") == ".pdf";
  }

  /** "statement.pdf.exe" is refused: only the text after the last '.' counts. */
  lemma DoubleExtensionRefused()
    ensures !AllowedFile("statement.pdf.exe")
  {
    AllowedFileIffPdfSuffix("statement.pdf.exe");
    assert "statement.pdf.exe"[13..] == ".exe";
    assert Lower(".exe")[1] == 'e';
  }

  /** A name without a '.' is refused, even "pdf" itself. */
  lemma NoDotRefused(name: string)
    requires '.' !in name
    ensures !AllowedFile(name)
  {
  }

  // ---------------------------------------------------------------------
  // Download selection
  // ---------------------------------------------------------------------

  /** Whether a listed name is the file of the requested type. */
  predicate Wanted(fileType: string, name: string) {
    if fileType == "csv" then EndsWith(name, ".csv") && Contains(Lower(name), "transactions")
    else if fileType == "excel" then EndsWith(name, ".xlsx")
    else if fileType == "summary" then EndsWith(name, ".md") && Contains(Lower(name), "summary")
    else false
  }

  /** The media type sent with a file of the given type. */
  function MimeType(fileType: string): string {
    if fileType == "csv" then "text/csv"
    else if fileType == "excel" then "application/vnd.openxmlformats-officedocument.spreadsheetml.sheet"
    else "text/markdown"
  }

  /** The chosen file: its name and its media type. */
  datatype Download = Download(filename: string, mimeType: string)

  /** The position of the first wanted name at or after `k`, or `|listing|` when there is none. */
  function FirstWantedFrom(fileType: string, listing: seq<string>, k: nat): (j: nat)
    requires k <= |listing|
    ensures k <= j <= |listing|
    ensures j < |listing| ==> Wanted(fileType, listing[j])
    ensures forall l :: k <= l < j ==> !Wanted(fileType, listing[l])
    decreases |listing| - k
  {
    if k == |listing| then k
    else if Wanted(fileType, listing[k]) then k
    else FirstWantedFrom(fileType, listing, k + 1)
  }

  /** What `download_file` sends: the first wanted name of the listing, if any. */
  function Selection(fileType: string, listing: seq<string>): Option<Download> {
    var j := FirstWantedFrom(fileType, listing, 0);
    if j < |listing| then Some(Download(listing[j], MimeType(fileType))) else None
  }

  /** One of the three loops of `download_file`: walk the listing and stop at the first wanted name. */
  method FindListed(fileType: string, listing: seq<string>) returns (d: Option<Download>)
    ensures d == Selection(fileType, listing)
  {
    d := None;
    var i := 0;
    while i < |listing|
      invariant 0 <= i <= |listing|
      invariant FirstWantedFrom(fileType, listing, 0) == FirstWantedFrom(fileType, listing, i)
    {
      var file := listing[i];
      if Wanted(fileType, file) {
        d := Some(Download(file, MimeType(fileType)));
        break;
      }
      i := i + 1;
    }
  }

  /** The selection in `download_file`: the loop of the requested type, none for any other type. */
  method SelectDownload(fileType: string, listing: seq<string>) returns (d: Option<Download>)
    ensures d == Selection(fileType, listing)
  {
    if fileType == "csv" || fileType == "excel" || fileType == "summary" {
      d := FindListed(fileType, listing);
    } else {
      d := None;
      assert forall k :: 0 <= k < |listing| ==> !Wanted(fileType, listing[k]);
    }
  }

  // ---------------------------------------------------------------------
  // Properties
  // ---------------------------------------------------------------------

  /** A file is selected exactly when some listed name is wanted, and then it is the first such name. */
  lemma SelectionIsFirstWanted(fileType: string, listing: seq<string>)
    ensures Selection(fileType, listing).None? <==> forall i :: 0 <= i < |listing| ==> !Wanted(fileType, listing[i])
    ensures Selection(fileType, listing).Some? ==>
      exists i :: 0 <= i < |listing| && listing[i] == Selection(fileType, listing).value.filename
        && Wanted(fileType, listing[i])
        && forall l :: 0 <= l < i ==> !Wanted(fileType, listing[l])
  {
    var j := FirstWantedFrom(fileType, listing, 0);
    if j < |listing| {
      assert listing[j] == Selection(fileType, listing).value.filename;
    }
  }

  /** Any type other than "csv", "excel" and "summary" selects nothing. */
  lemma UnknownTypeSelectsNothing(fileType: string, listing: seq<string>)
    requires fileType != "csv" && fileType != "excel" && fileType != "summary"
    ensures Selection(fileType, listing) == None
  {
    SelectionIsFirstWanted(fileType, listing);
  }

  /** Names appended after the listing do not move a search that ends inside it. */
  lemma {:induction false} FirstWantedPrefix(fileType: string, listing: seq<string>, more: seq<string>, k: nat)
    requires k <= FirstWantedFrom(fileType, listing, 0) < |listing|
    ensures FirstWantedFrom(fileType, listing + more, k) == FirstWantedFrom(fileType, listing, k)
    decreases FirstWantedFrom(fileType, listing, 0) - k
  {
    var whole := listing + more;
    assert whole[k] == listing[k];
    if k < FirstWantedFrom(fileType, listing, 0) {
      FirstWantedPrefix(fileType, listing, more, k + 1);
    }
  }

  /** Once a wanted name is listed, names listed after the listing never change the choice. */
  lemma SelectionIgnoresLaterNames(fileType: string, listing: seq<string>, more: seq<string>)
    requires Selection(fileType, listing).Some?
    ensures Selection(fileType, listing + more) == Selection(fileType, listing)
  {
    var j := FirstWantedFrom(fileType, listing, 0);
    FirstWantedPrefix(fileType, listing, more, 0);
    assert (listing + more)[j] == listing[j];
  }

  // ---------------------------------------------------------------------
  // The files the converter writes
  // ---------------------------------------------------------------------

  /** The `%Y%m%d_%H%M%S` stamp in the output names: digits and '_'. */
  predicate StampText(ts: string) {
    forall i :: 0 <= i < |ts| ==> IsDigit(ts[i]) || ts[i] == '_'
  }

  function TransactionsCsv(ts: string): string { "hdfc_transactions_" + ts + ".csv" }
  function TransactionsXlsx(ts: string): string { "hdfc_transactions_" + ts + ".xlsx" }
  function StatsCsv(ts: string): string { "extraction_stats_" + ts + ".csv" }
  function SummaryCsv(ts: string): string { "summary_" + ts + ".csv" }
  function ReportMd(ts: string): string { "EXTRACTION_REPORT_" + ts + ".md" }

  /** A lower-cased name has an 's' only where the name has an 's' or an 'S'. */
  lemma NoLetterS(name: string)
    requires 's' !in name && 'S' !in name
    ensures 's' !in Lower(name)
  {
    forall i | 0 <= i < |name|
      ensures Lower(name)[i] != 's'
    {
      assert name[i] in name;
    }
  }

  /** A stamp has neither 's' nor 'S'. */
  lemma StampHasNoS(ts: string)
    requires StampText(ts)
    ensures 's' !in ts && 'S' !in ts
  {
    forall i | 0 <= i < |ts|
      ensures ts[i] != 's' && ts[i] != 'S'
    {
    }
  }

  /**
   * The Markdown file the converter writes is `EXTRACTION_REPORT_<stamp>.md`,
   * whose name does not contain "summary": the summary download never picks it.
   */
  lemma ReportIsNotSummary(ts: string)
    requires StampText(ts)
    ensures EndsWith(ReportMd(ts), ".md")
    ensures !Wanted("summary", ReportMd(ts))
  {
    var name := ReportMd(ts);
    StampHasNoS(ts);
    assert 's' !in "EXTRACTION_REPORT_" && 'S' !in "EXTRACTION_REPORT_";
    assert 's' !in ".md" && 'S' !in ".md";
    assert forall c :: c in name ==> c in "EXTRACTION_REPORT_" || c in ts || c in ".md";
    NoLetterS(name);
    MissingFirstChar(Lower(name), "summary");
    assert name[|name| - 3..] == ".md";
  }

  /** A converter output name that does not end in ".md". */
  lemma NotMarkdown(prefix: string, ts: string, suffix: string)
    requires |suffix| >= 1 && suffix[|suffix| - 1] != 'd'
    ensures !EndsWith(prefix + ts + suffix, ".md")
  {
    var name := prefix + ts + suffix;
    assert name[|name| - 1] == suffix[|suffix| - 1];
  }

  /** The converter's output names, for one stamp. */
  function Outputs(ts: string): set<string> {
    {TransactionsCsv(ts), TransactionsXlsx(ts), StatsCsv(ts), SummaryCsv(ts), ReportMd(ts)}
  }

  /** No output of the converter is wanted by the summary download. */
  lemma OutputNotSummary(ts: string, name: string)
    requires StampText(ts) && name in Outputs(ts)
    ensures !Wanted("summary", name)
  {
    if name == ReportMd(ts) {
      ReportIsNotSummary(ts);
    } else if name == TransactionsCsv(ts) || name == StatsCsv(ts) || name == SummaryCsv(ts) {
      NotMarkdown(if name == TransactionsCsv(ts) then "hdfc_transactions_"
        else if name == StatsCsv(ts) then "extraction_stats_" else "summary_", ts, ".csv");
    } else {
      NotMarkdown("hdfc_transactions_", ts, ".xlsx");
    }
  }

  /** A name `allowed_file` accepts ends in 'f' or 'F', so no download type wants it. */
  lemma AllowedNotWanted(fileType: string, name: string)
    requires AllowedFile(name)
    ensures !Wanted(fileType, name)
  {
    AllowedFileIffPdfSuffix(name);
    var tail := name[|name| - 4..];
    assert Lower(tail)[3] == LowerChar(name[|name| - 1]) == 'f';
  }

  /**
   * In a session directory holding the converter's outputs and uploads that
   * `allowed_file` accepted (".pdf" in any letter case), the summary download
   * finds nothing, whatever the listing order.
   */
  lemma SummaryDownloadNeverFound(ts: string, listing: seq<string>)
    requires StampText(ts)
    requires forall i :: 0 <= i < |listing| ==> listing[i] in Outputs(ts) || AllowedFile(listing[i])
    ensures Selection("summary", listing) == None
  {
    forall i | 0 <= i < |listing|
      ensures !Wanted("summary", listing[i])
    {
      if listing[i] in Outputs(ts) {
        OutputNotSummary(ts, listing[i]);
      } else {
        AllowedNotWanted("summary", listing[i]);
      }
    }
    SelectionIsFirstWanted("summary", listing);
  }
}
