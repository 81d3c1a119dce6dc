/**
 * The counting, grouping and date-range part of `generate_summary` in
 * src/hdfc_converter.py: the number of records, the withdrawal and deposit
 * totals and their difference, one breakdown row per category that occurs
 * (in the order of the category texts), and the smallest and largest Date
 * text. Amounts are summed as whole cents.
 */
module Summary {
  import opened Wrappers
  import opened PyStr
  import opened Amounts
  import opened Rows
  import opened Categories

  // ---------------------------------------------------------------------
  // Amounts as the summary reads them
  // ---------------------------------------------------------------------

  /**
   * The decimal numerals `pd.to_numeric` reads from comma-free text: an
   * optional '+' ahead of what `float()` accepts in `_clean_amount`.
   */
  function ToNumeric(t: string): (r: Option<Numeral>)
    ensures r.Some? ==> WellFormedNumeral(r.value)
  {
    if |t| > 0 && t[0] == '+' then
      if |t| > 1 && t[1] == '-' then None else ParseFloat(t[1..])
    else ParseFloat(t)
  }

  /** A numeral's value in signed cents. */
  function SignedCents(n: Numeral): int
    requires WellFormedNumeral(n)
  {
    if n.negative then -(Cents(n) as int) else Cents(n) as int
  }

  /**
   * `pd.to_numeric(amount.replace(',', ''), errors='coerce')` in signed
   * cents, and None where pandas gives NaN.
   */
  function AmountCents(s: string): Option<int> {
    match ToNumeric(DeleteChar(s, ','))
    case None => None
    case Some(n) => Some(SignedCents(n))
  }

  /** A leading '+' changes nothing in what pandas reads. */
  lemma ToNumericPlusSign(t: string)
    requires t == [] || (t[0] != '+' && t[0] != '-')
    ensures ToNumeric("+" + t) == ToNumeric(t)
  {
    assert ("+" + t)[1..] == t;
  }

  /** The summary reads a cleaned numeric amount as the value `_clean_amount` printed. */
  lemma AmountCentsOfCleaned(s: string)
    requires IsNumericAmount(s)
    ensures AmountCents(CleanAmount(s)) == Some(SignedCents(ParseFloat(Cleaned(s)).value))
  {
    var r := CleanAmount(s);
    var n := ParseFloat(Cleaned(s)).value;
    Fixed2ReadsAsFloat(r);
    CleanAmountKeepsValue(s);
    var m := ParseFloat(r).value;
    assert SignedCents(m) == SignedCents(n);
  }

  /** Fixed two-digit text has no comma and no '+': pandas reads it as `float()` does. */
  lemma Fixed2ReadsAsFloat(r: string)
    requires IsFixed2(r)
    ensures ToNumeric(DeleteChar(r, ',')) == ParseFloat(r)
  {
    Fixed2Chars(r);
    assert ',' !in r;
    assert r[0] != '+';
  }

  /** What one amount adds to a pandas `sum`: NaN adds nothing. */
  function SumValue(s: string): int {
    match AmountCents(s)
    case None => 0
    case Some(v) => v
  }

  /** The per-record quantities that are summed. */
  datatype Measure = Records | Withdrawals | Deposits

  function MeasureOf(m: Measure, c: Categorized): int {
    match m
    case Records => 1
    case Withdrawals => SumValue(c.transaction.withdrawal)
    case Deposits => SumValue(c.transaction.deposit)
  }

  /** The sum of a measure over the records. */
  function Total(cs: seq<Categorized>, m: Measure): int {
    if |cs| == 0 then 0 else Total(cs[..|cs| - 1], m) + MeasureOf(m, cs[|cs| - 1])
  }

  /** The records of one category, in order (one `groupby` group). */
  function InCategory(cs: seq<Categorized>, cat: Category): (g: seq<Categorized>)
    ensures |g| <= |cs|
    ensures forall x :: x in g <==> x in cs && x.category == cat
  {
    if |cs| == 0 then []
    else
      var last := cs[|cs| - 1];
      var init := cs[..|cs| - 1];
      assert forall x :: x in cs <==> x in init || x == last;
      InCategory(init, cat) + if last.category == cat then [last] else []
  }

  /** The sum of a measure over the groups of the listed categories. */
  function TotalOver(cats: seq<Category>, cs: seq<Categorized>, m: Measure): int {
    if |cats| == 0 then 0 else Total(InCategory(cs, cats[0]), m) + TotalOver(cats[1..], cs, m)
  }

  predicate Distinct(cats: seq<Category>) {
    forall i, j :: 0 <= i < j < |cats| ==> cats[i] != cats[j]
  }

  /** Adding one record to the input adds its measure to the group of its category, if listed. */
  lemma {:induction false} TotalOverSnoc(cats: seq<Category>, cs: seq<Categorized>, x: Categorized, m: Measure)
    requires Distinct(cats)
    ensures TotalOver(cats, cs + [x], m) ==
      TotalOver(cats, cs, m) + if x.category in cats then MeasureOf(m, x) else 0
  {
    if |cats| > 0 {
      assert Distinct(cats[1..]);
      TotalOverSnoc(cats[1..], cs, x, m);
      assert (cs + [x])[..|cs|] == cs;
      var g := InCategory(cs, cats[0]);
      if x.category == cats[0] {
        assert InCategory(cs + [x], cats[0]) == g + [x];
        assert (g + [x])[..|g|] == g;
        assert x.category !in cats[1..];
      } else {
        assert InCategory(cs + [x], cats[0]) == g;
        assert x.category in cats <==> x.category in cats[1..];
      }
    }
  }

  /** Summing group by group over distinct categories that cover every record gives the overall sum. */
  lemma {:induction false} GroupsPartitionTotal(cats: seq<Category>, cs: seq<Categorized>, m: Measure)
    requires Distinct(cats)
    requires forall i :: 0 <= i < |cs| ==> cs[i].category in cats
    ensures TotalOver(cats, cs, m) == Total(cs, m)
  {
    if |cs| == 0 {
      TotalOverEmpty(cats, m);
    } else {
      var init := cs[..|cs| - 1];
      var x := cs[|cs| - 1];
      assert init + [x] == cs;
      assert x.category in cats;
      assert forall i :: 0 <= i < |init| ==> init[i].category in cats by {
        forall i | 0 <= i < |init|
          ensures init[i].category in cats
        {
          assert init[i] == cs[i];
        }
      }
      GroupsPartitionTotal(cats, init, m);
      TotalOverSnoc(cats, init, x, m);
      assert Total(cs, m) == Total(init, m) + MeasureOf(m, x);
    }
  }

  lemma {:induction false} TotalOverEmpty(cats: seq<Category>, m: Measure)
    ensures TotalOver(cats, [], m) == 0
  {
    if |cats| > 0 {
      TotalOverEmpty(cats[1..], m);
    }
  }

  /** Counting records is the sequence length. */
  lemma {:induction false} RecordsTotal(cs: seq<Categorized>)
    ensures Total(cs, Records) == |cs|
  {
    if |cs| > 0 {
      RecordsTotal(cs[..|cs| - 1]);
    }
  }

  // ---------------------------------------------------------------------
  // The category breakdown
  // ---------------------------------------------------------------------

  /** Every category, ordered by its text (the order of `groupby` keys). */
  const LabelOrder: seq<Category> := [
    BankingFinancialServices, CardPayments, CharitableDonations, ChequeTransactions,
    ForeignExchange, InvestmentIncome, LotteryGambling, Other, PersonalTransfers,
    Refunds, SalaryEmployment, UpiPayments]

  /** `a < b` on strings. */
  predicate LexLt(a: string, b: string) {
    LexLe(a, b) && a != b
  }

  /** The position of a category in `LabelOrder`. */
  function LabelRank(c: Category): (k: nat)
    ensures k < |LabelOrder|
  {
    match c
    case BankingFinancialServices => 0
    case CardPayments => 1
    case CharitableDonations => 2
    case ChequeTransactions => 3
    case ForeignExchange => 4
    case InvestmentIncome => 5
    case LotteryGambling => 6
    case Other => 7
    case PersonalTransfers => 8
    case Refunds => 9
    case SalaryEmployment => 10
    case UpiPayments => 11
  }

  /** A category sits in `LabelOrder` at its rank. */
  lemma LabelRankIndexes(c: Category)
    ensures LabelOrder[LabelRank(c)] == c
  {
  }

  /** The rank of the category at position `i` of `LabelOrder` is `i`. */
  lemma LabelOrderRanks()
    ensures forall i :: 0 <= i < |LabelOrder| ==> LabelRank(LabelOrder[i]) == i
  {
  }

  /** `LabelOrder` lists every category exactly once. */
  lemma LabelOrderComplete()
    ensures Distinct(LabelOrder)
    ensures forall c: Category :: c in LabelOrder
  {
    LabelOrderRanks();
    forall c: Category
      ensures c in LabelOrder
    {
      LabelRankIndexes(c);
    }
  }

  /** `<` on strings is transitive. */
  lemma LexLtTransitive(a: string, b: string, c: string)
    requires LexLt(a, b) && LexLt(b, c)
    ensures LexLt(a, c)
  {
    LexLeTransitive(a, b, c);
    if a == c {
      LexLeAntisymmetric(b, c);
    }
  }

  /** Strings agreeing before position `k` and smaller at `k` compare as smaller. */
  lemma {:induction false} LexLtAt(a: string, b: string, k: nat)
    requires k < |a| && k < |b| && a[..k] == b[..k] && a[k] < b[k]
    ensures LexLt(a, b)
  {
    if k > 0 {
      assert a[0] == a[..k][0] && b[0] == b[..k][0];
      assert a[1..][..k - 1] == a[..k][1..] && b[1..][..k - 1] == b[..k][1..];
      LexLtAt(a[1..], b[1..], k - 1);
    }
  }

  /** A category's text is below the text of the category that follows it in `LabelOrder`. */
  lemma LabelTextBelowNext(c: Category)
    requires LabelRank(c) < |LabelOrder| - 1
    ensures LexLt(Label(c), Label(LabelOrder[LabelRank(c) + 1]))
  {
    var next := LabelOrder[LabelRank(c) + 1];
    if LabelRank(c) < 6 {
      EarlyLabelBelowNext(c, next);
    } else {
      LateLabelBelowNext(c, next);
    }
  }

  /** `LabelTextBelowNext` for the first six categories. */
  lemma EarlyLabelBelowNext(c: Category, next: Category)
    requires LabelRank(c) < 6 && next == LabelOrder[LabelRank(c) + 1]
    ensures LexLt(Label(c), Label(next))
  {
    match c
    case BankingFinancialServices => LexLtAt(Label(c), Label(next), 0);
    case CardPayments => LexLtAt(Label(c), Label(next), 1);
    case CharitableDonations => LexLtAt(Label(c), Label(next), 2);
    case ChequeTransactions => LexLtAt(Label(c), Label(next), 0);
    case ForeignExchange => LexLtAt(Label(c), Label(next), 0);
    case InvestmentIncome => LexLtAt(Label(c), Label(next), 0);
    case _ => assert false;
  }

  /** `LabelTextBelowNext` for the categories from the seventh to the eleventh. */
  lemma LateLabelBelowNext(c: Category, next: Category)
    requires 6 <= LabelRank(c) < |LabelOrder| - 1 && next == LabelOrder[LabelRank(c) + 1]
    ensures LexLt(Label(c), Label(next))
  {
    match c
    case LotteryGambling => LexLtAt(Label(c), Label(next), 0);
    case Other => LexLtAt(Label(c), Label(next), 0);
    case PersonalTransfers => LexLtAt(Label(c), Label(next), 0);
    case Refunds => LexLtAt(Label(c), Label(next), 0);
    case SalaryEmployment => LexLtAt(Label(c), Label(next), 0);
    case _ => assert false;
  }

  /** Neighbours in `LabelOrder` have increasing texts. */
  lemma LabelTextsAdjacent(i: int)
    requires 0 <= i < |LabelOrder| - 1
    ensures LexLt(Label(LabelOrder[i]), Label(LabelOrder[i + 1]))
  {
    LabelOrderRanks();
    LabelTextBelowNext(LabelOrder[i]);
  }

  /** Any two positions of `LabelOrder` have texts in the order of the positions. */
  lemma {:induction false} LabelTextsChain(i: int, j: int)
    requires 0 <= i < j < |LabelOrder|
    ensures LexLt(Label(LabelOrder[i]), Label(LabelOrder[j]))
    decreases j - i
  {
    LabelTextsAdjacent(j - 1);
    if i < j - 1 {
      LabelTextsChain(i, j - 1);
      LexLtTransitive(Label(LabelOrder[i]), Label(LabelOrder[j - 1]), Label(LabelOrder[j]));
    }
  }

  /** `LabelOrder` is the order of the category texts, as `groupby` sorts its keys. */
  lemma LabelOrderIsTextOrder()
    ensures forall i, j :: 0 <= i < j < |LabelOrder| ==> LexLt(Label(LabelOrder[i]), Label(LabelOrder[j]))
  {
    forall i, j | 0 <= i < j < |LabelOrder|
      ensures LexLt(Label(LabelOrder[i]), Label(LabelOrder[j]))
    {
      LabelTextsChain(i, j);
    }
  }

  /** A lower rank means a smaller category text. */
  lemma RankOrderIsTextOrder(a: Category, b: Category)
    requires LabelRank(a) < LabelRank(b)
    ensures LexLt(Label(a), Label(b))
  {
    LabelRankIndexes(a);
    LabelRankIndexes(b);
    LabelTextsChain(LabelRank(a), LabelRank(b));
  }

  /** One row of `category_summary`. */
  datatype CategoryRow = CategoryRow(category: Category, withdrawals: int, deposits: int, count: nat, net: int)

  function RowOf(cs: seq<Categorized>, cat: Category): CategoryRow {
    var g := InCategory(cs, cat);
    CategoryRow(cat, Total(g, Withdrawals), Total(g, Deposits), |g|,
      Total(g, Deposits) - Total(g, Withdrawals))
  }

  /** The rows of the listed categories that have at least one record. */
  function BreakdownOver(cats: seq<Category>, cs: seq<Categorized>): (rows: seq<CategoryRow>)
    ensures |rows| <= |cats|
  {
    if |cats| == 0 then []
    else
      var rest := BreakdownOver(cats[1..], cs);
      if |InCategory(cs, cats[0])| == 0 then rest else [RowOf(cs, cats[0])] + rest
  }

  function CountSum(rows: seq<CategoryRow>): int {
    if |rows| == 0 then 0 else rows[0].count + CountSum(rows[1..])
  }

  function WithdrawalSum(rows: seq<CategoryRow>): int {
    if |rows| == 0 then 0 else rows[0].withdrawals + WithdrawalSum(rows[1..])
  }

  function DepositSum(rows: seq<CategoryRow>): int {
    if |rows| == 0 then 0 else rows[0].deposits + DepositSum(rows[1..])
  }

  function NetSum(rows: seq<CategoryRow>): int {
    if |rows| == 0 then 0 else rows[0].net + NetSum(rows[1..])
  }

  /** The column sums of the breakdown are the group sums of its categories. */
  lemma {:induction false} BreakdownColumnSums(cats: seq<Category>, cs: seq<Categorized>)
    ensures CountSum(BreakdownOver(cats, cs)) == TotalOver(cats, cs, Records)
    ensures WithdrawalSum(BreakdownOver(cats, cs)) == TotalOver(cats, cs, Withdrawals)
    ensures DepositSum(BreakdownOver(cats, cs)) == TotalOver(cats, cs, Deposits)
    ensures NetSum(BreakdownOver(cats, cs)) ==
      TotalOver(cats, cs, Deposits) - TotalOver(cats, cs, Withdrawals)
  {
    if |cats| > 0 {
      BreakdownColumnSums(cats[1..], cs);
      RecordsTotal(InCategory(cs, cats[0]));
    }
  }

  /** The categories of the rows. */
  function RowCategories(rows: seq<CategoryRow>): set<Category> {
    set r | r in rows :: r.category
  }

  /** `category_summary`: a row per category with records, in the order of the category texts. */
  function Breakdown(cs: seq<Categorized>): seq<CategoryRow> {
    BreakdownOver(LabelOrder, cs)
  }

  /** Each row is the group of a listed category that has records, and every such category has a row. */
  lemma {:induction false} BreakdownRows(cats: seq<Category>, cs: seq<Categorized>)
    ensures forall r :: r in BreakdownOver(cats, cs) ==>
      r.category in cats && r.count > 0 && r == RowOf(cs, r.category)
    ensures RowCategories(BreakdownOver(cats, cs)) == set c | c in cats && |InCategory(cs, c)| > 0
  {
    if |cats| > 0 {
      BreakdownRows(cats[1..], cs);
      assert forall c :: c in cats <==> c == cats[0] || c in cats[1..];
      var rest := BreakdownOver(cats[1..], cs);
      if |InCategory(cs, cats[0])| > 0 {
        assert BreakdownOver(cats, cs) == [RowOf(cs, cats[0])] + rest;
        assert RowCategories([RowOf(cs, cats[0])] + rest) == {cats[0]} + RowCategories(rest);
      }
    }
  }

  /** The rows of categories ranked above `lo` are ranked above `lo`. */
  lemma {:induction false} BreakdownRanksAbove(cats: seq<Category>, cs: seq<Categorized>, lo: int)
    requires forall i :: 0 <= i < |cats| ==> LabelRank(cats[i]) > lo
    ensures forall r :: r in BreakdownOver(cats, cs) ==> LabelRank(r.category) > lo
  {
    if |cats| > 0 {
      BreakdownRanksAbove(cats[1..], cs, lo);
    }
  }

  /** Rows whose categories come in strictly increasing rank. */
  predicate RanksIncrease(rows: seq<CategoryRow>) {
    forall i, j :: 0 <= i < j < |rows| ==> LabelRank(rows[i].category) < LabelRank(rows[j].category)
  }

  /** A row ranked below every row of an increasing table can go in front of it. */
  lemma RanksIncreaseCons(head: CategoryRow, rest: seq<CategoryRow>)
    requires RanksIncrease(rest)
    requires forall r :: r in rest ==> LabelRank(r.category) > LabelRank(head.category)
    ensures RanksIncrease([head] + rest)
  {
    var rows := [head] + rest;
    forall i, j | 0 <= i < j < |rows|
      ensures LabelRank(rows[i].category) < LabelRank(rows[j].category)
    {
      assert rows[j] == rest[j - 1];
      assert rows[j] in rest;
      if i > 0 {
        assert rows[i] == rest[i - 1];
      }
    }
  }

  /** Over categories listed in increasing rank, the rows come in increasing rank. */
  lemma {:induction false} BreakdownSorted(cats: seq<Category>, cs: seq<Categorized>)
    requires forall i, j :: 0 <= i < j < |cats| ==> LabelRank(cats[i]) < LabelRank(cats[j])
    ensures RanksIncrease(BreakdownOver(cats, cs))
  {
    if |cats| > 0 {
      var tail := cats[1..];
      assert forall i, j :: 0 <= i < j < |tail| ==> LabelRank(tail[i]) < LabelRank(tail[j]) by {
        forall i, j | 0 <= i < j < |tail| ensures LabelRank(tail[i]) < LabelRank(tail[j]) {
          assert tail[i] == cats[i + 1] && tail[j] == cats[j + 1];
        }
      }
      BreakdownSorted(tail, cs);
      if |InCategory(cs, cats[0])| > 0 {
        BreakdownRanksAbove(tail, cs, LabelRank(cats[0]));
        RanksIncreaseCons(RowOf(cs, cats[0]), BreakdownOver(tail, cs));
      }
    }
  }

  // ---------------------------------------------------------------------
  // The date range
  // ---------------------------------------------------------------------

  /** `min` over the Date texts: one of them, and no greater than any. */
  function MinDate(ds: seq<string>): (m: string)
    requires |ds| > 0
    ensures m in ds
    ensures forall d :: d in ds ==> LexLe(m, d)
  {
    if |ds| == 1 then
      LexLeReflexive(ds[0]);
      ds[0]
    else
      var r := MinDate(ds[1..]);
      assert forall d :: d in ds ==> d == ds[0] || d in ds[1..];
      LexLeTotal(ds[0], r);
      LexLeReflexive(ds[0]);
      if LexLe(ds[0], r) then
        assert forall d :: d in ds[1..] ==> LexLe(ds[0], d) by {
          forall d | d in ds[1..]
            ensures LexLe(ds[0], d)
          {
            LexLeTransitive(ds[0], r, d);
          }
        }
        ds[0]
      else
        r
  }

  /** `max` over the Date texts: one of them, and no smaller than any. */
  function MaxDate(ds: seq<string>): (m: string)
    requires |ds| > 0
    ensures m in ds
    ensures forall d :: d in ds ==> LexLe(d, m)
  {
    if |ds| == 1 then
      LexLeReflexive(ds[0]);
      ds[0]
    else
      var r := MaxDate(ds[1..]);
      assert forall d :: d in ds ==> d == ds[0] || d in ds[1..];
      LexLeTotal(ds[0], r);
      LexLeReflexive(ds[0]);
      if LexLe(r, ds[0]) then
        assert forall d :: d in ds[1..] ==> LexLe(d, ds[0]) by {
          forall d | d in ds[1..]
            ensures LexLe(d, ds[0])
          {
            LexLeTransitive(d, r, ds[0]);
          }
        }
        ds[0]
      else
        r
  }

  /** The Date column. */
  function Dates(cs: seq<Categorized>): (ds: seq<string>)
    ensures |ds| == |cs|
  {
    seq(|cs|, i requires 0 <= i < |cs| => cs[i].transaction.date)
  }

  // ---------------------------------------------------------------------
  // generate_summary
  // ---------------------------------------------------------------------

  datatype SummaryStats = SummaryStats(
    totalTransactions: nat,
    totalWithdrawals: int,
    totalDeposits: int,
    netAmount: int,
    breakdown: seq<CategoryRow>,
    start: string,
    end: string)

  /**
   * `generate_summary(transactions)`. An empty list gives a frame without
   * columns, on which reading the amount column raises; that is None here.
   */
  function GenerateSummary(cs: seq<Categorized>): Option<SummaryStats> {
    if |cs| == 0 then None
    else
      var withdrawals := Total(cs, Withdrawals);
      var deposits := Total(cs, Deposits);
      Some(SummaryStats(|cs|, withdrawals, deposits, deposits - withdrawals,
        Breakdown(cs), MinDate(Dates(cs)), MaxDate(Dates(cs))))
  }

  /** The summary fails exactly on an empty list. */
  lemma SummaryFailsOnlyWhenEmpty(cs: seq<Categorized>)
    ensures GenerateSummary(cs).None? <==> |cs| == 0
  {
  }

  /** The fields of the summary of a non-empty list. */
  lemma SummaryFields(cs: seq<Categorized>)
    requires |cs| > 0
    ensures var s := GenerateSummary(cs).value;
      && s.totalTransactions == |cs|
      && s.totalWithdrawals == Total(cs, Withdrawals)
      && s.totalDeposits == Total(cs, Deposits)
      && s.netAmount == s.totalDeposits - s.totalWithdrawals
      && s.breakdown == Breakdown(cs)
      && s.start == MinDate(Dates(cs))
      && s.end == MaxDate(Dates(cs))
  {
  }

  /** The per-category counts add up to the number of records, and the money columns to the totals. */
  lemma SummaryBreakdownAddsUp(cs: seq<Categorized>)
    requires |cs| > 0
    ensures var s := GenerateSummary(cs).value;
      && s.totalTransactions == |cs|
      && CountSum(s.breakdown) == s.totalTransactions
      && WithdrawalSum(s.breakdown) == s.totalWithdrawals
      && DepositSum(s.breakdown) == s.totalDeposits
      && NetSum(s.breakdown) == s.netAmount
      && s.netAmount == s.totalDeposits - s.totalWithdrawals
  {
    SummaryFields(cs);
    LabelOrderComplete();
    var rows := BreakdownOver(LabelOrder, cs);
    BreakdownColumnSums(LabelOrder, cs);
    GroupsPartitionTotal(LabelOrder, cs, Records);
    GroupsPartitionTotal(LabelOrder, cs, Withdrawals);
    GroupsPartitionTotal(LabelOrder, cs, Deposits);
    RecordsTotal(cs);
  }

  /** The categories that occur among the records. */
  function CategoriesOf(cs: seq<Categorized>): set<Category> {
    set i | 0 <= i < |cs| :: cs[i].category
  }

  lemma CategoryOccurs(cs: seq<Categorized>, c: Category)
    ensures c in CategoriesOf(cs) <==> |InCategory(cs, c)| > 0
  {
    if c in CategoriesOf(cs) {
      var i :| 0 <= i < |cs| && cs[i].category == c;
      assert cs[i] in InCategory(cs, c);
    }
    if |InCategory(cs, c)| > 0 {
      var x := InCategory(cs, c)[0];
      assert x in InCategory(cs, c);
      var i :| 0 <= i < |cs| && cs[i] == x;
    }
  }

  /** The breakdown has one row per category that occurs, holding that category's group. */
  lemma BreakdownCoversCategories(cs: seq<Categorized>)
    ensures forall r :: r in Breakdown(cs) ==> r.count > 0 && r == RowOf(cs, r.category)
    ensures RowCategories(Breakdown(cs)) == CategoriesOf(cs)
  {
    LabelOrderComplete();
    BreakdownRows(LabelOrder, cs);
    forall c
      ensures c in CategoriesOf(cs) <==> c in LabelOrder && |InCategory(cs, c)| > 0
    {
      CategoryOccurs(cs, c);
    }
  }

  /** The breakdown rows come in strictly increasing order of the category texts. */
  lemma BreakdownInLabelOrder(cs: seq<Categorized>)
    ensures forall i, j :: 0 <= i < j < |Breakdown(cs)| ==>
      LexLt(Label(Breakdown(cs)[i].category), Label(Breakdown(cs)[j].category))
  {
    var rows := Breakdown(cs);
    LabelOrderRanks();
    BreakdownSorted(LabelOrder, cs);
    forall i, j | 0 <= i < j < |rows|
      ensures LexLt(Label(rows[i].category), Label(rows[j].category))
    {
      RankOrderIsTextOrder(rows[i].category, rows[j].category);
    }
  }

  /**
   * One breakdown row per category that occurs and none for the others, each
   * holding that category's group, in strictly increasing order of the
   * category texts.
   */
  lemma SummaryBreakdownRows(cs: seq<Categorized>)
    requires |cs| > 0
    ensures var rows := GenerateSummary(cs).value.breakdown;
      && (forall r :: r in rows ==> r.count > 0 && r == RowOf(cs, r.category))
      && RowCategories(rows) == CategoriesOf(cs)
      && (forall i, j :: 0 <= i < j < |rows| ==> LexLt(Label(rows[i].category), Label(rows[j].category)))
  {
    SummaryFields(cs);
    BreakdownCoversCategories(cs);
    BreakdownInLabelOrder(cs);
  }

  /** Every Date lies between the smallest and the largest one. */
  lemma DatesBetween(ds: seq<string>)
    requires |ds| > 0
    ensures forall i :: 0 <= i < |ds| ==> LexLe(MinDate(ds), ds[i]) && LexLe(ds[i], MaxDate(ds))
    ensures exists i :: 0 <= i < |ds| && ds[i] == MinDate(ds)
    ensures exists i :: 0 <= i < |ds| && ds[i] == MaxDate(ds)
  {
    assert forall i :: 0 <= i < |ds| ==> ds[i] in ds;
    var lo := MinDate(ds);
    var hi := MaxDate(ds);
    var a :| 0 <= a < |ds| && ds[a] == lo;
    var b :| 0 <= b < |ds| && ds[b] == hi;
  }

  /** The date range is two Date values with every Date between them, in string order. */
  lemma SummaryDateRange(cs: seq<Categorized>)
    requires |cs| > 0
    ensures var s := GenerateSummary(cs).value;
      && (exists i :: 0 <= i < |cs| && cs[i].transaction.date == s.start)
      && (exists i :: 0 <= i < |cs| && cs[i].transaction.date == s.end)
      && forall i :: 0 <= i < |cs| ==>
           LexLe(s.start, cs[i].transaction.date) && LexLe(cs[i].transaction.date, s.end)
  {
    var s := GenerateSummary(cs).value;
    SummaryFields(cs);
    var ds := Dates(cs);
    DatesBetween(ds);
    var a :| 0 <= a < |ds| && ds[a] == MinDate(ds);
    var b :| 0 <= b < |ds| && ds[b] == MaxDate(ds);
    assert cs[a].transaction.date == s.start;
    assert cs[b].transaction.date == s.end;
    forall i | 0 <= i < |cs|
      ensures LexLe(s.start, cs[i].transaction.date) && LexLe(cs[i].transaction.date, s.end)
    {
      assert ds[i] == cs[i].transaction.date;
    }
  }
}
