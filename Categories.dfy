/**
 * The keyword categorizer (`categorize_transactions` in src/hdfc_converter.py):
 * eleven keyword groups tried in a fixed order against the lower-cased
 * narration; the first group with a keyword occurring in it decides the
 * category, and a narration no group matches is "Other".
 */
module Categories {
  import opened PyStr
  import opened Rows

  datatype Category =
    | SalaryEmployment
    | ForeignExchange
    | UpiPayments
    | CardPayments
    | ChequeTransactions
    | PersonalTransfers
    | LotteryGambling
    | CharitableDonations
    | InvestmentIncome
    | Refunds
    | BankingFinancialServices
    | Other

  /** The category text written into the record. */
  function Label(c: Category): string {
    match c
    case SalaryEmployment => "Salary & Employment"
    case ForeignExchange => "Foreign Exchange"
    case UpiPayments => "UPI Payments"
    case CardPayments => "Card Payments"
    case ChequeTransactions => "Cheque Transactions"
    case PersonalTransfers => "Personal Transfers"
    case LotteryGambling => "Lottery & Gambling"
    case CharitableDonations => "Charitable & Donations"
    case InvestmentIncome => "Investment Income"
    case Refunds => "Refunds"
    case BankingFinancialServices => "Banking & Financial Services"
    case Other => "Other"
  }

  /** The categories of the `if`/`elif` chain, in the order they are tried. */
  const RuleOrder: seq<Category> := [
    SalaryEmployment, ForeignExchange, UpiPayments, CardPayments, ChequeTransactions,
    PersonalTransfers, LotteryGambling, CharitableDonations, InvestmentIncome, Refunds,
    BankingFinancialServices]

  /** The keywords of each category's branch ("Other" is the `else` and has none). */
  function Keywords(c: Category): seq<string> {
    match c
    case SalaryEmployment => ["salary", "payroll", "betterplace"]
    case ForeignExchange => ["foreign", "usd", "eur", "gbp", "inw"]
    case UpiPayments => ["upi"]
    case CardPayments => ["card", "pos", "atm"]
    case ChequeTransactions => ["chq", "cheque"]
    case PersonalTransfers => ["transfer", "trf", "neft", "rtgs", "imps"]
    case LotteryGambling => ["tasmac", "lottery"]
    case CharitableDonations => ["donation", "charity", "isha"]
    case InvestmentIncome => ["interest", "dividend"]
    case Refunds => ["refund"]
    case BankingFinancialServices => ["charge", "fee", "banking"]
    case Other => []
  }

  /** `any(word in text for word in words)`. */
  predicate AnyIn(text: string, words: seq<string>) {
    |words| > 0 && (Contains(text, words[0]) || AnyIn(text, words[1..]))
  }

  /** Some keyword of the list occurs in the text. */
  lemma {:induction false} AnyInIff(text: string, words: seq<string>)
    ensures AnyIn(text, words) <==> exists j :: 0 <= j < |words| && Contains(text, words[j])
  {
    if |words| > 0 {
      AnyInIff(text, words[1..]);
      if exists j :: 0 <= j < |words| && Contains(text, words[j]) {
        var j :| 0 <= j < |words| && Contains(text, words[j]);
        if j > 0 {
          assert words[1..][j - 1] == words[j];
        }
      }
    }
  }

  /** Rule `k` fires on the (already lower-cased) text. */
  predicate RuleMatches(text: string, k: nat)
    requires k < |RuleOrder|
  {
    AnyIn(text, Keywords(RuleOrder[k]))
  }

  /** The index of the first rule from `k` on that fires, and `|RuleOrder|` when none does. */
  function FirstMatchFrom(text: string, k: nat): (j: nat)
    requires k <= |RuleOrder|
    ensures k <= j <= |RuleOrder|
    ensures j < |RuleOrder| ==> RuleMatches(text, j)
    ensures forall l :: k <= l < j ==> !RuleMatches(text, l)
    decreases |RuleOrder| - k
  {
    if k == |RuleOrder| || RuleMatches(text, k) then k else FirstMatchFrom(text, k + 1)
  }

  /** The category of the first rule that fires, and "Other" (the `else`) when none does. */
  function CategoryOfText(text: string): Category {
    var j := FirstMatchFrom(text, 0);
    if j < |RuleOrder| then RuleOrder[j] else Other
  }

  /** The category `categorize_transactions` gives a narration. */
  function CategoryOf(narration: string): Category {
    CategoryOfText(Lower(narration))
  }

  /** The rule categories are distinct, so a category names the one rule that gave it. */
  lemma RuleOrderDistinct()
    ensures forall i, j :: 0 <= i < j < |RuleOrder| ==> RuleOrder[i] != RuleOrder[j]
    ensures Other !in RuleOrder
  {
  }

  /** First match wins: rule `j`'s category exactly when rule `j` fires and no earlier rule does. */
  lemma CategoryOfFirstMatch(narration: string, j: nat)
    requires j < |RuleOrder|
    ensures CategoryOf(narration) == RuleOrder[j] <==>
      RuleMatches(Lower(narration), j) && forall l :: 0 <= l < j ==> !RuleMatches(Lower(narration), l)
  {
    RuleOrderDistinct();
  }

  /** "Other" exactly when no rule fires on the lower-cased narration. */
  lemma CategoryOfOther(narration: string)
    ensures CategoryOf(narration) == Other <==>
      forall j :: 0 <= j < |RuleOrder| ==> !RuleMatches(Lower(narration), j)
  {
  }

  /** Matching ignores case: a narration and its lower-cased form get the same category. */
  lemma CategoryIgnoresCase(narration: string)
    ensures CategoryOf(Lower(narration)) == CategoryOf(narration)
  {
    LowerIdempotent(narration);
  }

  // ---------------------------------------------------------------------
  // Examples
  // ---------------------------------------------------------------------

  /** Rule 0 (salary) does not fire on a text holding none of its keywords. */
  lemma MissesSalaryRule(text: string)
    requires !Contains(text, "salary") && !Contains(text, "payroll") && !Contains(text, "betterplace")
    ensures !RuleMatches(text, 0)
  {
    var words := Keywords(RuleOrder[0]);
    assert words == ["salary", "payroll", "betterplace"];
    AnyInIff(text, words);
  }

  /** Rule 1 (foreign exchange) does not fire on a text holding none of its keywords. */
  lemma MissesForeignRule(text: string)
    requires !Contains(text, "foreign") && !Contains(text, "usd") && !Contains(text, "eur")
    requires !Contains(text, "gbp") && !Contains(text, "inw")
    ensures !RuleMatches(text, 1)
  {
    var words := Keywords(RuleOrder[1]);
    assert words == ["foreign", "usd", "eur", "gbp", "inw"];
    AnyInIff(text, words);
  }

  /** Rule 2 (UPI) does not fire on a text without "upi". */
  lemma MissesUpiRule(text: string)
    requires !Contains(text, "upi")
    ensures !RuleMatches(text, 2)
  {
    var words := Keywords(RuleOrder[2]);
    assert words == ["upi"];
    AnyInIff(text, words);
  }

  /** A text gets rule `j`'s category when rule `j` fires and no earlier rule does. */
  lemma TextCategoryAt(text: string, j: nat)
    requires j < |RuleOrder|
    requires RuleMatches(text, j)
    requires forall l :: 0 <= l < j ==> !RuleMatches(text, l)
    ensures CategoryOfText(text) == RuleOrder[j]
  {
    var m := FirstMatchFrom(text, 0);
    assert m <= j;
    assert !(m < j);
  }

  lemma DepositLacksSalaryWords()
    ensures !Contains("deposit", "salary") && !Contains("deposit", "payroll")
    ensures !Contains("deposit", "betterplace")
  {
    MissingFirstChar("deposit", "betterplace");
  }

  lemma DepositLacksForeignWords()
    ensures !Contains("deposit", "foreign") && !Contains("deposit", "usd") && !Contains("deposit", "eur")
    ensures !Contains("deposit", "gbp") && !Contains("deposit", "inw")
  {
    MissingFirstChar("deposit", "foreign");
    MissingFirstChar("deposit", "usd");
    MissingFirstChar("deposit", "gbp");
  }

  lemma DepositLacksUpi()
    ensures !Contains("deposit", "upi")
  {
    MissingFirstChar("deposit", "upi");
  }

  lemma DepositHasPos()
    ensures RuleMatches("deposit", 3)
  {
  }

  lemma DepositMissesFirstRules()
    ensures !RuleMatches("deposit", 0) && !RuleMatches("deposit", 1) && !RuleMatches("deposit", 2)
  {
    DepositLacksSalaryWords();
    MissesSalaryRule("deposit");
    DepositLacksForeignWords();
    MissesForeignRule("deposit");
    DepositLacksUpi();
    MissesUpiRule("deposit");
  }

  lemma DepositText()
    ensures CategoryOfText("deposit") == CardPayments
  {
    DepositMissesFirstRules();
    DepositHasPos();
    TextCategoryAt("deposit", 3);
  }

  /** Matching is by substring: "deposit" contains "pos", so it is a card payment. */
  lemma DepositIsCardPayment()
    ensures CategoryOf("deposit") == CardPayments
  {
    assert Lower("deposit") == "deposit";
    DepositText();
  }

  lemma UpiCardLacksSalaryWords()
    ensures !Contains("upi card", "salary") && !Contains("upi card", "payroll")
    ensures !Contains("upi card", "betterplace")
  {
    MissingFirstChar("upi card", "salary");
    MissingFirstChar("upi card", "betterplace");
  }

  lemma UpiCardLacksUsdInw()
    ensures !Contains("upi card", "usd") && !Contains("upi card", "inw")
  {
  }

  lemma UpiCardLacksForeignWords()
    ensures !Contains("upi card", "foreign") && !Contains("upi card", "usd") && !Contains("upi card", "eur")
    ensures !Contains("upi card", "gbp") && !Contains("upi card", "inw")
  {
    MissingFirstChar("upi card", "foreign");
    UpiCardLacksUsdInw();
    MissingFirstChar("upi card", "eur");
    MissingFirstChar("upi card", "gbp");
  }

  lemma UpiCardHasUpi()
    ensures RuleMatches("upi card", 2)
  {
  }

  lemma UpiCardMissesFirstRules()
    ensures !RuleMatches("upi card", 0) && !RuleMatches("upi card", 1)
  {
    UpiCardLacksSalaryWords();
    MissesSalaryRule("upi card");
    UpiCardLacksForeignWords();
    MissesForeignRule("upi card");
  }

  lemma UpiCardText()
    ensures CategoryOfText("upi card") == UpiPayments
  {
    UpiCardMissesFirstRules();
    UpiCardHasUpi();
    TextCategoryAt("upi card", 2);
  }

  /** The earlier rule wins: "upi card" holds both "upi" and "card" and is a UPI payment. */
  lemma UpiCardIsUpiPayment()
    ensures CategoryOf("upi card") == UpiPayments
  {
    assert Lower("upi card") == "upi card";
    UpiCardText();
  }

  /**
   * No word of the list is in a text when each either has an absent first
   * letter or is shown absent.
   */
  lemma {:induction false} MissesWords(text: string, words: seq<string>)
    requires forall j :: 0 <= j < |words| ==>
      |words[j]| > 0 && (words[j][0] !in text || !Contains(text, words[j]))
    ensures !AnyIn(text, words)
  {
    if |words| > 0 {
      if words[0][0] !in text {
        MissingFirstChar(text, words[0]);
      }
      MissesWords(text, words[1..]);
    }
  }

  /**
   * `w` is not in `a + b` when `a` lacks its first letter, `b` differs from
   * `w` at some position `i` and `b` after its first letter does not hold `w`.
   */
  lemma MissesFrom(t: string, a: string, b: string, w: string, i: nat)
    requires t == a + b && |w| > 0 && w[0] !in a
    requires |b| > 0 && i < |w| && (i >= |b| || b[i] != w[i])
    requires !Contains(b[1..], w)
    ensures !Contains(t, w)
  {
    StartsWithIsPrefix(b, w);
    if |w| <= |b| {
      assert b[..|w|][i] != w[i];
    }
    SkipToFirstChar(a, b, w);
  }

  lemma RandomTextLacksEur(t: string)
    requires t == "random text"
    ensures !Contains(t, "eur")
  {
    MissingFirstChar("xt", "eur");
    MissesFrom(t, "random t", "ext", "eur", 1);
  }

  lemma RandomTextLacksAtm(t: string)
    requires t == "random text"
    ensures !Contains(t, "atm")
  {
    MissingFirstChar("ndom text", "atm");
    MissesFrom(t, "r", "andom text", "atm", 1);
  }

  lemma RandomTextLacksNeft(t: string)
    requires t == "random text"
    ensures !Contains(t, "neft")
  {
    MissingFirstChar("dom text", "neft");
    MissesFrom(t, "ra", "ndom text", "neft", 1);
  }

  /** The two keywords starting with 'r' do not occur in "random text". */
  lemma RandomTextLacksRWords(t: string, w: string)
    requires t == "random text" && (w == "rtgs" || w == "refund")
    ensures !Contains(t, w)
  {
    MissingFirstChar("andom text", w);
    MissesFrom(t, "", "random text", w, 1);
  }

  /** The two keywords starting with 'd' do not occur in "random text". */
  lemma RandomTextLacksDWords(t: string, w: string)
    requires t == "random text" && (w == "donation" || w == "dividend")
    ensures !Contains(t, w)
  {
    MissingFirstChar("om text", w);
    MissesFrom(t, "ran", "dom text", w, 2);
  }

  /** The three keywords starting with 't' do not occur in "random text". */
  lemma RandomTextLacksTWords(t: string, w: string)
    requires t == "random text" && (w == "transfer" || w == "trf" || w == "tasmac")
    ensures !Contains(t, w)
  {
    assert !Contains([], w);
    MissesFrom("ext", "ex", "t", w, 1);
    MissesFrom("text", "", "text", w, 1);
    MissesFrom(t, "random ", "text", w, 1);
  }

  /** The letters of "random text". */
  const RandomTextLetters: string := "randomtex "

  /** The salary and UPI keywords start with letters absent from such a text. */
  lemma MissesSalaryAndUpi(t: string)
    requires forall c :: c in t ==> c in RandomTextLetters
    ensures !RuleMatches(t, 0) && !RuleMatches(t, 2)
  {
    MissesWords(t, Keywords(SalaryEmployment));
    MissesWords(t, Keywords(UpiPayments));
  }

  /** The cheque and banking keywords start with letters absent from such a text. */
  lemma MissesChequeAndBanking(t: string)
    requires forall c :: c in t ==> c in RandomTextLetters
    ensures !RuleMatches(t, 4) && !RuleMatches(t, 10)
  {
    MissesWords(t, Keywords(ChequeTransactions));
    MissesWords(t, Keywords(BankingFinancialServices));
  }

  lemma MissesForeign(t: string)
    requires forall c :: c in t ==> c in RandomTextLetters
    requires !Contains(t, "eur")
    ensures !RuleMatches(t, 1)
  {
    MissesWords(t, Keywords(ForeignExchange));
  }

  lemma MissesCard(t: string)
    requires forall c :: c in t ==> c in RandomTextLetters
    requires !Contains(t, "atm")
    ensures !RuleMatches(t, 3)
  {
    MissesWords(t, Keywords(CardPayments));
  }

  lemma MissesTransfers(t: string)
    requires forall c :: c in t ==> c in RandomTextLetters
    requires !Contains(t, "transfer") && !Contains(t, "trf") && !Contains(t, "neft") && !Contains(t, "rtgs")
    ensures !RuleMatches(t, 5)
  {
    MissesWords(t, Keywords(PersonalTransfers));
  }

  lemma MissesLotteryAndRefunds(t: string)
    requires forall c :: c in t ==> c in RandomTextLetters
    requires !Contains(t, "tasmac") && !Contains(t, "refund")
    ensures !RuleMatches(t, 6) && !RuleMatches(t, 9)
  {
    MissesWords(t, Keywords(LotteryGambling));
    MissesWords(t, Keywords(Refunds));
  }

  lemma MissesDonationsAndInvestments(t: string)
    requires forall c :: c in t ==> c in RandomTextLetters
    requires !Contains(t, "donation") && !Contains(t, "dividend")
    ensures !RuleMatches(t, 7) && !RuleMatches(t, 8)
  {
    MissesWords(t, Keywords(CharitableDonations));
    MissesWords(t, Keywords(InvestmentIncome));
  }

  /** The letters of "random text" are those of `RandomTextLetters`. */
  lemma RandomTextLettersOf(t: string)
    requires t == "random text"
    ensures forall c :: c in t ==> c in RandomTextLetters
  {
  }

  /** The first four rules do not fire on "random text". */
  lemma RandomTextMissesFirstRules(t: string)
    requires t == "random text"
    ensures forall k :: 0 <= k < 4 ==> !RuleMatches(t, k)
  {
    RandomTextLettersOf(t);
    MissesSalaryAndUpi(t);
    RandomTextLacksEur(t);
    MissesForeign(t);
    RandomTextLacksAtm(t);
    MissesCard(t);
  }

  /** The cheque and transfer rules do not fire on "random text". */
  lemma RandomTextMissesMiddleRules(t: string)
    requires t == "random text"
    ensures !RuleMatches(t, 4) && !RuleMatches(t, 5)
  {
    RandomTextLettersOf(t);
    MissesChequeAndBanking(t);
    RandomTextLacksNeft(t);
    RandomTextLacksRWords(t, "rtgs");
    RandomTextLacksTWords(t, "transfer");
    RandomTextLacksTWords(t, "trf");
    MissesTransfers(t);
  }

  /** The remaining rules do not fire on "random text" either. */
  lemma RandomTextMissesLastRules(t: string)
    requires t == "random text"
    ensures forall k :: 6 <= k < |RuleOrder| ==> !RuleMatches(t, k)
  {
    RandomTextLettersOf(t);
    RandomTextLacksTWords(t, "tasmac");
    RandomTextLacksRWords(t, "refund");
    MissesLotteryAndRefunds(t);
    RandomTextLacksDWords(t, "donation");
    RandomTextLacksDWords(t, "dividend");
    MissesDonationsAndInvestments(t);
    MissesChequeAndBanking(t);
  }

  /** A narration that fires no rule: "random text" is "Other". */
  lemma RandomTextIsOther(narration: string)
    requires narration == "random text"
    ensures CategoryOf(narration) == Other
  {
    assert Lower(narration) == narration;
    RandomTextMissesFirstRules(narration);
    RandomTextMissesMiddleRules(narration);
    RandomTextMissesLastRules(narration);
    CategoryOfOther(narration);
  }

  /** The first letters of all the keywords. */
  const KeywordInitials: string := "spbfuegictanrdl"

  /** A keyword list whose every word starts with a letter absent from the text does not match it. */
  lemma {:induction false} NoInitialNoMatch(text: string, words: seq<string>)
    requires forall j :: 0 <= j < |words| ==> |words[j]| > 0 && words[j][0] in KeywordInitials
    requires forall c :: c in text ==> c !in KeywordInitials
    ensures !AnyIn(text, words)
  {
    if |words| > 0 {
      MissingFirstChar(text, words[0]);
      NoInitialNoMatch(text, words[1..]);
    }
  }

  /** Every keyword starts with one of `KeywordInitials`. */
  lemma KeywordsStartWithInitials(k: nat)
    requires k < |RuleOrder|
    ensures forall j :: 0 <= j < |Keywords(RuleOrder[k])| ==>
      |Keywords(RuleOrder[k])[j]| > 0 && Keywords(RuleOrder[k])[j][0] in KeywordInitials
  {
  }

  /** A narration in which no keyword's first letter occurs, in either case, is "Other". */
  lemma NoKeywordInitialIsOther(narration: string)
    requires forall c :: c in Lower(narration) ==> c !in KeywordInitials
    ensures CategoryOf(narration) == Other
  {
    forall k | 0 <= k < |RuleOrder|
      ensures !RuleMatches(Lower(narration), k)
    {
      KeywordsStartWithInitials(k);
      NoInitialNoMatch(Lower(narration), Keywords(RuleOrder[k]));
    }
    CategoryOfOther(narration);
  }

  // ---------------------------------------------------------------------
  // The loop over the records
  // ---------------------------------------------------------------------

  /** A record with the category the categorizer gave it. */
  datatype Categorized = Categorized(transaction: Transaction, category: Category)

  /** `categorize_transactions(transactions)`: each record in order, with its narration's category. */
  method CategorizeTransactions(ts: seq<Transaction>) returns (cs: seq<Categorized>)
    ensures |cs| == |ts|
    ensures forall i :: 0 <= i < |ts| ==> cs[i].transaction == ts[i]
    ensures forall i :: 0 <= i < |ts| ==> cs[i].category == CategoryOf(ts[i].narration)
  {
    cs := [];
    for i := 0 to |ts|
      invariant |cs| == i
      invariant forall l :: 0 <= l < i ==> cs[l].transaction == ts[l]
      invariant forall l :: 0 <= l < i ==> cs[l].category == CategoryOf(ts[l].narration)
    {
      var narration := Lower(ts[i].narration);
      cs := cs + [Categorized(ts[i], CategoryOfText(narration))];
    }
  }
}
