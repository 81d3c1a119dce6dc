/**
 * Amount normalisation (`_clean_amount` in src/hdfc_converter.py).
 *
 * An empty cell or the literal "nan" becomes "0.00". Otherwise commas are
 * removed and the result stripped; if that text, with every '.' and '-'
 * deleted, is a non-empty run of digits and `float()` accepts it, the number
 * is printed with exactly two fraction digits (`f"{x:.2f}"`); in every other
 * case the cleaned text is returned as it is. Nothing here can fail.
 */
module Amounts {
  import opened Wrappers
  import opened PyStr
  import opened Arithmetic

  /** A decimal numeral as `float()` reads it: sign, whole digits, fraction digits. */
  datatype Numeral = Numeral(negative: bool, whole: string, fraction: string)

  predicate WellFormedNumeral(n: Numeral) {
    AllDigits(n.whole) && AllDigits(n.fraction) && |n.whole| + |n.fraction| > 0
  }

  /**
   * `float(c)` for the strings that reach it in `_clean_amount`: those made of
   * digits, '.' and '-' with at least one digit. It succeeds exactly on an
   * optional leading '-', then digits with at most one '.', and at least one
   * digit in all ("5.", ".5" and "-0" are accepted; "1-2", "--5" and "1.2.3"
   * are not).
   */
  function ParseFloat(c: string): (r: Option<Numeral>)
    ensures r.Some? ==> WellFormedNumeral(r.value)
  {
    var negative := |c| > 0 && c[0] == '-';
    var body := if negative then c[1..] else c;
    var pieces := Split(body, '.');
    if |pieces| > 2 then None
    else
      var whole := pieces[0];
      var fraction := if |pieces| == 2 then pieces[1] else "";
      if AllDigits(whole) && AllDigits(fraction) && |whole| + |fraction| > 0
      then Some(Numeral(negative, whole, fraction))
      else None
  }

  /** The first two fraction digits, padded with zeros. */
  function FirstTwo(f: string): (r: string)
    requires AllDigits(f)
    ensures |r| == 2 && AllDigits(r)
  {
    if |f| >= 2 then f[..2] else if |f| == 1 then f + "0" else "00"
  }

  /** Some digit of `s` other than '0'. */
  predicate HasNonZero(s: string) {
    exists i :: 0 <= i < |s| && s[i] != '0'
  }

  /**
   * Whether the fraction digits past the second one round the truncated cent
   * count up: above one half, or exactly one half and the count is odd
   * (round half to even).
   */
  predicate RoundsUp(rest: string, truncated: nat) {
    |rest| > 0 &&
      (rest[0] > '5' || (rest[0] == '5' && (HasNonZero(rest[1..]) || truncated % 2 == 1)))
  }

  /** The magnitude of a numeral in whole cents, rounded to the nearest cent. */
  function Cents(n: Numeral): nat
    requires WellFormedNumeral(n)
  {
    var truncated := DigitsValue(n.whole) * 100 + DigitsValue(FirstTwo(n.fraction));
    var rest := if |n.fraction| > 2 then n.fraction[2..] else "";
    if RoundsUp(rest, truncated) then truncated + 1 else truncated
  }

  /** `f"{x:.2f}"` for a value of `cents` hundredths with the given sign. */
  function FormatCents(negative: bool, cents: nat): string
  {
    var hundredths := cents % 100;
    (if negative then "-" else "") + NatToString(cents / 100) + "."
      + [DigitChar(hundredths / 10), DigitChar(hundredths % 10)]
  }

  /** Fixed-point text with exactly two fraction digits: `-?[0-9]+\.[0-9][0-9]`. */
  predicate IsFixed2(r: string) {
    && |r| >= 4
    && r[|r| - 3] == '.'
    && IsDigit(r[|r| - 2]) && IsDigit(r[|r| - 1])
    && var w := r[..|r| - 3];
      IsDigits(w) || (w[0] == '-' && IsDigits(w[1..]))
  }

  /** The text pandas gives a missing cell, `str(float('nan'))`. */
  const NanText: string := "nan"

  /** The cell values `_clean_amount` maps straight to "0.00". */
  predicate IsMissing(s: string) {
    s == "" || s == "nan"
  }

  /** The text after removing commas and surrounding whitespace. */
  function Cleaned(s: string): (c: string)
    ensures ',' !in c
    ensures c == [] || (!IsSpace(c[0]) && !IsSpace(c[|c| - 1]))
  {
    StripEnds(DeleteChar(s, ','));
    StripKeepsChars(DeleteChar(s, ','));
    Strip(DeleteChar(s, ','))
  }

  /** The `isdigit` guard after deleting '.' and '-'. */
  predicate PassesDigitGuard(c: string) {
    IsDigits(DeleteChar(DeleteChar(c, '.'), '-'))
  }

  /** A cell that `_clean_amount` reformats as a number. */
  predicate IsNumericAmount(s: string) {
    !IsMissing(s) && PassesDigitGuard(Cleaned(s)) && ParseFloat(Cleaned(s)).Some?
  }

  /** `_clean_amount(s)`. */
  function CleanAmount(s: string): (r: string)
    ensures IsMissing(s) ==> r == "0.00"
    ensures IsNumericAmount(s) ==> IsFixed2(r)
    ensures !IsMissing(s) && !IsNumericAmount(s) ==> r == Cleaned(s)
  {
    if IsMissing(s) then "0.00"
    else
      var c := Cleaned(s);
      if PassesDigitGuard(c) && ParseFloat(c).Some? then
        var n := ParseFloat(c).value;
        FormatFixed2(n.negative, Cents(n))
      else
        c
  }

  /** `FormatCents`, known to give fixed two-digit text. */
  function FormatFixed2(negative: bool, cents: nat): (r: string)
    ensures IsFixed2(r)
  {
    var r := FormatCents(negative, cents);
    var w := NatToString(cents / 100);
    assert r[..|r| - 3] == (if negative then "-" else "") + w;
    assert negative ==> r[..|r| - 3][1..] == w;
    r
  }

  /** `float()` reads a signed `w.f` back as its parts. */
  lemma ParseSignedPoint(negative: bool, w: string, f: string)
    requires IsDigits(w) && AllDigits(f)
    ensures ParseFloat((if negative then "-" else "") + w + "." + f) == Some(Numeral(negative, w, f))
  {
    var body := w + "." + f;
    var c := (if negative then "-" else "") + body;
    assert '.' !in w by {
      forall i | 0 <= i < |w| ensures w[i] != '.' { assert IsDigit(w[i]); }
    }
    assert '.' !in f by {
      forall i | 0 <= i < |f| ensures f[i] != '.' { assert IsDigit(f[i]); }
    }
    if negative {
      assert c[0] == '-' && c[1..] == body;
    } else {
      assert c == body && c[0] == w[0] && w[0] != '-';
    }
    SplitAround(w, f, '.');
    SplitWhole(f, '.');
    var neg := |c| > 0 && c[0] == '-';
    assert neg == negative;
    assert (if neg then c[1..] else c) == body;
    assert Split(body, '.') == [w, f];
    assert c == (if negative then "-" else "") + w + "." + f;
    assert ParseFloat(c) == Some(Numeral(negative, w, f));
  }

  /** The two digits of a number below one hundred. */
  lemma TwoDigitsValue(k: nat)
    requires k < 100
    ensures DigitsValue([DigitChar(k / 10), DigitChar(k % 10)]) == k
  {
    var f := [DigitChar(k / 10), DigitChar(k % 10)];
    assert f[..1] == [DigitChar(k / 10)];
    assert f[..1][..0] == [];
    assert DigitsValue(f[..1]) == k / 10;
    assert DigitsValue(f) == DigitsValue(f[..1]) * 10 + DigitValue(f[1]);
  }

  /**
   * Printed text reads back as the same sign and the same number of cents,
   * with exactly two fraction digits.
   */
  lemma FormatReadsBack(negative: bool, cents: nat)
    ensures var m := ParseFloat(FormatFixed2(negative, cents));
      && m.Some?
      && m.value.negative == negative
      && |m.value.fraction| == 2
      && Cents(m.value) == cents
  {
    var w := NatToString(cents / 100);
    var f := [DigitChar(cents % 100 / 10), DigitChar(cents % 100 % 10)];
    ParseSignedPoint(negative, w, f);
    TwoDigitsValue(cents % 100);
    var n := Numeral(negative, w, f);
    assert FirstTwo(f) == f;
    assert Cents(n) == DigitsValue(w) * 100 + DigitsValue(f);
  }

  /** Every character of fixed two-digit text is a digit, '.' or '-'. */
  lemma Fixed2Chars(r: string)
    requires IsFixed2(r)
    ensures forall i :: 0 <= i < |r| ==> IsDigit(r[i]) || r[i] == '.' || r[i] == '-'
  {
    var w := r[..|r| - 3];
    forall i | 0 <= i < |r|
      ensures IsDigit(r[i]) || r[i] == '.' || r[i] == '-'
    {
      if i < |w| {
        assert r[i] == w[i];
        if IsDigits(w) {
          assert IsDigit(w[i]);
        } else if i > 0 {
          assert w[i] == w[1..][i - 1];
        }
      }
    }
  }

  /** Fixed two-digit text passes the digit guard. */
  lemma Fixed2PassesGuard(r: string)
    requires IsFixed2(r)
    ensures PassesDigitGuard(r)
  {
    Fixed2Chars(r);
    var d := DeleteChar(DeleteChar(r, '.'), '-');
    assert r[|r| - 1] in r;
    assert r[|r| - 1] in d;
    forall i | 0 <= i < |d|
      ensures IsDigit(d[i])
    {
      assert d[i] in d;
      assert d[i] in r;
    }
  }

  /** Fixed two-digit text has no comma, no surrounding space, and passes the guard. */
  lemma Fixed2IsClean(r: string)
    requires IsFixed2(r)
    ensures Cleaned(r) == r && !IsMissing(r) && PassesDigitGuard(r)
  {
    assert DeleteChar(r, ',') == r by {
      Fixed2Chars(r);
      assert ',' !in r;
    }
    assert Strip(r) == r by {
      assert !IsSpace(r[0]) && !IsSpace(r[|r| - 1]) by {
        Fixed2Chars(r);
      }
      StripUnchanged(r);
    }
    Fixed2PassesGuard(r);
  }

  /** A numeric cell keeps its sign and its value rounded to the cent. */
  lemma CleanAmountKeepsValue(s: string)
    requires IsNumericAmount(s)
    ensures var n := ParseFloat(Cleaned(s)).value;
      var m := ParseFloat(CleanAmount(s));
      && m.Some?
      && m.value.negative == n.negative
      && |m.value.fraction| == 2
      && Cents(m.value) == Cents(n)
  {
    var n := ParseFloat(Cleaned(s)).value;
    FormatReadsBack(n.negative, Cents(n));
  }

  /**
   * Cleaning an already cleaned amount changes nothing, except when the first
   * cleaning produced "" or "nan" (for instance from " " or " nan "), which a
   * second cleaning turns into "0.00".
   */
  lemma CleanAmountIdempotent(s: string)
    requires !IsMissing(CleanAmount(s))
    ensures CleanAmount(CleanAmount(s)) == CleanAmount(s)
  {
    if IsMissing(s) {
      assert CleanAmount(s) == FormatFixed2(false, 0) by {
        ZeroPrinted();
      }
      Fixed2Idempotent(false, 0);
    } else if IsNumericAmount(s) {
      var n := ParseFloat(Cleaned(s)).value;
      NumericRoute(s, n);
      Fixed2Idempotent(n.negative, Cents(n));
    } else {
      var c := Cleaned(s);
      assert CleanAmount(s) == c;
      assert Cleaned(c) == c by {
        StripUnchanged(c);
      }
      assert !IsNumericAmount(c);
      NotNumericRoute(c);
    }
  }

  /** Zero prints as "0.00". */
  lemma ZeroPrinted()
    ensures FormatFixed2(false, 0) == "0.00"
  {
    assert NatToString(0) == "0";
  }

  /** A cell that is neither missing nor numeric comes back cleaned. */
  lemma NotNumericRoute(s: string)
    requires !IsMissing(s) && !IsNumericAmount(s)
    ensures CleanAmount(s) == Cleaned(s)
  {
  }

  /** Printed fixed two-digit text cleans back to itself. */
  lemma Fixed2Idempotent(negative: bool, cents: nat)
    ensures CleanAmount(FormatFixed2(negative, cents)) == FormatFixed2(negative, cents)
  {
    var r := FormatFixed2(negative, cents);
    Fixed2IsClean(r);
    FormatReadsBack(negative, cents);
    var m := ParseFloat(r).value;
    assert |m.fraction| == 2 && Cents(m) == cents;
    assert FormatFixed2(m.negative, Cents(m)) == r;
  }

  /** A non-empty cell of only whitespace cleans to the empty string, not "0.00". */
  lemma CleanAmountBlank(s: string)
    requires |s| > 0 && forall i :: 0 <= i < |s| ==> IsSpace(s[i])
    ensures CleanAmount(s) == ""
  {
    assert s[0] != 'n';
    assert ',' !in s;
    StripAllSpace(s);
    assert DeleteChar(DeleteChar("", '.'), '-') == "";
  }

  /** The route a numeric cell takes through `_clean_amount`. */
  lemma NumericRoute(s: string, n: Numeral)
    requires !IsMissing(s) && PassesDigitGuard(Cleaned(s)) && ParseFloat(Cleaned(s)) == Some(n)
    ensures CleanAmount(s) == FormatFixed2(n.negative, Cents(n))
  {
  }

  /** The route of a cell that `float()` refuses: the cleaned text comes back. */
  lemma NotAFloatRoute(s: string)
    requires !IsMissing(s) && ParseFloat(Cleaned(s)) == None
    ensures CleanAmount(s) == Cleaned(s)
  {
  }

  /** Two digits read as a number below one hundred and print back as themselves. */
  lemma TwoDigitsRoundTrip(f: string)
    requires |f| == 2 && AllDigits(f)
    ensures DigitsValue(f) < 100
    ensures [DigitChar(DigitsValue(f) / 10), DigitChar(DigitsValue(f) % 10)] == f
  {
    var a, b := DigitValue(f[0]), DigitValue(f[1]);
    var k := a * 10 + b;
    assert DigitChar(a) == f[0] && DigitChar(b) == f[1];
    assert k / 10 == a && k % 10 == b;
    assert [DigitChar(k / 10), DigitChar(k % 10)] == f;
    TwoDigitsValue(k);
  }

  /** A count of `whole` units and `k` hundredths prints as those two parts. */
  lemma FormatCentsParts(negative: bool, whole: nat, k: nat, cents: nat)
    requires k < 100 && cents == whole * 100 + k
    ensures FormatCents(negative, cents)
      == (if negative then "-" else "") + NatToString(whole) + "." + [DigitChar(k / 10), DigitChar(k % 10)]
  {
    CentsParts(whole, k);
  }

  /** Canonical unsigned text prints back as itself. */
  lemma CanonicalPrintsBack(w: string, f: string)
    requires IsDigits(w) && NatToString(DigitsValue(w)) == w
    requires |f| == 2 && AllDigits(f)
    ensures FormatFixed2(false, Cents(Numeral(false, w, f))) == w + "." + f
  {
    var n := Numeral(false, w, f);
    var whole, k := DigitsValue(w), DigitsValue(f);
    var cents := Cents(n);
    assert cents == whole * 100 + k by {
      assert FirstTwo(f) == f;
    }
    assert k < 100 && [DigitChar(k / 10), DigitChar(k % 10)] == f by {
      TwoDigitsRoundTrip(f);
    }
    FormatCentsParts(false, whole, k, cents);
    calc {
      FormatFixed2(false, cents);
      FormatCents(false, cents);
      "" + NatToString(whole) + "." + [DigitChar(k / 10), DigitChar(k % 10)];
      { assert NatToString(whole) == w; }
      "" + w + "." + f;
      { assert "" + w == w; }
      w + "." + f;
    }
  }

  /**
   * A cell that cleans to canonical text — whole digits without a leading
   * zero, a point, two fraction digits — comes back as exactly that text.
   */
  lemma CanonicalCleansToItself(s: string, w: string, f: string)
    requires Cleaned(s) == w + "." + f
    requires IsDigits(w) && NatToString(DigitsValue(w)) == w
    requires |f| == 2 && AllDigits(f)
    ensures CleanAmount(s) == w + "." + f
  {
    CanonicalIsNumeric(w, f);
    CanonicalPrintsBack(w, f);
    NumericRoute(s, Numeral(false, w, f));
  }

  /** Canonical text passes the digit guard and `float()` reads it unsigned. */
  lemma CanonicalIsNumeric(w: string, f: string)
    requires IsDigits(w) && |f| == 2 && AllDigits(f)
    ensures PassesDigitGuard(w + "." + f)
    ensures ParseFloat(w + "." + f) == Some(Numeral(false, w, f))
  {
    assert PassesDigitGuard(w + "." + f) by {
      CanonicalIsFixed2(w, f);
      Fixed2PassesGuard(w + "." + f);
    }
    assert "" + w + "." + f == w + "." + f;
    ParseSignedPoint(false, w, f);
  }

  lemma CanonicalIsFixed2(w: string, f: string)
    requires IsDigits(w) && |f| == 2 && AllDigits(f)
    ensures IsFixed2(w + "." + f)
  {
    var c := w + "." + f;
    assert c[..|c| - 3] == w;
  }
}
