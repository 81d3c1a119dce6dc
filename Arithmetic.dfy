/** Facts about whole cents: splitting a count into units and hundredths. */
module Arithmetic {

  /** A count of `whole * 100 + k` cents has `whole` units and `k` hundredths. */
  lemma CentsParts(whole: nat, k: nat)
    requires k < 100
    ensures (whole * 100 + k) / 100 == whole
    ensures (whole * 100 + k) % 100 == k
  {
  }
}
