/** The resolver with a currency converted to itself answered by the identity
    rate, which the as-written chain does not do. */
module Corrected {
  import opened Rates
  import opened Shipped

  /** As written, converting USD to USD with the shipped table yields 1.5 and
      INR to INR yields 1.002: neither is the identity rate. */
  lemma SelfConversionNotIdentity()
    ensures ResolveRate(MockRates, "USD", "USD") != 1.0
    ensures ResolveRate(MockRates, "INR", "INR") != 1.0
  {
  }

  /** Same-currency requests short-circuit to 1; every other pair goes
      through the source's chain unchanged. */
  function ResolveWithIdentity(t: RateTable, from: Currency, to: Currency): (r: real)
    ensures from == to ==> r == 1.0
  {
    if from == to then 1.0 else ResolveRate(t, from, to)
  }

  /** The correction keeps the resolver's promise of a strictly positive rate. */
  lemma IdentityKeepsPositive(t: RateTable, from: Currency, to: Currency)
    requires NonNegativeRates(t)
    ensures ResolveWithIdentity(t, from, to) > 0.0
  {
  }

  /** The correction changes nothing but self conversions. */
  lemma IdentityOnlyChangesSelf(t: RateTable, from: Currency, to: Currency)
    ensures from != to ==> ResolveWithIdentity(t, from, to) == ResolveRate(t, from, to)
    ensures ResolveWithIdentity(t, from, to) != ResolveRate(t, from, to) ==> from == to
  {
  }
}
