/** The rate table the widget ships with, and what the resolver makes of it. */
module Shipped {
  import opened Wrappers
  import opened Rates

  /** Three rows (USD, INR, EUR); no row has an entry for its own currency,
      and GBP, JPY, AUD, CAD, CHF, CNY and BRL have no row at all. */
  const MockRates: RateTable := map[
    "USD" := map["EUR" := 0.92, "GBP" := 0.79, "JPY" := 150.25, "AUD" := 1.52,
                 "CAD" := 1.36, "CHF" := 0.88, "CNY" := 7.15, "INR" := 83.50,
                 "BRL" := 4.92],
    "INR" := map["USD" := 0.012, "EUR" := 0.011, "GBP" := 0.0095, "JPY" := 1.80,
                 "AUD" := 0.018, "CAD" := 0.016, "CHF" := 0.0105, "CNY" := 0.086,
                 "BRL" := 0.059],
    "EUR" := map["USD" := 1.09, "INR" := 89.75, "GBP" := 0.86, "JPY" := 163.30,
                 "AUD" := 1.65, "CAD" := 1.48, "CHF" := 0.96, "CNY" := 7.77,
                 "BRL" := 5.35]
  ]

  /** Every shipped rate is strictly positive, so every pair resolves to a
      strictly positive rate. */
  lemma ShippedRatesPositive(from: Currency, to: Currency)
    ensures forall a, b :: a in MockRates && b in MockRates[a] ==> MockRates[a][b] > 0.0
    ensures ResolveRate(MockRates, from, to) > 0.0
  {
  }

  /** No shipped row tabulates a currency against itself, so a self
      conversion never takes the direct or the reverse step. */
  lemma NoSelfEntries(c: Currency)
    ensures Lookup(MockRates, c, c).None?
  {
  }

  /** USD and EUR are tabulated in both directions with rates that are not
      reciprocals; each direction reports its own entry. */
  lemma DirectBeatsInverse()
    ensures ResolveRate(MockRates, "USD", "EUR") == 0.92
    ensures ResolveRate(MockRates, "EUR", "USD") == 1.09
    ensures ResolveRate(MockRates, "EUR", "USD") != 1.0 / 0.92
  {
  }

  /** A pair tabulated only from the other side resolves to the reciprocal:
      GBP to INR is 1 / 0.0095. */
  lemma ReverseOnlyPair()
    ensures ResolveRate(MockRates, "GBP", "INR") * 0.0095 == 1.0
  {
  }

  /** Self conversions: INR and EUR are triangulated through USD, USD itself
      falls through to 1.5. */
  lemma SelfConversions()
    ensures ResolveRate(MockRates, "INR", "INR") == 0.012 * 83.50
    ensures ResolveRate(MockRates, "EUR", "EUR") == 1.09 * 0.92
    ensures ResolveRate(MockRates, "USD", "USD") == 1.5
  {
  }

  /** Any two of the seven row-less currencies resolve to 1.5, for instance
      GBP to JPY. */
  lemma RowlessPairs(from: Currency, to: Currency)
    requires from in {"GBP", "JPY", "AUD", "CAD", "CHF", "CNY", "BRL"}
    requires to in {"GBP", "JPY", "AUD", "CAD", "CHF", "CNY", "BRL"}
    ensures ResolveRate(MockRates, from, to) == 1.5
  {
  }
}
