/** The exchange-rate resolver of the currency widget (`getExchangeRate` in
    script.js): a sparse, asymmetric two-level table `from -> to -> rate` and
    an ordered, first-match-wins chain of lookups over it. */
module Rates {
  import opened Wrappers

  /** A currency code such as "USD"; the widget only ever passes the codes of
      its dropdowns, which are never names inherited from `Object.prototype`. */
  type Currency = string

  /** Rows are source currencies, columns target currencies. A missing row,
      a missing column and a stored 0 are all "no rate" to the resolver. */
  type RateTable = map<Currency, map<Currency, real>>

  /** The one currency triangulation goes through. */
  const Reference: Currency := "USD"

  /** What the resolver answers when nothing in the table applies. */
  const Fallback: real := 1.5

  /** A tabulated rate as the JavaScript guard `t[from] && t[from][to]` sees
      it: a row is an object and always truthy, but an entry of 0 is falsy and
      so counts as missing. */
  function Lookup(t: RateTable, from: Currency, to: Currency): Option<real>
  {
    if from in t && to in t[from] && t[from][to] != 0.0 then Some(t[from][to]) else None
  }

  /** The resolver as the source writes it: direct entry, else the reciprocal
      of the reverse entry, else the product of the two legs through USD when
      neither end is USD, else the constant 1.5. Division is safe because the
      truthiness guard has already excluded a 0 entry. */
  function ResolveRate(t: RateTable, from: Currency, to: Currency): real
  {
    match Lookup(t, from, to)
    case Some(r) => r
    case None =>
      match Lookup(t, to, from)
      case Some(r) => 1.0 / r
      case None =>
        if from != Reference && to != Reference
           && Lookup(t, from, Reference).Some? && Lookup(t, Reference, to).Some?
        then Lookup(t, from, Reference).value * Lookup(t, Reference, to).value
        else Fallback
  }

  /** Every stored rate is non-negative. (A stored 0 is harmless: the
      resolver treats it as missing.) */
  ghost predicate NonNegativeRates(t: RateTable)
  {
    forall a, b :: a in t && b in t[a] ==> t[a][b] >= 0.0
  }

  // ---------------------------------------------------------------------
  // The same chain, written as an ordered list of independent strategies.
  // ---------------------------------------------------------------------

  /** Strategy 1: the tabulated `from -> to` entry. It applies exactly when
      that entry is present and non-zero, and then it is the resolved rate. */
  function Direct(t: RateTable, from: Currency, to: Currency): (o: Option<real>)
    ensures o.Some? <==> from in t && to in t[from] && t[from][to] != 0.0
    ensures o.Some? ==> o.value == t[from][to] && ResolveRate(t, from, to) == o.value
  {
    Lookup(t, from, to)
  }

  /** Strategy 2: the reciprocal of the tabulated `to -> from` entry. */
  function Inverse(t: RateTable, from: Currency, to: Currency): (o: Option<real>)
    ensures o.Some? ==> to in t && from in t[to] && t[to][from] != 0.0
                        && o.value * t[to][from] == 1.0
    ensures o.None? ==> to !in t || from !in t[to] || t[to][from] == 0.0
  {
    match Lookup(t, to, from)
    case Some(r) => Some(1.0 / r)
    case None => None
  }

  /** Strategy 3: triangulation through the reference currency. It applies
      exactly when neither end is USD and both legs are direct hits, and
      its value is the resolver's own answer for `from -> USD` times its
      answer for `USD -> to`. */
  function ViaReference(t: RateTable, from: Currency, to: Currency): (o: Option<real>)
    ensures o.Some? ==> from != Reference && to != Reference
    ensures o.Some? ==> Direct(t, from, Reference).Some? && Direct(t, Reference, to).Some?
    ensures from != Reference && to != Reference
            && Direct(t, from, Reference).Some? && Direct(t, Reference, to).Some?
            ==> o.Some?
    ensures o.Some? ==> o.value == ResolveRate(t, from, Reference) * ResolveRate(t, Reference, to)
  {
    if from != Reference && to != Reference
       && Lookup(t, from, Reference).Some? && Lookup(t, Reference, to).Some?
    then Some(Lookup(t, from, Reference).value * Lookup(t, Reference, to).value)
    else None
  }

  /** The strategies in the order the source tries them. */
  function Strategies(t: RateTable, from: Currency, to: Currency): seq<Option<real>>
  {
    [Direct(t, from, to), Inverse(t, from, to), ViaReference(t, from, to)]
  }
}
