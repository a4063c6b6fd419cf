# Currency converter rate resolver, in Dafny

A model of the logic inside the browser currency-converter widget
(`script.js`). The widget has two pieces of logic:

- **the rate resolver** `getExchangeRate`. It answers a `from -> to` request
  from a sparse, asymmetric table of rates (`mockRates`). It uses an ordered,
  first-match-wins chain:
  1. the direct entry;
  2. else the reciprocal of the reverse entry;
  3. else the product of the two legs through USD, but only when neither
     end is USD and both legs exist;
  4. else the constant 1.5.
- **the amount guard** `validateInput`. It rejects a parsed amount that is
  not a number, then one that is not greater than zero.

Layout:

- `wrappers.dfy` (`Wrappers`): `Option`.
- `rates.dfy` (`Rates`): the rate table as `map<string, map<string, real>>`.
  It holds `Lookup`, the JavaScript truthiness guard, where a missing row, a
  missing column and a stored 0 all mean "no rate". It also holds
  `ResolveRate`, the resolver written as the source writes it, and the three
  strategies `Direct`, `Inverse` and `ViaReference` as separate
  optional-valued functions.
- `chain.dfy` (`Chain`): first-match-wins composition of optional results.
  It is written both as a recursive function and as a loop.
- `resolver.dfy` (`Resolver`): what the chain promises for every table.
  This covers the precedence of each step, when the fallback is taken,
  positivity, which cells are read, that a stored zero counts as missing,
  and round trips.
- `shipped.dfy` (`Shipped`): the shipped table and what the resolver makes
  of it.
- `validation.dfy` (`Validation`): the amount guard.
- `corrected.dfy` (`Corrected`): self conversion as written, and a resolver
  that answers 1 for it.

Rates are exact `real`s. The model states no floating-point equalities. For
example, INR to INR is stated as `0.012 * 83.50`, not as an IEEE-754 double.

## Model

| member | source | states |
|---|---|---|
| Chain.FirstMatch | script.js:224-239 | the value of the first candidate that has one; the fallback exactly when every candidate is empty |
| Chain.FirstMatchLoop | script.js:224-239 | walking the candidates and stopping at the first value gives the first value, or the fallback when none has one |
| Rates.Direct | script.js:225-226 | the direct strategy applies exactly when the `from -> to` entry is present and non-zero, and its value is then both that entry and the resolved rate |
| Rates.Inverse | script.js:229-230 | the inverse strategy gives a value whose product with the stored non-zero `to -> from` entry is 1, and gives nothing when that entry is missing or 0 |
| Rates.ViaReference | script.js:233-234 | triangulation applies exactly when neither end is USD and both USD legs are direct hits, and its value equals the resolved `from -> USD` rate times the resolved `USD -> to` rate |
| Resolver.ResolveIsFirstMatch | script.js:224-239 | the source's nested conditional is exactly the first-match-wins composition of [direct, inverse, via USD] with fallback 1.5 |
| Resolver.ResolveByChain | script.js:224-239 | resolving by walking the ordered strategy list gives the source's rate for every table and pair |
| Resolver.DirectWins | script.js:225-226 | a truthy direct entry is the result, whatever else the table holds |
| Resolver.InverseWhenNoDirect | script.js:229-230 | with no direct entry, the result times the truthy reverse entry is 1 |
| Resolver.TriangulationWhenNoPair | script.js:233-234 | with neither direct nor reverse entry, no USD end and both legs present, the result is the product of the legs |
| Resolver.FallbackExactly | script.js:224-238 | every strategy is empty iff there is no direct entry, no reverse entry, and either an end is USD or a leg is missing; in that case the result is 1.5 |
| Resolver.RowlessPairFallsBack | script.js:225-238 | two currencies without rows always resolve to 1.5 |
| Resolver.ReferenceToItself | script.js:225-238 | without a USD self-entry, USD to USD resolves to 1.5 because triangulation excludes USD ends |
| Resolver.SelfConversion | script.js:225-238 | without a self-entry, `c -> c` is the product of its two USD legs when `c` is not USD and both exist, and 1.5 otherwise |
| Resolver.ResolvedRatePositive | script.js:225-238 | for every table whose stored rates are all non-negative, every pair resolves to a strictly positive rate |
| Resolver.OnlyFourCellsMatter | script.js:225-234 | the result depends only on the direct, reverse, `from -> USD` and `USD -> to` lookups |
| Resolver.ZeroEntryIsMissing | script.js:225-233 | deleting a stored 0 changes no resolution (JavaScript truthiness) |
| Resolver.OneSidedRoundTrip | script.js:225-230 | a pair tabulated in one direction only resolves to exact reciprocals both ways |
| Resolver.BothSidesKept | script.js:225-226 | a pair tabulated both ways reports each stored entry unreconciled |
| Shipped.ShippedRatesPositive | script.js:184-219 | every shipped rate is positive, so every pair resolves to a positive rate with the shipped table |
| Shipped.NoSelfEntries | script.js:184-219 | no shipped row has an entry for its own currency |
| Shipped.DirectBeatsInverse | script.js:184-230 | USD to EUR is 0.92 and EUR to USD is 1.09, not 1/0.92 |
| Shipped.ReverseOnlyPair | script.js:184-230 | GBP to INR, tabulated only as INR to GBP, is the reciprocal of 0.0095 |
| Shipped.SelfConversions | script.js:184-238 | INR to INR is 0.012 * 83.50, EUR to EUR is 1.09 * 0.92, USD to USD is 1.5 |
| Shipped.RowlessPairs | script.js:184-238 | any two of GBP, JPY, AUD, CAD, CHF, CNY, BRL resolve to 1.5 |
| Validation.ValidateInput | script.js:114-126 | accepts exactly the numbers above zero; "Please enter a valid number" iff not a number; "Amount must be greater than zero" iff a number at most 0 |
| Validation.AcceptedAmountConvertsPositive | script.js:97-104 | an accepted amount times the resolved rate is positive for a non-negative table |
| Corrected.SelfConversionNotIdentity | script.js:224-238 | as written, USD to USD and INR to INR with the shipped table are not 1 |
| Corrected.ResolveWithIdentity | script.js:224-238 | the corrected resolver answers 1 for every same-currency request |
| Corrected.IdentityKeepsPositive | script.js:224-238 | the corrected resolver still gives a positive rate for a non-negative table |
| Corrected.IdentityOnlyChangesSelf | script.js:224-238 | the corrected resolver differs from the source's only on same-currency requests |

## Findings

| source | as written | input that shows it | evidently intended | confidence | as-written member | corrected member |
|---|---|---|---|---|---|---|
| script.js:224-238 | no case for `from == to`; the chain misses steps 1-2 because no row has a self-entry | `from = to = "USD"` gives 1.5; `from = to = "INR"` gives 0.012 * 83.50 = 1.002 | converting a currency to itself gives rate 1 | medium, not executed | Corrected.SelfConversionNotIdentity | Corrected.ResolveWithIdentity |

The rest of the model keeps the as-written `Rates.ResolveRate`, because it
describes the widget as shipped. The corrected resolver is proved to differ
from it only on same-currency requests.

## Left out

- The artificial delay (`setTimeout` with `Math.random`) and the
  async/Promise wrapper around the resolver. They are timing only; the
  resolver is modelled as a pure function.
- DOM wiring: dropdown population, event listeners, swap button and
  animation, and the loading spinner. This is browser I/O.
- `convertCurrency`: its only logic is "validate, then resolve". The rest is
  I/O. `Validation.AcceptedAmountConvertsPositive` states the value it
  passes on.
- `displayResult` and `displayError`. They format with `toFixed`,
  `toLocaleString`, `Date` and HTML strings, which are float-to-string
  library calls.
- `parseFloat`: only its output is modelled, as `Option<real>`, where
  `None` is `NaN`. `Infinity`, which the guard accepts, has no counterpart
  among reals. (`-0` is rejected as not greater than zero, the same verdict
  the model gives `0.0`.)
- IEEE-754 doubles: rate literals such as 0.92 are exact reals, and `1/rate`
  and products are not rounded.
- Property names inherited from `Object.prototype` (for example
  `"constructor"`) are truthy in JavaScript lookups. They are not modelled,
  because the resolver only receives the ten dropdown codes.
- The currency list (codes, names, flags). It feeds only the dropdowns and
  the result formatting.
