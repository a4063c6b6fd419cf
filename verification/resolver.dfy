/** What the resolution chain promises about any rate table. */
module Resolver {
  import opened Wrappers
  import opened Rates
  import opened Chain

  /** The source's nested conditional and the ordered list of strategies
      composed first-match-wins are the same function. */
  lemma ResolveIsFirstMatch(t: RateTable, from: Currency, to: Currency)
    ensures ResolveRate(t, from, to) == FirstMatch(Strategies(t, from, to), Fallback)
  {
    var s := Strategies(t, from, to);
    if s[0].Some? {
      assert FirstSomeAt(s, 0);
    } else if s[1].Some? {
      assert FirstSomeAt(s, 1);
    } else if s[2].Some? {
      assert FirstSomeAt(s, 2);
    }
  }

  /** Resolution by walking the strategy list, stopping at the first hit. */
  method ResolveByChain(t: RateTable, from: Currency, to: Currency) returns (r: real)
    ensures r == ResolveRate(t, from, to)
  {
    r := FirstMatchLoop(Strategies(t, from, to), Fallback);
    ResolveIsFirstMatch(t, from, to);
  }

  /** Step 1: a truthy direct entry is the answer, whatever else is in the
      table, including a reverse entry that is not its reciprocal. */
  lemma DirectWins(t: RateTable, from: Currency, to: Currency)
    requires from in t && to in t[from] && t[from][to] != 0.0
    ensures ResolveRate(t, from, to) == t[from][to]
  {
  }

  /** Step 2: with no direct entry, a truthy reverse entry gives its
      reciprocal. */
  lemma InverseWhenNoDirect(t: RateTable, from: Currency, to: Currency)
    requires Lookup(t, from, to).None?
    requires to in t && from in t[to] && t[to][from] != 0.0
    ensures ResolveRate(t, from, to) * t[to][from] == 1.0
  {
  }

  /** Step 3: when neither direct nor reverse entry exists, neither end is
      USD and both legs exist, the result is the product of the legs. That
      triangulation is taken in no other case follows from `FallbackExactly`
      together with `DirectWins` and `InverseWhenNoDirect`. */
  lemma TriangulationWhenNoPair(t: RateTable, from: Currency, to: Currency)
    requires Lookup(t, from, to).None? && Lookup(t, to, from).None?
    requires from != Reference && to != Reference
    requires Lookup(t, from, Reference).Some? && Lookup(t, Reference, to).Some?
    ensures ResolveRate(t, from, to) == t[from][Reference] * t[Reference][to]
  {
  }

  /** Step 4: the strategy list is all empty exactly when there is no direct
      entry, no reverse entry, and either an end is USD or a leg is missing;
      in that case the answer is the constant 1.5. */
  lemma FallbackExactly(t: RateTable, from: Currency, to: Currency)
    ensures (forall i :: 0 <= i < |Strategies(t, from, to)| ==> Strategies(t, from, to)[i].None?)
            <==>
            (&& Lookup(t, from, to).None? && Lookup(t, to, from).None?
             && (from == Reference || to == Reference
                 || Lookup(t, from, Reference).None? || Lookup(t, Reference, to).None?))
    ensures Lookup(t, from, to).None? && Lookup(t, to, from).None?
            && (from == Reference || to == Reference
                || Lookup(t, from, Reference).None? || Lookup(t, Reference, to).None?)
            ==> ResolveRate(t, from, to) == Fallback
  {
    var s := Strategies(t, from, to);
    assert s[0] == Lookup(t, from, to);
    assert s[1].None? <==> Lookup(t, to, from).None?;
    if s[0].None? && s[1].None? && s[2].None? {
      forall i | 0 <= i < |s| ensures s[i].None? {
        assert i == 0 || i == 1 || i == 2;
      }
    }
  }

  /** Two currencies without a row of their own always resolve to 1.5: no
      direct entry, no reverse entry and no leg out of `from` to USD. */
  lemma RowlessPairFallsBack(t: RateTable, from: Currency, to: Currency)
    requires from !in t && to !in t
    ensures ResolveRate(t, from, to) == Fallback
  {
  }

  /** USD to USD is never triangulated, so without a USD self-entry it is 1.5. */
  lemma ReferenceToItself(t: RateTable)
    requires Lookup(t, Reference, Reference).None?
    ensures ResolveRate(t, Reference, Reference) == Fallback
  {
  }

  /** A currency converted to itself, when its row has no self-entry: the
      product of its two USD legs when both exist and it is not USD, else 1.5. */
  lemma SelfConversion(t: RateTable, c: Currency)
    requires Lookup(t, c, c).None?
    ensures c != Reference && Lookup(t, c, Reference).Some? && Lookup(t, Reference, c).Some?
            ==> ResolveRate(t, c, c) == t[c][Reference] * t[Reference][c]
    ensures !(c != Reference && Lookup(t, c, Reference).Some? && Lookup(t, Reference, c).Some?)
            ==> ResolveRate(t, c, c) == Fallback
  {
  }

  /** Non-negative stored rates give a strictly positive rate on every path:
      the entry, its reciprocal, the product of two legs, or 1.5. */
  lemma ResolvedRatePositive(t: RateTable, from: Currency, to: Currency)
    requires NonNegativeRates(t)
    ensures ResolveRate(t, from, to) > 0.0
  {
  }

  /** The resolver reads only four cells: tables that agree on the direct,
      reverse and two reference-leg lookups resolve the pair alike. */
  lemma OnlyFourCellsMatter(t: RateTable, u: RateTable, from: Currency, to: Currency)
    requires Lookup(t, from, to) == Lookup(u, from, to)
    requires Lookup(t, to, from) == Lookup(u, to, from)
    requires Lookup(t, from, Reference) == Lookup(u, from, Reference)
    requires Lookup(t, Reference, to) == Lookup(u, Reference, to)
    ensures ResolveRate(t, from, to) == ResolveRate(u, from, to)
  {
  }

  /** A stored 0 resolves exactly as if the entry were not there at all. */
  lemma ZeroEntryIsMissing(t: RateTable, a: Currency, b: Currency, from: Currency, to: Currency)
    requires a in t && b in t[a] && t[a][b] == 0.0
    ensures ResolveRate(t, from, to) == ResolveRate(t[a := t[a] - {b}], from, to)
  {
  }

  /** Round trip: when a pair is tabulated in one direction only, the two
      resolved rates are exact reciprocals. */
  lemma OneSidedRoundTrip(t: RateTable, a: Currency, b: Currency)
    requires Lookup(t, a, b).Some? && Lookup(t, b, a).None?
    ensures ResolveRate(t, a, b) * ResolveRate(t, b, a) == 1.0
  {
  }

  /** When both directions are tabulated the resolver reports each as stored
      and never reconciles them into reciprocals. */
  lemma BothSidesKept(t: RateTable, a: Currency, b: Currency)
    requires Lookup(t, a, b).Some? && Lookup(t, b, a).Some?
    ensures ResolveRate(t, a, b) == t[a][b] && ResolveRate(t, b, a) == t[b][a]
  {
  }
}
