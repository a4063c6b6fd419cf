/** The amount guard of the widget (`validateInput` in script.js). The amount
    arrives already parsed: `None` stands for the `NaN` that `parseFloat`
    returns on text that does not start with a number. */
module Validation {
  import opened Wrappers
  import opened Rates

  /** The guard's answer: accepted, or rejected with the message the widget
      shows in its result area. */
  datatype Verdict = Accepted | Rejected(message: string)

  const NotANumber: string := "Please enter a valid number"
  const NotPositive: string := "Amount must be greater than zero"

  /** Checks the amount is a number, then that it is greater than zero; the
      first failing check decides the message. */
  function ValidateInput(amount: Option<real>): (v: Verdict)
    ensures v.Accepted? <==> amount.Some? && amount.value > 0.0
    ensures v == Rejected(NotANumber) <==> amount.None?
    ensures v == Rejected(NotPositive) <==> amount.Some? && amount.value <= 0.0
  {
    match amount
    case None => Rejected(NotANumber)
    case Some(x) => if x <= 0.0 then Rejected(NotPositive) else Accepted
  }

  /** An amount the guard lets through, times the resolved rate (the value
      the result line formats), is strictly positive for a table of
      non-negative rates. */
  lemma AcceptedAmountConvertsPositive(t: RateTable, amount: Option<real>, from: Currency, to: Currency)
    requires NonNegativeRates(t)
    requires ValidateInput(amount).Accepted?
    ensures amount.Some? && amount.value * ResolveRate(t, from, to) > 0.0
  {
  }
}
