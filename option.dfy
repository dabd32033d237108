/** An option contract: a time to expiry together with the payoff received on
    exercise. The value is immutable once built. */
module Options {
  import opened Payoffs

  /** The constructor stores both fields exactly as given; a zero or negative
      maturity is accepted. */
  datatype Option = Option(maturity: real, payoff: Payoff)
  {
    /** Time to expiration in years, as passed to the constructor. */
    function GetMaturity(): (m: real)
      ensures this == Option(m, payoff)
    {
      maturity
    }

    /** The payoff the option was constructed with. */
    function GetPayoff(): (p: Payoff)
      ensures this == Option(maturity, p)
    {
      payoff
    }
  }

  /** Reading back a freshly constructed option yields its arguments, for any
      maturity (no validation) and any payoff. */
  lemma ConstructorStoresFields(maturity: real, payoff: Payoff)
    ensures Option(maturity, payoff).GetMaturity() == maturity
    ensures Option(maturity, payoff).GetPayoff() == payoff
    ensures Option(maturity, payoff).GetPayoff().GetStrike() == payoff.strikePrice
  {
  }
}
