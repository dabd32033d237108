/** Closed-form European pricing with its two special cases: an expired
    option is worth its intrinsic value, and an option whose total volatility
    is below a cutoff is priced as a deterministic forward. The exponential
    and the square root are inputs, constrained by the laws each lemma needs;
    the general lognormal formula (normal CDF, logarithm) is an input too. */
module BlackScholes {
  import opened Payoffs
  import opened Options

  /** Cutoff on volatility * sqrt(T) below which the model is degenerate. */
  const TINY_EPSILON: real := 0.00000001

  /** exp is positive. */
  ghost predicate ExpPositive(exp: real -> real)
  {
    forall x :: exp(x) > 0.0
  }

  /** exp(x) * exp(-x) == 1, stated for any two opposite arguments. */
  ghost predicate ExpInverse(exp: real -> real)
  {
    forall x, y :: x + y == 0.0 ==> exp(x) * exp(y) == 1.0
  }

  /** exp lies above its tangent at 0: exp(x) >= 1 + x. */
  ghost predicate ExpAboveTangent(exp: real -> real)
  {
    forall x :: exp(x) >= 1.0 + x
  }

  /** The general lognormal price, as a function of spot, strike, rate,
      volatility and time to expiry. */
  type ClosedForm = (real, real, real, real, real) -> real

  /** Which of the three return statements a pricing call reaches. */
  datatype Branch = Expired | Degenerate | General

  /** Growth of the forward over the life of the option, exp(r T). */
  function Growth(exp: real -> real, rate: real, maturity: real): (g: real)
    ensures ExpPositive(exp) ==> g > 0.0
  {
    exp(rate * maturity)
  }

  /** Continuous discount factor over the life of the option, exp(-r T). */
  function DiscountFactor(exp: real -> real, rate: real, maturity: real): (df: real)
    ensures ExpPositive(exp) ==> df > 0.0
  {
    exp(-rate * maturity)
  }

  /** Under the inverse law the discount factor undoes the growth. */
  lemma DiscountUndoesGrowth(exp: real -> real, rate: real, maturity: real)
    requires ExpInverse(exp)
    ensures DiscountFactor(exp, rate, maturity) * Growth(exp, rate, maturity) == 1.0
  {
    assert -rate * maturity + rate * maturity == 0.0;
  }

  /** Under the tangent law the growth is at least 1 + r T. */
  lemma GrowthAboveTangent(exp: real -> real, rate: real, maturity: real)
    requires ExpAboveTangent(exp)
    ensures Growth(exp, rate, maturity) >= 1.0 + rate * maturity
  {
  }

  /** The only positive square root of 1 is 1. */
  lemma PositiveUnitSquare(e: real)
    requires e > 0.0 && e * e == 1.0
    ensures e == 1.0
  {
  }

  /** A positive exp takes the value 1 at 0 once it satisfies the inverse law. */
  lemma ExpZero(exp: real -> real)
    requires ExpPositive(exp) && ExpInverse(exp)
    ensures exp(0.0) == 1.0
  {
    var e := exp(0.0);
    assert 0.0 + 0.0 == 0.0;
    PositiveUnitSquare(e);
  }

  /** A product with a non-negative and a positive factor is non-negative. */
  lemma ProductNonNegative(a: real, b: real)
    ensures a > 0.0 && b >= 0.0 ==> a * b >= 0.0
  {
  }

  /** The engine: market snapshot fixed at construction. */
  datatype BlackScholesEngine = BlackScholesEngine(spot: real, rate: real, volatility: real)
  {
    /** The dispatch shared by both pricing functions: the expiry test comes
        first, the degeneracy test second, and the closed form is reached
        exactly when maturity is non-zero and the total volatility exceeds
        the cutoff. */
    function Dispatch(maturity: real, sqrt: real -> real): (b: Branch)
      ensures b == Expired <==> maturity == 0.0
      ensures b == Degenerate <==> maturity != 0.0 && volatility * sqrt(maturity) <= TINY_EPSILON
      ensures b == General <==> maturity != 0.0 && volatility * sqrt(maturity) > TINY_EPSILON
    {
      if maturity == 0.0 then Expired
      else if volatility * sqrt(maturity) <= TINY_EPSILON then Degenerate
      else General
    }

    /** Discounted payoff of a call on the deterministic forward
        spot * exp(rT): never negative for a positive exp, and worthless once
        the forward is at or below the strike. */
    function ForwardCall(maturity: real, strike: real, exp: real -> real): (c: real)
      ensures ExpPositive(exp) ==> c >= 0.0
      ensures spot * Growth(exp, rate, maturity) <= strike ==> c == 0.0
    {
      ProductNonNegative(DiscountFactor(exp, rate, maturity), Max(spot * Growth(exp, rate, maturity) - strike, 0.0));
      DiscountFactor(exp, rate, maturity) * Max(spot * Growth(exp, rate, maturity) - strike, 0.0)
    }

    /** Discounted payoff of a put on the deterministic forward: never
        negative for a positive exp, and worthless once the forward reaches
        the strike. */
    function ForwardPut(maturity: real, strike: real, exp: real -> real): (c: real)
      ensures ExpPositive(exp) ==> c >= 0.0
      ensures spot * Growth(exp, rate, maturity) >= strike ==> c == 0.0
    {
      ProductNonNegative(DiscountFactor(exp, rate, maturity), Max(strike - spot * Growth(exp, rate, maturity), 0.0));
      DiscountFactor(exp, rate, maturity) * Max(strike - spot * Growth(exp, rate, maturity), 0.0)
    }

    /** European call price. Only the maturity of the option and the strike
        of its payoff are read. */
    function CallPrice(option: Option, exp: real -> real, sqrt: real -> real, closedForm: ClosedForm): (c: real)
      ensures option.maturity == 0.0 ==> c == CallPayoff(option.payoff.strikePrice).Evaluate(spot)
      ensures Dispatch(option.maturity, sqrt) == Degenerate ==>
        c == ForwardCall(option.maturity, option.payoff.strikePrice, exp)
      ensures Dispatch(option.maturity, sqrt) == General ==>
        c == closedForm(spot, option.payoff.strikePrice, rate, volatility, option.maturity)
    {
      var T := option.GetMaturity();
      var strike := option.GetPayoff().GetStrike();
      match Dispatch(T, sqrt)
      case Expired => Max(spot - strike, 0.0)
      case Degenerate => ForwardCall(T, strike, exp)
      case General => closedForm(spot, strike, rate, volatility, T)
    }

    /** European put price, with the same dispatch as the call. */
    function PutPrice(option: Option, exp: real -> real, sqrt: real -> real, closedForm: ClosedForm): (c: real)
      ensures option.maturity == 0.0 ==> c == PutPayoff(option.payoff.strikePrice).Evaluate(spot)
      ensures Dispatch(option.maturity, sqrt) == Degenerate ==>
        c == ForwardPut(option.maturity, option.payoff.strikePrice, exp)
      ensures Dispatch(option.maturity, sqrt) == General ==>
        c == closedForm(spot, option.payoff.strikePrice, rate, volatility, option.maturity)
    {
      var T := option.GetMaturity();
      var strike := option.GetPayoff().GetStrike();
      match Dispatch(T, sqrt)
      case Expired => Max(strike - spot, 0.0)
      case Degenerate => ForwardPut(T, strike, exp)
      case General => closedForm(spot, strike, rate, volatility, T)
    }
  }

  /** Both special-case branches return non-negative prices. */
  lemma EdgeBranchesNonNegative(engine: BlackScholesEngine, option: Option, exp: real -> real,
                                sqrt: real -> real, closedForm: ClosedForm)
    requires ExpPositive(exp)
    requires engine.Dispatch(option.maturity, sqrt) != General
    ensures engine.CallPrice(option, exp, sqrt, closedForm) >= 0.0
    ensures engine.PutPrice(option, exp, sqrt, closedForm) >= 0.0
  {
  }

  /** The cutoff is positive, so an option with zero volatility and a
      non-zero maturity always takes the degenerate branch, whatever sqrt
      returns. */
  lemma ZeroVolatilityIsDegenerate(engine: BlackScholesEngine, maturity: real, sqrt: real -> real)
    requires engine.volatility == 0.0 && maturity != 0.0
    ensures engine.Dispatch(maturity, sqrt) == Degenerate
  {
  }

  /** Scaling a maximum with zero by a positive factor. */
  lemma ScaleMax(e: real, a: real)
    requires e > 0.0
    ensures e * Max(a, 0.0) == Max(e * a, 0.0)
  {
    if a < 0.0 {
      assert e * a < 0.0;
    }
  }

  /** Discounting the forward undoes its growth: exp(-rT) * spot * exp(rT) ==
      spot, so the discounted forward payoff is the payoff against the
      discounted strike. */
  lemma Undiscount(spot: real, strike: real, disc: real, growth: real)
    requires disc > 0.0 && disc * growth == 1.0
    ensures disc * Max(spot * growth - strike, 0.0) == Max(spot - strike * disc, 0.0)
    ensures disc * Max(strike - spot * growth, 0.0) == Max(strike * disc - spot, 0.0)
  {
    ScaleMax(disc, spot * growth - strike);
    ScaleMax(disc, strike - spot * growth);
    assert disc * (spot * growth - strike) == spot * (disc * growth) - strike * disc;
    assert disc * (strike - spot * growth) == strike * disc - spot * (disc * growth);
  }

  /** The degenerate branch prices the payoff against the discounted strike
      K * exp(-rT): a call is max(S - K exp(-rT), 0) and a put
      max(K exp(-rT) - S, 0). */
  lemma ForwardPricesDiscountStrike(engine: BlackScholesEngine, maturity: real, strike: real, exp: real -> real)
    requires ExpPositive(exp) && ExpInverse(exp)
    ensures engine.ForwardCall(maturity, strike, exp)
         == Max(engine.spot - strike * DiscountFactor(exp, engine.rate, maturity), 0.0)
    ensures engine.ForwardPut(maturity, strike, exp)
         == Max(strike * DiscountFactor(exp, engine.rate, maturity) - engine.spot, 0.0)
  {
    var disc, growth := DiscountFactor(exp, engine.rate, maturity), Growth(exp, engine.rate, maturity);
    DiscountUndoesGrowth(exp, engine.rate, maturity);
    Undiscount(engine.spot, strike, disc, growth);
  }

  /** A degenerate put is worthless once the forward reaches the strike. */
  lemma DegeneratePutWorthlessAboveStrike(engine: BlackScholesEngine, option: Option, exp: real -> real,
                                          sqrt: real -> real, closedForm: ClosedForm)
    requires engine.Dispatch(option.maturity, sqrt) == Degenerate
    requires engine.spot * Growth(exp, engine.rate, option.maturity) >= option.payoff.strikePrice
    ensures engine.PutPrice(option, exp, sqrt, closedForm) == 0.0
  {
  }

  /** Put-call parity on both special-case branches: call minus put is
      S - K once expired, and S - K exp(-rT) when degenerate. */
  lemma EdgeParity(engine: BlackScholesEngine, option: Option, exp: real -> real,
                   sqrt: real -> real, closedForm: ClosedForm)
    requires ExpPositive(exp) && ExpInverse(exp)
    ensures engine.Dispatch(option.maturity, sqrt) == Expired ==>
      engine.CallPrice(option, exp, sqrt, closedForm) - engine.PutPrice(option, exp, sqrt, closedForm)
      == engine.spot - option.payoff.strikePrice
    ensures engine.Dispatch(option.maturity, sqrt) == Degenerate ==>
      engine.CallPrice(option, exp, sqrt, closedForm) - engine.PutPrice(option, exp, sqrt, closedForm)
      == engine.spot - option.payoff.strikePrice * DiscountFactor(exp, engine.rate, option.maturity)
  {
    if engine.Dispatch(option.maturity, sqrt) == Degenerate {
      var k := option.payoff.strikePrice;
      ForwardPricesDiscountStrike(engine, option.maturity, k, exp);
      var a := engine.spot - k * DiscountFactor(exp, engine.rate, option.maturity);
      assert engine.CallPrice(option, exp, sqrt, closedForm) == Max(a, 0.0);
      assert engine.PutPrice(option, exp, sqrt, closedForm) == Max(-a, 0.0);
    }
  }

  /** The order of the two special cases does not matter at expiry: the
      deterministic formula evaluated at T = 0 is the intrinsic value too. */
  lemma BranchOrderImmaterialAtExpiry(engine: BlackScholesEngine, strike: real, exp: real -> real)
    requires ExpPositive(exp) && ExpInverse(exp)
    ensures engine.ForwardCall(0.0, strike, exp) == CallPayoff(strike).Evaluate(engine.spot)
    ensures engine.ForwardPut(0.0, strike, exp) == PutPayoff(strike).Evaluate(engine.spot)
  {
    ExpZero(exp);
    assert DiscountFactor(exp, engine.rate, 0.0) == 1.0 && Growth(exp, engine.rate, 0.0) == 1.0 by {
      assert -engine.rate * 0.0 == 0.0 && engine.rate * 0.0 == 0.0;
    }
  }

  /** The pricing functions read only the strike of the payoff, not its kind:
      a put payoff given to CallPrice is priced as a call, and the other way
      round. */
  lemma PayoffKindIgnored(engine: BlackScholesEngine, maturity: real, strike: real, exp: real -> real,
                          sqrt: real -> real, closedForm: ClosedForm)
    ensures engine.CallPrice(Option(maturity, PutPayoff(strike)), exp, sqrt, closedForm)
         == engine.CallPrice(Option(maturity, CallPayoff(strike)), exp, sqrt, closedForm)
    ensures engine.PutPrice(Option(maturity, CallPayoff(strike)), exp, sqrt, closedForm)
         == engine.PutPrice(Option(maturity, PutPayoff(strike)), exp, sqrt, closedForm)
  {
  }

  /** The expired-call check of the test suite: spot 120, strike 100,
      maturity 0 gives exactly 20, whatever exp, sqrt and the closed form. */
  lemma ExpiredCallExample(exp: real -> real, sqrt: real -> real, closedForm: ClosedForm)
    ensures BlackScholesEngine(120.0, 0.05, 0.2).CallPrice(Option(0.0, CallPayoff(100.0)), exp, sqrt, closedForm)
         == 20.0
  {
  }

  /** The zero-volatility put check of the test suite: spot 100, rate 0.05,
      strike 100, one year. The forward exceeds 105, so the put is worth 0. */
  lemma ZeroVolatilityPutExample(exp: real -> real, sqrt: real -> real, closedForm: ClosedForm)
    requires ExpAboveTangent(exp)
    ensures BlackScholesEngine(100.0, 0.05, 0.0).PutPrice(Option(1.0, PutPayoff(100.0)), exp, sqrt, closedForm)
         == 0.0
  {
    var engine := BlackScholesEngine(100.0, 0.05, 0.0);
    GrowthAboveTangent(exp, 0.05, 1.0);
    DegeneratePutWorthlessAboveStrike(engine, Option(1.0, PutPayoff(100.0)), exp, sqrt, closedForm);
  }
}
