/** Vanilla option payoffs: the exercise value of a call or a put at a given
    price of the underlying. */
module Payoffs {

  /** std::max on two doubles: the second argument when the first is smaller,
      otherwise the first. */
  function Max(a: real, b: real): (m: real)
    ensures m >= a && m >= b
    ensures m == a || m == b
  {
    if a < b then b else a
  }

  /** A payoff holds the strike it was constructed with; the constructors
      store it as given, without any check on its sign. */
  datatype Payoff = CallPayoff(strikePrice: real) | PutPayoff(strikePrice: real)
  {
    /** The strike fixed at construction. */
    function GetStrike(): (k: real)
      ensures this == CallPayoff(k) || this == PutPayoff(k)
    {
      strikePrice
    }

    /** Exercise value at spot price `spotPrice`: max(S - K, 0) for a call,
        max(K - S, 0) for a put. */
    function Evaluate(spotPrice: real): (v: real)
      ensures v >= 0.0
      ensures CallPayoff? ==> v >= spotPrice - strikePrice && (v == 0.0 || v == spotPrice - strikePrice)
      ensures PutPayoff? ==> v >= strikePrice - spotPrice && (v == 0.0 || v == strikePrice - spotPrice)
    {
      match this
      case CallPayoff(k) => Max(spotPrice - k, 0.0)
      case PutPayoff(k) => Max(k - spotPrice, 0.0)
    }
  }

  /** Construction keeps the strike unchanged, whatever its value. */
  lemma StrikeStoredAsGiven(k: real)
    ensures CallPayoff(k).GetStrike() == k
    ensures PutPayoff(k).GetStrike() == k
  {
  }

  /** The payoff checks of the test suite: a call struck at 100 is worth 20 at
      120 and nothing at 80; a put struck at 100 the other way round. */
  lemma PayoffExamples()
    ensures CallPayoff(100.0).Evaluate(120.0) == 20.0
    ensures CallPayoff(100.0).Evaluate(80.0) == 0.0
    ensures PutPayoff(100.0).Evaluate(80.0) == 20.0
    ensures PutPayoff(100.0).Evaluate(120.0) == 0.0
  {
  }

  /** A call is worth at least as much at a higher spot. */
  lemma CallNonDecreasing(k: real, s1: real, s2: real)
    requires s1 <= s2
    ensures CallPayoff(k).Evaluate(s1) <= CallPayoff(k).Evaluate(s2)
  {
  }

  /** A put is worth at most as much at a higher spot. */
  lemma PutNonIncreasing(k: real, s1: real, s2: real)
    requires s1 <= s2
    ensures PutPayoff(k).Evaluate(s1) >= PutPayoff(k).Evaluate(s2)
  {
  }

  /** Call minus put with the same strike is the forward payoff S - K. */
  lemma CallPutParity(k: real, s: real)
    ensures CallPayoff(k).Evaluate(s) - PutPayoff(k).Evaluate(s) == s - k
  {
  }

  /** Scaling both sides of an inequality by a non-negative factor. */
  lemma ScaleLe(w: real, a: real, b: real)
    requires w >= 0.0 && a <= b
    ensures w * a <= w * b
  {
  }

  /** A convex combination is monotone in both of its arguments. */
  lemma WeightedSumLe(w: real, a1: real, b1: real, a2: real, b2: real)
    requires 0.0 <= w <= 1.0 && a1 <= b1 && a2 <= b2
    ensures w * a1 + (1.0 - w) * a2 <= w * b1 + (1.0 - w) * b2
  {
    var w2 := 1.0 - w;
    ScaleLe(w, a1, b1);
    ScaleLe(w2, a2, b2);
    var x1, x2, y1, y2 := w * a1, w * b1, w2 * a2, w2 * b2;
    assert x1 <= x2 && y1 <= y2;
  }

  /** A payoff is a convex function of the spot: the value at a weighted
      average of two spots is at most the weighted average of the values. */
  lemma PayoffConvex(payoff: Payoff, w: real, s1: real, s2: real)
    requires 0.0 <= w <= 1.0
    ensures payoff.Evaluate(w * s1 + (1.0 - w) * s2)
         <= w * payoff.Evaluate(s1) + (1.0 - w) * payoff.Evaluate(s2)
  {
    var k := payoff.strikePrice;
    var v1, v2 := payoff.Evaluate(s1), payoff.Evaluate(s2);
    WeightedSumLe(w, 0.0, v1, 0.0, v2);
    if payoff.CallPayoff? {
      WeightedSumLe(w, s1 - k, v1, s2 - k, v2);
    } else {
      WeightedSumLe(w, k - s1, v1, k - s2, v2);
    }
  }
}
