/** Binomial-lattice pricing with early exercise: terminal payoffs on a
    recombining tree, then backward induction in one buffer of steps + 1
    values, overwritten in place layer by layer. */
module BinomialTree {
  import opened Payoffs
  import opened Options

  /** x to the power n, built by repeated multiplication. */
  function Pow(x: real, n: nat): (r: real)
    ensures x > 0.0 ==> r > 0.0
  {
    if n == 0 then 1.0 else Pow(x, n - 1) * x
  }

  lemma {:induction false} PowAdd(x: real, m: nat, n: nat)
    ensures Pow(x, m + n) == Pow(x, m) * Pow(x, n)
  {
    if n > 0 {
      PowAdd(x, m, n - 1);
      Associate(Pow(x, m), Pow(x, n - 1), x);
    }
  }

  lemma PowSplit(x: real, n: nat, k: nat)
    requires k <= n
    ensures Pow(x, n) == Pow(x, n - k) * Pow(x, k)
  {
    PowAdd(x, n - k, k);
  }

  lemma {:induction false} PowMul(x: real, y: real, n: nat)
    ensures Pow(x * y, n) == Pow(x, n) * Pow(y, n)
  {
    if n > 0 {
      PowMul(x, y, n - 1);
      Interchange(Pow(x, n - 1), Pow(y, n - 1), x, y);
    }
  }

  /** Regrouping helpers for the power laws, over plain reals. */
  lemma Associate(a: real, b: real, c: real)
    ensures (a * b) * c == a * (b * c)
  {
  }

  lemma Interchange(a: real, b: real, x: real, y: real)
    ensures (a * b) * (x * y) == (a * x) * (b * y)
  {
  }

  lemma ProductOfInverses(a: real, x: real, b: real, y: real)
    requires a * b == 1.0 && x * y == 1.0
    ensures (a * x) * (b * y) == 1.0
  {
    assert (a * x) * (b * y) == (a * b) * (x * y);
  }

  /** Powers of mutually inverse factors are mutually inverse. */
  lemma {:induction false} PowInverse(u: real, d: real, i: nat)
    requires d * u == 1.0
    ensures Pow(d, i) * Pow(u, i) == 1.0
  {
    if i > 0 {
      PowInverse(u, d, i - 1);
      ProductOfInverses(Pow(d, i - 1), d, Pow(u, i - 1), u);
    }
  }

  /** With d = 1/u the per-node multiplier u/d equals u*u, and u*d == 1:
      the tree recombines. */
  lemma UpOverDown(u: real, d: real)
    requires u > 0.0 && d == 1.0 / u
    ensures u / d == u * u
    ensures d * u == 1.0
  {
  }

  /** Underlying price at node i of layer t, as the engine computes it: start
      from spot * d^t and multiply once per node index by u/d, which is u*u
      when d = 1/u (UpOverDown). */
  function NodeSpot(spot: real, u: real, d: real, t: nat, i: nat): (s: real)
  {
    spot * Pow(d, t) * Pow(u * u, i)
  }

  /** NodeSpot is the engine's running price spot * d^t * (u/d)^i. */
  lemma NodeSpotIsRunningPrice(spot: real, u: real, t: nat, i: nat)
    requires u > 0.0
    ensures NodeSpot(spot, u, 1.0 / u, t, i) == spot * Pow(1.0 / u, t) * Pow(u / (1.0 / u), i)
  {
    UpOverDown(u, 1.0 / u);
  }

  lemma Regroup(spot: real, x: real, y: real, a: real, b: real, c: real)
    requires x == a * b && y == c * c && b * c == 1.0
    ensures spot * x * y == spot * c * a
  {
    assert spot * x * y == (spot * c * a) * (b * c);
  }

  /** The incremental price equals the closed form spot * u^i * d^(t-i). */
  lemma NodeSpotClosedForm(spot: real, u: real, d: real, t: nat, i: nat)
    requires d * u == 1.0 && i <= t
    ensures NodeSpot(spot, u, d, t, i) == spot * Pow(u, i) * Pow(d, t - i)
  {
    assert Pow(d, t) == Pow(d, t - i) * Pow(d, i) by { PowSplit(d, t, i); }
    assert Pow(u * u, i) == Pow(u, i) * Pow(u, i) by { PowMul(u, u, i); }
    assert Pow(d, i) * Pow(u, i) == 1.0 by { PowInverse(u, d, i); }
    Regroup(spot, Pow(d, t), Pow(u * u, i), Pow(d, t - i), Pow(d, i), Pow(u, i));
  }

  /** Moving one node up within a layer multiplies the price by u*u. */
  lemma NextNode(spot: real, u: real, d: real, t: nat, i: nat)
    ensures NodeSpot(spot, u, d, t, i + 1) == NodeSpot(spot, u, d, t, i) * (u * u)
  {
    var a, b, r := spot * Pow(d, t), Pow(u * u, i), u * u;
    assert Pow(r, i + 1) == b * r;
    assert a * (b * r) == (a * b) * r;
  }

  /** The engine's update of its running price, `S *= (u / d)`, steps from
      node i to node i + 1 of the same layer. */
  lemma Advance(spot: real, u: real, d: real, t: nat, i: nat, s: real)
    requires u > 0.0 && d == 1.0 / u
    requires s == NodeSpot(spot, u, d, t, i)
    ensures s * (u / d) == NodeSpot(spot, u, d, t, i + 1)
  {
    UpOverDown(u, d);
    NextNode(spot, u, d, t, i);
  }

  lemma DownRegroup(a: real, b: real, b1: real, c: real, x: real)
    requires b1 == b * x
    ensures a * b1 * c == (a * b * c) * x
  {
  }

  lemma UpRegroup(a: real, b: real, b1: real, c: real, c1: real, d: real, u: real)
    requires b1 == b * d && c1 == c * (u * u) && d * u == 1.0
    ensures a * b1 * c1 == (a * b * c) * u
  {
    assert a * (b * d) * (c * (u * u)) == (a * b * c) * u * (d * u);
  }

  /** Node i of layer t has its down child at node i of layer t + 1. */
  lemma DownChild(spot: real, u: real, d: real, t: nat, i: nat)
    ensures NodeSpot(spot, u, d, t + 1, i) == NodeSpot(spot, u, d, t, i) * d
  {
    DownRegroup(spot, Pow(d, t), Pow(d, t + 1), Pow(u * u, i), d);
  }

  /** Node i of layer t has its up child at node i + 1 of layer t + 1. */
  lemma UpChild(spot: real, u: real, d: real, t: nat, i: nat)
    requires d * u == 1.0
    ensures NodeSpot(spot, u, d, t + 1, i + 1) == NodeSpot(spot, u, d, t, i) * u
  {
    UpRegroup(spot, Pow(d, t), Pow(d, t + 1), Pow(u * u, i), Pow(u * u, i + 1), d, u);
  }

  /** Each layer's running price starts at spot * d^t. */
  lemma RowStart(spot: real, u: real, d: real, t: nat)
    ensures NodeSpot(spot, u, d, t, 0) == spot * Pow(d, t)
  {
    assert Pow(u * u, 0) == 1.0;
  }

  /** The per-step lattice parameters and the payoff being priced. The up
      factor u, the risk-neutral up-probability p and the one-step discount
      factor are inputs here; d is the down factor 1/u. */
  datatype Lattice = Lattice(spot: real, u: real, d: real, p: real, discount: real, steps: nat, payoff: Payoff)

  /** The continuation value of a node whose children are worth `up` and
      `down`: their discounted expectation under the one-step discount factor
      and up-probability. Equal children make `p` immaterial, and with
      weights in [0, 1] non-negative children give a non-negative value. */
  function Continuation(discount: real, p: real, up: real, down: real): (r: real)
    ensures up == down ==> r == discount * up
    ensures 0.0 <= p <= 1.0 && discount >= 0.0 && up >= 0.0 && down >= 0.0 ==> r >= 0.0
  {
    ExpectationNonNegative(discount, p, up, down);
    discount * (p * up + (1.0 - p) * down)
  }

  /** A discounted convex combination of non-negative values is
      non-negative. */
  lemma ExpectationNonNegative(discount: real, p: real, up: real, down: real)
    ensures 0.0 <= p <= 1.0 && discount >= 0.0 && up >= 0.0 && down >= 0.0 ==>
      discount * (p * up + (1.0 - p) * down) >= 0.0
  {
    if 0.0 <= p <= 1.0 && discount >= 0.0 && up >= 0.0 && down >= 0.0 {
      WeightedSumLe(p, 0.0, up, 0.0, down);
      ScaleLe(discount, p * 0.0 + (1.0 - p) * 0.0, p * up + (1.0 - p) * down);
    }
  }

  /** With weights in [0, 1] and a non-negative discount factor, larger child
      values give a larger continuation value. */
  lemma ContinuationMonotone(discount: real, p: real, up1: real, down1: real, up2: real, down2: real)
    requires 0.0 <= p <= 1.0 && discount >= 0.0
    requires up1 <= up2 && down1 <= down2
    ensures Continuation(discount, p, up1, down1) <= Continuation(discount, p, up2, down2)
  {
    WeightedSumLe(p, up1, up2, down1, down2);
    ScaleLe(discount, p * up1 + (1.0 - p) * down1, p * up2 + (1.0 - p) * down2);
  }

  /** Exercise value at node i of layer t. */
  function Intrinsic(lat: Lattice, t: nat, i: nat): (r: real)
    ensures r >= 0.0
  {
    lat.payoff.Evaluate(NodeSpot(lat.spot, lat.u, lat.d, t, i))
  }

  /** The American lattice value: the terminal layer is the payoff, every
      earlier node takes the larger of exercising now and holding on. */
  function Value(lat: Lattice, t: nat, i: nat): (v: real)
    requires i <= t <= lat.steps
    ensures v >= Intrinsic(lat, t, i)
    decreases lat.steps - t
  {
    if t == lat.steps then Intrinsic(lat, t, i)
    else Max(Intrinsic(lat, t, i), Continuation(lat.discount, lat.p, Value(lat, t + 1, i + 1), Value(lat, t + 1, i)))
  }

  /** The European lattice value, with no exercise before the last layer: an
      independent reference for the early-exercise premium. */
  function EuropeanValue(lat: Lattice, t: nat, i: nat): (v: real)
    requires i <= t <= lat.steps
    ensures 0.0 <= lat.p <= 1.0 && lat.discount >= 0.0 ==> v >= 0.0
    decreases lat.steps - t
  {
    if t == lat.steps then Intrinsic(lat, t, i)
    else Continuation(lat.discount, lat.p, EuropeanValue(lat, t + 1, i + 1), EuropeanValue(lat, t + 1, i))
  }

  /** Every lattice node is worth at least zero, whatever p and the discount
      factor are, since each node is a maximum with a payoff. */
  lemma ValueNonNegative(lat: Lattice, t: nat, i: nat)
    requires i <= t <= lat.steps
    ensures Value(lat, t, i) >= 0.0
  {
  }

  /** With 0 <= p <= 1 and a non-negative discount factor, the right to
      exercise early is never worth less than the European lattice value. */
  lemma {:induction false} EarlyExercisePremium(lat: Lattice, t: nat, i: nat)
    requires i <= t <= lat.steps
    requires 0.0 <= lat.p <= 1.0 && lat.discount >= 0.0
    ensures Value(lat, t, i) >= EuropeanValue(lat, t, i)
    decreases lat.steps - t
  {
    if t < lat.steps {
      EarlyExercisePremium(lat, t + 1, i + 1);
      EarlyExercisePremium(lat, t + 1, i);
      var up, down := Value(lat, t + 1, i + 1), Value(lat, t + 1, i);
      var eu, ed := EuropeanValue(lat, t + 1, i + 1), EuropeanValue(lat, t + 1, i);
      ContinuationMonotone(lat.discount, lat.p, eu, ed, up, down);
    }
  }

  /** One pass of backward induction: if `layer` holds layer t + 1 and each
      of the first t + 1 cells of `cur` is the larger of exercise and
      continuation over `layer`, those cells hold layer t. */
  lemma LayerComplete(lat: Lattice, t: nat, layer: seq<real>, cur: seq<real>)
    requires t < lat.steps && t + 1 < |layer| && t < |cur|
    requires forall k :: 0 <= k <= t + 1 ==> layer[k] == Value(lat, t + 1, k)
    requires forall k :: 0 <= k <= t ==>
      cur[k] == Max(Intrinsic(lat, t, k), Continuation(lat.discount, lat.p, layer[k + 1], layer[k]))
    ensures forall k :: 0 <= k <= t ==> cur[k] == Value(lat, t, k)
  {
    forall k | 0 <= k <= t
      ensures cur[k] == Value(lat, t, k)
    {
      assert layer[k] == Value(lat, t + 1, k) && layer[k + 1] == Value(lat, t + 1, k + 1);
    }
  }

  /** One layer of backward induction, the body of the engine's loop over t:
      walk the nodes of layer t upwards, replacing `value[i]` by the larger
      of immediate exercise and the discounted expectation of `value[i + 1]`
      and `value[i]`. Each read of `value[i + 1]` still sees layer t + 1,
      because only cells below i have been overwritten; cells above t are
      left as they were. */
  method StepBack(value: array<real>, t: int, spot: real, payoff: Payoff, u: real, d: real, p: real,
                  discount: real, ghost lat: Lattice)
    requires 0 <= t < lat.steps && value.Length == lat.steps + 1
    requires lat.spot == spot && lat.u == u && lat.d == d && lat.p == p && lat.discount == discount && lat.payoff == payoff
    requires u > 0.0 && d == 1.0 / u
    requires forall k :: 0 <= k <= t + 1 ==> value[k] == Value(lat, t + 1, k)
    requires forall k :: 0 <= k < value.Length ==> value[k] >= 0.0
    modifies value
    ensures forall k :: 0 <= k <= t ==> value[k] == Value(lat, t, k)
    ensures forall k :: t < k < value.Length ==> value[k] == old(value[k])
    ensures forall k :: 0 <= k < value.Length ==> value[k] >= 0.0
  {
    ghost var layer := value[..];
    var s := spot * Pow(d, t);
    RowStart(spot, u, d, t);
    var i := 0;
    while i <= t
      invariant 0 <= i <= t + 1
      invariant s == NodeSpot(spot, u, d, t, i)
      invariant forall k :: 0 <= k < i ==>
        value[k] == Max(Intrinsic(lat, t, k), Continuation(lat.discount, lat.p, layer[k + 1], layer[k]))
      invariant forall k :: i <= k < value.Length ==> value[k] == layer[k]
      invariant forall k :: 0 <= k < value.Length ==> value[k] >= 0.0
    {
      var expected := Continuation(discount, p, value[i + 1], value[i]);
      var earlyExercise := payoff.Evaluate(s);
      assert earlyExercise == Intrinsic(lat, t, i);
      value[i] := Max(earlyExercise, expected);
      Advance(spot, u, d, t, i, s);
      s := s * (u / d);
      i := i + 1;
    }
    LayerComplete(lat, t, layer, value[..]);
  }

  /** The lattice engine: market snapshot fixed at construction. */
  datatype BinomialTreeEngine = BinomialTreeEngine(spot: real, rate: real, volatility: real, steps: int)
  {
    /** Price of `option` by backward induction. `u`, `p` and `discount` are
        the per-step up factor, risk-neutral probability and discount factor
        derived from the maturity, rate and volatility. The result is the
        root of the American lattice, at least the immediate exercise value,
        and never negative. */
    method Price(option: Option, u: real, p: real, discount: real) returns (price: real)
      requires steps >= 1 && u > 0.0
      ensures price == Value(Lattice(spot, u, 1.0 / u, p, discount, steps, option.payoff), 0, 0)
      ensures price >= option.payoff.Evaluate(spot)
      ensures price >= 0.0
    {
      var d := 1.0 / u;
      ghost var lat := Lattice(spot, u, d, p, discount, steps, option.payoff);
      var payoff := option.GetPayoff();

      // Terminal layer.
      var value := new real[steps + 1];
      var s := spot * Pow(d, steps);
      RowStart(spot, u, d, steps);
      var i := 0;
      while i <= steps
        invariant 0 <= i <= steps + 1
        invariant s == NodeSpot(spot, u, d, steps, i)
        invariant forall k :: 0 <= k < i ==> value[k] == Value(lat, steps, k)
      {
        value[i] := payoff.Evaluate(s);
        Advance(spot, u, d, steps, i, s);
        s := s * (u / d);
        i := i + 1;
      }

      // Backward induction, overwriting the buffer in place.
      var t := steps - 1;
      while t >= 0
        invariant -1 <= t <= steps - 1
        invariant forall k :: 0 <= k <= t + 1 ==> value[k] == Value(lat, t + 1, k)
        invariant forall k :: 0 <= k < value.Length ==> value[k] >= 0.0
      {
        StepBack(value, t, spot, payoff, u, d, p, discount, lat);
        t := t - 1;
      }

      price := value[0];
      assert NodeSpot(spot, u, d, 0, 0) == spot;
    }
  }
}
