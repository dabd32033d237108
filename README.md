# Options pricer: a verified model of the pricing core

This project models the pricing logic of a small C++ options pricer (sairit/Options-Pricer).
It covers four pieces:

- **Payoffs.** A vanilla call pays `max(S - K, 0)` and a put pays `max(K - S, 0)`.
- **Options.** An option pairs a time to expiry with a payoff.
- **Binomial engine.** It prices an option with early exercise by backward induction on a recombining lattice. The engine keeps one buffer of `steps + 1` values and overwrites it in place, layer by layer.
- **Black–Scholes engine.** Its dispatch and its two special cases are modelled; the general formula is an input. The engine returns the intrinsic value of an expired option. When the total volatility `volatility * sqrt(T)` is at most `1e-8`, it returns the discounted payoff on the deterministic forward `F = spot * exp(rT)`: `exp(-rT) * max(F - K, 0)` for a call and `exp(-rT) * max(K - F, 0)` for a put. Otherwise it returns the lognormal closed form.

Every `double` is a Dafny `real`. The fields of the C++ classes are private and are set only by the constructors; apart from the destructors and the static `norm_cdf`, every other member function is const. The only other member data is the `static constexpr` cutoff `TINY_EPSILON`. No value changes after construction, so the classes become immutable datatypes. The binomial engine's `price` is imperative in the source and stays imperative here. It is a method over an `array<real>`, proved against a recursive lattice definition `Value`. The body of the loop over layers `t` is the method `StepBack`, which holds the loop over nodes `i`.

The transcendental functions are inputs to the model:

- The binomial method receives the up factor `u`, the up-probability `p` and the one-step discount factor as arguments. It computes `d = 1/u` and the running price `S *= u/d` exactly as the source does.
- The Black–Scholes functions receive `exp` and `sqrt` as functions.
- The general lognormal formula is an input of type `ClosedForm`, a function of spot, strike, rate, volatility and maturity.
- Lemmas that need facts about `exp` state them as preconditions: `ExpPositive`, `ExpInverse` (`exp(x) * exp(-x) == 1`) and `ExpAboveTangent` (`exp(x) >= 1 + x`).

`get_strike` is declared for both payoffs (include/Payoff.h:26, include/Payoff.h:41), but src/Payoff.cpp never defines it. It is modelled with its evident meaning: it returns the strike given to the constructor.

`call_price` and `put_price` read only the strike of the payoff, never its kind. A put payoff handed to `call_price` is therefore priced as a call. `PayoffKindIgnored` states this.

Nothing in the code checks that the maturity is non-negative. The model accepts any maturity too: a negative one passes the expiry test and reaches the degeneracy test.

Files:

- `payoff.dfy` (module `Payoffs`)
- `option.dfy` (module `Options`)
- `binomial_tree_engine.dfy` (module `BinomialTree`)
- `black_scholes_engine.dfy` (module `BlackScholes`)

## Model

| member | source | states |
|---|---|---|
| Payoffs.Max | src/Payoff.cpp:14 | `std::max` on two reals: the result is at least both arguments and is one of them |
| Payoffs.Payoff.GetStrike | include/Payoff.h:26 | the strike read back is the one the payoff was built with, for either kind |
| Payoffs.Payoff.Evaluate | src/Payoff.cpp:13-26 | the value is never negative; a call is at least `S - K` and is either 0 or exactly `S - K`; a put is at least `K - S` and is either 0 or exactly `K - S` |
| Payoffs.StrikeStoredAsGiven | src/Payoff.cpp:9-21 | both constructors store any strike unchanged |
| Payoffs.PayoffExamples | test/tests.cpp:12-21 | strike 100: the call is worth 20 at 120 and 0 at 80; the put is worth 20 at 80 and 0 at 120 |
| Payoffs.CallNonDecreasing | src/Payoff.cpp:14 | the call value does not decrease as the spot rises |
| Payoffs.PutNonIncreasing | src/Payoff.cpp:24 | the put value does not increase as the spot rises |
| Payoffs.CallPutParity | src/Payoff.cpp:13-26 | for equal strikes, call minus put is `S - K` at every spot |
| Payoffs.PayoffConvex | src/Payoff.cpp:13-26 | both payoffs are convex in the spot |
| Options.Option.GetMaturity | src/Option.cpp:13-15 | returns the maturity field; the option is left unchanged |
| Options.Option.GetPayoff | src/Option.cpp:17-19 | returns the payoff field; the option is left unchanged |
| Options.ConstructorStoresFields | src/Option.cpp:9 | the getters return the constructor's arguments, for any maturity, zero and negative included |
| BinomialTree.Pow | src/BinomialTreeEngine.cpp:20-28 | `pow(d, t)` by repeated multiplication: a positive base gives a positive power |
| BinomialTree.UpOverDown | src/BinomialTreeEngine.cpp:12-13 | with `d = 1/u` the per-node multiplier `u/d` is `u*u`, and `d*u == 1` |
| BinomialTree.NodeSpotIsRunningPrice | src/BinomialTreeEngine.cpp:20-23 | the node price is the engine's `spot * d^t * (u/d)^i` |
| BinomialTree.NodeSpotClosedForm | src/BinomialTreeEngine.cpp:28-33 | the node price equals `spot * u^i * d^(t-i)` |
| BinomialTree.NextNode | src/BinomialTreeEngine.cpp:33 | moving one node up within a layer multiplies the price by `u*u` |
| BinomialTree.Advance | src/BinomialTreeEngine.cpp:23 | `S *= u/d` steps the running price from node i to node i+1 |
| BinomialTree.DownChild | src/BinomialTreeEngine.cpp:30 | the node read as `value[i]` in the next layer lies one down-move below node i |
| BinomialTree.UpChild | src/BinomialTreeEngine.cpp:30 | the node read as `value[i+1]` in the next layer lies one up-move above node i |
| BinomialTree.Continuation | src/BinomialTreeEngine.cpp:30 | the discounted expectation `discount * (p*up + (1-p)*down)`: equal children give `discount * up` whatever `p` is, and for `p` in [0,1], a non-negative discount and non-negative children it is non-negative |
| BinomialTree.Intrinsic | src/BinomialTreeEngine.cpp:31 | the early-exercise value `payoff.evaluate(S)` at a node is never negative |
| BinomialTree.ContinuationMonotone | src/BinomialTreeEngine.cpp:30 | for `p` in [0,1] and a non-negative discount, larger child values give a larger continuation |
| BinomialTree.Value | src/BinomialTreeEngine.cpp:20-34 | the recursive American lattice value is never below the node's exercise value |
| BinomialTree.EuropeanValue | src/BinomialTreeEngine.cpp:20-30 | the same lattice without the early-exercise maximum of line 32, a reference value: for `p` in [0,1] and a non-negative discount every node is non-negative |
| BinomialTree.ValueNonNegative | src/BinomialTreeEngine.cpp:22-32 | every lattice value is non-negative, whatever `p` and the discount are |
| BinomialTree.EarlyExercisePremium | src/BinomialTreeEngine.cpp:31-32 | for `p` in [0,1] and a non-negative discount, the American value is at least the European value at every node |
| BinomialTree.RowStart | src/BinomialTreeEngine.cpp:28 | each layer's running price starts at `spot * d^t`, the node price of node 0 |
| BinomialTree.StepBack | src/BinomialTreeEngine.cpp:28-34 | given layer t+1 in cells 0..t+1, one pass leaves layer t in cells 0..t, leaves every cell above t unchanged, and keeps every cell non-negative |
| BinomialTree.LayerComplete | src/BinomialTreeEngine.cpp:29-32 | cells holding `max(intrinsic, continuation over layer t+1)` hold the lattice value of layer t |
| BinomialTree.BinomialTreeEngine.Price | src/BinomialTreeEngine.cpp:9-39 | returns the root of the recursive lattice; the result is at least `payoff.evaluate(spot)` and non-negative |
| BlackScholes.Growth | src/BlackScholesEngine.cpp:27 | the forward's growth `exp(rT)` (line 51 for the put) is positive for a positive `exp` |
| BlackScholes.DiscountFactor | src/BlackScholesEngine.cpp:28 | the discount `exp(-rT)` (line 52 for the put) is positive for a positive `exp` |
| BlackScholes.DiscountUndoesGrowth | src/BlackScholesEngine.cpp:27-28 | `exp(-rT) * exp(rT) == 1` under the inverse law |
| BlackScholes.ExpZero | src/BlackScholesEngine.cpp:27-28 | a positive `exp` satisfying the inverse law is 1 at 0 |
| BlackScholes.BlackScholesEngine.Dispatch | src/BlackScholesEngine.cpp:21-32 | the expired branch is taken iff `T == 0`; the degenerate branch iff `T != 0` and `volatility*sqrt(T) <= 1e-8`; the closed form iff `T != 0` and `volatility*sqrt(T) > 1e-8` |
| BlackScholes.BlackScholesEngine.CallPrice | src/BlackScholesEngine.cpp:16-37 | at `T == 0` the price is exactly the call payoff on the strike; when degenerate it is the discounted forward call; otherwise it is the closed form |
| BlackScholes.BlackScholesEngine.PutPrice | src/BlackScholesEngine.cpp:40-61 | the same dispatch, with the put payoff and the discounted forward put |
| BlackScholes.BlackScholesEngine.ForwardCall | src/BlackScholesEngine.cpp:27-29 | `exp(-rT) * max(F - K, 0)` is non-negative for a positive `exp`, and 0 once the forward `F = S*exp(rT)` is at or below the strike |
| BlackScholes.BlackScholesEngine.ForwardPut | src/BlackScholesEngine.cpp:51-53 | `exp(-rT) * max(K - F, 0)` is non-negative for a positive `exp`, and 0 once the forward reaches the strike |
| BlackScholes.ZeroVolatilityIsDegenerate | include/BlackScholesEngine.h:13 | the cutoff `TINY_EPSILON = 1e-8` is positive, so zero volatility with a non-zero maturity always takes the degenerate branch |
| BlackScholes.EdgeBranchesNonNegative | src/BlackScholesEngine.cpp:21-30 | with a positive `exp`, call and put are non-negative whenever the closed form is not reached |
| BlackScholes.ForwardPricesDiscountStrike | src/BlackScholesEngine.cpp:26-54 | the degenerate call (lines 26-30) is `max(S - K*exp(-rT), 0)` and the degenerate put (lines 50-54) is `max(K*exp(-rT) - S, 0)` |
| BlackScholes.DegeneratePutWorthlessAboveStrike | src/BlackScholesEngine.cpp:50-54 | on the degenerate branch, the put price is 0 once the forward reaches the strike |
| BlackScholes.EdgeParity | src/BlackScholesEngine.cpp:21-30 | call minus put is `S - K` once expired and `S - K*exp(-rT)` when degenerate |
| BlackScholes.BranchOrderImmaterialAtExpiry | src/BlackScholesEngine.cpp:21-30 | at `T = 0` the deterministic formula also gives the intrinsic value, so running the expiry test first changes no result |
| BlackScholes.PayoffKindIgnored | src/BlackScholesEngine.cpp:18 | the call price depends on the payoff's strike only, not its kind (and likewise the put price, line 42) |
| BlackScholes.ExpiredCallExample | test/tests.cpp:49-53 | spot 120, strike 100, maturity 0 gives exactly 20, for any `exp`, `sqrt` and closed form |
| BlackScholes.ZeroVolatilityPutExample | test/tests.cpp:59-63 | zero volatility, spot 100, rate 0.05, strike 100, one year: the put is exactly 0 |

## Left out

- src/main.cpp is not part of this model. It is a scenario driver with CSV output and timing, all of it I/O.
- The `std::cout` lines in every constructor are left out. They are console output only.
- test/tests.cpp and test/option_tests.cpp are used only as a source of the example lemmas. Their numeric checks (10.45, 5.57, convergence within 0.05) depend on `erf` and floating point.
- `norm_cdf` and the general closed form (src/BlackScholesEngine.cpp:11-13, 32-36, 56-60) are left out. They rest on `log`, `erf`, `sqrt` and `exp`, so they are represented by the `closedForm` argument.
- BlackScholes.BlackScholesEngine.CallPrice: on the general branch it only returns the supplied closed form. No property of the lognormal formula is proved.
- BlackScholes.BlackScholesEngine.PutPrice: on the general branch it only returns the supplied closed form. No property of the lognormal formula is proved.
- BinomialTree.BinomialTreeEngine.Price: `u`, `p` and the discount are arguments. It does not compute them from `exp`, `sqrt` and the maturity (src/BinomialTreeEngine.cpp:11-15).
- BinomialTree.BinomialTreeEngine.Price: it requires `u > 0`, which `u = exp(...)` always meets. It does not prove that `p` lies in [0, 1].
- The model does not capture any floating-point rounding, NaN or infinity. Doubles are reals. For a negative maturity, C++ `sqrt` yields NaN and the degeneracy test is false; here `sqrt` is an arbitrary supplied function.
- BinomialTree.BinomialTreeEngine.Price: it requires `steps >= 1`. The source divides by `steps` and sizes the buffer with `steps + 1`. The stack-allocated variable-length array and its overflow are not modelled.
- `shared_ptr` ownership of the payoff is not modelled; a payoff is passed by value. Payoffs are immutable, so sharing them cannot be observed.
- Convergence of the lattice price to the Black–Scholes price as `steps` grows is left out. It is an analytic limit.
