/** The values the lattice pricer computes, as functions on sequences: the
    terminal stock prices and call payoffs at maturity, one step of backward
    induction into a fresh buffer, and N such steps. Index i of a level
    counts down moves, so node i at one level has node i (up) and node i + 1
    (down) as successors at the next. */
module BinomialTree {
  import opened RealArith
  import opened Lattice

  /** The N + 1 stock prices at maturity: the node with i down moves and
      N - i up moves has price s0 * u^(N - i) * d^i. */
  function TerminalPrices(s0: real, u: real, d: real, n: nat): (prices: seq<real>)
    ensures |prices| == n + 1
  {
    seq(n + 1, i requires 0 <= i <= n => s0 * Pow(u, n - i) * Pow(d, i))
  }

  function Max(a: real, b: real): real
  {
    if a >= b then a else b
  }

  /** The call payoff max(S - K, 0) at each node. */
  function Payoffs(prices: seq<real>, strike: real): (v: seq<real>)
    ensures |v| == |prices|
  {
    seq(|prices|, i requires 0 <= i < |prices| => Max(prices[i] - strike, 0.0))
  }

  /** One sweep of backward induction written to a fresh buffer: node i
      takes the one-step discounted expectation of its successors. */
  function Step(v: seq<real>, p: real, disc: real): (w: seq<real>)
    requires |v| >= 1
    ensures |w| == |v| - 1
  {
    seq(|v| - 1, i requires 0 <= i < |v| - 1 => OneStep(p, disc, v[i], v[i + 1]))
  }

  /** The node values k levels before the level v. */
  function Rollback(v: seq<real>, k: nat, p: real, disc: real): (w: seq<real>)
    requires k < |v|
    ensures |w| == |v| - k
  {
    if k == 0 then v else Step(Rollback(v, k - 1, p, disc), p, disc)
  }

  /** The time-0 call price the lattice assigns, for u standing for
      exp(sigma * sqrt(T / N)), g for exp(r * T / N) and disc for
      exp(-r * T / N). */
  function BinomialPrice(s0: real, strike: real, n: nat, u: real, g: real, disc: real): real
    requires n >= 1 && u > 1.0
  {
    var ud := CalculateUD(u);
    var p := RiskNeutralProb(ud.0, ud.1, g);
    Rollback(Payoffs(TerminalPrices(s0, ud.0, ud.1, n), strike), n, p, disc)[0]
  }

  // ---------------------------------------------------------------------
  // Terminal prices and payoffs

  /** The terminal price with i down moves is the price every path of N
      moves with N - i up moves reaches. */
  lemma TerminalPriceIsPathPrice(s0: real, u: real, d: real, path: seq<bool>, i: nat)
    requires i <= |path| && Ups(path) == |path| - i
    ensures TerminalPrices(s0, u, d, |path|)[i] == PathPrice(s0, u, d, path)
  {
    PathPriceByMoves(s0, u, d, path);
  }

  /** Neighbouring terminal prices: one more down move lowers the price. */
  lemma AdjacentPricesDecrease(s0: real, u: real, d: real, n: nat, i: nat)
    requires s0 > 0.0 && 0.0 < d < u && i < n
    ensures TerminalPrices(s0, u, d, n)[i] > TerminalPrices(s0, u, d, n)[i + 1]
  {
    var x := TerminalPrices(s0, u, d, n - 1)[i];
    TerminalPricesPositive(s0, u, d, n - 1);
    TerminalPriceUp(s0, u, d, n, i);
    TerminalPriceDown(s0, u, d, n, i);
    ScaleStrict(x, d, u);
  }

  /** The terminal prices are strictly decreasing in the number of down moves. */
  lemma TerminalPricesDecreasing(s0: real, u: real, d: real, n: nat)
    requires s0 > 0.0 && 0.0 < d < u
    ensures forall i, j :: 0 <= i < j <= n ==>
              TerminalPrices(s0, u, d, n)[i] > TerminalPrices(s0, u, d, n)[j]
  {
    var prices := TerminalPrices(s0, u, d, n);
    forall i | 0 <= i < n
      ensures prices[i] > prices[i + 1]
    {
      AdjacentPricesDecrease(s0, u, d, n, i);
    }
    StrictlyDecreasingFromAdjacent(prices);
  }

  /** Every payoff is non-negative and at least the exercise value S - K. */
  lemma PayoffsBounds(prices: seq<real>, strike: real)
    ensures forall i :: 0 <= i < |prices| ==>
              Payoffs(prices, strike)[i] >= 0.0 &&
              Payoffs(prices, strike)[i] >= prices[i] - strike
  {
  }

  /** Non-increasing prices give non-increasing payoffs. */
  lemma PayoffsNonIncreasing(prices: seq<real>, strike: real)
    requires forall i, j :: 0 <= i < j < |prices| ==> prices[i] >= prices[j]
    ensures forall i, j :: 0 <= i < j < |prices| ==>
              Payoffs(prices, strike)[i] >= Payoffs(prices, strike)[j]
  {
  }

  /** With a non-negative strike, no payoff exceeds its positive stock price. */
  lemma PayoffsAtMostPrices(prices: seq<real>, strike: real)
    requires strike >= 0.0
    requires forall i :: 0 <= i < |prices| ==> prices[i] >= 0.0
    ensures forall i :: 0 <= i < |prices| ==> Payoffs(prices, strike)[i] <= prices[i]
  {
  }

  // ---------------------------------------------------------------------
  // Backward induction

  /** Discounted expectations of non-negative values are non-negative. */
  lemma {:induction false} RollbackNonNegative(v: seq<real>, k: nat, p: real, disc: real)
    requires k < |v|
    requires 0.0 <= p <= 1.0 && disc >= 0.0
    requires forall i :: 0 <= i < |v| ==> v[i] >= 0.0
    ensures forall i :: 0 <= i < |v| - k ==> Rollback(v, k, p, disc)[i] >= 0.0
  {
    if k > 0 {
      RollbackNonNegative(v, k - 1, p, disc);
      var w := Rollback(v, k - 1, p, disc);
      forall i | 0 <= i < |v| - k
        ensures Rollback(v, k, p, disc)[i] >= 0.0
      {
        OneStepNonNegative(p, disc, w[i], w[i + 1]);
      }
    }
  }

  /** Backward induction is monotone: larger terminal values give larger
      values at every earlier node. */
  lemma {:induction false} RollbackMonotone(v: seq<real>, w: seq<real>, k: nat, p: real, disc: real)
    requires |v| == |w| && k < |v|
    requires 0.0 <= p <= 1.0 && disc >= 0.0
    requires forall i :: 0 <= i < |v| ==> v[i] <= w[i]
    ensures forall i :: 0 <= i < |v| - k ==> Rollback(v, k, p, disc)[i] <= Rollback(w, k, p, disc)[i]
  {
    if k > 0 {
      RollbackMonotone(v, w, k - 1, p, disc);
      var a, b := Rollback(v, k - 1, p, disc), Rollback(w, k - 1, p, disc);
      forall i | 0 <= i < |v| - k
        ensures Rollback(v, k, p, disc)[i] <= Rollback(w, k, p, disc)[i]
      {
        OneStepMonotone(p, disc, a[i], a[i + 1], b[i], b[i + 1]);
      }
    }
  }

  /** Lowering every terminal value by c lowers the value k levels back by
      c discounted k times. */
  lemma {:induction false} RollbackShift(v: seq<real>, w: seq<real>, c: real, k: nat, p: real, disc: real)
    requires |v| == |w| && k < |v|
    requires forall i :: 0 <= i < |v| ==> w[i] == v[i] - c
    ensures forall i :: 0 <= i < |v| - k ==>
              Rollback(w, k, p, disc)[i] == Rollback(v, k, p, disc)[i] - Discounted(c, disc, k)
  {
    if k == 0 {
      assert Discounted(c, disc, 0) == c by {
        assert Pow(disc, 0) == 1.0;
      }
    } else {
      RollbackShift(v, w, c, k - 1, p, disc);
      var shift := Discounted(c, disc, k - 1);
      DiscountedOnce(c, disc, k);
      forall i | 0 <= i < |v| - k
        ensures Rollback(w, k, p, disc)[i] == Rollback(v, k, p, disc)[i] - disc * shift
      {
        StepShiftAt(Rollback(v, k - 1, p, disc), Rollback(w, k - 1, p, disc), shift, p, disc, i);
      }
    }
  }

  /** Lowering two neighbouring values by c lowers the node above them by c
      discounted once. */
  lemma StepShiftAt(a: seq<real>, b: seq<real>, shift: real, p: real, disc: real, i: nat)
    requires |a| == |b| && i + 1 < |a|
    requires b[i] == a[i] - shift && b[i + 1] == a[i + 1] - shift
    ensures Step(b, p, disc)[i] == Step(a, p, disc)[i] - disc * shift
  {
    OneStepShift(p, disc, a[i], a[i + 1], shift);
  }

  /** The up successor of node i one level before maturity is terminal node i. */
  lemma TerminalPriceUp(s0: real, u: real, d: real, n: nat, i: nat)
    requires i < n
    ensures TerminalPrices(s0, u, d, n)[i] == TerminalPrices(s0, u, d, n - 1)[i] * u
  {
    var a, b := Pow(u, n - 1 - i), Pow(d, i);
    assert Pow(u, n - i) == u * a;
    ScaledUpAndDown(s0, u, d, a, b);
  }

  /** The down successor of node i one level before maturity is terminal node i + 1. */
  lemma TerminalPriceDown(s0: real, u: real, d: real, n: nat, i: nat)
    requires i < n
    ensures TerminalPrices(s0, u, d, n)[i + 1] == TerminalPrices(s0, u, d, n - 1)[i] * d
  {
    var a, b := Pow(u, n - 1 - i), Pow(d, i);
    assert Pow(d, i + 1) == d * b;
    ScaledUpAndDown(s0, u, d, a, b);
  }

  /** Under the risk-neutral probability, one step of backward induction on
      the stock prices of a level gives the stock prices of the level before:
      the discounted stock price is a martingale. */
  lemma StepOfTerminalPrices(s0: real, u: real, d: real, n: nat, p: real, g: real, disc: real)
    requires n >= 1
    requires p * u + (1.0 - p) * d == g && disc * g == 1.0
    ensures Step(TerminalPrices(s0, u, d, n), p, disc) == TerminalPrices(s0, u, d, n - 1)
  {
    var prices, before := TerminalPrices(s0, u, d, n), TerminalPrices(s0, u, d, n - 1);
    forall i | 0 <= i < n
      ensures Step(prices, p, disc)[i] == before[i]
    {
      TerminalPriceUp(s0, u, d, n, i);
      TerminalPriceDown(s0, u, d, n, i);
      OneStepMartingale(p, disc, before[i], prices[i], prices[i + 1], u, d, g);
    }
  }

  /** k steps of backward induction on the terminal stock prices give the
      stock prices k steps before maturity. */
  lemma {:induction false} RollbackOfTerminalPrices(s0: real, u: real, d: real, n: nat, k: nat, p: real, g: real, disc: real)
    requires k <= n
    requires p * u + (1.0 - p) * d == g && disc * g == 1.0
    ensures Rollback(TerminalPrices(s0, u, d, n), k, p, disc) == TerminalPrices(s0, u, d, n - k)
  {
    if k > 0 {
      var m := n - (k - 1);
      calc {
        Rollback(TerminalPrices(s0, u, d, n), k, p, disc);
        Step(Rollback(TerminalPrices(s0, u, d, n), k - 1, p, disc), p, disc);
        { RollbackOfTerminalPrices(s0, u, d, n, k - 1, p, g, disc); }
        Step(TerminalPrices(s0, u, d, m), p, disc);
        { StepOfTerminalPrices(s0, u, d, m, p, g, disc); }
        TerminalPrices(s0, u, d, m - 1);
      }
    }
  }

  // ---------------------------------------------------------------------
  // Properties of the price

  /** All terminal stock prices are positive. */
  lemma TerminalPricesPositive(s0: real, u: real, d: real, n: nat)
    requires s0 > 0.0 && u > 0.0 && d > 0.0
    ensures forall i :: 0 <= i <= n ==> TerminalPrices(s0, u, d, n)[i] > 0.0
  {
    forall i | 0 <= i <= n
      ensures TerminalPrices(s0, u, d, n)[i] > 0.0
    {
      PowPositive(u, n - i);
      PowPositive(d, i);
      ProductPositive(s0, Pow(u, n - i), Pow(d, i));
    }
  }

  /** The stock itself, rolled back from maturity, is worth s0 today. */
  lemma RollbackStock(s0: real, u: real, d: real, n: nat, p: real, g: real, disc: real)
    requires p * u + (1.0 - p) * d == g && disc * g == 1.0
    ensures Rollback(TerminalPrices(s0, u, d, n), n, p, disc)[0] == s0
  {
    RollbackOfTerminalPrices(s0, u, d, n, n, p, g, disc);
    assert TerminalPrices(s0, u, d, 0)[0] == s0 * Pow(u, 0) * Pow(d, 0);
  }

  /** The call value today is never negative. */
  lemma CallValueNonNegative(s0: real, strike: real, u: real, d: real, n: nat, p: real, disc: real)
    requires 0.0 <= p <= 1.0 && disc >= 0.0
    ensures Rollback(Payoffs(TerminalPrices(s0, u, d, n), strike), n, p, disc)[0] >= 0.0
  {
    PayoffsBounds(TerminalPrices(s0, u, d, n), strike);
    RollbackNonNegative(Payoffs(TerminalPrices(s0, u, d, n), strike), n, p, disc);
  }

  /** The call is never worth more than the stock. */
  lemma CallValueAtMostStock(s0: real, strike: real, u: real, d: real, n: nat, p: real, g: real, disc: real)
    requires s0 > 0.0 && strike >= 0.0 && u > 0.0 && d > 0.0
    requires 0.0 <= p <= 1.0 && disc >= 0.0
    requires p * u + (1.0 - p) * d == g && disc * g == 1.0
    ensures Rollback(Payoffs(TerminalPrices(s0, u, d, n), strike), n, p, disc)[0] <= s0
  {
    var prices := TerminalPrices(s0, u, d, n);
    TerminalPricesPositive(s0, u, d, n);
    PayoffsAtMostPrices(prices, strike);
    RollbackMonotone(Payoffs(prices, strike), prices, n, p, disc);
    RollbackStock(s0, u, d, n, p, g, disc);
  }

  /** The call is worth at least the stock less the strike discounted over
      the N steps. */
  lemma CallValueAtLeastForward(s0: real, strike: real, u: real, d: real, n: nat, p: real, g: real, disc: real)
    requires 0.0 <= p <= 1.0 && disc >= 0.0
    requires p * u + (1.0 - p) * d == g && disc * g == 1.0
    ensures s0 - Discounted(strike, disc, n) <= Rollback(Payoffs(TerminalPrices(s0, u, d, n), strike), n, p, disc)[0]
  {
    var prices := TerminalPrices(s0, u, d, n);
    var exercise := seq(n + 1, i requires 0 <= i <= n => prices[i] - strike);
    PayoffsBounds(prices, strike);
    RollbackShift(prices, exercise, strike, n, p, disc);
    RollbackMonotone(exercise, Payoffs(prices, strike), n, p, disc);
    RollbackStock(s0, u, d, n, p, g, disc);
  }

  /** Arbitrage-free bounds on the lattice call price: it lies between
      max(0, S0 - K disc^N) and S0 whenever d < g < u. */
  lemma BinomialPriceBounds(s0: real, strike: real, n: nat, u: real, g: real, disc: real)
    requires n >= 1 && u > 1.0 && s0 > 0.0 && strike >= 0.0
    requires 1.0 / u < g < u && disc * g == 1.0
    ensures 0.0 <= BinomialPrice(s0, strike, n, u, g, disc) <= s0
    ensures s0 - Discounted(strike, disc, n) <= BinomialPrice(s0, strike, n, u, g, disc)
  {
    var d := 1.0 / u;
    var p := RiskNeutralProb(u, d, g);
    assert CalculateUD(u) == (u, d);
    assert BinomialPrice(s0, strike, n, u, g, disc)
        == Rollback(Payoffs(TerminalPrices(s0, u, d, n), strike), n, p, disc)[0];
    ReciprocalPositive(disc, g);
    CallValueNonNegative(s0, strike, u, d, n, p, disc);
    CallValueAtMostStock(s0, strike, u, d, n, p, g, disc);
    CallValueAtLeastForward(s0, strike, u, d, n, p, g, disc);
  }

  // ---------------------------------------------------------------------
  // Algebra on plain reals used by the proofs above

  lemma ScaledUpAndDown(s: real, u: real, d: real, a: real, b: real)
    ensures s * (u * a) * b == (s * a * b) * u
    ensures s * a * (d * b) == (s * a * b) * d
    ensures s > 0.0 && a > 0.0 && b > 0.0 && d < u ==> (s * a * b) * u > (s * a * b) * d
  {
    if s > 0.0 && a > 0.0 && b > 0.0 && d < u {
      ProductPositive(s, a, b);
    }
  }

  lemma ScaleStrict(x: real, d: real, u: real)
    requires x > 0.0 && d < u
    ensures x * u > x * d
  {
  }

  lemma ProductPositive(x: real, y: real, z: real)
    requires x > 0.0 && y > 0.0 && z > 0.0
    ensures x * y * z > 0.0
  {
    assert x * y > 0.0;
  }

  lemma ReciprocalPositive(x: real, y: real)
    requires x * y == 1.0 && y > 0.0
    ensures x > 0.0
  {
  }
}
