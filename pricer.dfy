/** calculate_price_binomial_tree as the imperative procedure it is: two
    buffers of N + 1 cells filled at maturity, then N backward sweeps that
    overwrite the option buffer in place, in ascending cell order. */
module Pricer {
  import opened RealArith
  import opened Lattice
  import opened BinomialTree

  /** One backward sweep over cells 0..j. Cell i is overwritten from cells
      i and i + 1; since i + 1 has not been written yet when cell i is, the
      in-place sweep computes the same values as a fresh buffer would, and
      the cells above j keep their values. */
  method Sweep(a: array<real>, j: nat, p: real, disc: real)
    requires j + 1 < a.Length
    modifies a
    ensures a[..j + 1] == Step(old(a[..j + 2]), p, disc)
    ensures a[j + 1..] == old(a[j + 1..])
  {
    var i := 0;
    while i <= j
      invariant 0 <= i <= j + 1
      invariant forall k :: 0 <= k < i ==> a[k] == OneStep(p, disc, old(a[k]), old(a[k + 1]))
      invariant forall k :: i <= k < a.Length ==> a[k] == old(a[k])
    {
      a[i] := OneStep(p, disc, a[i], a[i + 1]);
      i := i + 1;
    }
  }

  /** The buffers at maturity: stock prices s0 * u^(N - i) * d^i and call
      payoffs max(S - K, 0), cell i counting down moves. */
  method MaturityValues(s0: real, strike: real, n: nat, up: real, down: real)
    returns (stockPrice: array<real>, optionValue: array<real>)
    ensures fresh(stockPrice) && fresh(optionValue)
    ensures stockPrice[..] == TerminalPrices(s0, up, down, n)
    ensures optionValue[..] == Payoffs(TerminalPrices(s0, up, down, n), strike)
  {
    ghost var prices := TerminalPrices(s0, up, down, n);
    ghost var payoffs := Payoffs(prices, strike);
    stockPrice := new real[n + 1];
    optionValue := new real[n + 1];
    var i := 0;
    while i < n + 1
      invariant 0 <= i <= n + 1
      invariant forall k :: 0 <= k < i ==> stockPrice[k] == prices[k]
      invariant forall k :: 0 <= k < i ==> optionValue[k] == payoffs[k]
    {
      stockPrice[i] := s0 * Pow(up, n - i) * Pow(down, i);
      optionValue[i] := Max(stockPrice[i] - strike, 0.0);
      i := i + 1;
    }
  }

  /** Sweeps j = N - 1, ..., 0 over the buffer: afterwards cell 0 holds the
      value N levels before the values the buffer started with. */
  method BackwardInduction(optionValue: array<real>, n: nat, p: real, disc: real)
    requires optionValue.Length == n + 1
    modifies optionValue
    ensures optionValue[0] == Rollback(old(optionValue[..]), n, p, disc)[0]
  {
    ghost var start := optionValue[..];
    ghost var cur := start;
    var j := n;
    // Before sweep j - 1, cells 0..j hold the node values n - j levels
    // before maturity.
    while j > 0
      invariant 0 <= j <= n
      invariant cur == Rollback(start, n - j, p, disc)
      invariant optionValue[..j + 1] == cur
    {
      Sweep(optionValue, j - 1, p, disc);
      cur := Step(cur, p, disc);
      j := j - 1;
    }
    assert optionValue[..1][0] == optionValue[0];
  }

  /** The lattice price of a European call with N steps, computed by the
      source's loops. u stands for exp(sigma * sqrt(T / N)), g for
      exp(r * T / N) and disc for exp(-r * T / N). */
  method PriceBinomialTree(s0: real, strike: real, n: nat, u: real, g: real, disc: real)
    returns (price: real)
    requires n >= 1 && u > 1.0
    ensures price == BinomialPrice(s0, strike, n, u, g, disc)
    ensures s0 > 0.0 && strike >= 0.0 && 1.0 / u < g < u && disc * g == 1.0 ==>
              0.0 <= price <= s0 && s0 - Discounted(strike, disc, n) <= price
  {
    var ud := CalculateUD(u);
    var up, down := ud.0, ud.1;
    var p := RiskNeutralProb(up, down, g);
    var stockPrice, optionValue := MaturityValues(s0, strike, n, up, down);
    BackwardInduction(optionValue, n, p, disc);
    price := optionValue[0];
    if s0 > 0.0 && strike >= 0.0 && 1.0 / u < g < u && disc * g == 1.0 {
      BinomialPriceBounds(s0, strike, n, u, g, disc);
    }
  }
}
