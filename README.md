# Binomial-lattice call pricer

This project models the Cox–Ross–Rubinstein lattice pricer of a European call
in `project_1B.py`, and proves properties of it.

**Lattice parameters.** `calculate_u_d` derives the up factor `u` and the down
factor `d = 1/u`. `calculate_price_binomial_tree` then takes four steps:

1. It derives the risk-neutral up-move probability `p = (g - d)/(u - d)`.
2. It fills two buffers of `N + 1` cells:
   - the stock prices at maturity, `S0·u^(N-i)·d^i`;
   - the call payoffs, `max(S - K, 0)`.
3. It runs `N` backward-induction sweeps. Each sweep overwrites the option
   buffer in place, in ascending cell order.
4. It returns cell 0.

**Inputs instead of `exp` and `sqrt`.** The model works in exact real
arithmetic and does not compute `exp` or `sqrt`. Each call takes these as
inputs:

- `u`, standing for `exp(σ·sqrt(T/N))`;
- `g`, standing for the one-step growth `exp(r·T/N)`;
- `disc`, standing for the one-step discount `exp(-r·T/N)`.

Where a property needs it, the lemmas assume `disc·g = 1`.

The model has five modules.

- `RealArith` (real_arith.dfy): natural powers of reals and binomial
  coefficients.
- `Lattice` (lattice.dfy):
  - the `u`/`d` pair and the risk-neutral probability;
  - one step of discounted expectation (`OneStep`) and discounting over
    several steps (`Discounted`);
  - paths through the lattice and the fact that it recombines.
- `BinomialTree` (binomial_tree.dfy): the values the pricer computes, as
  functions on sequences.
  - `TerminalPrices` and `Payoffs` give the buffers at maturity.
  - `Step` is one sweep written to a fresh buffer.
  - `Rollback` is `k` such sweeps.
  - `BinomialPrice` is the returned cell.
  - The lemmas cover ordering, non-negativity, monotonicity, the martingale
    property of the discounted stock, and no-arbitrage bounds.
- `ClosedForm` (closed_form.dfy): the closed form of backward induction.
  The price is `disc^N · Σ C(N,i)·p^(N-i)·(1-p)^i · payoff[i]`, and the node
  probabilities sum to one.
- `Pricer` (pricer.dfy): the imperative procedure on `array<real>`.
  - It fills the buffers, then runs the in-place sweeps.
  - The sweep method is proved to compute what a fresh buffer would, and to
    leave the cells above the sweep untouched.
  - The whole procedure is proved to return `BinomialPrice`.

Cell `i` of a level counts down moves. Node `i` therefore has node `i` (up)
and node `i + 1` (down) as its successors.

## Model

| member | source | states |
|---|---|---|
| Lattice.CalculateUD | project_1B.py:16-20 | Returns the pair (u, d) with d positive and u·d = 1. For u > 1 it also gives d < 1 < u. |
| Lattice.RiskNeutralProb | project_1B.py:27 | p·u + (1-p)·d = g, so one step grows a price by g in expectation. When d < g < u, p lies strictly between 0 and 1, and 1 - p = (u - g)/(u - d). |
| Lattice.OneStepNonNegative | project_1B.py:39 | One backward step of non-negative successor values is non-negative, for 0 ≤ p ≤ 1 and disc ≥ 0. |
| Lattice.OneStepMonotone | project_1B.py:39 | One backward step is monotone in both successor values. |
| Lattice.OneStepDifference | project_1B.py:39 | One backward step is linear: on differences of successors it gives the difference of node values. |
| Lattice.OneStepShift | project_1B.py:39 | Lowering both successors by c lowers the node by disc·c. |
| Lattice.OneStepMartingale | project_1B.py:27 | With p·u + (1-p)·d = g and disc·g = 1, the discounted expected stock price one step ahead is today's price. |
| Lattice.DiscountedOnce | project_1B.py:39 | Discounting over k steps is one more discount on top of k - 1 steps. |
| Lattice.PathPriceByMoves | project_1B.py:33 | The end price of a path is S0·u^(ups)·d^(downs), whatever the order of the moves. |
| Lattice.Recombines | project_1B.py:16-20 | Two paths of the same length and number of up moves end at the same price. |
| Lattice.UpDownReturns | project_1B.py:19 | With d = 1/u, up-then-down and down-then-up both return to the starting price. |
| BinomialTree.TerminalPriceIsPathPrice | project_1B.py:33 | Cell i of the maturity prices is the price every N-step path with i down moves reaches. |
| BinomialTree.AdjacentPricesDecrease | project_1B.py:33 | For S0 > 0 and 0 < d < u, one more down move gives a strictly lower maturity price. |
| BinomialTree.TerminalPricesDecreasing | project_1B.py:32-33 | For S0 > 0 and 0 < d < u, the maturity prices strictly decrease in i. |
| BinomialTree.TerminalPricesPositive | project_1B.py:33 | For S0 > 0 and positive u and d, every maturity price is positive. |
| BinomialTree.PayoffsBounds | project_1B.py:34 | Every payoff is non-negative and at least S - K. |
| BinomialTree.PayoffsNonIncreasing | project_1B.py:34 | Payoffs of decreasing prices are non-increasing in i. |
| BinomialTree.PayoffsAtMostPrices | project_1B.py:34 | For positive prices and K ≥ 0, each payoff is at most the stock price. |
| BinomialTree.RollbackNonNegative | project_1B.py:37-39 | For 0 ≤ p ≤ 1 and disc ≥ 0, non-negative maturity values stay non-negative through every sweep. |
| BinomialTree.RollbackMonotone | project_1B.py:37-39 | Backward induction is monotone: larger maturity values give larger values at every earlier node. |
| BinomialTree.StepShiftAt | project_1B.py:39 | Lowering two neighbouring cells by c lowers the node above them by disc·c. |
| BinomialTree.RollbackShift | project_1B.py:37-39 | Lowering every maturity value by c lowers each value k levels back by c discounted k times. |
| BinomialTree.TerminalPriceUp | project_1B.py:33 | Maturity node i is the up successor of node i one level earlier. |
| BinomialTree.TerminalPriceDown | project_1B.py:33 | Maturity node i + 1 is the down successor of node i one level earlier. |
| BinomialTree.StepOfTerminalPrices | project_1B.py:27-39 | Under the risk-neutral p with disc·g = 1, one sweep over the stock prices of level n gives the stock prices of level n - 1. |
| BinomialTree.RollbackOfTerminalPrices | project_1B.py:27-39 | k sweeps over the maturity stock prices give the stock prices k levels earlier. |
| BinomialTree.RollbackStock | project_1B.py:27-42 | The stock itself, rolled back N levels, is worth S0 today. |
| BinomialTree.CallValueNonNegative | project_1B.py:34-42 | The rolled-back call value is non-negative. |
| BinomialTree.CallValueAtMostStock | project_1B.py:32-42 | The rolled-back call value is at most S0. |
| BinomialTree.CallValueAtLeastForward | project_1B.py:32-42 | The rolled-back call value is at least S0 minus the strike discounted over N steps. |
| BinomialTree.BinomialPriceBounds | project_1B.py:24-42 | For S0 > 0, K ≥ 0, 1/u < g < u and disc·g = 1, the lattice price lies in [max(0, S0 - disc^N·K), S0]. |
| ClosedForm.DotCombine | project_1B.py:39 | Weighting values by a combined row is one backward step applied to the two weighted sums. |
| ClosedForm.DotNextRow | project_1B.py:37-39 | Weighting by the next row of weights is one backward step over two neighbouring windows of values. |
| ClosedForm.RollbackClosedForm | project_1B.py:37-39 | After k sweeps, cell m is the weighted sum of the values below it, with DiscountedRow(k) as the weights. |
| ClosedForm.WeightPascal | project_1B.py:37-39 | Node probabilities satisfy Pascal's rule: an inner node is reached by an up move or a down move. |
| ClosedForm.WeightEdges | project_1B.py:37-39 | The extreme nodes are reached by one path each, with probability p^k or (1-p)^k. |
| ClosedForm.RowEntry | project_1B.py:37-39 | Without discounting, entry i of the k-step row is the node probability C(k,i)·p^(k-i)·(1-p)^i. |
| ClosedForm.DiscountedOneStep | project_1B.py:39 | Discounting commutes with one step of expectation. |
| ClosedForm.DiscountedRowScales | project_1B.py:37-39 | Discounting at every step scales the k-step row by disc^k. |
| ClosedForm.DiscountedRowEntry | project_1B.py:37-39 | Entry i of the k-step row is disc^k·C(k,i)·p^(k-i)·(1-p)^i. |
| ClosedForm.RollbackConstant | project_1B.py:37-39 | With no discounting, a constant level rolls back to the same constant. |
| ClosedForm.WeightsSumToOne | project_1B.py:37-39 | The node probabilities after k steps sum to one. |
| ClosedForm.BinomialPriceClosedForm | project_1B.py:24-42 | The lattice price equals disc^N·Σ C(N,i)·p^(N-i)·(1-p)^i·payoff[i], the discounted risk-neutral expectation of the payoff. |
| Pricer.Sweep | project_1B.py:38-39 | The in-place ascending sweep over cells 0..j stays in bounds and writes exactly what a fresh buffer would. Cells above j are unchanged. |
| Pricer.MaturityValues | project_1B.py:28-34 | The fill loop leaves the maturity stock prices and call payoffs in two fresh buffers of N + 1 cells. |
| Pricer.BackwardInduction | project_1B.py:37-39 | After the sweeps j = N-1 down to 0, cell 0 holds the value N levels before the starting buffer. |
| Pricer.PriceBinomialTree | project_1B.py:24-42 | The procedure returns BinomialPrice. Under S0 > 0, K ≥ 0, 1/u < g < u and disc·g = 1, the result lies between max(0, S0 - disc^N·K) and S0. |

## Left out

- `exp`, `sqrt` and `**` as floating-point operations. `u`, `g` and `disc`
  are parameters, and arithmetic is exact. IEEE rounding and its growth with
  N are not modelled.
- The module-level constants `K`, `r`, `sigma`, `T` and `S0`
  (project_1B.py:8-12) are explicit parameters. `dt = T/N` appears only
  through the meaning of `u`, `g` and `disc`.
- N = 0: the source divides by zero at project_1B.py:17 and 25. The model
  requires N ≥ 1.
- No rejection of invalid inputs. The source does not check that the
  parameters are valid, and does not reject p outside (0, 1). The model
  follows the code:
  - the pricing procedure computes a value for any u > 1 and any g;
  - d < g < u is a hypothesis of the lemmas that need it, not an error path.
- `calculate_price_black_scholes` (project_1B.py:46-53) is not part of this
  model. It needs the normal CDF, `log` and `sqrt`.
- The driver loop over N (project_1B.py:59-65) is not part of this model. The
  same goes for the least-squares fit of the log errors and all printing and
  plotting.
