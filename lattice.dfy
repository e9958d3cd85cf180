/** The one-step parameters of the recombining lattice: the up factor u, the
    down factor d = 1/u, and the risk-neutral probability p of an up move.

    `exp` and `sqrt` are not modelled: u stands for exp(sigma * sqrt(T / N))
    and g for the one-step growth exp(r * T / N); both are inputs, and every
    computation on them is exact. */
module Lattice {
  import opened RealArith

  /** calculate_u_d: the pair (u, d) with the down factor the reciprocal of
      the up factor. exp(...) is always positive, and above 1 when sigma > 0. */
  function CalculateUD(u: real): (ud: (real, real))
    requires u > 0.0
    ensures ud.0 == u && ud.1 > 0.0
    ensures ud.0 * ud.1 == 1.0
    ensures u > 1.0 ==> ud.1 < 1.0 < ud.0
  {
    (u, 1.0 / u)
  }

  /** The up-move probability p = (g - d) / (u - d): the one under which a
      step grows a price by g on average. The source does not check
      d < g < u; when it holds, p is a genuine probability. */
  function RiskNeutralProb(u: real, d: real, g: real): (p: real)
    requires d < u
    ensures p * u + (1.0 - p) * d == g
    ensures d < g < u ==> 0.0 < p < 1.0 && 1.0 - p == (u - g) / (u - d)
  {
    var spread := u - d;
    var p := (g - d) / spread;
    var q := (u - g) / spread;
    assert p * spread == g - d && q * spread == u - g;
    assert (1.0 - p - q) * spread == 0.0;
    CancelFactor(1.0 - p - q, spread);
    QuotientPositive(g - d, spread);
    QuotientPositive(u - g, spread);
    p
  }

  /** One step of backward induction at a node: the expectation, under the
      up-move probability p, of the values at its up and down successors,
      discounted once. */
  function OneStep(p: real, disc: real, up: real, down: real): real
  {
    disc * (p * up + (1.0 - p) * down)
  }

  /** Non-negative successor values give a non-negative node value. */
  lemma OneStepNonNegative(p: real, disc: real, x: real, y: real)
    requires x >= 0.0 && y >= 0.0 && 0.0 <= p <= 1.0 && disc >= 0.0
    ensures OneStep(p, disc, x, y) >= 0.0
  {
    assert p * x >= 0.0 && (1.0 - p) * y >= 0.0;
  }

  /** Larger successor values give a larger node value. */
  lemma OneStepMonotone(p: real, disc: real, x1: real, y1: real, x2: real, y2: real)
    requires x1 <= x2 && y1 <= y2 && 0.0 <= p <= 1.0 && disc >= 0.0
    ensures OneStep(p, disc, x1, y1) <= OneStep(p, disc, x2, y2)
  {
    OneStepNonNegative(p, disc, x2 - x1, y2 - y1);
    OneStepDifference(p, disc, x1, y1, x2, y2);
  }

  /** One step is linear in the successor values. */
  lemma OneStepDifference(p: real, disc: real, x1: real, y1: real, x2: real, y2: real)
    ensures OneStep(p, disc, x2 - x1, y2 - y1) == OneStep(p, disc, x2, y2) - OneStep(p, disc, x1, y1)
  {
  }

  /** Lowering both successors by c lowers the node by c discounted once. */
  lemma OneStepShift(p: real, disc: real, x: real, y: real, c: real)
    ensures OneStep(p, disc, x - c, y - c) == OneStep(p, disc, x, y) - disc * c
  {
  }

  /** Under the risk-neutral probability with disc * g = 1, the node value of
      the stock, whose successors are up = a * u and down = a * d, is the
      stock price a. */
  lemma OneStepMartingale(p: real, disc: real, a: real, up: real, down: real, u: real, d: real, g: real)
    requires up == a * u && down == a * d
    requires p * u + (1.0 - p) * d == g && disc * g == 1.0
    ensures OneStep(p, disc, up, down) == a
  {
    assert p * (a * u) + (1.0 - p) * (a * d) == a * (p * u + (1.0 - p) * d);
  }

  /** The time-0 value of an amount x paid k steps from now. */
  function Discounted(x: real, disc: real, k: nat): real
  {
    Pow(disc, k) * x
  }

  /** Discounting k steps is discounting k - 1 steps, then one more. */
  lemma DiscountedOnce(x: real, disc: real, k: nat)
    requires k >= 1
    ensures Discounted(x, disc, k) == disc * Discounted(x, disc, k - 1)
  {
    assert Pow(disc, k) == disc * Pow(disc, k - 1);
  }

  /** The price reached from s by the moves of `path`, true for up. */
  function PathPrice(s: real, u: real, d: real, path: seq<bool>): real
    decreases |path|
  {
    if path == [] then s
    else if path[0] then PathPrice(s * u, u, d, path[1..])
    else PathPrice(s * d, u, d, path[1..])
  }

  /** The number of up moves in a path. */
  function Ups(path: seq<bool>): (k: nat)
    ensures k <= |path|
  {
    if path == [] then 0 else (if path[0] then 1 else 0) + Ups(path[1..])
  }

  /** A path's end price depends only on how many up and down moves it makes. */
  lemma {:induction false} PathPriceByMoves(s: real, u: real, d: real, path: seq<bool>)
    ensures PathPrice(s, u, d, path) == s * Pow(u, Ups(path)) * Pow(d, |path| - Ups(path))
    decreases |path|
  {
    if path != [] {
      var tail := path[1..];
      var a, b := Ups(tail), |tail| - Ups(tail);
      if path[0] {
        PathPriceByMoves(s * u, u, d, tail);
        assert Ups(path) == a + 1 && |path| - Ups(path) == b;
        calc {
          PathPrice(s, u, d, path);
          PathPrice(s * u, u, d, tail);
          (s * u) * Pow(u, a) * Pow(d, b);
          { MoveIntoFirst(s, u, Pow(u, a), Pow(d, b)); }
          s * (u * Pow(u, a)) * Pow(d, b);
          s * Pow(u, a + 1) * Pow(d, b);
        }
      } else {
        PathPriceByMoves(s * d, u, d, tail);
        assert Ups(path) == a && |path| - Ups(path) == b + 1;
        calc {
          PathPrice(s, u, d, path);
          PathPrice(s * d, u, d, tail);
          (s * d) * Pow(u, a) * Pow(d, b);
          { MoveIntoSecond(s, d, Pow(u, a), Pow(d, b)); }
          s * Pow(u, a) * (d * Pow(d, b));
          s * Pow(u, a) * Pow(d, b + 1);
        }
      }
    }
  }

  lemma MoveIntoFirst(s: real, x: real, a: real, b: real)
    ensures (s * x) * a * b == s * (x * a) * b
  {
  }

  lemma MoveIntoSecond(s: real, x: real, a: real, b: real)
    ensures (s * x) * a * b == s * a * (x * b)
  {
  }

  /** The lattice recombines: two paths of the same length with the same
      number of up moves end at the same price, whatever their order. */
  lemma Recombines(s: real, u: real, d: real, path1: seq<bool>, path2: seq<bool>)
    requires |path1| == |path2| && Ups(path1) == Ups(path2)
    ensures PathPrice(s, u, d, path1) == PathPrice(s, u, d, path2)
  {
    PathPriceByMoves(s, u, d, path1);
    PathPriceByMoves(s, u, d, path2);
  }

  /** With d = 1/u, an up move followed by a down move, or the reverse,
      returns to the starting price. */
  lemma UpDownReturns(s: real, u: real)
    requires u > 0.0
    ensures PathPrice(s, u, 1.0 / u, [true, false]) == s
    ensures PathPrice(s, u, 1.0 / u, [false, true]) == s
  {
    var d := 1.0 / u;
    assert u * d == 1.0;
    assert [true, false][1..] == [false] && [false, true][1..] == [true];
    assert PathPrice(s, u, d, [true, false]) == (s * u) * d;
    assert PathPrice(s, u, d, [false, true]) == (s * d) * u;
  }
}
