/** The closed form of backward induction: the lattice price is the payoffs
    at maturity weighted by the binomial probabilities of reaching each node,
    discounted over N steps. Each backward step combines neighbouring values
    with weights p and 1 - p; k steps therefore apply a row of k + 1 weights
    built by Pascal's rule, which is disc^k times C(k, i) p^(k-i) (1-p)^i. */
module ClosedForm {
  import opened RealArith
  import opened Lattice
  import opened BinomialTree

  /** The weighted sum of the first |w| entries of v. */
  function Dot(w: seq<real>, v: seq<real>): real
    requires |w| <= |v|
    decreases |w|
  {
    if w == [] then 0.0 else w[0] * v[0] + Dot(w[1..], v[1..])
  }

  /** One backward step applied entrywise to two aligned rows. */
  function Combine(a: seq<real>, b: seq<real>, p: real, disc: real): (c: seq<real>)
    requires |a| == |b|
    ensures |c| == |a|
  {
    seq(|a|, i requires 0 <= i < |a| => OneStep(p, disc, a[i], b[i]))
  }

  /** The weights of k + 1 steps from those of k: node i is reached by an
      up move from node i or a down move from node i - 1. */
  function NextRow(row: seq<real>, p: real, disc: real): (next: seq<real>)
    ensures |next| == |row| + 1
  {
    Combine(row + [0.0], [0.0] + row, p, disc)
  }

  /** The weights that k backward steps put on the k + 1 values they read. */
  function DiscountedRow(k: nat, p: real, disc: real): (row: seq<real>)
    ensures |row| == k + 1
  {
    if k == 0 then [1.0] else NextRow(DiscountedRow(k - 1, p, disc), p, disc)
  }

  /** Weighting commutes with one backward step. */
  lemma {:induction false} DotCombine(a: seq<real>, b: seq<real>, p: real, disc: real, v: seq<real>, x: real, y: real)
    requires |a| == |b| <= |v| && x == Dot(a, v) && y == Dot(b, v)
    ensures Dot(Combine(a, b, p, disc), v) == OneStep(p, disc, x, y)
    decreases |a|
  {
    if a != [] {
      var x', y' := Dot(a[1..], v[1..]), Dot(b[1..], v[1..]);
      var c, rest := Combine(a, b, p, disc), Combine(a[1..], b[1..], p, disc);
      DotCombine(a[1..], b[1..], p, disc, v[1..], x', y');
      CombineTail(a, b, p, disc);
      CombineAlgebra(Dot(c, v), c[0], Dot(rest, v[1..]), a[0], b[0], v[0], x', y', x, y, p, disc);
    }
  }

  /** Combining two rows starts with the combined heads and continues with
      the combined tails. */
  lemma CombineTail(a: seq<real>, b: seq<real>, p: real, disc: real)
    requires |a| == |b| > 0
    ensures Combine(a, b, p, disc)[0] == OneStep(p, disc, a[0], b[0])
    ensures Combine(a, b, p, disc)[1..] == Combine(a[1..], b[1..], p, disc)
  {
    forall i | 0 <= i < |a| - 1
      ensures Combine(a, b, p, disc)[1..][i] == Combine(a[1..], b[1..], p, disc)[i]
    {
      assert a[1..][i] == a[i + 1] && b[1..][i] == b[i + 1];
    }
  }

  lemma CombineAlgebra(s: real, c0: real, rest: real, a0: real, b0: real, v0: real,
                       x': real, y': real, x: real, y: real, p: real, disc: real)
    requires s == c0 * v0 + rest && c0 == OneStep(p, disc, a0, b0)
    requires rest == OneStep(p, disc, x', y')
    requires x == a0 * v0 + x' && y == b0 * v0 + y'
    ensures s == OneStep(p, disc, x, y)
  {
  }

  lemma {:induction false} DotPad(a: seq<real>, v: seq<real>)
    requires |a| + 1 <= |v|
    ensures Dot(a + [0.0], v) == Dot(a, v)
    decreases |a|
  {
    if a == [] {
      assert Dot([0.0], v) == 0.0 * v[0] + Dot([], v[1..]);
    } else {
      DotPad(a[1..], v[1..]);
      assert (a + [0.0])[1..] == a[1..] + [0.0];
    }
  }

  lemma DotShift(a: seq<real>, v: seq<real>)
    requires |a| + 1 <= |v|
    ensures Dot([0.0] + a, v) == Dot(a, v[1..])
  {
    assert ([0.0] + a)[1..] == a;
  }

  /** Weighting by the next row is one backward step over two overlapping
      windows of v. */
  lemma DotNextRow(row: seq<real>, p: real, disc: real, v: seq<real>)
    requires |row| + 1 <= |v|
    ensures Dot(NextRow(row, p, disc), v) == OneStep(p, disc, Dot(row, v), Dot(row, v[1..]))
  {
    DotPad(row, v);
    DotShift(row, v);
    DotCombine(row + [0.0], [0.0] + row, p, disc, v, Dot(row, v), Dot(row, v[1..]));
  }

  /** k steps of backward induction weight the k + 1 values below node m by
      the discounted row. */
  lemma {:induction false} RollbackClosedForm(v: seq<real>, k: nat, p: real, disc: real, m: nat)
    requires m + k < |v|
    ensures Rollback(v, k, p, disc)[m] == Dot(DiscountedRow(k, p, disc), v[m..])
    decreases k
  {
    if k == 0 {
      assert Dot([1.0], v[m..]) == 1.0 * v[m..][0] + Dot([], v[m..][1..]);
    } else {
      RollbackClosedForm(v, k - 1, p, disc, m);
      RollbackClosedForm(v, k - 1, p, disc, m + 1);
      assert v[m..][1..] == v[m + 1..];
      DotNextRow(DiscountedRow(k - 1, p, disc), p, disc, v[m..]);
    }
  }

  /** The probability of reaching the node with i down moves after k steps:
      C(k, i) p^(k-i) (1-p)^i. */
  function Weight(k: nat, i: nat, p: real): real
    requires i <= k
  {
    (Binomial(k, i) as real) * Pow(p, k - i) * Pow(1.0 - p, i)
  }

  /** Pascal's rule for node probabilities. */
  lemma WeightPascal(k: nat, i: nat, p: real)
    requires 1 <= i < k
    ensures Weight(k, i, p) == OneStep(p, 1.0, Weight(k - 1, i, p), Weight(k - 1, i - 1, p))
  {
    var q := 1.0 - p;
    var b1, b2 := Binomial(k - 1, i - 1) as real, Binomial(k - 1, i) as real;
    var pp, qq := Pow(p, k - 1 - i), Pow(q, i - 1);
    assert Binomial(k, i) as real == b1 + b2;
    assert Pow(p, k - i) == p * pp;
    assert Pow(q, i) == q * qq;
    assert Pow(p, k - 1 - (i - 1)) == p * pp;
    PascalAlgebra(b1, b2, p, q, pp, qq);
  }

  /** The extreme nodes are reached by a single path each. */
  lemma WeightEdges(k: nat, p: real)
    requires k >= 1
    ensures Weight(k, 0, p) == OneStep(p, 1.0, Weight(k - 1, 0, p), 0.0)
    ensures Weight(k, k, p) == OneStep(p, 1.0, 0.0, Weight(k - 1, k - 1, p))
  {
    BinomialAll(k - 1);
    BinomialAll(k);
    assert Pow(1.0 - p, k) == (1.0 - p) * Pow(1.0 - p, k - 1);
    assert Pow(p, k) == p * Pow(p, k - 1);
  }

  lemma PascalAlgebra(b1: real, b2: real, p: real, q: real, pp: real, qq: real)
    ensures (b1 + b2) * (p * pp) * (q * qq) == p * (b2 * pp * (q * qq)) + q * (b1 * (p * pp) * qq)
  {
  }

  /** Without discounting, the row entries are the binomial node probabilities. */
  lemma {:induction false} RowEntry(k: nat, i: nat, p: real)
    requires i <= k
    ensures DiscountedRow(k, p, 1.0)[i] == Weight(k, i, p)
    decreases k
  {
    if k == 0 {
      assert Weight(0, 0, p) == 1.0;
    } else {
      var row := DiscountedRow(k - 1, p, 1.0);
      assert DiscountedRow(k, p, 1.0)[i] == OneStep(p, 1.0, (row + [0.0])[i], ([0.0] + row)[i]);
      if i == 0 {
        RowEntry(k - 1, 0, p);
        WeightEdges(k, p);
      } else if i == k {
        RowEntry(k - 1, k - 1, p);
        WeightEdges(k, p);
      } else {
        RowEntry(k - 1, i, p);
        RowEntry(k - 1, i - 1, p);
        WeightPascal(k, i, p);
      }
    }
  }

  /** Discounting commutes with one step of expectation. */
  lemma DiscountedOneStep(p: real, disc: real, k: nat, a: real, b: real)
    requires k >= 1
    ensures OneStep(p, disc, Discounted(a, disc, k - 1), Discounted(b, disc, k - 1))
         == Discounted(OneStep(p, 1.0, a, b), disc, k)
  {
    assert Pow(disc, k) == disc * Pow(disc, k - 1);
  }

  lemma NextRowEnds(row: seq<real>, p: real, disc: real)
    requires |row| >= 1
    ensures NextRow(row, p, disc)[0] == OneStep(p, disc, row[0], 0.0)
    ensures NextRow(row, p, disc)[|row|] == OneStep(p, disc, 0.0, row[|row| - 1])
  {
  }

  lemma NextRowInterior(row: seq<real>, p: real, disc: real, i: nat)
    requires 0 < i < |row|
    ensures NextRow(row, p, disc)[i] == OneStep(p, disc, row[i], row[i - 1])
  {
  }

  /** Discounting each step discounts the row reached in k steps by disc^k. */
  lemma {:induction false} DiscountedRowScales(k: nat, i: nat, p: real, disc: real)
    requires i <= k
    ensures DiscountedRow(k, p, disc)[i] == Discounted(DiscountedRow(k, p, 1.0)[i], disc, k)
    decreases k
  {
    if k == 0 {
      assert Pow(disc, 0) == 1.0;
    } else {
      var row, plain := DiscountedRow(k - 1, p, disc), DiscountedRow(k - 1, p, 1.0);
      NextRowEnds(row, p, disc);
      NextRowEnds(plain, p, 1.0);
      if i == 0 {
        DiscountedRowScales(k - 1, 0, p, disc);
        assert Discounted(0.0, disc, k - 1) == 0.0;
        DiscountedOneStep(p, disc, k, plain[0], 0.0);
        calc {
          DiscountedRow(k, p, disc)[i];
          OneStep(p, disc, row[0], 0.0);
          OneStep(p, disc, Discounted(plain[0], disc, k - 1), Discounted(0.0, disc, k - 1));
          Discounted(OneStep(p, 1.0, plain[0], 0.0), disc, k);
          Discounted(DiscountedRow(k, p, 1.0)[i], disc, k);
        }
      } else if i == k {
        DiscountedRowScales(k - 1, k - 1, p, disc);
        assert Discounted(0.0, disc, k - 1) == 0.0;
        DiscountedOneStep(p, disc, k, 0.0, plain[k - 1]);
        calc {
          DiscountedRow(k, p, disc)[i];
          OneStep(p, disc, 0.0, row[k - 1]);
          OneStep(p, disc, Discounted(0.0, disc, k - 1), Discounted(plain[k - 1], disc, k - 1));
          Discounted(OneStep(p, 1.0, 0.0, plain[k - 1]), disc, k);
          Discounted(DiscountedRow(k, p, 1.0)[i], disc, k);
        }
      } else {
        NextRowInterior(row, p, disc, i);
        NextRowInterior(plain, p, 1.0, i);
        DiscountedRowScales(k - 1, i, p, disc);
        DiscountedRowScales(k - 1, i - 1, p, disc);
        DiscountedOneStep(p, disc, k, plain[i], plain[i - 1]);
        calc {
          DiscountedRow(k, p, disc)[i];
          OneStep(p, disc, row[i], row[i - 1]);
          OneStep(p, disc, Discounted(plain[i], disc, k - 1), Discounted(plain[i - 1], disc, k - 1));
          Discounted(OneStep(p, 1.0, plain[i], plain[i - 1]), disc, k);
          Discounted(DiscountedRow(k, p, 1.0)[i], disc, k);
        }
      }
    }
  }

  /** The discounted row holds disc^k times the binomial node probabilities. */
  lemma DiscountedRowEntry(k: nat, i: nat, p: real, disc: real)
    requires i <= k
    ensures DiscountedRow(k, p, disc)[i] == Discounted(Weight(k, i, p), disc, k)
  {
    DiscountedRowScales(k, i, p, disc);
    RowEntry(k, i, p);
  }

  /** With no discounting, a constant value rolls back to itself. */
  lemma {:induction false} RollbackConstant(v: seq<real>, c: real, k: nat, p: real)
    requires k < |v| && forall i :: 0 <= i < |v| ==> v[i] == c
    ensures forall i :: 0 <= i < |v| - k ==> Rollback(v, k, p, 1.0)[i] == c
    decreases k
  {
    if k > 0 {
      RollbackConstant(v, c, k - 1, p);
      var prev := Rollback(v, k - 1, p, 1.0);
      forall i | 0 <= i < |v| - k
        ensures Rollback(v, k, p, 1.0)[i] == c
      {
        assert Rollback(v, k, p, 1.0)[i] == OneStep(p, 1.0, prev[i], prev[i + 1]);
      }
    }
  }

  /** The node probabilities after k steps sum to one. */
  lemma WeightsSumToOne(k: nat, p: real)
    ensures Dot(DiscountedRow(k, p, 1.0), seq(k + 1, _ => 1.0)) == 1.0
  {
    var ones := seq(k + 1, _ => 1.0);
    RollbackConstant(ones, 1.0, k, p);
    RollbackClosedForm(ones, k, p, 1.0, 0);
    assert ones[0..] == ones;
  }

  /** The lattice price is the risk-neutral expectation of the payoff at
      maturity, discounted over N steps: node i, with i down moves, carries
      weight disc^N C(N, i) p^(N-i) (1-p)^i. */
  lemma BinomialPriceClosedForm(s0: real, strike: real, n: nat, u: real, g: real, disc: real)
    requires n >= 1 && u > 1.0
    ensures var p := RiskNeutralProb(u, 1.0 / u, g);
            && BinomialPrice(s0, strike, n, u, g, disc)
               == Dot(DiscountedRow(n, p, disc), Payoffs(TerminalPrices(s0, u, 1.0 / u, n), strike))
            && forall i :: 0 <= i <= n ==> DiscountedRow(n, p, disc)[i] == Discounted(Weight(n, i, p), disc, n)
  {
    var p := RiskNeutralProb(u, 1.0 / u, g);
    var payoffs := Payoffs(TerminalPrices(s0, u, 1.0 / u, n), strike);
    RollbackClosedForm(payoffs, n, p, disc, 0);
    assert payoffs[0..] == payoffs;
    forall i | 0 <= i <= n
      ensures DiscountedRow(n, p, disc)[i] == Discounted(Weight(n, i, p), disc, n)
    {
      DiscountedRowEntry(n, i, p, disc);
    }
  }
}
