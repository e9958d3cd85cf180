/** Exact arithmetic the lattice needs: integer powers of reals (the `**`
    operator applied to the up and down factors) and binomial coefficients
    (the path counts behind the closed form of backward induction). */
module RealArith {

  /** x raised to the natural power k. */
  function Pow(x: real, k: nat): real
  {
    if k == 0 then 1.0 else x * Pow(x, k - 1)
  }

  lemma {:induction false} PowPositive(x: real, k: nat)
    requires x > 0.0
    ensures Pow(x, k) > 0.0
  {
    if k > 0 {
      PowPositive(x, k - 1);
    }
  }

  lemma {:induction false} PowNonNegative(x: real, k: nat)
    requires x >= 0.0
    ensures Pow(x, k) >= 0.0
  {
    if k > 0 {
      PowNonNegative(x, k - 1);
    }
  }

  /** Powers add exponents. */
  lemma {:induction false} PowAdd(x: real, a: nat, b: nat)
    ensures Pow(x, a + b) == Pow(x, a) * Pow(x, b)
  {
    if a > 0 {
      PowAdd(x, a - 1, b);
      assert Pow(x, a + b) == x * Pow(x, a - 1 + b);
    }
  }

  /** Powers of a product are products of powers. */
  lemma {:induction false} PowMul(x: real, y: real, k: nat)
    ensures Pow(x * y, k) == Pow(x, k) * Pow(y, k)
  {
    if k > 0 {
      PowMul(x, y, k - 1);
      assert Pow(x * y, k) == (x * y) * (Pow(x, k - 1) * Pow(y, k - 1));
    }
  }

  /** The number of ways to choose k of n items (0 when k > n). */
  function Binomial(n: nat, k: nat): nat
  {
    if k == 0 then 1
    else if n == 0 then 0
    else Binomial(n - 1, k - 1) + Binomial(n - 1, k)
  }

  /** Choosing more items than there are has no way. */
  lemma {:induction false} BinomialAbove(n: nat, k: nat)
    requires k > n
    ensures Binomial(n, k) == 0
  {
    if n > 0 {
      BinomialAbove(n - 1, k - 1);
      BinomialAbove(n - 1, k);
    }
  }

  /** Choosing all items has exactly one way. */
  lemma {:induction false} BinomialAll(n: nat)
    ensures Binomial(n, n) == 1
  {
    if n > 0 {
      BinomialAll(n - 1);
      BinomialAbove(n - 1, n);
    }
  }

  /** A product is zero only when a factor is. */
  lemma CancelFactor(x: real, y: real)
    requires x * y == 0.0 && y != 0.0
    ensures x == 0.0
  {
  }

  lemma QuotientPositive(x: real, y: real)
    requires y > 0.0
    ensures x > 0.0 ==> x / y > 0.0
  {
  }

  /** A sequence that drops at every position drops between any two. */
  lemma {:induction false} StrictlyDecreasingFromAdjacent(s: seq<real>)
    requires forall i :: 0 <= i < |s| - 1 ==> s[i] > s[i + 1]
    ensures forall i, j :: 0 <= i < j < |s| ==> s[i] > s[j]
  {
    if |s| > 1 {
      StrictlyDecreasingFromAdjacent(s[1..]);
      forall i, j | 0 <= i < j < |s|
        ensures s[i] > s[j]
      {
        if i > 0 {
          assert s[i] == s[1..][i - 1] && s[j] == s[1..][j - 1];
        } else if j > 1 {
          assert s[1] == s[1..][0] && s[j] == s[1..][j - 1];
        }
      }
    }
  }
}
