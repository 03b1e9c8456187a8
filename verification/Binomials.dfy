/** Binomial coefficients: the expansion of (1 + n)^i, and why they respect congruences. */
module Binomials {
  import opened Arith
  import opened Crt

  function Binom(x: nat, k: nat): nat {
    if k == 0 then 1
    else if x == 0 then 0
    else Binom(x - 1, k - 1) + Binom(x - 1, k)
  }

  function Factorial(k: nat): (r: nat)
    ensures r >= 1
  {
    if k == 0 then 1 else k * Factorial(k - 1)
  }

  /** x * (x - 1) * ... * (x - k + 1). */
  function Falling(x: int, k: nat): int
    decreases k
  {
    if k == 0 then 1 else x * Falling(x - 1, k - 1)
  }

  lemma PascalRule(x: nat, k: nat)
    requires x >= 1 && k >= 1
    ensures Binom(x, k) == Binom(x - 1, k - 1) + Binom(x - 1, k)
  {
  }

  lemma BinomZero(x: nat)
    ensures Binom(x, 0) == 1
  {
  }

  /** k * C(x, k) == x * C(x - 1, k - 1). */
  lemma {:induction false} Absorption(x: nat, k: nat)
    requires x >= 1 && k >= 1
    ensures k * Binom(x, k) == x * Binom(x - 1, k - 1)
  {
    if x == 1 {
      assert Binom(0, k - 1) == if k == 1 then 1 else 0;
    } else {
      hide Binom;
      var a, b, c := Binom(x - 1, k - 1), Binom(x - 1, k), Binom(x - 2, k - 1);
      PascalRule(x, k);
      Absorption(x - 1, k);
      if k == 1 {
        BinomZero(x - 1);
        BinomZero(x - 2);
        AbsorptionStep(x, k, a, b, c, 0);
      } else {
        Absorption(x - 1, k - 1);
        PascalRule(x - 1, k - 1);
        AbsorptionStep(x, k, a, b, c, Binom(x - 2, k - 2));
      }
    }
  }

  lemma AbsorptionStep(x: int, k: int, a: int, b: int, c: int, d: int)
    requires k * b == (x - 1) * c && (k - 1) * a == (x - 1) * d && a == d + c
    ensures k * (a + b) == x * a
  {
    Distribute(x - 1, d, c);
    assert k * a == (k - 1) * a + a;
    assert x * a == (x - 1) * a + a;
  }

  /** k! * C(x, k) == x * (x - 1) * ... * (x - k + 1). */
  lemma {:induction false} BinomFalling(x: nat, k: nat)
    ensures Factorial(k) * Binom(x, k) == Falling(x, k)
    decreases k
  {
    if k > 0 {
      if x == 0 {
        assert Falling(0, k) == 0 * Falling(-1, k - 1);
      } else {
        BinomFalling(x - 1, k - 1);
        Absorption(x, k);
        var f, b := Factorial(k - 1), Binom(x, k);
        Associate(f, k, b);
        Associate(f, x, Binom(x - 1, k - 1));
      }
    }
  }

  lemma {:induction false} FallingCong(x: int, y: int, k: nat, m: int)
    requires m > 0 && Cong(x, y, m)
    ensures Cong(Falling(x, k), Falling(y, k), m)
    decreases k
  {
    if k > 0 {
      CongSub(x, y, 1, 1, m);
      FallingCong(x - 1, y - 1, k - 1, m);
      CongMul(x, y, Falling(x - 1, k - 1), Falling(y - 1, k - 1), m);
    }
  }

  /** Where k! is invertible, binomials of congruent numbers are congruent. */
  lemma BinomCong(x: nat, y: nat, k: nat, m: int)
    requires m > 0 && Cong(x, y, m) && Invertible(Factorial(k), m)
    ensures Cong(Binom(x, k), Binom(y, k), m)
  {
    BinomFalling(x, k);
    BinomFalling(y, k);
    FallingCong(x, y, k, m);
    var u :| Cong(Factorial(k) * u, 1, m);
    CongCancel(Factorial(k), u, Binom(x, k), Binom(y, k), m);
  }

  // ------------------------------------------------------ the binomial theorem

  /** The sum of C(i, k) * n^k for k up to j. */
  function BinomialSum(i: nat, n: int, j: nat): int {
    if j == 0 then 1 else BinomialSum(i, n, j - 1) + Binom(i, j) * Pow(n, j)
  }

  lemma {:induction false} SumStep(i: nat, n: int, j: nat)
    ensures BinomialSum(i + 1, n, j) + Binom(i, j) * Pow(n, j + 1) == (1 + n) * BinomialSum(i, n, j)
  {
    if j == 0 {
      assert Pow(n, 1) == n * Pow(n, 0);
    } else {
      SumStep(i, n, j - 1);
      SumAlgebra(n, BinomialSum(i, n, j - 1), BinomialSum(i + 1, n, j - 1), Binom(i, j - 1), Binom(i, j), Pow(n, j));
      assert Pow(n, j + 1) == n * Pow(n, j);
    }
  }

  lemma SumAlgebra(n: int, S: int, S': int, a: int, b: int, P: int)
    requires S' + a * P == (1 + n) * S
    ensures (S' + (a + b) * P) + b * (n * P) == (1 + n) * (S + b * P)
  {
    Associate(b, n, P);
    assert (a + b) * P == a * P + b * P;
    assert (1 + n) * (b * P) == b * P + n * (b * P);
    Distribute(1 + n, S, b * P);
  }

  /** (1 + n)^i modulo n^(j+1) is given by its first j + 1 terms. */
  lemma {:induction false} BinomialTheorem(i: nat, n: int, j: nat)
    requires n > 0 && Pow(n, j + 1) > 0
    ensures Cong(Pow(1 + n, i), BinomialSum(i, n, j), Pow(n, j + 1))
  {
    if i == 0 {
      ZeroSum(n, j);
    } else {
      BinomialTheorem(i - 1, n, j);
      SumStep(i - 1, n, j);
      var M := Pow(n, j + 1);
      CongScale(Pow(1 + n, i - 1), BinomialSum(i - 1, n, j), 1 + n, M);
      CongByMultiple((1 + n) * BinomialSum(i - 1, n, j), BinomialSum(i, n, j), Binom(i - 1, j), M);
    }
  }

  lemma {:induction false} ZeroSum(n: int, j: nat)
    ensures BinomialSum(0, n, j) == 1
  {
    if j > 0 { ZeroSum(n, j - 1); }
  }

  /** The sum of C(i, k) * n^(k-1) for k from 1 to j. */
  function TailSum(i: nat, n: int, j: nat): int {
    if j == 0 then 0 else TailSum(i, n, j - 1) + Binom(i, j) * Pow(n, j - 1)
  }

  lemma {:induction false} SumTail(i: nat, n: int, j: nat)
    ensures BinomialSum(i, n, j) == 1 + n * TailSum(i, n, j)
  {
    if j > 0 {
      SumTail(i, n, j - 1);
      Distribute(n, TailSum(i, n, j - 1), Binom(i, j) * Pow(n, j - 1));
      Associate(n, Binom(i, j), Pow(n, j - 1));
    }
  }
}
