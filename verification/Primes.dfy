/** Fermat's little theorem, from the binomial coefficients of a prime. */
module Primes {
  import opened Arith
  import opened Crt
  import opened Binomials

  ghost predicate Divides(d: int, x: int) {
    exists k :: x == d * k
  }

  ghost predicate Prime(p: int) {
    p > 1 && forall d :: 1 < d < p ==> !Divides(d, p)
  }

  /** The greatest common divisor, by Euclid's algorithm. */
  function Gcd(a: nat, b: nat): (g: nat)
    requires a > 0
    ensures 0 < g <= a && Divides(g, a) && Divides(g, b)
    decreases a
  {
    if b % a == 0 then
      assert b == a * (b / a) by { DivModEq(b, a); }
      assert a == a * 1;
      a
    else
      var r := b % a;
      DivModEq(b, a);
      var g := Gcd(r, a);
      CommonDivisor(g, r, a, b / a, b);
      g
  }

  lemma CommonDivisor(g: nat, r: nat, a: nat, q: int, b: nat)
    requires Divides(g, r) && Divides(g, a) && b == q * a + r
    ensures Divides(g, b)
  {
    var k :| r == g * k;
    var l :| a == g * l;
    Associate(q, g, l);
    assert b == g * (q * l + k);
  }

  /** Bezout: the greatest common divisor is a combination. */
  lemma {:induction false} Bezout(a: nat, b: nat) returns (u: int, v: int)
    requires a > 0
    ensures u * a + v * b == Gcd(a, b)
    decreases a
  {
    if b % a == 0 {
      u, v := 1, 0;
    } else {
      var q, r := b / a, b % a;
      DivModEq(b, a);
      var u', v' := Bezout(r, a);
      u, v := v' - u' * q, u';
      BezoutStep(a, b, q, r, u', v');
    }
  }

  lemma BezoutStep(a: int, b: int, q: int, r: int, u: int, v: int)
    requires b == q * a + r
    ensures (v - u * q) * a + u * b == u * r + v * a
  {
    assert u * b == u * (q * a) + u * r;
    assert u * (q * a) == (u * q) * a;
  }

  /** Below a prime, every positive number is invertible. */
  lemma PrimeInvertible(p: int, k: int)
    requires Prime(p) && 0 < k < p
    ensures Invertible(k, p)
  {
    var u, v := Bezout(k, p);
    assert Gcd(k, p) == 1;
    CongByMultiple(k * u, 1, -v, p);
  }

  lemma InvertibleCong(a: int, b: int, m: int)
    requires m > 0 && Invertible(a, m) && Cong(a, b, m)
    ensures Invertible(b, m)
  {
    var u :| Cong(a * u, 1, m);
    CongScale(a, b, u, m);
    assert Cong(b * u, 1, m);
  }

  /** A number that the prime does not divide is invertible. */
  lemma NotDivisibleInvertible(p: int, a: int)
    requires Prime(p) && a % p != 0
    ensures Invertible(a, p)
  {
    DivModEq(a, p);
    PrimeInvertible(p, a % p);
    CongMod(a, p);
    InvertibleCong(a % p, a, p);
  }

  lemma MultipleVanishes(k: int, b: int, p: int, c: int)
    requires p > 0 && k * b == p * c
    ensures Cong(k * b, k * 0, p)
  {
    CongByMultiple(k * b, k * 0, c, p);
  }

  /** p divides C(p, k) for 0 < k < p. */
  lemma PrimeBinom(p: int, k: nat)
    requires Prime(p) && 0 < k < p
    ensures Cong(Binom(p, k), 0, p)
  {
    Absorption(p, k);
    PrimeInvertible(p, k);
    var u :| Cong(k * u, 1, p);
    hide Binom, Cong;
    var b := Binom(p, k);
    MultipleVanishes(k, b, p, Binom(p - 1, k - 1));
    CongCancel(k, u, b, 0, p);
  }

  lemma {:induction false} BinomFull(x: nat, k: nat)
    requires k >= x
    ensures Binom(x, k) == if k == x then 1 else 0
  {
    if x > 0 {
      BinomFull(x - 1, k - 1);
      BinomFull(x - 1, k);
    }
  }

  /** The full expansion: (1 + a)^x is the sum over all k up to x. */
  lemma {:induction false} FullExpansion(x: nat, a: int)
    ensures Pow(1 + a, x) == BinomialSum(x, a, x)
  {
    if x > 0 {
      FullExpansion(x - 1, a);
      SumStep(x - 1, a, x - 1);
      BinomFull(x - 1, x - 1);
      BinomFull(x, x);
    }
  }

  lemma {:induction false} PrimeSum(p: int, a: int, j: nat)
    requires Prime(p) && j < p
    ensures Cong(BinomialSum(p, a, j), 1, p)
  {
    if j > 0 {
      PrimeSum(p, a, j - 1);
      PrimeBinom(p, j);
      CongScale(Binom(p, j), 0, Pow(a, j), p);
      CongAdd(BinomialSum(p, a, j - 1), 1, Binom(p, j) * Pow(a, j), 0 * Pow(a, j), p);
    }
  }

  /** a^p is congruent to a. */
  lemma {:induction false} FermatPower(p: int, a: nat)
    requires Prime(p)
    ensures Cong(Pow(a, p), a, p)
  {
    if a == 0 {
      assert Pow(0, p) == 0 * Pow(0, p - 1);
    } else {
      FermatPower(p, a - 1);
      FullExpansion(p, a - 1);
      PrimeSum(p, a - 1, p - 1);
      BinomFull(p, p);
      CongAdd(BinomialSum(p, a - 1, p - 1), 1, Pow(a - 1, p), a - 1, p);
    }
  }

  /** Fermat's little theorem. */
  lemma Fermat(p: int, a: nat)
    requires Prime(p) && Invertible(a, p)
    ensures Cong(Pow(a, p - 1), 1, p)
  {
    FermatPower(p, a);
    var u :| Cong(a * u, 1, p);
    assert Pow(a, p) == a * Pow(a, p - 1) && a * 1 == a;
    CongCancel(a, u, Pow(a, p - 1), 1, p);
  }
}
