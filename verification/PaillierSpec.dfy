/** The algebra of Damgard-Jurik encryption: powers modulo n^(s+1), and how the exponent of 1 + n
    is recovered from them. */
module PaillierSpec {
  import opened Arith
  import opened Crt
  import opened Binomials

  // --------------------------------------------------------- powers of n

  lemma {:induction false} PowSplit(n: int, a: nat, b: nat)
    requires n > 0
    ensures Pow(n, a + b) == Pow(n, a) * Pow(n, b) && Pow(n, a) > 0 && Pow(n, b) > 0 && Pow(n, a + b) > 0
  {
    PowAdd(n, a, b);
    PowPositive(n, a);
    PowPositive(n, b);
    PowPositive(n, a + b);
  }

  /** A congruence modulo a power holds modulo smaller powers. */
  lemma CongSmaller(x: int, y: int, n: int, a: nat, b: nat)
    requires n > 0 && a <= b && Pow(n, b) > 0 && Pow(n, a) > 0 && Cong(x, y, Pow(n, b))
    ensures Cong(x, y, Pow(n, a))
  {
    PowSplit(n, a, b - a);
    CongFactor(x, y, Pow(n, a), Pow(n, b - a));
  }

  /** An inverse modulo n gives one modulo every power of n. */
  lemma {:induction false} InvertiblePower(a: int, n: int, t: nat)
    requires n > 0 && Invertible(a, n) && Pow(n, t) > 0
    ensures Invertible(a, Pow(n, t))
  {
    if t == 0 {
      assert Cong(a * 0, 1, 1) by { CongByMultiple(a * 0, 1, -1, 1); }
    } else {
      PowSplit(n, t - 1, 1);
      InvertiblePower(a, n, t - 1);
      var u :| Cong(a * u, 1, n);
      var w :| Cong(a * w, 1, Pow(n, t - 1));
      var k := CongMultiple(a * u, 1, n);
      var l := CongMultiple(a * w, 1, Pow(n, t - 1));
      var z := u + w - a * (u * w);
      InverseProduct(a, u, w, k * n, l * Pow(n, t - 1));
      MulSwap(k, n, l, Pow(n, t - 1));
      assert Pow(n, t) == n * Pow(n, t - 1);
      CongByMultiple(a * z, 1, -(k * l), Pow(n, t));
    }
  }

  lemma InverseProduct(a: int, u: int, w: int, e: int, f: int)
    requires a * u == 1 + e && a * w == 1 + f
    ensures a * (u + w - a * (u * w)) == 1 - e * f
  {
    assert a * (u * w) == (a * u) * w;
    assert a * ((a * u) * w) == (a * u) * (a * w);
    assert (1 + e) * (1 + f) == 1 + e + f + e * f;
    assert a * (u + w - a * (u * w)) == a * u + a * w - a * (a * (u * w));
  }

  /** (1 + y)^e is 1 + e*y modulo y^2. */
  lemma {:induction false} LinearPower(y: int, e: nat) returns (k: int)
    ensures Pow(1 + y, e) == 1 + e * y + k * (y * y)
  {
    if e == 0 {
      k := 0;
    } else {
      var l := LinearPower(y, e - 1);
      k := l + l * y + (e - 1);
      LinearStep(y, e, l);
    }
  }

  lemma LinearStep(y: int, e: int, l: int)
    ensures (1 + y) * (1 + (e - 1) * y + l * (y * y)) == 1 + e * y + (l + l * y + (e - 1)) * (y * y)
  {
    var q := y * y;
    assert (1 + y) * (1 + (e - 1) * y + l * q) == (1 + (e - 1) * y + l * q) + y * (1 + (e - 1) * y + l * q);
    assert y * (1 + (e - 1) * y + l * q) == y + y * ((e - 1) * y) + y * (l * q);
    assert y * ((e - 1) * y) == (e - 1) * q;
    assert y * (l * q) == (l * y) * q;
    assert (l + l * y + (e - 1)) * q == l * q + (l * y) * q + (e - 1) * q;
    assert e * y == (e - 1) * y + y;
  }

  /** Raising to the n-th power turns a congruence to 1 modulo n^t into one modulo n^(t+1). */
  lemma LiftOne(x: int, n: int, t: nat)
    requires n > 0 && t >= 1 && Pow(n, t) > 0 && Pow(n, t + 1) > 0 && Cong(x, 1, Pow(n, t))
    ensures Cong(Pow(x, n), 1, Pow(n, t + 1))
  {
    var N := Pow(n, t);
    var u := CongMultiple(x, 1, N);
    var y := u * N;
    var k := LinearPower(y, n);
    assert Pow(n, t + 1) == n * N;
    PowSplit(n, t - 1, 1);
    var M := Pow(n, t - 1);
    assert N == M * n by { assert Pow(n, 1) == n * Pow(n, 0); }
    LiftAlgebra(n, N, M, u, k);
    CongByMultiple(Pow(x, n), 1, u + k * ((u * u) * M), n * N);
  }

  lemma LiftAlgebra(n: int, N: int, M: int, u: int, k: int)
    requires N == M * n
    ensures 1 + n * (u * N) + k * ((u * N) * (u * N)) == 1 + (u + k * ((u * u) * M)) * (n * N)
  {
    Associate(n, u, N);
    MulSwap(u, N, u, N);
    assert N * N == M * (n * N) by { Associate(M, n, N); }
    Associate(u * u, M, n * N);
    Associate(k, (u * u) * M, n * N);
    assert (u + k * ((u * u) * M)) * (n * N) == u * (n * N) + (k * ((u * u) * M)) * (n * N);
  }

  /** x = 1 modulo n implies x^(n^s) = 1 modulo n^(s+1). */
  lemma {:induction false} OnePower(x: int, n: int, s: nat)
    requires n > 0 && Cong(x, 1, n) && Pow(n, s) > 0 && Pow(n, s + 1) > 0
    ensures Cong(Pow(x, Pow(n, s)), 1, Pow(n, s + 1))
  {
    assert Pow(n, 1) == n * Pow(n, 0);
    if s == 0 {
      assert Pow(x, 1) == x * Pow(x, 0);
    } else {
      PowSplit(n, s - 1, 1);
      OnePower(x, n, s - 1);
      LiftOne(Pow(x, Pow(n, s - 1)), n, s);
      PowMul(x, Pow(n, s - 1), n);
      assert Pow(n, s) == n * Pow(n, s - 1);
    }
  }

  // ------------------------------------------------------------- extraction

  /** Dividing (A mod n^(j+1)) - 1 by n, for A = 1 + n*T. */
  lemma QuotientOfOne(A: int, T: int, n: int, j: nat)
    requires n > 1 && Pow(n, j) > 0 && Pow(n, j + 1) > 0 && Cong(A, 1 + n * T, Pow(n, j + 1))
    ensures var a := A % Pow(n, j + 1); a >= 1 && (a - 1) % n == 0 && Cong((a - 1) / n, T, Pow(n, j))
  {
    var M := Pow(n, j);
    assert Pow(n, j + 1) == n * M;
    var a := A % (n * M);
    CongMod(A, n * M);
    var q := CongMultiple(a, 1 + n * T, n * M);
    Associate(q, n, M);
    Distribute(n, T, q * M);
    assert a - 1 == (T + q * M) * n;
    DivModUnique(a - 1, T + q * M, 0, n);
    CongByMultiple(T + q * M, T, q, M);
    if a == 0 { DivModUnique(-1, -1, n - 1, n); }
  }

  /** The term that dec subtracts only depends on the part of the exponent known so far. */
  lemma TermCong(i: nat, x: nat, k: nat, j: nat, n: int)
    requires n > 0 && 2 <= k <= j && Invertible(Factorial(k), n)
    requires Pow(n, j - 1) > 0 && Pow(n, j) > 0 && Cong(x, i, Pow(n, j - 1))
    ensures Cong(Binom(x, k) * Pow(n, k - 1), Binom(i, k) * Pow(n, k - 1), Pow(n, j))
  {
    hide Binom, Factorial;
    var M := Pow(n, j - 1);
    InvertiblePower(Factorial(k), n, j - 1);
    BinomCong(x, i, k, M);
    assert Pow(n, j) == n * M;
    CongScaleModulus(Binom(x, k), Binom(i, k), n, M);
    CongScale(n * Binom(x, k), n * Binom(i, k), Pow(n, k - 2), n * M);
    assert Pow(n, k - 1) == n * Pow(n, k - 2);
    Associate(Binom(x, k), n, Pow(n, k - 2));
    Associate(Binom(i, k), n, Pow(n, k - 2));
    Associate(Pow(n, k - 2), n, Binom(x, k));
    Associate(Pow(n, k - 2), n, Binom(i, k));
  }

  lemma TailOne(i: nat, n: int)
    ensures TailSum(i, n, 1) == i
  {
    BinomOne(i);
    assert Pow(n, 0) == 1;
    assert TailSum(i, n, 0) == 0;
  }

  lemma {:induction false} BinomOne(i: nat)
    ensures Binom(i, 1) == i
  {
    if i > 0 { BinomOne(i - 1); }
  }

  /** Modulo n, only the first term counts. */
  lemma {:induction false} TailModulo(i: nat, n: int, j: nat)
    requires n > 0 && j >= 1
    ensures Cong(TailSum(i, n, j), i, n)
  {
    if j == 1 {
      TailOne(i, n);
    } else {
      hide Binom;
      TailModulo(i, n, j - 1);
      assert Pow(n, j - 1) == n * Pow(n, j - 2);
      Associate(Binom(i, j), n, Pow(n, j - 2));
      CongByMultiple(Binom(i, j) * Pow(n, j - 1), 0, Binom(i, j) * Pow(n, j - 2), n);
      CongAdd(TailSum(i, n, j - 1), i, Binom(i, j) * Pow(n, j - 1), 0, n);
    }
  }

  /** What a power of 1 + n looks like modulo n^(j+1). */
  lemma PowerTail(c: int, i: nat, n: int, s: nat, j: nat)
    requires n > 0 && j <= s && Pow(n, s + 1) > 0 && Pow(n, j + 1) > 0 && Cong(c, Pow(1 + n, i), Pow(n, s + 1))
    ensures Cong(c, 1 + n * TailSum(i, n, j), Pow(n, j + 1))
  {
    CongSmaller(c, Pow(1 + n, i), n, j + 1, s + 1);
    BinomialTheorem(i, n, j);
    SumTail(i, n, j);
  }
}
