/** Numbers just above one, raised to the n-th power again and again: for odd n each power moves
    the first digit that differs from one up by exactly one place. */
module Lifting {
  import opened Arith
  import opened PaillierSpec

  /** The number of pairs among e things. */
  function Pairs(e: nat): int {
    if e == 0 then 0 else Pairs(e - 1) + (e - 1)
  }

  lemma {:induction false} PairsTwice(e: nat)
    ensures 2 * Pairs(e) == e * (e - 1)
  {
    if e > 0 { PairsTwice(e - 1); }
  }

  /** An odd number divides the number of its pairs. */
  lemma PairsOdd(n: nat)
    requires n % 2 == 1
    ensures Pairs(n) == n * ((n - 1) / 2)
  {
    PairsTwice(n);
    var h := (n - 1) / 2;
    assert n - 1 == 2 * h;
    Associate(n, 2, h);
  }

  /** (1 + y)^e up to its quadratic term, modulo y^3. */
  lemma {:induction false} QuadraticPower(y: int, e: nat) returns (k: int)
    ensures Pow(1 + y, e) == 1 + e * y + Pairs(e) * (y * y) + k * ((y * y) * y)
  {
    if e == 0 {
      k := 0;
    } else {
      var l := QuadraticPower(y, e - 1);
      k := Pairs(e - 1) + l + l * y;
      QuadraticStep(y, e, Pairs(e - 1), l);
    }
  }

  lemma QuadraticStep(y: int, e: int, t: int, l: int)
    ensures (1 + y) * (1 + (e - 1) * y + t * (y * y) + l * ((y * y) * y))
         == 1 + e * y + (t + (e - 1)) * (y * y) + (t + l + l * y) * ((y * y) * y)
  {
    var q := y * y;
    var c := q * y;
    var a, b, d := (e - 1) * y, t * q, l * c;
    assert (1 + y) * (1 + a + b + d) == 1 + a + b + d + (y + y * a + y * b + y * d);
    assert y * a == (e - 1) * q;
    assert y * b == t * c;
    assert y * d == (l * y) * c;
    assert (t + (e - 1)) * q == t * q + (e - 1) * q;
    assert (t + l + l * y) * c == t * c + l * c + (l * y) * c;
    assert e * y == a + y;
  }

  lemma LinearTerm(n: int, N: int, u: int, j: int)
    ensures n * ((u + j * n) * N) == u * (n * N) + j * (n * (n * N))
  {
    var P := n * N;
    assert (u + j * n) * P == u * P + (j * n) * P;
    Associate(j, n, P);
    MulSwap(n, 1, u + j * n, N);
  }

  lemma QuadraticTerm(n: int, N: int, M: int, h: int, w: int)
    requires N == M * n
    ensures (n * h) * ((w * N) * (w * N)) == (h * (w * w) * M) * (n * (n * N))
  {
    Squared(n, N, M);
    MulSwap(w, N, w, N);
    Rearranged(n, h, w * w, N * N, M, n * (n * N));
  }

  lemma Squared(n: int, N: int, M: int)
    requires N == M * n
    ensures n * (N * N) == M * (n * (n * N))
  {
    var P := n * N;
    assert N * N == M * P by { Associate(M, n, N); }
    Associate(n, M, P);
    Associate(M, n, P);
  }

  lemma CubicTerm(n: int, N: int, M: int, k: int, w: int)
    requires N == M * n
    ensures k * (((w * N) * (w * N)) * (w * N)) == (k * (w * w * w) * (M * M)) * (n * (n * N))
  {
    Cubed(n, N, M);
    CubeOf(w, N);
    Regrouped(k, w * w * w, (N * N) * N, M * M, n * (n * N));
  }

  lemma Cubed(n: int, N: int, M: int)
    requires N == M * n
    ensures (N * N) * N == (M * M) * (n * (n * N))
  {
    var Q := n * (n * N);
    Squared(n, N, M);
    Associate(M, n, N * N);
    Associate(N, N, N);
    Associate(M, M, Q);
  }

  lemma Rearranged(n: int, h: int, v: int, z: int, M: int, Q: int)
    requires n * z == M * Q
    ensures (n * h) * (v * z) == (h * v * M) * Q
  {
    MulSwap(n, h, z, v);
    assert v * z == z * v;
    assert (M * Q) * (h * v) == (h * v) * (M * Q);
    Associate(h * v, M, Q);
  }

  lemma CubeOf(w: int, N: int)
    ensures ((w * N) * (w * N)) * (w * N) == (w * w * w) * ((N * N) * N)
  {
    MulSwap(w, N, w, N);
    MulSwap(w * w, N * N, w, N);
  }

  lemma Regrouped(k: int, v: int, z: int, m: int, Q: int)
    requires z == m * Q
    ensures k * (v * z) == (k * v * m) * Q
  {
    Associate(k, v, z);
    Associate(k * v, m, Q);
  }

  /** One n-th power, for odd n. */
  lemma LiftDigit(x: int, u: int, n: nat, k: nat)
    requires n % 2 == 1 && k >= 1 && Pow(n, k) > 0 && Pow(n, k + 1) > 0 && Pow(n, k + 2) > 0
    requires Cong(x, 1 + u * Pow(n, k), Pow(n, k + 1))
    ensures Cong(Pow(x, n), 1 + u * Pow(n, k + 1), Pow(n, k + 2))
  {
    hide Cong;
    var N, M := Pow(n, k), Pow(n, k - 1);
    PowerUnfold(n, k);
    PowerUnfold(n, k + 1);
    PowerUnfold(n, k + 2);
    var j := CongMultiple(x, 1 + u * N, n * N);
    var w := u + j * n;
    assert x == 1 + w * N by { Associate(j, n, N); assert w * N == u * N + (j * n) * N; }
    var y := w * N;
    var t := QuadraticPower(y, n);
    var h := (n - 1) / 2;
    PairsOdd(n);
    assert N == M * n;
    LinearTerm(n, N, u, j);
    QuadraticTerm(n, N, M, h, w);
    CubicTerm(n, N, M, t, w);
    Together(Pow(x, n), u * (n * N), j, h * (w * w) * M, t * (w * w * w) * (M * M), n * (n * N));
  }

  lemma Together(x: int, v: int, a: int, b: int, c: int, Q: int)
    requires Q > 0 && x == 1 + (v + a * Q) + b * Q + c * Q
    ensures Cong(x, 1 + v, Q)
  {
    assert (a + b + c) * Q == a * Q + b * Q + c * Q;
    CongByMultiple(x, 1 + v, a + b + c, Q);
  }

  lemma PowerUnfold(n: int, k: nat)
    requires k >= 1
    ensures Pow(n, k) == n * Pow(n, k - 1)
  {
  }

  /** x = 1 + u*n modulo n^2 implies x^(n^j) = 1 + u*n^(j+1) modulo n^(j+2). */
  lemma {:induction false} LiftDigits(x: int, u: int, n: nat, j: nat)
    requires n % 2 == 1 && Pow(n, 2) > 0 && Cong(x, 1 + u * n, Pow(n, 2))
    ensures Pow(n, j) > 0 && Pow(n, j + 2) > 0
    ensures Cong(Pow(x, Pow(n, j)), 1 + u * Pow(n, j + 1), Pow(n, j + 2))
  {
    hide Cong;
    PowPositive(n, j);
    PowPositive(n, j + 1);
    PowPositive(n, j + 2);
    PowerUnfold(n, 1);
    assert Pow(n, 0) == 1;
    if j == 0 {
      assert Pow(x, 1) == x by { PowerUnfold(x, 1); }
    } else {
      LiftDigits(x, u, n, j - 1);
      LiftDigit(Pow(x, Pow(n, j - 1)), u, n, j);
      PowMul(x, Pow(n, j - 1), n);
      PowerUnfold(n, j);
    }
  }

  /** (1 + n)^(e * n^(s-1)) is 1 + e*n^s modulo n^(s+1). */
  lemma GeneratorPower(n: nat, e: nat, s: nat)
    requires n % 2 == 1 && s >= 1
    ensures Pow(n, s - 1) > 0 && e * Pow(n, s - 1) >= 0 && Pow(n, s + 1) > 0
    ensures Cong(Pow(1 + n, e * Pow(n, s - 1)), 1 + e * Pow(n, s), Pow(n, s + 1))
  {
    hide Cong;
    PowPositive(n, 2);
    PowPositive(n, s - 1);
    var k := LinearPower(n, e);
    SquareOf(n);
    CongByMultiple(Pow(1 + n, e), 1 + e * n, k, n * n);
    LiftDigits(Pow(1 + n, e), e, n, s - 1);
    MulMono(0, e, Pow(n, s - 1));
    PowMul(1 + n, e, Pow(n, s - 1));
  }

  lemma SquareOf(n: int)
    ensures Pow(n, 2) == n * n
  {
    assert Pow(n, 1) == n * Pow(n, 0);
  }

  /** A multiple of n^a that vanishes modulo n^(a+1) has a factor that vanishes modulo n. */
  lemma DigitVanishes(e: int, n: nat, a: nat)
    requires n > 0 && Pow(n, a) > 0 && Pow(n, a + 1) > 0 && Cong(e * Pow(n, a), 0, Pow(n, a + 1))
    ensures Cong(e, 0, n)
  {
    var P := Pow(n, a);
    var k := CongMultiple(e * P, 0, n * P);
    Associate(k, n, P);
    FactorOut(e, k * n, P);
    CongByMultiple(e, 0, k, n);
  }

  lemma FactorOut(a: int, b: int, P: int)
    requires P > 0 && a * P == b * P
    ensures a == b
  {
    if a < b { MulMono(a + 1, b, P); }
    if b < a { MulMono(b + 1, a, P); }
  }
}
