/** The ring of polynomials modulo X^N + 1, and the vectors of values that represent its
    elements after the twisted transform. */
module Negacyclic {
  import opened Arith
  import opened Polynomials
  import opened NttSpec

  // -------------------------------------------------- product modulo X^N + 1

  /** Coefficient of X^t in b where X^N = -1, for -N <= t < N. */
  function NegAt(b: seq<int>, t: int): int
    requires -|b| <= t < |b|
  {
    if t >= 0 then b[t] else -b[t + |b|]
  }

  /** The sum over j >= i of a[j] times the coefficient of X^(k-j) in b. */
  function Conv(a: seq<int>, b: seq<int>, k: int, i: nat): int
    requires i <= |a| && |a| - 1 <= k + |b| && k - i < |b|
    decreases |a| - i
  {
    if i == |a| then 0 else a[i] * NegAt(b, k - i) + Conv(a, b, k, i + 1)
  }

  /** Schoolbook product of a and b modulo X^N + 1, where N = |b|. */
  function NegMul(a: seq<int>, b: seq<int>): (r: seq<int>)
    requires |a| <= |b|
    ensures |r| == |b|
  {
    seq(|b|, k requires 0 <= k < |b| => Conv(a, b, k, 0))
  }

  lemma {:induction false} ConvTail(a: seq<int>, b: seq<int>, k: int, i: nat)
    requires 1 <= i <= |a| && |a| - 1 <= k + |b| && k - i < |b|
    ensures Conv(a, b, k, i) == Conv(a[1..], b, k - 1, i - 1)
    decreases |a| - i
  {
    if i < |a| { ConvTail(a, b, k, i + 1); }
  }

  /** Wrapping around once changes the sign. */
  lemma {:induction false} ConvWrap(a: seq<int>, b: seq<int>, k: int, i: nat)
    requires i <= |a| && |a| - 1 <= k && k - i < |b|
    ensures Conv(a, b, k - |b|, i) == -Conv(a, b, k, i)
    decreases |a| - i
  {
    if i < |a| {
      ConvWrap(a, b, k, i + 1);
      assert NegAt(b, k - |b| - i) == -NegAt(b, k - i);
      assert a[i] * (-NegAt(b, k - i)) == -(a[i] * NegAt(b, k - i));
    }
  }

  /** Multiplication by X modulo X^N + 1. */
  function TimesX(c: seq<int>): (r: seq<int>)
    requires |c| > 0
    ensures |r| == |c|
  {
    [-c[|c| - 1]] + c[..|c| - 1]
  }

  lemma ProductHorner(a: seq<int>, b: seq<int>)
    requires 0 < |a| <= |b|
    ensures NegMul(a, b) == Plus(Scaled(a[0], b), TimesX(NegMul(a[1..], b)))
  {
    var r := Plus(Scaled(a[0], b), TimesX(NegMul(a[1..], b)));
    forall k | 0 <= k < |b| ensures NegMul(a, b)[k] == r[k] {
      ConvTail(a, b, k, 1);
      if k == 0 { ConvWrap(a[1..], b, |b| - 1, 0); }
    }
  }

  lemma EvalTimesX(c: seq<int>, z: int, p: int)
    requires p > 0 && |c| > 0 && Cong(Pow(z, |c|), -1, p)
    ensures Cong(Eval(TimesX(c), z), z * Eval(c, z), p)
  {
    var n := |c| - 1;
    var d, l := c[..n], c[n];
    assert c == d + [l] && TimesX(c)[1..] == d;
    EvalSnoc(d, l, z);
    WrapTerm(z, Eval(d, z), Pow(z, n), l, p);
  }

  lemma WrapTerm(z: int, e: int, q: int, l: int, p: int)
    requires p > 0 && Cong(z * q, -1, p)
    ensures Cong(-l + z * e, z * (e + l * q), p)
  {
    CongScale(z * q, -1, l, p);
    Associate(z, l, q);
    HornerStep(z, e, l, q);
    CongAdd(z * e, z * e, -l, l * (z * q), p);
  }

  /** At a point where X^N = -1, the product modulo X^N + 1 takes the product of the values. */
  lemma {:induction false} EvalProduct(a: seq<int>, b: seq<int>, z: int, p: int)
    requires p > 0 && |a| <= |b| && Cong(Pow(z, |b|), -1, p)
    ensures Cong(Eval(NegMul(a, b), z), Eval(a, z) * Eval(b, z), p)
  {
    if |a| == 0 {
      EvalScaled(0, b, z);
      assert NegMul(a, b) == Scaled(0, b);
    } else {
      var c := NegMul(a[1..], b);
      var A, B := Eval(a[1..], z), Eval(b, z);
      EvalProduct(a[1..], b, z, p);
      ProductHorner(a, b);
      EvalPlus(Scaled(a[0], b), TimesX(c), z);
      EvalScaled(a[0], b, z);
      EvalTimesX(c, z, p);
      CongScale(Eval(c, z), A * B, z, p);
      CongAdd(a[0] * B, a[0] * B, Eval(TimesX(c), z), z * (A * B), p);
      assert (a[0] + z * A) * B == a[0] * B + z * (A * B);
    }
  }

  // -------------------------------------------------- algebra of the product

  lemma {:induction false} ConvPlus(a: seq<int>, b: seq<int>, c: seq<int>, k: int, i: nat)
    requires |b| == |c| && i <= |a| && |a| - 1 <= k + |b| && k - i < |b|
    ensures Conv(a, Plus(b, c), k, i) == Conv(a, b, k, i) + Conv(a, c, k, i)
    decreases |a| - i
  {
    if i < |a| {
      ConvPlus(a, b, c, k, i + 1);
      assert NegAt(Plus(b, c), k - i) == NegAt(b, k - i) + NegAt(c, k - i);
      Distribute(a[i], NegAt(b, k - i), NegAt(c, k - i));
    }
  }

  lemma {:induction false} ConvScaled(a: seq<int>, t: int, b: seq<int>, k: int, i: nat)
    requires i <= |a| && |a| - 1 <= k + |b| && k - i < |b|
    ensures Conv(a, Scaled(t, b), k, i) == t * Conv(a, b, k, i)
    decreases |a| - i
  {
    if i < |a| {
      ConvScaled(a, t, b, k, i + 1);
      var n := NegAt(b, k - i);
      assert NegAt(Scaled(t, b), k - i) == t * n;
      HornerStep(t, Conv(a, b, k, i + 1), a[i], n);
      Associate(t, a[i], n);
    }
  }

  /** The constant polynomial m in a ring of dimension n. */
  function Constant(m: int, n: nat): (r: seq<int>)
    ensures |r| == n
  {
    seq(n, i => if i == 0 then m else 0)
  }

  lemma {:induction false} ConvConstant(a: seq<int>, m: int, n: nat, k: int, i: nat)
    requires i <= |a| <= n && 0 <= k < n
    ensures Conv(a, Constant(m, n), k, i) == if i <= k < |a| then m * a[k] else 0
    decreases |a| - i
  {
    if i < |a| { ConvConstant(a, m, n, k, i + 1); }
  }

  /** Multiplying by a constant polynomial scales every coefficient. */
  lemma ProductConstant(a: seq<int>, m: int)
    ensures NegMul(a, Constant(m, |a|)) == Scaled(m, a)
  {
    forall k | 0 <= k < |a| ensures NegMul(a, Constant(m, |a|))[k] == m * a[k] {
      ConvConstant(a, m, |a|, k, 0);
    }
  }

  lemma ProductAffine(a: seq<int>, t: int, e: seq<int>, m: seq<int>)
    requires |a| == |e| == |m|
    ensures NegMul(a, Plus(Scaled(t, e), m)) == Plus(Scaled(t, NegMul(a, e)), NegMul(a, m))
  {
    forall k | 0 <= k < |a|
      ensures Conv(a, Plus(Scaled(t, e), m), k, 0) == t * Conv(a, e, k, 0) + Conv(a, m, k, 0)
    {
      ConvPlus(a, Scaled(t, e), m, k, 0);
      ConvScaled(a, t, e, k, 0);
    }
  }

  ghost predicate Bounded(x: seq<int>, b: int) {
    forall i :: 0 <= i < |x| ==> -b <= x[i] <= b
  }

  /** N terms of size at most M = A * B. */
  lemma {:induction false} ConvBound(a: seq<int>, b: seq<int>, k: int, i: nat, A: nat, B: nat, M: int)
    requires i <= |a| && |a| - 1 <= k + |b| && k - i < |b| && Bounded(a, A) && Bounded(b, B) && M == A * B
    ensures -(M * (|a| - i)) <= Conv(a, b, k, i) <= M * (|a| - i)
    decreases |a| - i
  {
    if i < |a| {
      ConvBound(a, b, k, i + 1, A, B, M);
      MulBound(a[i], NegAt(b, k - i), A, B);
      Distribute(M, |a| - (i + 1), 1);
    }
  }

  lemma MulBound(x: int, y: int, A: int, B: int)
    requires 0 <= A && 0 <= B && -A <= x <= A && -B <= y <= B
    ensures -(A * B) <= x * y <= A * B
  {
    var u, v := if x < 0 then -x else x, if y < 0 then -y else y;
    MulMono(u, A, v);
    MulMono(v, B, A);
    assert x * y == u * v || x * y == -(u * v);
  }

  lemma ProductBound(a: seq<int>, b: seq<int>, A: nat, B: nat)
    requires |a| == |b| && Bounded(a, A) && Bounded(b, B)
    ensures Bounded(NegMul(a, b), (A * B) * |a|)
  {
    forall k | 0 <= k < |a|
      ensures -((A * B) * |a|) <= NegMul(a, b)[k] <= (A * B) * |a|
    {
      ConvBound(a, b, k, 0, A, B, A * B);
    }
  }

  // ------------------------------------------------- values after the transform

  /** phi is a root of X^N + 1 modulo p, for N = 2^L. */
  ghost predicate NegRoot(phi: int, L: nat, p: int)
    requires p > 0
  {
    Cong(Pow(phi, Exp2(L)), -1, p)
  }

  /** v holds, at position Rev(k), the value of c at the k-th root phi^(2k+1) of X^N + 1. */
  ghost predicate Represents(v: seq<int>, c: seq<int>, phi: int, L: nat, p: int)
    requires p > 0
  {
    && |v| == |c| == Exp2(L)
    && forall k: nat :: k < Exp2(L) ==> Cong(v[Rev(k, L)], Eval(c, Pow(phi, 2 * k + 1)), p)
  }

  lemma RepresentsProduct(t: seq<int>, u: seq<int>, v: seq<int>, a: seq<int>, b: seq<int>,
                          phi: int, L: nat, p: int)
    requires p > 0 && NegRoot(phi, L, p)
    requires Represents(u, a, phi, L, p) && Represents(v, b, phi, L, p)
    requires |t| == Exp2(L) && forall i :: 0 <= i < |t| ==> Cong(t[i], u[i] * v[i], p)
    ensures Represents(t, NegMul(a, b), phi, L, p)
  {
    forall k: nat | k < Exp2(L)
      ensures Cong(t[Rev(k, L)], Eval(NegMul(a, b), Pow(phi, 2 * k + 1)), p)
    {
      var z := Pow(phi, 2 * k + 1);
      MinusOnePower(phi, Exp2(L), k, p);
      EvalProduct(a, b, z, p);
      CongMul(u[Rev(k, L)], Eval(a, z), v[Rev(k, L)], Eval(b, z), p);
    }
  }

  lemma RepresentsSum(t: seq<int>, u: seq<int>, v: seq<int>, a: seq<int>, b: seq<int>,
                      phi: int, L: nat, p: int)
    requires p > 0 && Represents(u, a, phi, L, p) && Represents(v, b, phi, L, p)
    requires |t| == Exp2(L) && forall i :: 0 <= i < |t| ==> Cong(t[i], u[i] + v[i], p)
    ensures Represents(t, Plus(a, b), phi, L, p)
  {
    forall k: nat | k < Exp2(L)
      ensures Cong(t[Rev(k, L)], Eval(Plus(a, b), Pow(phi, 2 * k + 1)), p)
    {
      var z := Pow(phi, 2 * k + 1);
      EvalPlus(a, b, z);
      CongAdd(u[Rev(k, L)], Eval(a, z), v[Rev(k, L)], Eval(b, z), p);
    }
  }

  lemma RepresentsZero(t: seq<int>, phi: int, L: nat, p: int)
    requires p > 0 && |t| == Exp2(L) && forall i :: 0 <= i < |t| ==> Cong(t[i], 0, p)
    ensures Represents(t, Constant(0, Exp2(L)), phi, L, p)
  {
    forall k: nat | k < Exp2(L)
      ensures Eval(Constant(0, Exp2(L)), Pow(phi, 2 * k + 1)) == 0
    {
      EvalScaled(0, Constant(0, Exp2(L)), Pow(phi, 2 * k + 1));
      assert Scaled(0, Constant(0, Exp2(L))) == Constant(0, Exp2(L));
    }
  }

  lemma RepresentsCong(v: seq<int>, a: seq<int>, b: seq<int>, phi: int, L: nat, p: int)
    requires p > 0 && Represents(v, a, phi, L, p) && CongSeq(a, b, p)
    ensures Represents(v, b, phi, L, p)
  {
    forall k: nat | k < Exp2(L)
      ensures Cong(v[Rev(k, L)], Eval(b, Pow(phi, 2 * k + 1)), p)
    {
      EvalCong(a, b, Pow(phi, 2 * k + 1), Pow(phi, 2 * k + 1), p);
    }
  }

  /** Congruent words represent the same polynomial. */
  lemma RepresentsWords(v: seq<int>, w: seq<int>, c: seq<int>, phi: int, L: nat, p: int)
    requires p > 0 && Represents(v, c, phi, L, p) && CongSeq(w, v, p)
    ensures Represents(w, c, phi, L, p)
  {
    forall k: nat | k < Exp2(L) ensures Cong(w[Rev(k, L)], Eval(c, Pow(phi, 2 * k + 1)), p) {
      assert Cong(w[Rev(k, L)], v[Rev(k, L)], p);
    }
  }

  lemma TwistedPoint(phi: int, k: nat)
    ensures phi * Pow(phi * phi, k) == Pow(phi, 2 * k + 1)
  {
    SquarePow(phi, k);
  }

  lemma TwistedRoot(phi: int, L: nat, p: int)
    requires p > 0 && NegRoot(phi, L, p)
    ensures Root(phi * phi, L, p)
  {
    if L > 0 { SquarePow(phi, Exp2(L - 1)); }
  }

  /** Forward direction: the transform of the twisted coefficients represents c. */
  lemma TwistedTransform(v: seq<int>, y: seq<int>, c: seq<int>, w: int, phi: int, L: nat, p: int)
    requires p > 0 && |v| == |c| == Exp2(L) && CongSeq(y, Twist(c, phi), p) && Cong(w, phi * phi, p)
    requires forall k: nat :: k < Exp2(L) ==> Cong(v[Rev(k, L)], Eval(y, Pow(w, k)), p)
    ensures Represents(v, c, phi, L, p)
  {
    forall k: nat | k < Exp2(L)
      ensures Cong(v[Rev(k, L)], Eval(c, Pow(phi, 2 * k + 1)), p)
    {
      CongPow(w, phi * phi, k, p);
      EvalCong(y, Twist(c, phi), Pow(w, k), Pow(phi * phi, k), p);
      EvalTwist(c, phi, Pow(phi * phi, k));
      TwistedPoint(phi, k);
    }
  }

  lemma Unscale(s: int, e: int, n: int, f: int, c: int, p: int)
    requires p > 0 && Cong(e, n * (c * f), p) && Cong(s * (n * f), 1, p)
    ensures Cong(s * e, c, p)
  {
    var q := n * f;
    CongScale(e, n * (c * f), s, p);
    assert n * (c * f) == q * c;
    assert s * (q * c) == (s * q) * c;
    CongScale(s * q, 1, c, p);
  }

  /** Backward direction: X lists v in natural order, v' inverts phi*phi, and s is the j-th
      entry of the table that combines 1/N with the inverse twist. */
  lemma TwistedInverse(v: seq<int>, X: seq<int>, c: seq<int>, phi: int, w': int, s: int, j: nat, L: nat, p: int)
    requires p > 0 && NegRoot(phi, L, p) && Represents(v, c, phi, L, p)
    requires |X| == Exp2(L) && forall k: nat :: k < Exp2(L) ==> X[k] == v[Rev(k, L)]
    requires j < Exp2(L) && Cong((phi * phi) * w', 1, p)
    requires Cong(s * (Exp2(L) * Pow(phi, j)), 1, p)
    ensures Cong(s * Eval(X, Pow(w', j)), c[j], p)
  {
    var y, w := Twist(c, phi), phi * phi;
    forall k | 0 <= k < Exp2(L) ensures Cong(X[k], Eval(y, Pow(w, k)), p) {
      EvalTwist(c, phi, Pow(w, k));
      TwistedPoint(phi, k);
    }
    TwistedRoot(phi, L, p);
    InverseTransform(X, y, L, w, w', j, p);
    Unscale(s, Eval(X, Pow(w', j)), Exp2(L), Pow(phi, j), c[j], p);
  }
}
