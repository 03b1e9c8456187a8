/** Ring-LWE ciphertexts as noisy polynomials: what accumulation does to the polynomial that a
    ciphertext hides, how large the noise gets, and when decoding finds the message. */
module LweSpec {
  import opened Arith
  import opened BitOps
  import opened Polynomials
  import opened Negacyclic
  import opened NflTables

  // --------------------------------------------------------------- decoding

  /** The last step of dec: values above P/2 stand for negative numbers, and M replaces P so
      that masking the low A bits also works for them. */
  function DecodeWord(x: int, P: int, M: int, A: nat): nat
    requires 0 <= x < P <= M
  {
    if x > P / 2 then And(x + (M - P), Exp2(A) - 1) else And(x, Exp2(A) - 1)
  }

  /** Masking decodes every value of magnitude below P/2 to its residue modulo 2^A. */
  lemma DecodeExact(v: int, P: int, M: int, A: nat)
    requires 0 < P <= M && Cong(M, 0, Exp2(A)) && -P < 2 * v < P
    ensures 0 <= v % P < P && DecodeWord(v % P, P, M, A) == v % Exp2(A)
  {
    if v >= 0 {
      SmallMod(v, P);
      AndMask(v, A);
    } else {
      DivModUnique(v, -1, v + P, P);
      AndMask(v + M, A);
      CongAdd(v, v, M, 0, Exp2(A));
    }
  }

  // ----------------------------------------------- the polynomial in a ciphertext

  /** b - a*s, word by word. */
  function PhaseWords(a: seq<int>, b: seq<int>, s: seq<int>): (r: seq<int>)
    requires |a| == |b| == |s|
    ensures |r| == |a|
  {
    seq(|a|, i requires 0 <= i < |a| => b[i] - a[i] * s[i])
  }

  /** Under key s, the pair (a, b) of transformed polynomials hides the polynomial c. */
  ghost predicate Hides(a: seq<int>, b: seq<int>, s: seq<int>, c: seq<int>, phi: int, L: nat, p: int)
    requires p > 0
  {
    |a| == |b| == |s| && Represents(PhaseWords(a, b, s), c, phi, L, p)
  }

  lemma PhaseStep(a: int, b: int, a': int, b': int, x: int, qa: int, qb: int, s: int, p: int)
    requires p > 0 && Cong(a', a + x * qa, p) && Cong(b', b + x * qb, p)
    ensures Cong(b' - a' * s, (b - a * s) + x * (qb - qa * s), p)
  {
    CongScale(a', a + x * qa, s, p);
    CongSub(b', b + x * qb, a' * s, (a + x * qa) * s, p);
    Associate(x, qa, s);
    assert (a + x * qa) * s == a * s + (x * qa) * s;
    assert x * (qb - qa * s) == x * qb - x * (qa * s);
  }

  lemma CongWords(t: seq<int>, x: seq<int>, v: seq<int>, p: int)
    requires p > 0 && |t| == |x| == |v| && forall i :: 0 <= i < |t| ==> t[i] == x[i] * v[i]
    ensures forall i :: 0 <= i < |t| ==> Cong(t[i], x[i] * v[i], p)
  {
  }

  /** r' is the accumulator r plus x*y, word by word modulo p. */
  ghost predicate Stepped(r': seq<int>, r: seq<int>, x: seq<int>, y: seq<int>, p: int) {
    && p > 0 && |r'| == |r| == |x| == |y|
    && forall i :: 0 <= i < |r| ==> Cong(r'[i], r[i] + x[i] * y[i], p)
  }

  /** The two halves of a ciphertext. */
  datatype Cipher<+T> = Cipher(a: seq<T>, b: seq<T>)

  lemma AccumulatedPhase(r: Cipher<int>, r': Cipher<int>, x: seq<int>, q: Cipher<int>, s: seq<int>, t: seq<int>, p: int)
    requires p > 0 && |r.a| == |r.b| == |s| == |t| && Stepped(r'.a, r.a, x, q.a, p) && Stepped(r'.b, r.b, x, q.b, p)
    requires forall i :: 0 <= i < |t| ==> t[i] == x[i] * PhaseWords(q.a, q.b, s)[i]
    ensures forall i :: 0 <= i < |t| ==> Cong(PhaseWords(r'.a, r'.b, s)[i], PhaseWords(r.a, r.b, s)[i] + t[i], p)
  {
    hide Cong;
    forall i | 0 <= i < |t| ensures Cong(PhaseWords(r'.a, r'.b, s)[i], PhaseWords(r.a, r.b, s)[i] + t[i], p) {
      PhaseStep(r.a[i], r.b[i], r'.a[i], r'.b[i], x[i], q.a[i], q.b[i], s[i], p);
    }
  }

  /** Adding x times a query to an accumulator adds the product of the hidden polynomials. */
  lemma AccumulateHides(r: Cipher<int>, r': Cipher<int>, x: seq<int>, q: Cipher<int>, s: seq<int>, c: seq<int>,
                        d: seq<int>, m: seq<int>,
                        phi: int, L: nat, p: int)
    requires p > 0 && NegRoot(phi, L, p)
    requires Hides(r.a, r.b, s, c, phi, L, p) && Hides(q.a, q.b, s, m, phi, L, p) && Represents(x, d, phi, L, p)
    requires Stepped(r'.a, r.a, x, q.a, p) && Stepped(r'.b, r.b, x, q.b, p)
    ensures |c| == |d| == |m| && Hides(r'.a, r'.b, s, Plus(c, NegMul(d, m)), phi, L, p)
  {
    hide Represents, NegMul, Cong, NegRoot, PhaseWords;
    var u, v, w := PhaseWords(r.a, r.b, s), PhaseWords(q.a, q.b, s), PhaseWords(r'.a, r'.b, s);
    RepresentsLength(u, c, phi, L, p);
    RepresentsLength(v, m, phi, L, p);
    RepresentsLength(x, d, phi, L, p);
    var t := seq(|s|, i requires 0 <= i < |s| => x[i] * v[i]);
    CongWords(t, x, v, p);
    RepresentsProduct(t, x, v, d, m, phi, L, p);
    AccumulatedPhase(r, r', x, q, s, t, p);
    RepresentsSum(w, u, t, c, NegMul(d, m), phi, L, p);
  }

  // ------------------------------------------------------ linear combinations

  /** The sum over i below n of ds[i] * cs[i] modulo X^N + 1. */
  function SumProducts(ds: seq<seq<int>>, cs: seq<seq<int>>, N: nat, n: nat): (r: seq<int>)
    requires n <= |ds| && n <= |cs|
    requires forall i :: 0 <= i < n ==> |ds[i]| == |cs[i]| == N
    ensures |r| == N
  {
    if n == 0 then Constant(0, N) else Plus(SumProducts(ds, cs, N, n - 1), NegMul(ds[n - 1], cs[n - 1]))
  }

  /** Amplified noise plus message. */
  function Noisy(T: int, e: seq<int>, m: seq<int>): (r: seq<int>)
    requires |e| == |m|
    ensures |r| == |e|
  {
    Plus(Scaled(T, e), m)
  }

  /** The combination of noisy polynomials is the combination of the messages plus the
      amplified combination of the noises. */
  lemma {:induction false} SumNoisy(ds: seq<seq<int>>, es: seq<seq<int>>, ms: seq<seq<int>>, cs: seq<seq<int>>,
                                    T: int, N: nat, n: nat)
    requires n <= |ds| && n <= |es| && n <= |ms| && n <= |cs|
    requires forall i :: 0 <= i < n ==>
      |ds[i]| == |es[i]| == |ms[i]| == |cs[i]| == N && cs[i] == Noisy(T, es[i], ms[i])
    ensures SumProducts(ds, cs, N, n) == Noisy(T, SumProducts(ds, es, N, n), SumProducts(ds, ms, N, n))
  {
    if n > 0 {
      hide NegMul, SumProducts, Constant;
      SumNoisy(ds, es, ms, cs, T, N, n - 1);
      var d, e, m, c := ds[n - 1], es[n - 1], ms[n - 1], cs[n - 1];
      ProductAffine(d, T, e, m);
      var E, M := SumProducts(ds, es, N, n - 1), SumProducts(ds, ms, N, n - 1);
      SumUnfold(ds, cs, N, n);
      SumUnfold(ds, es, N, n);
      SumUnfold(ds, ms, N, n);
      NoisySum(T, E, M, NegMul(d, e), NegMul(d, m));
    } else {
      assert Noisy(T, Constant(0, N), Constant(0, N)) == Constant(0, N);
    }
  }

  lemma SumUnfold(ds: seq<seq<int>>, cs: seq<seq<int>>, N: nat, n: nat)
    requires 0 < n <= |ds| && n <= |cs|
    requires forall i :: 0 <= i < n ==> |ds[i]| == |cs[i]| == N
    ensures SumProducts(ds, cs, N, n) == Plus(SumProducts(ds, cs, N, n - 1), NegMul(ds[n - 1], cs[n - 1]))
  {
  }

  lemma NoisySum(T: int, e: seq<int>, m: seq<int>, e': seq<int>, m': seq<int>)
    requires |e| == |m| == |e'| == |m'|
    ensures Plus(Noisy(T, e, m), Noisy(T, e', m')) == Noisy(T, Plus(e, e'), Plus(m, m'))
  {
    forall i | 0 <= i < |e|
      ensures Plus(Noisy(T, e, m), Noisy(T, e', m'))[i] == Noisy(T, Plus(e, e'), Plus(m, m'))[i]
    {
      Distribute(T, e[i], e'[i]);
    }
  }

  /** n products of polynomials bounded by A and B stay below n * N * A * B. */
  lemma {:induction false} SumBound(ds: seq<seq<int>>, es: seq<seq<int>>, N: nat, n: nat, A: nat, B: nat)
    requires n <= |ds| && n <= |es|
    requires forall i :: 0 <= i < n ==> |ds[i]| == |es[i]| == N && Bounded(ds[i], A) && Bounded(es[i], B)
    ensures Bounded(SumProducts(ds, es, N, n), ((A * B) * N) * n)
  {
    if n > 0 {
      hide NegMul, SumProducts;
      SumBound(ds, es, N, n - 1, A, B);
      ProductBound(ds[n - 1], es[n - 1], A, B);
      SumUnfold(ds, es, N, n);
      Distribute((A * B) * N, n - 1, 1);
    }
  }

  /** The messages of a query that selects index k: one at k, zero elsewhere. */
  ghost predicate Selects(ms: seq<seq<int>>, k: nat, N: nat) {
    forall i :: 0 <= i < |ms| ==> ms[i] == Constant(if i == k then 1 else 0, N)
  }

  /** Such a query combines the data to the k-th polynomial. */
  lemma {:induction false} SumSelects(ds: seq<seq<int>>, ms: seq<seq<int>>, k: nat, N: nat, n: nat)
    requires n <= |ms| == |ds| && k < |ds| && Selects(ms, k, N)
    requires forall i :: 0 <= i < |ds| ==> |ds[i]| == |ms[i]| == N
    ensures SumProducts(ds, ms, N, n) == if k < n then ds[k] else Constant(0, N)
  {
    if n > 0 {
      hide NegMul, Constant, SumProducts;
      SumSelects(ds, ms, k, N, n - 1);
      var d := ds[n - 1];
      ProductConstant(d, if n - 1 == k then 1 else 0);
      SumUnfold(ds, ms, N, n);
      if n - 1 == k { PlusZero(d); } else { PlusUnit(SumProducts(ds, ms, N, n - 1), d); }
    }
  }

  lemma PlusUnit(x: seq<int>, d: seq<int>)
    requires |x| == |d|
    ensures Plus(x, Scaled(0, d)) == x
  {
  }

  lemma PlusZero(d: seq<int>)
    ensures Plus(Constant(0, |d|), Scaled(1, d)) == d
  {
  }

  // ------------------------------------------------------------- absorption

  /** Magnitude of the decoded value: T times the noise of n products, plus the message. */
  lemma NoisyBound(T: nat, e: seq<int>, m: seq<int>, E: nat, M: nat, i: nat)
    requires |e| == |m| && i < |e| && Bounded(e, E) && Bounded(m, M)
    ensures -(T * E + M) <= Noisy(T, e, m)[i] <= T * E + M
  {
    MulBound(T, e[i], T, E);
  }
}
