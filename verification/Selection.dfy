/** Why a reply decodes to the selected element: the noise of the accumulated products stays
    below half the modulus when the absorption size is chosen as the cryptosystem does. */
module Selection {
  import opened Arith
  import opened Words
  import opened NttWords
  import opened Negacyclic
  import opened Crt
  import opened LweSpec
  import opened Lwe

  // ------------------------------------------------------------- absorption

  /** 2^a bits per coefficient can be absorbed by n products of degree N: the inequality behind
      setandgetAbsBitPerCiphertext, for a modulus of s bits. */
  ghost predicate Absorbs(a: nat, n: nat, Berr: nat, N: nat, s: nat) {
    s >= 1 && (Exp2(a) * Exp2(a)) * (n * Berr * N) <= Exp2(s - 1)
  }

  /** The noise term, and what separates it from x*x*K. */
  lemma NoiseIdentity(x: int, n: int, Berr: int, N: int)
    ensures x * ((((x - 1) * (2 * Berr - 2)) * N) * n)
         == 2 * ((x * x) * (n * Berr * N)) - 2 * ((N * n * x) * (x + Berr - 1))
  {
    var y, B, m := x - 1, Berr - 1, N * n;
    DoubleFactor(y, B, N, n);
    Associate(x, 2, (y * B) * m);
    ThreeFactors(n, Berr, N);
    NoiseExpansion(x, m, Berr);
  }

  lemma DoubleFactor(y: int, B: int, N: int, n: int)
    ensures (((y * (2 * B)) * N) * n) == 2 * ((y * B) * (N * n))
  {
    Associate(y * (2 * B), N, n);
    Associate(y, 2, B);
    Associate(2, y * B, N * n);
  }

  lemma NoiseExpansion(x: int, m: int, Berr: int)
    ensures x * (((x - 1) * (Berr - 1)) * m) == (x * x) * (m * Berr) - (m * x) * (x + Berr - 1)
  {
    var g := (x - 1) * (Berr - 1);
    assert g == x * Berr - x - Berr + 1;
    assert x * (g * m) == (m * x) * g;
    assert (x * x) * (m * Berr) == (m * x) * (x * Berr);
    Distribute(m * x, g, x + Berr - 1);
  }

  /** Twice the magnitude that dec must tolerate: amplified noise of n products, plus a message
      of size M. */
  function NoiseBudget(x: int, n: int, Berr: int, N: int, T: int, M: int): int {
    2 * (T * ((((x - 1) * (2 * Berr - 2)) * N) * n) + M)
  }

  lemma BudgetBound(x: nat, n: nat, Berr: nat, N: nat, T: nat)
    requires x >= 1 && n >= 1 && Berr >= 1 && N >= 1 && T <= x
    ensures NoiseBudget(x, n, Berr, N, T, x - 1)
         <= 4 * ((x * x) * (n * Berr * N)) - 4 * ((N * n * x) * (x + Berr - 1)) + 2 * (x - 1)
  {
    var E := ((((x - 1) * (2 * Berr - 2)) * N) * n);
    assert E >= 0 by {
      MulMono(0, x - 1, 2 * Berr - 2);
      MulMono(0, (x - 1) * (2 * Berr - 2), N);
      MulMono(0, ((x - 1) * (2 * Berr - 2)) * N, n);
    }
    MulMono(T, x, E);
    NoiseIdentity(x, n, Berr, N);
  }

  lemma SlackBound(x: nat, n: nat, Berr: nat, N: nat)
    requires x >= 1 && n >= 1 && Berr >= 1 && N >= 1
    ensures (N * n * x) * (x + Berr - 1) >= x
    ensures ((N * n * x) * (x + Berr - 1)) * x >= (x * x) * (n * Berr * N)
  {
    MulMono(1, N, n);
    ThreeFactors(n, Berr, N);
    SlackFactor(x, N * n, Berr);
  }

  lemma ThreeFactors(n: int, Berr: int, N: int)
    ensures n * Berr * N == (N * n) * Berr
  {
    Associate(N, n, Berr);
  }

  lemma SlackFactor(x: nat, m: nat, Berr: nat)
    requires x >= 1 && m >= 1 && Berr >= 1
    ensures (m * x) * (x + Berr - 1) >= x
    ensures ((m * x) * (x + Berr - 1)) * x >= (x * x) * (m * Berr)
  {
    var y, z := m * x, x + Berr - 1;
    MulMono(1, m, x);
    MulMono(1, z, y);
    MulMono(Berr, z, y);
    MulMono(y * Berr, y * z, x);
    MulSwap(x, x, m, Berr);
    assert (y * Berr) * x == (x * m) * (x * Berr) by { Associate(y, Berr, x); }
  }

  /** Several moduli: the product exceeds 2^(s+1), and the bound holds with room to spare. */
  lemma AbsorbsMany(a: nat, n: nat, Berr: nat, N: nat, T: nat, s: nat, P: int)
    requires n >= 1 && Berr >= 1 && N >= 1 && T <= Exp2(a) && Absorbs(a, n, Berr, N, s) && P >= Exp2(s + 1)
    ensures NoiseBudget(Exp2(a), n, Berr, N, T, Exp2(a) - 1) < P
  {
    hide NoiseBudget;
    var x := Exp2(a);
    BudgetBound(x, n, Berr, N, T);
    SlackBound(x, n, Berr, N);
    assert Exp2(s + 1) == 4 * Exp2(s - 1);
  }

  /** One modulus, which is a little below 2^61: when the inequality is nearly tight, what the
      identity subtracts outweighs the distance to 2^61. */
  lemma AbsorbsOne(a: nat, n: nat, Berr: nat, N: nat, T: nat, p: int)
    requires n >= 1 && Berr >= 1 && N >= 1 && T <= Exp2(a) && Absorbs(a, n, Berr, N, 60) && p > W64 / 8 - 0x80_0000
    ensures NoiseBudget(Exp2(a), n, Berr, N, T, Exp2(a) - 1) < p
  {
    hide NoiseBudget, Exp2;
    var x := Exp2(a);
    BudgetBound(x, n, Berr, N, T);
    SlackBound(x, n, Berr, N);
    Exp59();
    SmallAbsorption(a, n * Berr * N) by { MulMono(1, n, Berr); MulMono(1, n * Berr, N); }
    TightOrLoose((x * x) * (n * Berr * N), (N * n * x) * (x + Berr - 1), x);
  }

  lemma TightOrLoose(Q: int, G: int, x: int)
    requires 1 <= x <= 0x2000_0000 && Q <= W64 / 32 && G >= x && G * x >= Q
    ensures 4 * Q - 4 * G + 2 * (x - 1) <= W64 / 8 - 0x80_0000
  {
    if Q > W64 / 64 {
      if G <= 0x2000_0000 { MulMono(G, 0x2000_0000, x); }
      assert G > 0x2000_0000;
    }
  }

  lemma Exp59()
    ensures Exp2(59) == W64 / 32
  {
    hide Exp2;
    Exp2Add(59, 2);
    Exp61();
    assert Exp2(2) == 4 by { ExpTwo(); }
  }

  lemma ExpTwo()
    ensures Exp2(2) == 4
  {
    assert Exp2(1) == 2;
  }

  lemma SmallAbsorption(a: nat, K: nat)
    requires K >= 1 && (Exp2(a) * Exp2(a)) * K <= Exp2(59)
    ensures 1 <= Exp2(a) <= 0x2000_0000
  {
    hide Exp2;
    MulMono(1, K, Exp2(a) * Exp2(a));
    Exp59();
    Exp30();
    if a >= 30 {
      Exp2Monotone(30, a);
      MulMono(Exp2(30), Exp2(a), Exp2(30));
      MulMono(Exp2(30), Exp2(a), Exp2(a));
    } else {
      Exp2Monotone(a, 29);
    }
  }

  lemma Exp30()
    ensures Exp2(30) == 0x4000_0000 && Exp2(29) == 0x2000_0000
  {
    hide Exp2;
    Exp2Add(30, 31);
    Exp2Add(30, 1);
    Exp2Add(29, 1);
    Exp61();
    assert Exp2(1) == 2 by { ExpOne(); }
    var y := Exp2(30);
    assert (2 * y) * y == W64 / 8;
    if y > 0x4000_0000 { MulMono(0x4000_0001, y, y); MulMono(0x4000_0001, y, 0x4000_0001); }
    if y < 0x4000_0000 { MulMono(y, 0x3fff_ffff, y); MulMono(y, 0x3fff_ffff, 0x3fff_ffff); }
  }

  lemma ExpOne()
    ensures Exp2(1) == 2
  {
  }

  // ---------------------------------------------- the size of the modulus

  ghost predicate LargeModuli(ms: seq<int>) {
    forall i :: 0 <= i < |ms| ==> W64 / 8 - 0x80_0000 < ms[i] < W64 / 8
  }

  /** From two moduli on, the product has more than one spare bit over 60 bits per modulus. */
  lemma {:induction false} ProductLarge(ms: seq<int>, n: nat)
    requires 2 <= n <= |ms| && LargeModuli(ms)
    ensures Product(ms, n) >= Exp2(60 * n + 1)
  {
    hide Exp2;
    Exp60();
    assert Product(ms, n) == Product(ms, n - 1) * ms[n - 1];
    if n == 2 {
      assert Product(ms, 2) == ms[0] * ms[1] by { assert Product(ms, 0) == 1; assert Product(ms, 1) == ms[0]; }
      Exp2Add(60, 61);
      MulMono(Exp2(60), ms[0], ms[1]);
      SquareLarge(ms[0], ms[1]);
    } else {
      ProductLarge(ms, n - 1);
      Exp2Add(60 * (n - 1) + 1, 60);
      MulMono(Exp2(60 * (n - 1) + 1), Product(ms, n - 1), ms[n - 1]);
      MulMono(Exp2(60), ms[n - 1], Exp2(60 * (n - 1) + 1));
    }
  }

  lemma SquareLarge(u: int, v: int)
    requires u > W64 / 8 - 0x80_0000 && v > W64 / 8 - 0x80_0000
    ensures u * v >= (W64 / 16) * (W64 / 8)
  {
    MulMono(W64 / 8 - 0x80_0000, u, v);
    MulMono(W64 / 8 - 0x80_0000, v, W64 / 8 - 0x80_0000);
  }

  lemma Exp60()
    ensures Exp2(60) == W64 / 16 && Exp2(61) == W64 / 8
  {
    Exp61();
  }

  /** The budget fits under the product of the moduli, however many there are. */
  lemma AbsorbsAll(a: nat, n: nat, Berr: nat, N: nat, T: nat, ms: seq<int>)
    requires |ms| >= 1 && LargeModuli(ms) && n >= 1 && Berr >= 1 && N >= 1 && T <= Exp2(a)
    requires Absorbs(a, n, Berr, N, 60 * |ms|)
    ensures NoiseBudget(Exp2(a), n, Berr, N, T, Exp2(a) - 1) < Product(ms, |ms|)
  {
    hide NoiseBudget, Exp2, Absorbs;
    if |ms| == 1 {
      assert Product(ms, 1) == ms[0] by { assert Product(ms, 0) == 1; }
      AbsorbsOne(a, n, Berr, N, T, ms[0]);
    } else {
      ProductLarge(ms, |ms|);
      AbsorbsMany(a, n, Berr, N, T, 60 * |ms|, Product(ms, |ms|));
    }
  }

  // ------------------------------------------------------------ decoding sums

  /** Decoding amplified noise plus message: the message modulo 2^a, if the magnitude allows. */
  lemma NoisyDecodes(T: nat, e: seq<int>, m: seq<int>, E: nat, M: nat, a: nat, P: int)
    requires |e| == |m| && Bounded(e, E) && Bounded(m, M) && 2 * (T * E + M) < P && Cong(T, 0, Exp2(a))
    ensures Decodable(Noisy(T, e, m), P) && Decoded(Noisy(T, e, m), a) == Decoded(m, a)
  {
    hide Exp2, Cong;
    forall i | 0 <= i < |e|
      ensures -P < 2 * Noisy(T, e, m)[i] < P && LowOrder(Noisy(T, e, m)[i], a) == LowOrder(m[i], a)
    {
      NoisyBound(T, e, m, E, M, i);
      NoisyLow(T, e[i], m[i], a);
    }
  }

  lemma NoisyLow(T: nat, e: int, m: int, a: nat)
    requires Cong(T, 0, Exp2(a))
    ensures LowOrder(T * e + m, a) == LowOrder(m, a)
  {
    CongScale(T, 0, e, Exp2(a));
    CongAdd(T * e, 0, m, m, Exp2(a));
  }

  /** What each query hides: amplified noise and its message. */
  ghost predicate NoisyQueries(cs: seq<seq<int>>, es: seq<seq<int>>, ms: seq<seq<int>>, T: nat, Berr: nat, N: nat) {
    && |cs| == |es| == |ms| && Berr >= 1
    && forall i :: 0 <= i < |cs| ==>
         |cs[i]| == |es[i]| == |ms[i]| == N && cs[i] == Noisy(T, es[i], ms[i]) && Below(es[i], 2 * Berr - 1)
  }

  ghost predicate Elements(ds: seq<seq<int>>, a: nat, N: nat) {
    forall i :: 0 <= i < |ds| ==> |ds[i]| == N && Below(ds[i], Exp2(a))
  }

  /** The noise of n products of data below 2^a and noise below 2*Berr - 1. */
  lemma CombinedNoise(ds: seq<seq<int>>, es: seq<seq<int>>, a: nat, Berr: nat, N: nat)
    requires |ds| == |es| && Berr >= 1 && Elements(ds, a, N)
    requires forall i :: 0 <= i < |es| ==> |es[i]| == N && Below(es[i], 2 * Berr - 1)
    ensures (((Exp2(a) - 1) * (2 * Berr - 2)) * N) * |ds| >= 0
    ensures Bounded(SumProducts(ds, es, N, |ds|), (((Exp2(a) - 1) * (2 * Berr - 2)) * N) * |ds|)
  {
    hide SumProducts, Exp2;
    SumBound(ds, es, N, |ds|, Exp2(a) - 1, 2 * Berr - 2);
    MulMono(0, Exp2(a) - 1, 2 * Berr - 2);
    MulMono(0, (Exp2(a) - 1) * (2 * Berr - 2), N);
    MulMono(0, ((Exp2(a) - 1) * (2 * Berr - 2)) * N, |ds|);
  }

  /** Homomorphic linear combinations: the reply decodes to the combination of the messages
      with the data, whenever that combination and the noise are small enough. */
  lemma CombinationDecodes(ds: seq<seq<int>>, cs: seq<seq<int>>, es: seq<seq<int>>, ms: seq<seq<int>>,
                           sum: seq<int>, T: nat, a: nat, Berr: nat, N: nat, M: nat, P: int)
    requires |ds| == |cs| && Elements(ds, a, N) && NoisyQueries(cs, es, ms, T, Berr, N) && Cong(T, 0, Exp2(a))
    requires sum == SumProducts(ds, ms, N, |ds|) && Bounded(sum, M)
    requires NoiseBudget(Exp2(a), |ds|, Berr, N, T, M) < P
    ensures Decodable(SumProducts(ds, cs, N, |ds|), P)
    ensures Decoded(SumProducts(ds, cs, N, |ds|), a) == Decoded(sum, a)
  {
    hide SumProducts, Exp2, Noisy, Cong, Bounded, Decodable;
    SumNoisy(ds, es, ms, cs, T, N, |ds|);
    CombinedNoise(ds, es, a, Berr, N);
    NoisyDecodes(T, SumProducts(ds, es, N, |ds|), sum,
                 (((Exp2(a) - 1) * (2 * Berr - 2)) * N) * |ds|, M, a, P);
  }

  /** Homomorphic selection: with the absorption size that the cryptosystem computes, a query
      that selects index k decodes to element k. */
  lemma SelectionDecodes(ds: seq<seq<int>>, cs: seq<seq<int>>, es: seq<seq<int>>, sel: seq<seq<int>>, k: nat,
                         T: nat, a: nat, Berr: nat, N: nat, ms: seq<int>)
    requires k < |ds| == |cs| && N >= 1 && Elements(ds, a, N) && NoisyQueries(cs, es, sel, T, Berr, N)
    requires Selects(sel, k, N)
    requires Cong(T, 0, Exp2(a)) && T <= Exp2(a)
    requires |ms| >= 1 && LargeModuli(ms) && Absorbs(a, |ds|, Berr, N, 60 * |ms|)
    ensures Decodable(SumProducts(ds, cs, N, |ds|), Product(ms, |ms|))
    ensures Decoded(SumProducts(ds, cs, N, |ds|), a) == ds[k]
  {
    hide SumProducts, Exp2, Noisy, Cong, Absorbs, LargeModuli, Product, NoiseBudget, Decoded, Decodable, Elements,
      NoisyQueries, Selects;
    SelectedSum(ds, cs, es, sel, k, T, a, Berr, N);
    AbsorbsAll(a, |ds|, Berr, N, T, ms) by { QueryBound(cs, es, sel, T, Berr, N); }
    CombinationDecodes(ds, cs, es, sel, ds[k], T, a, Berr, N, Exp2(a) - 1, Product(ms, |ms|));
    DecodedSmall(ds[k], a);
  }

  lemma QueryBound(cs: seq<seq<int>>, es: seq<seq<int>>, ms: seq<seq<int>>, T: nat, Berr: nat, N: nat)
    requires NoisyQueries(cs, es, ms, T, Berr, N)
    ensures Berr >= 1 && |cs| == |es| == |ms|
  {
  }

  lemma SelectedSum(ds: seq<seq<int>>, cs: seq<seq<int>>, es: seq<seq<int>>, sel: seq<seq<int>>, k: nat,
                    T: nat, a: nat, Berr: nat, N: nat)
    requires k < |ds| == |cs| && Elements(ds, a, N) && NoisyQueries(cs, es, sel, T, Berr, N) && Selects(sel, k, N)
    ensures |sel| == |ds| && (forall i :: 0 <= i < |ds| ==> |ds[i]| == |sel[i]| == |cs[i]| == N)
    ensures SumProducts(ds, sel, N, |ds|) == ds[k] && Below(ds[k], Exp2(a)) && Bounded(ds[k], Exp2(a) - 1)
  {
    hide SumProducts, Exp2, Noisy;
    SumSelects(ds, sel, k, N, |ds|);
  }

  lemma DecodedSmall(d: seq<int>, a: nat)
    requires Below(d, Exp2(a))
    ensures Decoded(d, a) == d
  {
    hide Exp2;
    forall i | 0 <= i < |d| ensures LowOrder(d[i], a) == d[i] { SmallMod(d[i], Exp2(a)); }
  }
}
