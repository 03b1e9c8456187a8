/** Parameter shaping: dimension sizes of the database hypercube, and how many ciphertexts a
    reply takes. Roots and quotients are exact; unsigned overflow is not modelled. */
module Optimizer {
  import opened Arith

  // ---------------------------------------------------------- dimension sizes

  lemma {:induction false} PowStrict(a: nat, b: nat, d: nat)
    requires a < b && d >= 1
    ensures Pow(a, d) < Pow(b, d) && Pow(a, d) >= 0
  {
    if d > 1 {
      PowStrict(a, b, d - 1);
      MulMono(a, b, Pow(a, d - 1));
      MulMono(Pow(a, d - 1) + 1, Pow(b, d - 1), b);
    } else {
      assert Pow(a, 0) == 1 && Pow(b, 0) == 1;
    }
  }

  /** The integer d-th root. */
  function IntRoot(x: nat, d: nat): (r: nat)
    requires d >= 1
    ensures Pow(r, d) <= x < Pow(r + 1, d)
  {
    if x == 0 then
      assert Pow(0, d) == 0 * Pow(0, d - 1);
      PowOne(d);
      0
    else
      var r := IntRoot(x - 1, d);
      PowStrict(r + 1, r + 2, d);
      if Pow(r + 1, d) <= x then r + 1 else r
  }

  function ProductOf(f: seq<nat>): nat {
    if f == [] then 1 else f[0] * ProductOf(f[1..])
  }

  /** j factors r + 1, then factors r. */
  function Factors(r: nat, d: nat, j: nat): (f: seq<nat>)
    requires j <= d
    ensures |f| == d && forall i :: 0 <= i < d ==> f[i] == if i < j then r + 1 else r
  {
    seq(d, i => if i < j then r + 1 else r)
  }

  lemma {:induction false} FactorsProduct(r: nat, d: nat, j: nat)
    requires j <= d
    ensures ProductOf(Factors(r, d, j)) == Pow(r + 1, j) * Pow(r, d - j)
  {
    if d > 0 {
      var rest := Factors(r, d - 1, if j > 0 then j - 1 else 0);
      assert Factors(r, d, j)[1..] == rest;
      FactorsProduct(r, d - 1, if j > 0 then j - 1 else 0);
      if j > 0 {
        Associate(r + 1, Pow(r + 1, j - 1), Pow(r, d - j));
      } else {
        assert Pow(r, d) == r * Pow(r, d - 1);
      }
    }
  }

  /** Enough room for every element, with dimensions as equal and as small as possible. */
  ghost predicate GoodShape(dn: seq<nat>, newN: nat, d: nat) {
    && |dn| == d && ProductOf(dn) >= newN
    && (forall i, k :: 0 <= i < k < d ==> dn[k] <= dn[i] <= dn[k] + 1)
    && (ProductOf(dn) == newN
        || exists j :: 1 <= j <= d && LastIncrement(dn, j) && ProductOf(dn[j - 1 := dn[j - 1] - 1]) < newN)
  }

  /** The first j dimensions were enlarged, the others were not. */
  ghost predicate LastIncrement(dn: seq<nat>, j: int) {
    && 1 <= j <= |dn| && dn[j - 1] >= 1
    && forall i :: 0 <= i < |dn| ==> dn[i] == if i < j then dn[j - 1] else dn[j - 1] - 1
  }

  method ProductLoop(f: seq<nat>) returns (prod: nat)
    ensures prod == ProductOf(f)
  {
    prod := 1;
    for i := 0 to |f|
      invariant prod * ProductOf(f[i..]) == ProductOf(f)
    {
      assert f[i..][1..] == f[i + 1..];
      Associate(prod, f[i], ProductOf(f[i + 1..]));
      prod := prod * f[i];
    }
  }

  /** getDimSize. */
  method GetDimSize(n: nat, alpha: nat, d: nat) returns (dn: seq<nat>)
    requires alpha >= 1 && d >= 1
    ensures GoodShape(dn, CeilDiv(n, alpha), d)
    ensures CeilDiv(n, alpha) == 0 ==> forall i :: 0 <= i < d ==> dn[i] == 0
  {
    hide ProductOf, Pow;
    var newN := CeilDiv(n, alpha);
    var r := IntRoot(newN, d);
    if newN == 0 { RootOfNothing(r, d); }
    var prod, j: nat := 1, 0;
    dn := Factors(r, d, 0);
    FactorsProduct(r, d, 0);
    PowZero(r + 1);
    if Pow(r, d) != newN {
      SmallestRoot(newN, r, d);
      while prod < newN && j < d
        invariant j <= d && dn == Factors(r, d, j)
        invariant j == 0 ==> prod == 1
        invariant j > 0 ==> prod == ProductOf(dn) && ProductOf(Factors(r, d, j - 1)) < newN
        decreases d - j
      {
        dn := dn[j := dn[j] + 1];
        j := j + 1;
        assert dn == Factors(r, d, j);
        prod := ProductLoop(dn);
      }
      Shaped(r, d, j, newN);
    }
  }

  lemma RootOfNothing(r: nat, d: nat)
    requires d >= 1 && Pow(r, d) <= 0
    ensures r == 0 && Pow(r, d) == 0
  {
    if r >= 1 { PowPositive(r, d); }
    assert Pow(0, d) == 0 * Pow(0, d - 1);
  }

  lemma PowZero(b: int)
    ensures Pow(b, 0) == 1
  {
  }

  /** Zero and one are their own roots, so the loop is entered with prod below newN. */
  lemma SmallestRoot(x: nat, r: nat, d: nat)
    requires d >= 1 && Pow(r, d) <= x < Pow(r + 1, d) && Pow(r, d) != x
    ensures x > 1
  {
    PowOne(d);
    assert Pow(0, d) == 0 * Pow(0, d - 1);
    if r >= 1 { PowPositive(r, d); }
  }

  lemma Shaped(r: nat, d: nat, j: nat, newN: nat)
    requires d >= 1 && 1 <= j <= d && newN < Pow(r + 1, d)
    requires ProductOf(Factors(r, d, j)) >= newN || j == d
    requires ProductOf(Factors(r, d, j - 1)) < newN
    ensures GoodShape(Factors(r, d, j), newN, d)
  {
    hide ProductOf, Pow;
    var dn := Factors(r, d, j);
    if j == d {
      FactorsProduct(r, d, d);
      PowZero(r);
    }
    assert dn[j - 1 := dn[j - 1] - 1] == Factors(r, d, j - 1);
    assert LastIncrement(dn, j);
  }

  // -------------------------------------------------------- ciphertexts in a reply

  /** Bit sizes of all levels: Tp(i) is absorption[i] and Tcr(i) is cipher[i + 1]. The client
      divides them by eight, so every absorption size has a whole byte. */
  ghost predicate Sizes(absorption: seq<nat>, cipher: seq<nat>, d: nat) {
    d <= |absorption| && d < |cipher| && forall i :: 0 <= i < d ==> absorption[i] >= 8
  }

  /** eltSize, in bits. */
  function EltSize(l: nat, alpha: nat, i: nat, absorption: seq<nat>, cipher: seq<nat>): nat
    requires Sizes(absorption, cipher, i)
  {
    if i == 0 then l * alpha else CeilDiv(EltSize(l, alpha, i - 1, absorption, cipher), absorption[i - 1]) * cipher[i]
  }

  /** The number of ciphertexts of the last level, by the optimizer's recursion. */
  function Packets(F: nat, alpha: nat, d: nat, absorption: seq<nat>, cipher: seq<nat>): nat
    requires d >= 1 && Sizes(absorption, cipher, d)
  {
    CeilDiv(EltSize(8 * F, alpha, d - 1, absorption, cipher), absorption[d - 1])
  }

  lemma PacketsSize(F: nat, alpha: nat, d: nat, absorption: seq<nat>, cipher: seq<nat>)
    requires d >= 1 && Sizes(absorption, cipher, d)
    ensures Packets(F, alpha, d, absorption, cipher) * cipher[d] == EltSize(8 * F, alpha, d, absorption, cipher)
  {
  }

  /** The number that the client computes, on sizes in bytes. */
  function ClientCount(F: nat, alpha: nat, d: nat, absorption: seq<nat>, cipher: seq<nat>): nat
    requires d >= 1 && Sizes(absorption, cipher, d)
  {
    if d == 1 then CeilDiv(F * alpha, absorption[0] / 8)
    else CeilDiv(ClientCount(F, alpha, d - 1, absorption, cipher) * (cipher[d - 1] / 8), absorption[d - 1] / 8)
  }

  /** The counting loop of the client's download. */
  method DownloadCount(F: nat, alpha: nat, d: nat, absorption: seq<nat>, cipher: seq<nat>) returns (count: nat)
    requires d >= 1 && Sizes(absorption, cipher, d)
    ensures count == ClientCount(F, alpha, d, absorption, cipher)
    ensures LevelsAgree(d, absorption, cipher) ==>
      count * cipher[d] == EltSize(8 * F, alpha, d, absorption, cipher)
  {
    hide CeilDiv, EltSize, LevelsAgree;
    count := CeilDiv(F * alpha, absorption[0] / 8);
    for i := 1 to d
      invariant count == ClientCount(F, alpha, i, absorption, cipher)
    {
      count := CeilDiv(count * (cipher[i] / 8), absorption[i] / 8);
    }
    if LevelsAgree(d, absorption, cipher) {
      CountsAgree(F, alpha, d, absorption, cipher);
      PacketsSize(F, alpha, d, absorption, cipher);
    }
  }

  // ------------------------------------------------- when the two counts agree

  /** Dividing C and A by eight does not change their ratio. */
  predicate SameRatio(C: nat, A: nat) {
    (C / 8) * A == C * (A / 8)
  }

  /** Quotients with the same ratio round up to the same number. */
  lemma CeilRatio(x: nat, a: nat, y: nat, A: nat)
    requires a > 0 && A > 0 && x * A == y * a
    ensures CeilDiv(x, a) == CeilDiv(y, A)
  {
    var q := CeilDiv(x, a);
    if x == 0 {
      assert y == 0 by { if y > 0 { MulMono(1, y, a); } }
    } else {
      ScaleLess((q - 1) * a, x, (q - 1) * A, y, a, A);
      ScaleLeast(x, q * a, y, q * A, a, A);
      CeilDivUnique(y, A, q);
    }
  }

  lemma ScaleLess(u: int, x: int, v: int, y: int, a: int, A: int)
    requires a > 0 && A > 0 && u < x && x * A == y * a && u * A == v * a
    ensures v < y
  {
    MulMono(u + 1, x, A);
    if v >= y { MulMono(y, v, a); }
  }

  lemma ScaleLeast(x: int, u: int, y: int, v: int, a: int, A: int)
    requires a > 0 && A > 0 && x <= u && x * A == y * a && u * A == v * a
    ensures y <= v
  {
    MulMono(x, u, A);
    if y > v { MulMono(v + 1, y, a); }
  }

  lemma CeilExact(q: nat, d: nat)
    requires d > 0
    ensures 0 <= q * d && CeilDiv(q * d, d) == q
  {
    MulMono(0, q, d);
    if q > 0 { assert (q - 1) * d == q * d - d; }
    CeilDivUnique(q * d, d, q);
  }

  /** One level: the client's byte sizes give the optimizer's count for every number of
      ciphertexts if and only if rounding the two sizes to bytes keeps their ratio. */
  lemma LevelAgreesIff(C: nat, A: nat)
    requires A >= 8
    ensures (forall p: nat :: CeilDiv(p * (C / 8), A / 8) == CeilDiv(p * C, A)) <==> SameRatio(C, A)
  {
    hide CeilDiv;
    var c, a := C / 8, A / 8;
    if SameRatio(C, A) {
      forall p: nat ensures CeilDiv(p * c, a) == CeilDiv(p * C, A) {
        Associate(p, c, A);
        Associate(p, C, a);
        CeilRatio(p * c, a, p * C, A);
      }
    } else {
      var p := A * a;
      MulMono(0, A, c);
      MulMono(0, a, C);
      Associate(A * c, a, 1);
      assert p * c == (A * c) * a by { Associate(A, a, c); Associate(A, c, a); }
      assert p * C == (a * C) * A by { Associate(a, A, C); Associate(a, C, A); }
      CeilExact(A * c, a);
      CeilExact(a * C, A);
      assert CeilDiv(p * (C / 8), A / 8) != CeilDiv(p * C, A);
    }
  }

  /** The first level, whose input is a number of bytes. */
  lemma FirstLevelAgreesIff(A: nat)
    requires A >= 8
    ensures (forall F: nat :: CeilDiv(F, A / 8) == CeilDiv(8 * F, A)) <==> A % 8 == 0
  {
    hide CeilDiv;
    LevelAgreesIff(8, A);
    if forall F: nat :: CeilDiv(F, A / 8) == CeilDiv(8 * F, A) {
      forall p: nat ensures CeilDiv(p * (8 / 8), A / 8) == CeilDiv(p * 8, A) {
        assert CeilDiv(p, A / 8) == CeilDiv(8 * p, A);
      }
    }
    if A % 8 == 0 {
      forall F: nat ensures CeilDiv(F, A / 8) == CeilDiv(8 * F, A) {
        assert CeilDiv(F * (8 / 8), A / 8) == CeilDiv(F * 8, A);
      }
    }
  }

  /** The first absorption size is whole bytes, and every later level keeps its ratio. */
  ghost predicate LevelsAgree(d: nat, absorption: seq<nat>, cipher: seq<nat>)
    requires d >= 1 && Sizes(absorption, cipher, d)
  {
    absorption[0] % 8 == 0 && forall i :: 1 <= i < d ==> SameRatio(cipher[i], absorption[i])
  }

  /** Then the client counts what the optimizer counts, for every element size. */
  lemma {:induction false} CountsAgree(F: nat, alpha: nat, d: nat, absorption: seq<nat>, cipher: seq<nat>)
    requires d >= 1 && Sizes(absorption, cipher, d) && LevelsAgree(d, absorption, cipher)
    ensures ClientCount(F, alpha, d, absorption, cipher) == Packets(F, alpha, d, absorption, cipher)
  {
    hide CeilDiv;
    if d == 1 {
      FirstLevelAgreesIff(absorption[0]);
      MulMono(0, F, alpha);
      assert CeilDiv(F * alpha, absorption[0] / 8) == CeilDiv(8 * (F * alpha), absorption[0]);
      Associate(8, F, alpha);
      assert EltSize(8 * F, alpha, 0, absorption, cipher) == (8 * F) * alpha;
    } else {
      CountsAgree(F, alpha, d - 1, absorption, cipher);
      LevelAgreesIff(cipher[d - 1], absorption[d - 1]);
      PacketsSize(F, alpha, d - 1, absorption, cipher);
    }
  }

  // ----------------------------------------------- the sizes of the schemes

  /** Damgard-Jurik with a key of K bits, which the parameter string may set to any number, whose
      plaintexts start at n^initS. */
  function PaillierAbsorption(K: nat, d: nat): (r: seq<nat>)
    requires K >= 8
  {
    seq(d, i requires 0 <= i < d => if i == 0 then K - 8 else K * (i + 1))
  }

  function PaillierCipher(K: nat, initS: nat, d: nat): (r: seq<nat>) {
    seq(d, i requires 0 <= i < d => (i + initS) * K)
  }

  lemma PaillierSizes(K: nat, initS: nat, d: nat)
    requires K >= 16 && d >= 1
    ensures Sizes(PaillierAbsorption(K, d), PaillierCipher(K, initS, d + 1), d)
  {
    forall i | 1 <= i < d ensures PaillierAbsorption(K, d)[i] >= 8 { MulMono(1, i + 1, K); }
  }

  predicate PaillierAgrees(F: nat, alpha: nat, K: nat, initS: nat, d: nat)
    requires K >= 16 && d >= 1
  {
    PaillierSizes(K, initS, d);
    ClientCount(F, alpha, d, PaillierAbsorption(K, d), PaillierCipher(K, initS, d + 1))
    == Packets(F, alpha, d, PaillierAbsorption(K, d), PaillierCipher(K, initS, d + 1))
  }

  /** For every depth of recursion, first level and number of aggregated files, as far as the table
      of powers reaches, client and optimizer agree on all element sizes if and only if the key is
      a whole number of bytes. */
  lemma PaillierCountsAgreeIff(alpha: nat, K: nat, initS: nat, d: nat)
    requires K >= 16 && d >= 1 && initS >= 1 && alpha >= 1 && (initS <= 3 || d <= 3)
    ensures (forall F: nat :: PaillierAgrees(F, alpha, K, initS, d)) <==> K % 8 == 0
  {
    hide CeilDiv, ClientCount, Packets;
    if K % 8 == 0 {
      forall F: nat ensures PaillierAgrees(F, alpha, K, initS, d) { WholeKeyAgrees(F, alpha, K, initS, d); }
    } else {
      var F := DisagreeingSize(alpha, K, initS, d);
      assert !PaillierAgrees(F, alpha, K, initS, d);
    }
  }

  /** Whole bytes suffice, however deep the recursion. */
  lemma WholeKeyAgrees(F: nat, alpha: nat, K: nat, initS: nat, d: nat)
    requires K >= 16 && d >= 1 && K % 8 == 0
    ensures PaillierAgrees(F, alpha, K, initS, d)
  {
    hide CeilDiv, ClientCount, Packets;
    var absorption, cipher := PaillierAbsorption(K, d), PaillierCipher(K, initS, d + 1);
    PaillierSizes(K, initS, d);
    forall i | 1 <= i < d ensures SameRatio(cipher[i], absorption[i]) {
      WholeProduct(K, i + initS);
      WholeProduct(K, i + 1);
      WholeRatio(cipher[i], absorption[i]);
    }
    CountsAgree(F, alpha, d, absorption, cipher);
  }

  /** The bytes of n keys. */
  function Whole(n: nat, K: nat): nat {
    MulMono(0, n, K);
    (n * K) / 8
  }

  /** The product of s + 1, ..., s + k - 1. */
  function Rise(s: nat, k: nat): nat {
    if k <= 1 then 1 else MulMono(0, Rise(s, k - 1), k - 1 + s); Rise(s, k - 1) * (k - 1 + s)
  }

  /** The product of the bytes of s + 1, ..., s + k - 1 keys. */
  function WholeRise(K: nat, s: nat, k: nat): nat {
    if k <= 1 then 1 else
    MulMono(0, WholeRise(K, s, k - 1), Whole(k - 1 + s, K));
    WholeRise(K, s, k - 1) * Whole(k - 1 + s, K)
  }

  /** The product of k + 1, ..., d. */
  function Tail(k: nat, d: nat): nat
    decreases d - k
  {
    if k >= d then 1 else MulMono(0, k + 1, Tail(k + 1, d)); (k + 1) * Tail(k + 1, d)
  }

  lemma {:induction false} RiseTail(k: nat, d: nat)
    requires 1 <= k <= d
    ensures Rise(1, k) * Tail(k, d) == Rise(1, d)
    decreases d - k
  {
    if k < d {
      RiseTail(k + 1, d);
      Associate(Rise(1, k), k + 1, Tail(k + 1, d));
    }
  }

  /** On a size that all divisions divide, the optimizer's count is exact. */
  lemma {:induction false} ExactPackets(alpha: nat, K: nat, initS: nat, d: nat, k: nat, F: nat)
    requires K >= 16 && 1 <= k <= d && F == ((K - 8) * ((K - 8) / 8)) * Rise(1, d)
    ensures Sizes(PaillierAbsorption(K, d), PaillierCipher(K, initS, d + 1), k)
    ensures Packets(F, alpha, k, PaillierAbsorption(K, d), PaillierCipher(K, initS, d + 1))
      == (8 * ((K - 8) / 8) * alpha) * (Rise(initS, k) * Tail(k, d))
  {
    hide CeilDiv, PaillierAbsorption, PaillierCipher;
    var absorption, cipher := PaillierAbsorption(K, d), PaillierCipher(K, initS, d + 1);
    var A, a := K - 8, (K - 8) / 8;
    PaillierSizes(K, initS, d);
    LevelSizes(K, initS, d, k - 1);
    if k == 1 {
      RiseTail(1, d);
      FirstExact(A, a, Rise(1, d), alpha, F);
      CeilExact((8 * a * alpha) * Rise(1, d), A);
    } else {
      ExactPackets(alpha, K, initS, d, k - 1, F);
      PacketsSize(F, alpha, k - 1, absorption, cipher);
      var B, S, T := 8 * a * alpha, Rise(initS, k - 1), Tail(k, d);
      MulMono(0, 8 * a, alpha);
      LevelExact(B, S, T, k, k - 1 + initS, K);
      MulMono(0, S * (k - 1 + initS), T);
      MulMono(0, B, (S * (k - 1 + initS)) * T);
      MulMono(1, k, K);
      CeilExact(B * ((S * (k - 1 + initS)) * T), K * k);
    }
  }

  lemma FirstExact(A: nat, a: nat, R: nat, alpha: nat, F: nat)
    requires F == (A * a) * R
    ensures 0 <= (8 * a * alpha) * R && (8 * F) * alpha == ((8 * a * alpha) * R) * A
    ensures F * alpha == (A * (R * alpha)) * a
  {
    MulMono(0, 8 * a, alpha);
    MulMono(0, 8 * a * alpha, R);
    var w := R * alpha;
    assert F * alpha == (A * a) * w by { Associate(A * a, R, alpha); }
    assert (A * a) * w == (A * w) * a by { Associate(A, a, w); Associate(A, w, a); }
    assert (8 * a * alpha) * R == (8 * a) * w by { Associate(8 * a, alpha, R); }
    assert ((8 * a) * w) * A == 8 * ((A * w) * a) by { Associate(8, a, w); Associate(A, w, a); }
    assert (8 * F) * alpha == 8 * (F * alpha);
  }

  lemma LevelExact(B: int, S: int, T: int, k: int, c: int, K: int)
    ensures (B * (S * (k * T))) * (c * K) == (B * ((S * c) * T)) * (K * k)
  {
    assert S * (k * T) == k * (S * T) by { Associate(S, k, T); Associate(k, S, T); }
    assert (S * c) * T == c * (S * T) by { Associate(c, S, T); }
    var w := S * T;
    assert B * (k * w) == (B * w) * k by { Associate(B, w, k); }
    assert B * (c * w) == (B * w) * c by { Associate(B, w, c); }
    MulSwap(B * w, k, c, K);
    MulSwap(B * w, c, K, k);
    MulSwap(B * w, k, K, c);
    MulSwap(B * w, c, k, K);
    Associate((B * w) * c, k, K);
  }

  lemma LevelSizes(K: nat, initS: nat, d: nat, i: nat)
    requires K >= 16 && i < d
    ensures |PaillierAbsorption(K, d)| == d && |PaillierCipher(K, initS, d + 1)| == d + 1
    ensures PaillierAbsorption(K, d)[i] == (if i == 0 then K - 8 else K * (i + 1))
    ensures PaillierCipher(K, initS, d + 1)[i] == (i + initS) * K
  {
  }

  /** On the same size, the client's count is no smaller than its ratios say. */
  lemma {:induction false} ClientAtLeast(alpha: nat, K: nat, initS: nat, d: nat, k: nat, F: nat)
    requires K >= 16 && 1 <= k <= d && F == ((K - 8) * ((K - 8) / 8)) * Rise(1, d)
    ensures Sizes(PaillierAbsorption(K, d), PaillierCipher(K, initS, d + 1), k)
    ensures ClientCount(F, alpha, k, PaillierAbsorption(K, d), PaillierCipher(K, initS, d + 1)) * WholeRise(K, 1, k)
      >= ((K - 8) * (Rise(1, d) * alpha)) * WholeRise(K, initS, k)
  {
    hide CeilDiv, PaillierAbsorption, PaillierCipher, Whole;
    var absorption, cipher := PaillierAbsorption(K, d), PaillierCipher(K, initS, d + 1);
    var A, a := K - 8, (K - 8) / 8;
    PaillierSizes(K, initS, d);
    LevelSizes(K, initS, d, k - 1);
    if k == 1 {
      FirstExact(A, a, Rise(1, d), alpha, F);
      MulMono(0, Rise(1, d), alpha);
      MulMono(0, A, Rise(1, d) * alpha);
      CeilExact(A * (Rise(1, d) * alpha), a);
    } else {
      ClientAtLeast(alpha, K, initS, d, k - 1, F);
      var x, c, b := ClientCount(F, alpha, k - 1, absorption, cipher), cipher[k - 1] / 8, absorption[k - 1] / 8;
      WholeIs(K, k - 1 + initS);
      WholeIs(K, k);
      assert K * k == k * K;
      MulMono(0, x, c);
      CeilAtLeast(x * c, b);
      RatioStep(x, CeilDiv(x * c, b), c, b, WholeRise(K, 1, k - 1), WholeRise(K, initS, k - 1),
                A * (Rise(1, d) * alpha));
    }
  }

  lemma WholeIs(K: nat, n: nat)
    ensures Whole(n, K) == (n * K) / 8
  {
  }

  lemma CeilAtLeast(x: nat, b: nat)
    requires b > 0
    ensures CeilDiv(x, b) * b >= x
  {
  }

  lemma RatioStep(x: nat, y: nat, c: nat, b: nat, V: nat, U: nat, G: int)
    requires x * V >= G * U && y * b >= x * c
    ensures y * (V * b) >= G * (U * c)
  {
    MulMono(x * c, y * b, V);
    MulMono(G * U, x * V, c);
    assert y * (V * b) == (y * b) * V by { Associate(y, b, V); }
    assert (x * c) * V == (x * V) * c by { Associate(x, c, V); Associate(x, V, c); }
    Associate(G, U, c);
  }

  // ------------------------------------- why partial bytes make the client ask for more

  /** n keys take at least n times the bytes of one, and at most n*K/8. */
  lemma WholeBounds(n: nat, m: nat, K: nat)
    ensures Whole(n, K) + Whole(m, K) <= Whole(n + m, K) && 8 * Whole(n, K) <= n * K
  {
    assert (n + m) * K == n * K + m * K;
  }

  lemma {:induction false} WholeMultiple(n: nat, K: nat)
    ensures n * Whole(1, K) <= Whole(n, K)
  {
    hide Whole;
    if n > 0 {
      WholeMultiple(n - 1, K);
      WholeBounds(n - 1, 1, K);
    }
  }

  lemma {:induction false} EvenMultiple(n: nat, K: nat)
    ensures n * Whole(2, K) <= Whole(2 * n, K)
  {
    hide Whole;
    if n > 0 {
      EvenMultiple(n - 1, K);
      WholeBounds(2 * (n - 1), 2, K);
    }
  }

  /** Per key, one of two consecutive numbers of keys does as well as two, the other as one. */
  lemma Consecutive(n: nat, K: nat)
    ensures n * (n + 1) * (Whole(1, K) * Whole(2, K)) <= 2 * (Whole(n, K) * Whole(n + 1, K))
  {
    hide Whole;
    var u, v := Whole(1, K), Whole(2, K);
    if n % 2 == 0 {
      var h := n / 2;
      EvenMultiple(h, K);
      WholeMultiple(n + 1, K);
      PairBound(h, n + 1, v, u, Whole(n, K), Whole(n + 1, K));
      Reorder(h, n, n + 1, u, v);
    } else {
      var h := (n + 1) / 2;
      EvenMultiple(h, K);
      WholeMultiple(n, K);
      PairBound(h, n, v, u, Whole(n + 1, K), Whole(n, K));
      Reorder(h, n + 1, n, u, v);
      assert n * (n + 1) == (n + 1) * n;
    }
  }

  lemma PairBound(h: nat, n: nat, v: nat, u: nat, x: nat, y: nat)
    requires h * v <= x && n * u <= y
    ensures (h * v) * (n * u) <= x * y
  {
    MulMono(0, n, u);
    MulMono(0, h, v);
    MulMono(h * v, x, n * u);
    MulMono(n * u, y, x);
  }

  lemma Reorder(h: int, n: int, m: int, u: int, v: int)
    requires n == 2 * h
    ensures 2 * ((h * v) * (m * u)) == n * m * (u * v)
  {
    MulSwap(h, v, m, u);
    Associate(2, h * m, v * u);
    Associate(2, h, m);
    assert v * u == u * v;
  }

  /** The ratio of the client's factors to the optimizer's, for one key of K bits: at least that of
      Whole(1, K) to K/8. */
  lemma RatioBound(K: nat, s: nat, d: nat)
    requires s >= 1 && d >= 1 && (s <= 3 || d <= 3) && K >= 16
    ensures 8 * Whole(1, K) * (Rise(s, d) * WholeRise(K, 1, d)) <= K * (Rise(1, d) * WholeRise(K, s, d))
  {
    hide Whole, Rise, WholeRise;
    if s <= 3 {
      SmallStart(K, s, d);
    } else {
      SmallDepth(K, s, d);
    }
  }

  lemma SmallDepth(K: nat, s: nat, d: nat)
    requires s >= 1 && 1 <= d <= 3 && K >= 8
    ensures 8 * Whole(1, K) * (Rise(s, d) * WholeRise(K, 1, d)) <= K * (Rise(1, d) * WholeRise(K, s, d))
  {
    hide Whole;
    var u, v := Whole(1, K), Whole(2, K);
    WholeBounds(1, 0, K);
    WholeBounds(2, 0, K);
    WholeBounds(3, 0, K);
    if d == 1 {
    } else if d == 2 {
      assert Rise(s, 2) == s + 1 && WholeRise(K, 1, 2) == v && Rise(1, 2) == 2 && WholeRise(K, s, 2) == Whole(s + 1, K);
      WholeMultiple(s + 1, K);
      OneLevel(K, s + 1, u, v, Whole(s + 1, K));
    } else {
      assert Rise(s, 2) == s + 1 && Rise(s, 3) == (s + 1) * (s + 2) && Rise(1, 2) == 2 && Rise(1, 3) == 6;
      assert WholeRise(K, 1, 2) == v && WholeRise(K, 1, 3) == v * Whole(3, K);
      assert WholeRise(K, s, 2) == Whole(s + 1, K) && WholeRise(K, s, 3) == Whole(s + 1, K) * Whole(s + 2, K);
      Consecutive(s + 1, K);
      TwoLevels(K, (s + 1) * (s + 2), u, v, Whole(3, K), Whole(s + 1, K) * Whole(s + 2, K));
    }
  }

  lemma OneLevel(K: nat, n: nat, u: nat, v: nat, x: nat)
    requires n * u <= x && 8 * v <= 2 * K
    ensures 8 * u * (n * v) <= K * (2 * x)
  {
    assert 8 * u * (n * v) == (n * u) * (8 * v) by { MulSwap(u, 8, n, v); MulSwap(n, u, 8, v); Associate(8, u, n * v); }
    MulMono(0, n, u);
    MulMono(8 * v, 2 * K, n * u);
    MulMono(n * u, x, 2 * K);
  }

  lemma TwoLevels(K: nat, n: nat, u: nat, v: nat, w: nat, x: nat)
    requires n * (u * v) <= 2 * x && 8 * w <= 3 * K
    ensures 8 * u * (n * (v * w)) <= K * (6 * x)
  {
    var y := n * (u * v);
    assert 8 * u * (n * (v * w)) == y * (8 * w) by {
      Associate(n, v, w);
      MulSwap(8 * u, 1, n * v, w);
      assert (8 * u) * ((n * v) * w) == ((8 * u) * (n * v)) * w by { Associate(8 * u, n * v, w); }
      assert u * (n * v) == n * (u * v) by { Associate(u, n, v); Associate(n, u, v); }
      Associate(8, u, n * v);
      Associate(8, y, w);
    }
    MulMono(0, u, v);
    MulMono(0, n, u * v);
    MulMono(8 * w, 3 * K, y);
    MulMono(y, 2 * x, 3 * K);
  }

  /** The factors that the client's and the optimizer's products share cancel. */
  lemma {:induction false} Telescoped(K: nat, s: nat, d: nat)
    requires d >= 1 && s >= 1
    ensures (Rise(1, d) * WholeRise(K, s, d)) * (Rise(d, s) * WholeRise(K, 1, s))
         == (Rise(s, d) * WholeRise(K, 1, d)) * (Rise(1, s) * WholeRise(K, d, s))
  {
    hide Whole, Rise, WholeRise;
    RiseSwap(s, d);
    WholeSwap(K, s, d);
    CrossProducts(Rise(1, d), WholeRise(K, s, d), Rise(d, s), WholeRise(K, 1, s),
                  Rise(s, d), WholeRise(K, 1, d), Rise(1, s), WholeRise(K, d, s));
  }

  lemma CrossProducts(a: int, b: int, c: int, e: int, a': int, b': int, c': int, e': int)
    requires a * c == a' * c' && b * e == b' * e'
    ensures (a * b) * (c * e) == (a' * b') * (c' * e')
  {
    MulSwap(a, b, c, e);
    MulSwap(a', b', c', e');
  }

  /** Both sides are the product of 2, ..., s + d - 1. */
  lemma {:induction false} RiseSwap(s: nat, d: nat)
    requires s >= 1 && d >= 1
    ensures Rise(1, d) * Rise(d, s) == Rise(s, d) * Rise(1, s)
  {
    RiseJoin(d, s);
    RiseJoin(s, d);
  }

  lemma {:induction false} RiseJoin(d: nat, s: nat)
    requires s >= 1 && d >= 1
    ensures Rise(1, d) * Rise(d, s) == Rise(1, d + s - 1)
  {
    if s > 1 {
      RiseJoin(d, s - 1);
      Associate(Rise(1, d), Rise(d, s - 1), s - 1 + d);
    }
  }

  lemma WholeSwap(K: nat, s: nat, d: nat)
    requires s >= 1 && d >= 1
    ensures WholeRise(K, s, d) * WholeRise(K, 1, s) == WholeRise(K, 1, d) * WholeRise(K, d, s)
  {
    hide WholeRise;
    WholeJoin(K, d, s);
    WholeJoin(K, s, d);
    assert WholeRise(K, s, d) * WholeRise(K, 1, s) == WholeRise(K, 1, s) * WholeRise(K, s, d);
  }

  lemma {:induction false} WholeJoin(K: nat, d: nat, s: nat)
    requires s >= 1 && d >= 1
    ensures WholeRise(K, 1, d) * WholeRise(K, d, s) == WholeRise(K, 1, d + s - 1)
  {
    hide Whole;
    if s > 1 {
      WholeJoin(K, d, s - 1);
      Associate(WholeRise(K, 1, d), WholeRise(K, d, s - 1), Whole(s - 1 + d, K));
    }
  }

  /** So a small first level is a small depth seen from the other side. */
  lemma SmallStart(K: nat, s: nat, d: nat)
    requires 1 <= s <= 3 && d >= 1 && K >= 16
    ensures 8 * Whole(1, K) * (Rise(s, d) * WholeRise(K, 1, d)) <= K * (Rise(1, d) * WholeRise(K, s, d))
  {
    hide Whole, Rise, WholeRise;
    SmallDepth(K, d, s);
    Telescoped(K, s, d);
    PositiveProducts(K, 1, s);
    PositiveProducts(K, d, s);
    var U, V := Rise(1, d) * WholeRise(K, s, d), Rise(s, d) * WholeRise(K, 1, d);
    var U', V' := Rise(1, s) * WholeRise(K, d, s), Rise(d, s) * WholeRise(K, 1, s);
    MulMono(1, Rise(d, s), WholeRise(K, 1, s));
    MulMono(1, Rise(1, s), WholeRise(K, d, s));
    MulMono(0, Rise(s, d), WholeRise(K, 1, d));
    Transfer(8 * Whole(1, K), K, U, V, U', V');
  }

  lemma Transfer(w: nat, K: nat, U: int, V: int, U': int, V': int)
    requires V >= 0 && V' >= 1 && U * V' == V * U' && w * V' <= K * U'
    ensures w * V <= K * U
  {
    MulMono(w * V', K * U', V);
    assert (w * V') * V == (w * V) * V' by { Associate(w, V', V); Associate(w, V, V'); }
    assert (K * U') * V == (K * U) * V' by { Associate(K, U', V); Associate(K, U, V'); }
    if w * V > K * U { MulMono(K * U + 1, w * V, V'); }
  }

  /** Strict, because the first level rounds 8 bits less. */
  lemma StrictRatio(K: nat, U: nat, V: nat)
    requires K >= 16 && K % 8 != 0 && V >= 1 && 8 * Whole(1, K) * V <= K * U
    ensures 8 * ((K - 8) / 8) * V < (K - 8) * U
  {
    var k, A := K / 8, K - 8;
    assert Whole(1, K) == k && A / 8 == k - 1;
    assert K * U == A * U + 8 * U;
    if A * U <= 8 * (k - 1) * V {
      assert 8 * k * V == 8 * (k - 1) * V + 8 * V;
      assert V <= U;
      MulMono(V, U, A);
      assert A > 8 * (k - 1);
      MulMono(8 * (k - 1) + 1, A, V);
    }
  }

  lemma {:induction false} PositiveProducts(K: nat, s: nat, k: nat)
    requires K >= 16 && s >= 1
    ensures Rise(s, k) >= 1 && WholeRise(K, s, k) >= 1
  {
    if k > 1 {
      hide Whole;
      PositiveProducts(K, s, k - 1);
      WholeMultiple(k - 1 + s, K);
      WholeIs(K, 1);
      MulMono(1, k - 1 + s, Whole(1, K));
      MulMono(1, Rise(s, k - 1), k - 1 + s);
      MulMono(1, WholeRise(K, s, k - 1), Whole(k - 1 + s, K));
    }
  }

  /** A size on which the client asks for more than the server sends. */
  lemma DisagreeingSize(alpha: nat, K: nat, initS: nat, d: nat) returns (F: nat)
    requires K >= 16 && K % 8 != 0 && d >= 1 && initS >= 1 && alpha >= 1 && (initS <= 3 || d <= 3)
    ensures !PaillierAgrees(F, alpha, K, initS, d)
  {
    hide ClientCount, Packets, Rise, WholeRise, Whole, CeilDiv;
    var A, a := K - 8, (K - 8) / 8;
    MulMono(0, A, a);
    MulMono(0, A * a, Rise(1, d));
    F := (A * a) * Rise(1, d);
    ExactPackets(alpha, K, initS, d, d, F);
    ClientAtLeast(alpha, K, initS, d, d, F);
    NoTail(d);
    RatioBound(K, initS, d);
    PositiveProducts(K, initS, d);
    PositiveProducts(K, 1, d);
    var G, S, U, V := Rise(1, d), Rise(initS, d), WholeRise(K, initS, d), WholeRise(K, 1, d);
    MulMono(1, S, V);
    MulMono(0, G, U);
    StrictRatio(K, G * U, S * V);
    LastComparison(A, a, alpha, G, S, U, V);
  }

  lemma NoTail(d: nat)
    ensures Tail(d, d) == 1
  {
  }

  lemma LastComparison(A: nat, a: nat, alpha: nat, G: nat, S: nat, U: nat, V: nat)
    requires alpha >= 1 && 8 * a * (S * V) < A * (G * U)
    ensures ((8 * a * alpha) * (S * 1)) * V < (A * (G * alpha)) * U
  {
    var x, y := 8 * a * (S * V), A * (G * U);
    MulMono(x + 1, y, alpha);
    assert ((8 * a * alpha) * (S * 1)) * V == x * alpha by {
      Associate(8 * a * alpha, S, V);
      Associate(8 * a, alpha, S * V);
      Associate(8 * a, S * V, alpha);
    }
    assert (A * (G * alpha)) * U == y * alpha by {
      Associate(A, G * alpha, U);
      Associate(G, alpha, U);
      Associate(G, U, alpha);
      Associate(A, G * U, alpha);
    }
  }

  /** A key of 1020 bits absorbs 1012 of them: the client expects three ciphertexts for an
      element of 253 bytes, and the server sends two. */
  lemma PartialBytes()
    ensures Sizes(PaillierAbsorption(1020, 1), PaillierCipher(1020, 1, 2), 1)
    ensures ClientCount(253, 1, 1, PaillierAbsorption(1020, 1), PaillierCipher(1020, 1, 2)) == 3
    ensures Packets(253, 1, 1, PaillierAbsorption(1020, 1), PaillierCipher(1020, 1, 2)) == 2
  {
  }

  /** Ring-LWE sizes are whole bytes for every degree that is a multiple of eight. */
  lemma LweCountsAgree(F: nat, alpha: nat, d: nat, degree: nat, bits: nat, nbModuli: nat,
                       absorption: seq<nat>, cipher: seq<nat>)
    requires d >= 1 && degree % 8 == 0 && degree > 0 && bits > 0 && |absorption| == d && |cipher| == d + 1
    requires forall i :: 0 <= i < d ==> absorption[i] == degree * bits
    requires forall i :: 0 <= i <= d ==> cipher[i] == CeilDiv(60 * nbModuli, 64) * 64 * degree * 2
    ensures Sizes(absorption, cipher, d)
    ensures ClientCount(F, alpha, d, absorption, cipher) == Packets(F, alpha, d, absorption, cipher)
  {
    hide CeilDiv;
    var e := degree / 8;
    WholeProduct(degree, bits);
    var w := CeilDiv(60 * nbModuli, 64) * 64;
    WholeProduct(degree, w * 2);
    assert w * degree * 2 == degree * (w * 2);
    forall i | 1 <= i < d ensures SameRatio(cipher[i], absorption[i]) { WholeRatio(cipher[i], absorption[i]); }
    CountsAgree(F, alpha, d, absorption, cipher);
  }

  lemma WholeProduct(degree: nat, k: nat)
    requires degree % 8 == 0
    ensures 0 <= degree * k && (degree * k) % 8 == 0 && (degree > 0 && k > 0 ==> degree * k >= 8)
  {
    var e := degree / 8;
    MulMono(0, e, k);
    Associate(8, e, k);
    if degree > 0 && k > 0 { MulMono(1, e, k); }
  }

  lemma WholeRatio(C: nat, A: nat)
    requires C % 8 == 0 && A % 8 == 0
    ensures SameRatio(C, A)
  {
    var c, a := C / 8, A / 8;
    Associate(c, 8, a);
  }
}
