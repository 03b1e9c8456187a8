/** The Damgard-Jurik cryptosystem: encryption, decryption by iterated extraction, and the operations
    on ciphertexts. */
module Paillier {
  import opened Arith
  import opened Crt
  import opened Binomials
  import opened PaillierSpec
  import opened PaillierKeys
  import BitOps

  // ------------------------------------------------------------- ciphertexts

  /** c is (1+n)^m * r^(n^s) modulo n^(s+1). */
  ghost predicate Formed(c: int, m: nat, r: nat, n: nat, s: nat) {
    && n > 1 && Power(n, s + 1) > 0
    && Cong(c, Pow(1 + n, m) * Pow(r, Power(n, s)), Power(n, s + 1))
  }

  /** So formed, and the private exponent takes the random number to one modulo n. */
  ghost predicate Masked(c: int, m: nat, rho: nat, n: nat, s: nat, d: nat) {
    Formed(c, m, rho, n, s) && Cong(Pow(rho, d), 1, n)
  }

  ghost predicate Encrypts(c: int, m: nat, n: nat, s: nat, d: nat) {
    exists rho: nat :: Masked(c, m, rho, n, s, d)
  }

  /** enc, with the random number as an argument. */
  method Enc(pub: PubKey, m: nat, s: nat, r: nat, ghost n: nat) returns (c: nat)
    requires pub.Valid(n) && pub.g == n + 1 && n > 1 && s + 1 <= MAX_S
    modifies pub
    ensures pub.Valid(n) && pub.g == n + 1 && Formed(c, m, r, n, s) && c < Power(n, s + 1)
  {
    hide Pow, Cong;
    var N := pub.GetNj(s + 1, n);
    PowPositive(n, s + 1);
    PowNat(pub.g, m);
    var gm := Pow(pub.g, m) % N;
    var ns := pub.GetNj(s, n);
    var rns := Pow(r, ns) % N;
    CongMod(Pow(n + 1, m), N);
    CongMod(Pow(r, ns), N);
    CongMul(gm, Pow(n + 1, m), rns, Pow(r, ns), N);
    CongMod(gm * rns, N);
    c := (gm * rns) % N;
    CongTrans(c, gm * rns, Pow(1 + n, m) * Pow(r, ns), N);
  }

  lemma CongTrans(a: int, b: int, c: int, m: int)
    requires m > 0 && Cong(a, b, m) && Cong(b, c, m)
    ensures Cong(a, c, m)
  {
  }

  /** Raising to the private exponent removes the mask. */
  lemma Unmask(c: int, m: nat, rho: nat, n: nat, s: nat, d: nat)
    requires Masked(c, m, rho, n, s, d)
    ensures Cong(Pow(c, d), Pow(1 + n, m * d), Power(n, s + 1))
  {
    hide Pow, Cong;
    var N, ns := Power(n, s + 1), Power(n, s);
    var a, b := Pow(1 + n, m), Pow(rho, ns);
    PowPositive(n, s);
    CongPow(c, a * b, d, N);
    PowBaseMul(a, b, d);
    PowMul(1 + n, m, d);
    PowMul(rho, ns, d);
    PowMul(rho, d, ns);
    assert ns * d == d * ns;
    OnePower(Pow(rho, d), n, s);
    CongScale(Pow(b, d), 1, Pow(a, d), N);
    CongTrans(Pow(c, d), Pow(a, d) * Pow(b, d), Pow(a, d) * 1, N);
  }

  // ------------------------------------------------------------- decryption

  /** The small factorials that extraction divides by are invertible. */
  ghost predicate SmallFactorials(n: nat, s: nat) {
    n > 1 && forall k: nat :: 2 <= k <= s ==> Invertible(Factorial(k), n)
  }

  /** One round of extraction: from the exponent modulo n^(j-1) to the exponent modulo n^j. */
  method ExtractRound(pub: PubKey, cprime: nat, prev: nat, j: nat, ghost s: nat, ghost i: nat,
                      ghost n: nat) returns (cur: nat)
    requires pub.Valid(n) && 2 <= j <= s < MAX_S && SmallFactorials(n, s)
    requires Power(n, s + 1) > 0 && Cong(cprime, Pow(1 + n, i), Power(n, s + 1))
    requires Power(n, j - 1) > 0 && Cong(prev, i, Power(n, j - 1))
    modifies pub
    ensures pub.Valid(n) && pub.g == old(pub.g)
    ensures Power(n, j) > 0 && Cong(cur, i, Power(n, j)) && cur < Power(n, j)
  {
    hide Pow, Cong, Binom, TailSum, Factorial, Invertible, Power;
    var nj1 := pub.GetNj(j + 1, n);
    var n1 := pub.GetNj(1, n);
    var nj := pub.GetNj(j, n);
    RoundStart(cprime, i, n, s, j);
    cur := cprime % nj1;
    cur := cur - 1;
    cur := DivExact(cur, n1);
    cur := cur % nj;
    var k := 2;
    while k <= j
      invariant 2 <= k <= j + 1 && pub.Valid(n) && pub.g == old(pub.g) && cur < nj
      invariant Cong(cur, TailSum(i, n, j) - TailSum(i, n, k - 1) + i, nj)
    {
      var temp := Binom(prev, k);
      var nk := pub.GetNj(k - 1, n);
      temp := (temp * nk) % nj;
      RoundStep(cur, prev, i, n, j, k);
      cur := (cur - temp) % nj;
      k := k + 1;
    }
  }

  lemma RoundStart(cprime: nat, i: nat, n: nat, s: nat, j: nat)
    requires n > 1 && 2 <= j <= s && Power(n, s + 1) > 0 && Cong(cprime, Pow(1 + n, i), Power(n, s + 1))
    ensures Power(n, j) > 0 && Power(n, j + 1) > 0 && Power(n, 1) == n
    ensures cprime % Power(n, j + 1) >= 1 && (cprime % Power(n, j + 1) - 1) % n == 0
    ensures DivExact(cprime % Power(n, j + 1) - 1, n) % Power(n, j) < Power(n, j)
    ensures Cong(DivExact(cprime % Power(n, j + 1) - 1, n) % Power(n, j), TailSum(i, n, j) - TailSum(i, n, 1) + i,
                 Power(n, j))
  {
    hide Pow, Cong, TailSum;
    PowPositive(n, j + 1);
    PowPositive(n, j);
    SmallPowers(n);
    PowerTail(cprime, i, n, s, j);
    QuotientOfOne(cprime, TailSum(i, n, j), n, j);
    TailOne(i, n);
    var q := DivExact(cprime % Power(n, j + 1) - 1, n);
    CongMod(q, Power(n, j));
    CongTrans(q % Power(n, j), q, TailSum(i, n, j), Power(n, j));
  }

  lemma RoundStep(cur: nat, prev: nat, i: nat, n: nat, j: nat, k: nat)
    requires n > 1 && 2 <= k <= j && Power(n, j) > 0 && Power(n, j - 1) > 0 && Cong(prev, i, Power(n, j - 1))
    requires Invertible(Factorial(k), n) && Cong(cur, TailSum(i, n, j) - TailSum(i, n, k - 1) + i, Power(n, j))
    ensures var next := (cur - (Binom(prev, k) * Power(n, k - 1)) % Power(n, j)) % Power(n, j);
      0 <= next < Power(n, j) && Cong(next, TailSum(i, n, j) - TailSum(i, n, k) + i, Power(n, j))
  {
    hide Pow, Cong, Binom, TailSum, Factorial, Invertible;
    var M := Power(n, j);
    var exact := Binom(prev, k) * Power(n, k - 1);
    CongMod(exact, M);
    TermCong(i, prev, k, j, n);
    TailNext(i, n, k);
    CongTrans(exact % M, exact, Binom(i, k) * Pow(n, k - 1), M);
    CongSub(cur, TailSum(i, n, j) - TailSum(i, n, k - 1) + i, exact % M, Binom(i, k) * Pow(n, k - 1), M);
    CongMod(cur - exact % M, M);
    CongTrans((cur - exact % M) % M, cur - exact % M, TailSum(i, n, j) - TailSum(i, n, k) + i, M);
  }

  /** Exact division, as the arithmetic library provides it. */
  function DivExact(a: nat, b: nat): nat
    requires b > 0 && a % b == 0
  {
    BitOps.DivNonNegative(a, b);
    a / b
  }

  lemma TailNext(i: nat, n: int, k: nat)
    requires k >= 1
    ensures TailSum(i, n, k) == TailSum(i, n, k - 1) + Binom(i, k) * Pow(n, k - 1)
  {
  }

  /** The first approximation: correct modulo n, though only reduced modulo n^2. */
  lemma FirstRound(cprime: nat, i: nat, n: nat, s: nat)
    requires n > 1 && s >= 1 && Power(n, s + 1) > 0 && cprime < Power(n, s + 1)
    requires Cong(cprime, Pow(1 + n, i), Power(n, s + 1))
    ensures cprime >= 1 && (cprime - 1) % n == 0 && Power(n, 2) > 0 && Power(n, 1) == n
    ensures Cong(DivExact(cprime - 1, n) % Power(n, 2), i, Power(n, 1))
  {
    hide Pow, Cong, TailSum;
    PowPositive(n, s);
    PowPositive(n, 2);
    PowPositive(n, 1);
    SmallPowers(n);
    PowerTail(cprime, i, n, s, s);
    QuotientOfOne(cprime, TailSum(i, n, s), n, s);
    SmallMod(cprime, Power(n, s + 1));
    var a := (cprime - 1) / n;
    CongSmaller(a, TailSum(i, n, s), n, 1, s);
    TailModulo(i, n, s);
    CongTrans(a, TailSum(i, n, s), i, n);
    CongMod(a, Power(n, 2));
    CongSmaller(a % Power(n, 2), a, n, 1, 2);
    CongTrans(a % Power(n, 2), a, i, n);
  }

  /** dec: if the private power of c is (1+n)^i, the result times d is i modulo n^s. */
  method DecExponent(pub: PubKey, d: nat, c: nat, s: nat, ghost i: nat, ghost n: nat) returns (res: nat)
    requires pub.Valid(n) && n > 1 && 1 <= s < MAX_S && SmallFactorials(n, s) && Invertible(d, n)
    requires Power(n, s + 1) > 0 && Cong(Pow(c, d), Pow(1 + n, i), Power(n, s + 1))
    modifies pub
    ensures pub.Valid(n) && pub.g == old(pub.g)
    ensures Power(n, s) > 0 && res < Power(n, s) && Cong(res * d, i, Power(n, s))
  {
    hide Pow, Cong, Invertible, SmallFactorials, Power;
    PowNat(c, d);
    var ns1 := pub.GetNj(s + 1, n);
    var cprime := Pow(c, d) % ns1;
    CongMod(Pow(c, d), ns1);
    CongTrans(cprime, Pow(c, d), Pow(1 + n, i), ns1);
    SmallPowers(n);
    FirstRound(cprime, i, n, s);
    var n1 := pub.GetNj(1, n);
    var n2 := pub.GetNj(2, n);
    var prev: nat := DivExact(cprime - 1, n1) % n2;
    var cur := prev;
    var j := 2;
    while j <= s
      invariant 2 <= j <= s + 1 && pub.Valid(n) && pub.g == old(pub.g) && cur == prev
      invariant Power(n, j - 1) > 0 && Cong(prev, i, Power(n, j - 1))
    {
      cur := ExtractRound(pub, cprime, prev, j, s, i, n);
      prev := cur;
      j := j + 1;
    }
    var ns := pub.GetNj(s, n);
    InvertiblePower(d, n, s);
    BigModulus(n, s);
    var inv := Invert(d, ns);
    res := (cur * inv) % ns;
    Divided(cur, i, d, inv, ns);
  }

  /** dec on a ciphertext of m: for s up to MAX_S - 1, the plaintext modulo n^s. */
  method Dec(pub: PubKey, d: nat, c: nat, s: nat, ghost m: nat, ghost n: nat) returns (res: nat)
    requires pub.Valid(n) && 1 <= s < MAX_S && SmallFactorials(n, s) && Invertible(d, n) && Encrypts(c, m, n, s, d)
    modifies pub
    ensures pub.Valid(n) && pub.g == old(pub.g) && Power(n, s) > 0 && res == m % Power(n, s)
  {
    hide Pow, Cong, Invertible, SmallFactorials, Power;
    ghost var rho: nat :| Masked(c, m, rho, n, s, d);
    Unmask(c, m, rho, n, s, d);
    res := DecExponent(pub, d, c, s, m * d, n);
    InvertiblePower(d, n, s);
    Cancelled(res, m, d, Power(n, s));
  }

  lemma Cancelled(x: nat, m: nat, d: int, M: int)
    requires M > 0 && x < M && Invertible(d, M) && Cong(x * d, m * d, M)
    ensures x == m % M
  {
    var u :| Cong(d * u, 1, M);
    hide Cong;
    CongCancel(d, u, x, m, M);
    CongExact(x, m, M);
  }

  lemma BigModulus(n: nat, s: nat)
    requires n > 1 && s >= 1
    ensures Power(n, s) > 1
  {
    PowPositive(n, s - 1);
    assert Pow(n, s) == n * Pow(n, s - 1);
    MulMono(1, Pow(n, s - 1), n);
  }

  lemma Divided(x: int, i: int, d: int, inv: int, M: int)
    requires M > 1 && Cong(x, i, M) && Cong(d * inv, 1, M)
    ensures 0 <= (x * inv) % M < M && Cong(((x * inv) % M) * d, i, M)
  {
    hide Cong;
    var y := (x * inv) % M;
    CongMod(x * inv, M);
    CongScale(y, x * inv, d, M);
    Associate(x, inv, d);
    CongScale(d * inv, 1, x, M);
    assert x * (inv * d) == (d * inv) * x;
    CongTrans(y * d, (x * inv) * d, x, M);
    CongTrans(y * d, x, i, M);
  }

  // ---------------------------------------------- operations on ciphertexts

  /** e_add, with the ciphertext modulus N. */
  function EAdd(a: nat, b: nat, N: nat): nat
    requires N > 0
  {
    (a * b) % N
  }

  /** e_mul_const. */
  function EMulConst(a: nat, k: nat, N: nat): nat
    requires N > 0
  {
    Pow(a, k) % N
  }

  /** The sum of two ciphertexts carries the product of their masks. */
  lemma AddForms(a: nat, b: nat, x: nat, y: nat, r: nat, t: nat, n: nat, s: nat)
    requires Formed(a, x, r, n, s) && Formed(b, y, t, n, s)
    ensures Formed(EAdd(a, b, Power(n, s + 1)), x + y, r * t, n, s) && EAdd(a, b, Power(n, s + 1)) < Power(n, s + 1)
  {
    hide Pow, Cong, Power;
    var N, ns := Power(n, s + 1), Power(n, s);
    CongMul(a, Pow(1 + n, x) * Pow(r, ns), b, Pow(1 + n, y) * Pow(t, ns), N);
    MulSwap(Pow(1 + n, x), Pow(r, ns), Pow(1 + n, y), Pow(t, ns));
    PowAdd(1 + n, x, y);
    PowBaseMul(r, t, ns);
    CongMod(a * b, N);
    CongTrans((a * b) % N, a * b, Pow(1 + n, x + y) * Pow(r * t, ns), N);
  }

  lemma AddEncrypts(a: nat, b: nat, x: nat, y: nat, n: nat, s: nat, d: nat)
    requires Encrypts(a, x, n, s, d) && Encrypts(b, y, n, s, d)
    ensures Power(n, s + 1) > 0 && Encrypts(EAdd(a, b, Power(n, s + 1)), x + y, n, s, d)
  {
    hide Pow, Cong, Power, Formed, EAdd;
    var r: nat :| Masked(a, x, r, n, s, d);
    var t: nat :| Masked(b, y, t, n, s, d);
    FormedModulus(a, x, r, n, s);
    AddForms(a, b, x, y, r, t, n, s);
    PowBaseMul(r, t, d);
    CongMul(Pow(r, d), 1, Pow(t, d), 1, n);
    assert Masked(EAdd(a, b, Power(n, s + 1)), x + y, r * t, n, s, d);
  }

  lemma FormedModulus(c: int, m: nat, r: nat, n: nat, s: nat)
    requires Formed(c, m, r, n, s)
    ensures n > 1 && Power(n, s + 1) > 0
  {
  }

  /** A multiple carries a power of the mask. */
  lemma ScaleForms(a: nat, x: nat, r: nat, k: nat, n: nat, s: nat)
    requires Formed(a, x, r, n, s)
    ensures Pow(r, k) >= 0 && Formed(EMulConst(a, k, Power(n, s + 1)), x * k, Pow(r, k), n, s)
    ensures EMulConst(a, k, Power(n, s + 1)) < Power(n, s + 1)
  {
    hide Pow, Cong, Power;
    var N, ns := Power(n, s + 1), Power(n, s);
    CongPow(a, Pow(1 + n, x) * Pow(r, ns), k, N);
    PowBaseMul(Pow(1 + n, x), Pow(r, ns), k);
    PowMul(1 + n, x, k);
    PowMul(r, ns, k);
    PowMul(r, k, ns);
    assert ns * k == k * ns;
    PowNat(a, k);
    PowNat(r, k);
    CongMod(Pow(a, k), N);
    CongTrans(Pow(a, k) % N, Pow(a, k), Pow(1 + n, x * k) * Pow(Pow(r, k), ns), N);
  }

  lemma ScaleEncrypts(a: nat, x: nat, k: nat, n: nat, s: nat, d: nat)
    requires Encrypts(a, x, n, s, d)
    ensures Power(n, s + 1) > 0 && Encrypts(EMulConst(a, k, Power(n, s + 1)), x * k, n, s, d)
  {
    hide Pow, Cong, Power, Formed, EMulConst;
    var r: nat :| Masked(a, x, r, n, s, d);
    FormedModulus(a, x, r, n, s);
    ScaleForms(a, x, r, k, n, s);
    PowMul(r, k, d);
    PowMul(r, d, k);
    assert k * d == d * k;
    CongPow(Pow(r, d), 1, k, n);
    PowOne(k);
    assert Masked(EMulConst(a, k, Power(n, s + 1)), x * k, Pow(r, k), n, s, d);
  }

  /** A computation on ciphertexts, or on the plaintexts below them. */
  datatype Expr = Input(index: nat) | Add(left: Expr, right: Expr) | MulConst(arg: Expr, k: nat)

  ghost predicate Inputs(e: Expr, count: nat) {
    match e
    case Input(i) => i < count
    case Add(l, r) => Inputs(l, count) && Inputs(r, count)
    case MulConst(a, _) => Inputs(a, count)
  }

  function OnCiphers(e: Expr, cs: seq<nat>, N: nat): nat
    requires N > 0 && Inputs(e, |cs|)
  {
    match e
    case Input(i) => cs[i]
    case Add(l, r) => EAdd(OnCiphers(l, cs, N), OnCiphers(r, cs, N), N)
    case MulConst(a, k) => EMulConst(OnCiphers(a, cs, N), k, N)
  }

  function OnPlain(e: Expr, ms: seq<nat>): nat
    requires Inputs(e, |ms|)
  {
    match e
    case Input(i) => ms[i]
    case Add(l, r) => OnPlain(l, ms) + OnPlain(r, ms)
    case MulConst(a, k) => OnPlain(a, ms) * k
  }

  /** Every computation on ciphertexts encrypts the same linear combination of plaintexts. */
  lemma {:induction false} Homomorphic(e: Expr, cs: seq<nat>, ms: seq<nat>, n: nat, s: nat, d: nat)
    requires |cs| == |ms| && Inputs(e, |cs|) && Power(n, s + 1) > 0
    requires forall i :: 0 <= i < |cs| ==> Encrypts(cs[i], ms[i], n, s, d)
    ensures Encrypts(OnCiphers(e, cs, Power(n, s + 1)), OnPlain(e, ms), n, s, d)
  {
    hide Encrypts, Power, EAdd, EMulConst;
    var N := Power(n, s + 1);
    match e {
      case Input(i) =>
      case Add(l, r) =>
        Homomorphic(l, cs, ms, n, s, d);
        Homomorphic(r, cs, ms, n, s, d);
        AddEncrypts(OnCiphers(l, cs, N), OnCiphers(r, cs, N), OnPlain(l, ms), OnPlain(r, ms), n, s, d);
      case MulConst(a, k) =>
        Homomorphic(a, cs, ms, n, s, d);
        ScaleEncrypts(OnCiphers(a, cs, N), OnPlain(a, ms), k, n, s, d);
    }
  }

  /** The same computation on ciphertexts, then decrypted. */
  method DecryptExpression(pub: PubKey, d: nat, e: Expr, cs: seq<nat>, s: nat, ghost ms: seq<nat>, ghost n: nat)
    returns (res: nat)
    requires pub.Valid(n) && n > 1 && 1 <= s < MAX_S && SmallFactorials(n, s) && Invertible(d, n)
    requires |cs| == |ms| && Inputs(e, |cs|) && forall i :: 0 <= i < |cs| ==> Encrypts(cs[i], ms[i], n, s, d)
    modifies pub
    ensures pub.Valid(n) && pub.g == old(pub.g) && Power(n, s) > 0 && res == OnPlain(e, ms) % Power(n, s)
  {
    hide Encrypts, Power, SmallFactorials, Invertible;
    var N := pub.GetNj(s + 1, n);
    PowerPositive(n, s + 1);
    Homomorphic(e, cs, ms, n, s, d);
    res := Dec(pub, d, OnCiphers(e, cs, N), s, OnPlain(e, ms), n);
  }

  lemma PowerPositive(n: nat, s: nat)
    requires n > 1
    ensures Power(n, s) > 0
  {
    PowPositive(n, s);
  }
}
