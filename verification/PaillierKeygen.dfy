/** Key generation for the Damgard-Jurik cryptosystem: what two primes must be for decryption to
    undo encryption, and the whole path from primes to decrypted results. */
module PaillierKeygen {
  import opened Arith
  import opened Crt
  import opened Binomials
  import opened Primes
  import opened Lifting
  import opened PaillierSpec
  import opened PaillierKeys
  import opened Paillier
  import BitOps

  // --------------------------------------------------- least common multiples

  /** The least common multiple, as the product over the common divisor. */
  function Lcm(a: nat, b: nat): (l: nat)
    requires a > 0 && b > 0
  {
    BitOps.DivNonNegative(b, Gcd(a, b));
    a * (b / Gcd(a, b))
  }

  lemma LcmFacts(a: nat, b: nat)
    requires a > 0 && b > 0
    ensures Divides(a, Lcm(a, b)) && Divides(b, Lcm(a, b)) && Lcm(a, b) * Gcd(a, b) == a * b
  {
    hide Gcd;
    var g := Gcd(a, b);
    var k :| a == g * k;
    var l :| b == g * l;
    DivModUnique(b, l, 0, g);
    Associate(k, g, l);
    assert Lcm(a, b) == a * l && a * l == b * k by { Associate(g, k, l); }
    Associate(a, l, g);
  }

  /** Invertible modulo both factors, hence modulo the product. */
  lemma InvertibleBoth(a: int, p: int, q: int)
    requires p > 0 && q > 0 && p * q > 0 && Invertible(a, p) && Invertible(a, q)
    ensures Invertible(a, p * q)
  {
    var u :| Cong(a * u, 1, p);
    var w :| Cong(a * w, 1, q);
    var k := CongMultiple(a * u, 1, p);
    var l := CongMultiple(a * w, 1, q);
    var z := u + w - a * (u * w);
    InverseProduct(a, u, w, k * p, l * q);
    MulSwap(k, p, l, q);
    CongByMultiple(a * z, 1, -(k * l), p * q);
  }

  /** Primes of the same bit length: neither divides the other less one. */
  lemma NoCommonFactor(p: int, q: int)
    requires Prime(p) && Prime(q) && p > 2 && q > 2 && q < 2 * p
    ensures (q - 1) % p != 0
  {
    OddPrime(p);
    OddPrime(q);
    DivModEq(q - 1, p);
    var t := (q - 1) / p;
    if t >= 2 { MulMono(2, t, p); }
    if t <= 0 { MulMono(t, 0, p); }
  }

  lemma OddPrime(p: int)
    requires Prime(p) && p > 2
    ensures p % 2 == 1
  {
    var h := p / 2;
    assert !Divides(2, p);
    assert p != 2 * h;
  }

  lemma LambdaInvertibleOne(p: int, q: int)
    requires Prime(p) && Prime(q) && p > 2 && q > 2 && q < 2 * p
    ensures Invertible(Lcm(p - 1, q - 1), p)
  {
    hide Lcm, Gcd;
    NoCommonFactor(p, q);
    NotDivisibleInvertible(p, q - 1);
    PrimeInvertible(p, p - 1);
    InvertibleProduct(p - 1, q - 1, p);
    LcmFacts(p - 1, q - 1);
    FactorInvertible(Lcm(p - 1, q - 1), Gcd(p - 1, q - 1), p);
  }

  lemma FactorInvertible(a: int, b: int, m: int)
    requires m > 0 && Invertible(a * b, m)
    ensures Invertible(a, m)
  {
    var u :| Cong((a * b) * u, 1, m);
    Associate(a, b, u);
    assert Cong(a * (b * u), 1, m);
  }

  /** It divides every common multiple. */
  lemma LcmLeast(a: nat, b: nat, m: nat)
    requires a > 0 && b > 0 && Divides(a, m) && Divides(b, m)
    ensures Divides(Lcm(a, b), m)
  {
    hide Gcd, Lcm;
    var x :| m == a * x;
    var y :| m == b * y;
    var u, v := Bezout(a, b);
    LcmFacts(a, b);
    CommonMultiple(a, b, m, x, y, u, v, Gcd(a, b), Lcm(a, b));
    assert m == Lcm(a, b) * (u * y + v * x);
  }

  lemma CommonMultiple(a: int, b: int, m: int, x: int, y: int, u: int, v: int, g: int, l: int)
    requires g > 0 && m == a * x && m == b * y && u * a + v * b == g && l * g == a * b
    ensures m == l * (u * y + v * x)
  {
    calc {
      g * m;
      (u * a) * m + (v * b) * m;
      (u * a) * (b * y) + (v * b) * (a * x);
      (a * b) * (u * y + v * x);
      g * (l * (u * y + v * x));
    }
    CancelFactor(g, m, l * (u * y + v * x));
  }

  lemma CancelFactor(g: int, x: int, y: int)
    requires g > 0 && g * x == g * y
    ensures x == y
  {
    if x < y { MulMono(x + 1, y, g); }
    if y < x { MulMono(y + 1, x, g); }
  }

  lemma LcmSwap(a: nat, b: nat, p: int)
    requires a > 0 && b > 0 && p > 0 && Invertible(a * b, p)
    ensures Invertible(Lcm(a, b), p)
  {
    LcmFacts(a, b);
    FactorInvertible(Lcm(a, b), Gcd(a, b), p);
  }

  /** What the scheme needs of the key. */
  ghost predicate GoodKey(n: nat, d: nat) {
    && n > 1 && Invertible(d, n) && SmallFactorials(n, MAX_S - 1)
    && forall r: nat :: Invertible(r, n) ==> Cong(Pow(r, d), 1, n)
  }

  lemma PowerOfMultiple(r: nat, e: nat, d: nat, p: int)
    requires p > 0 && e > 0 && Divides(e, d) && Cong(Pow(r, e), 1, p)
    ensures Cong(Pow(r, d), 1, p)
  {
    var k :| d == e * k;
    if k < 0 { MulMono(k, -1, e); }
    PowMul(r, e, k);
    CongPow(Pow(r, e), 1, k, p);
    PowOne(k);
  }

  lemma InvertibleFactor(r: int, p: int, q: int)
    requires p > 0 && q > 0 && p * q > 0 && Invertible(r, p * q)
    ensures Invertible(r, p) && Invertible(r, q)
  {
    var u :| Cong(r * u, 1, p * q);
    CongFactor(r * u, 1, p, q);
    assert p * q == q * p;
    CongFactor(r * u, 1, q, p);
  }

  /** Carmichael's exponent, from Fermat's theorem for both primes. */
  lemma MaskVanishes(p: int, q: int, d: nat, r: nat)
    requires Prime(p) && Prime(q) && p != q && p * q > 0 && Invertible(r, p * q)
    requires Divides(p - 1, d) && Divides(q - 1, d)
    ensures Cong(Pow(r, d), 1, p * q)
  {
    hide Pow, Cong;
    InvertibleFactor(r, p, q);
    Fermat(p, r);
    Fermat(q, r);
    PowerOfMultiple(r, p - 1, d, p);
    PowerOfMultiple(r, q - 1, d, q);
    DifferentPrimes(p, q);
    CongCoprime(Pow(r, d), 1, p, q);
  }

  lemma DifferentPrimes(p: int, q: int)
    requires Prime(p) && Prime(q) && p != q
    ensures Invertible(p, q)
  {
    if p % q == 0 {
      DivModEq(p, q);
      assert p == q * (p / q);
      assert q < p ==> !Divides(q, p);
      if p < q { SmallMod(p, q); }
    }
    NotDivisibleInvertible(q, p);
  }

  lemma {:induction false} FactorialInvertible(p: int, k: nat)
    requires Prime(p) && k < p
    ensures Invertible(Factorial(k), p)
  {
    if k == 0 {
      InvertibleOne(p);
    } else {
      FactorialInvertible(p, k - 1);
      PrimeInvertible(p, k);
      InvertibleProduct(k, Factorial(k - 1), p);
    }
  }

  /** Primes above MAX_S of the same bit length. */
  ghost predicate KeyPrimes(p: nat, q: nat) {
    Prime(p) && Prime(q) && MAX_S < p && MAX_S < q && p < 2 * q && q < 2 * p
  }

  /** Two different primes of the same bit length make a good key. */
  lemma PrimesMakeKey(p: nat, q: nat)
    requires KeyPrimes(p, q) && p != q
    ensures GoodKey(p * q, Lcm(p - 1, q - 1))
  {
    hide Lcm, Prime, Invertible, Divides, SmallFactorials;
    var n, d := p * q, Lcm(p - 1, q - 1);
    KeyBasics(p, q);
    LcmFacts(p - 1, q - 1);
    forall r: nat | Invertible(r, n) ensures Cong(Pow(r, d), 1, n) { MaskVanishes(p, q, d, r); }
  }

  /** What holds for equal primes too: the exponent and the small factorials are invertible. */
  lemma KeyBasics(p: nat, q: nat)
    requires KeyPrimes(p, q)
    ensures p * q > 1 && Invertible(Lcm(p - 1, q - 1), p * q) && SmallFactorials(p * q, MAX_S - 1)
  {
    hide Lcm, Factorial, Prime, Invertible, Divides;
    var n, d := p * q, Lcm(p - 1, q - 1);
    MulMono(2, p, q);
    LambdaInvertibleOne(p, q);
    LambdaSymmetric(p, q);
    InvertibleBoth(d, p, q);
    forall k: nat | 2 <= k <= MAX_S - 1 ensures Invertible(Factorial(k), n) {
      FactorialInvertible(p, k);
      FactorialInvertible(q, k);
      InvertibleBoth(Factorial(k), p, q);
    }
  }

  lemma LambdaSymmetric(p: nat, q: nat)
    requires Prime(p) && Prime(q) && 2 < p && 2 < q && p < 2 * q
    ensures Invertible(Lcm(p - 1, q - 1), q)
  {
    hide Lcm;
    NoCommonFactor(q, p);
    NotDivisibleInvertible(q, p - 1);
    PrimeInvertible(q, q - 1);
    InvertibleProduct(p - 1, q - 1, q);
    LcmSwap(p - 1, q - 1, q);
  }

  /** The private exponent of a square, p - 1, leaves 1 + p at 1 - p. */
  lemma EqualPrimesFail(p: nat)
    requires p > 2
    ensures p * p > 0 && Lcm(p - 1, p - 1) == p - 1
    ensures Invertible(1 + p, p * p) && !Cong(Pow(1 + p, p - 1), 1, p * p)
  {
    hide Pow, Cong;
    MulMono(1, p, p);
    assert Lcm(p - 1, p - 1) == p - 1;
    SquareInverse(p);
    var k := LinearPower(p, p - 1);
    SquareResidue(p, k);
  }

  lemma SquareInverse(p: int)
    requires p * p > 0
    ensures Invertible(1 + p, p * p)
  {
    CongByMultiple((1 + p) * (1 - p), 1, -1, p * p);
  }

  lemma SquareResidue(p: int, k: int)
    requires p > 2 && p * p > 0
    ensures !Cong(1 + (p - 1) * p + k * (p * p), 1, p * p)
  {
    var x := 1 + (p - 1) * p + k * (p * p);
    if Cong(x, 1, p * p) {
      var l := CongMultiple(x, 1, p * p);
      assert x - 1 == (k + 1) * (p * p) - p by { assert (k + 1) * (p * p) == k * (p * p) + p * p; }
      var m := k + 1 - l;
      assert m * (p * p) == p by { assert m * (p * p) == (k + 1) * (p * p) - l * (p * p); }
      Associate(m, p, p);
      SquareTooLarge(m, p);
    }
  }

  lemma SquareTooLarge(m: int, p: int)
    requires p > 2
    ensures m * (p * p) != p
  {
    MulMono(2, p, p);
    if m >= 1 { MulMono(1, m, p * p); }
    if m <= 0 { MulMono(m, 0, p * p); }
  }

  /** All that decryption asks for holds exactly when the primes differ. */
  lemma GoodKeyIff(p: nat, q: nat)
    requires KeyPrimes(p, q)
    ensures GoodKey(p * q, Lcm(p - 1, q - 1)) <==> p != q
  {
    hide Lcm, Invertible, SmallFactorials, Pow, Cong;
    if p == q {
      EqualPrimesFail(p);
      var n, d: nat, r := p * q, p - 1, 1 + p;
      assert Invertible(r, n) && !Cong(Pow(r, d), 1, n);
    } else {
      PrimesMakeKey(p, q);
    }
  }

  lemma ResidueOfOne(n: nat, m: nat)
    requires n > 1
    ensures Cong(Pow(1 + n, m), 1, n)
  {
    CongByMultiple(1 + n, 1, 1, n);
    CongPow(1 + n, 1, m, n);
    PowOne(m);
  }

  /** Modulo n the private power of a ciphertext is that of the random number. */
  lemma PowerModulo(c: int, m: nat, r: nat, n: nat, s: nat, d: nat)
    requires Formed(c, m, r, n, s)
    ensures Power(n, s) * d >= 0 && Cong(Pow(c, d), Pow(r, Power(n, s) * d), n)
  {
    hide Pow, Cong;
    var ns := Power(n, s);
    PowPositive(n, s);
    PowPositive(n, 1);
    SmallPowers(n);
    CongSmaller(c, Pow(1 + n, m) * Pow(r, ns), n, 1, s + 1);
    ResidueOfOne(n, m);
    CongScale(Pow(1 + n, m), 1, Pow(r, ns), n);
    CongTrans(c, Pow(1 + n, m) * Pow(r, ns), 1 * Pow(r, ns), n);
    CongPow(c, Pow(r, ns), d, n);
    PowMul(r, ns, d);
    MulMono(0, ns, d);
  }

  /** With a good key, the private exponent removes the mask of exactly the invertible random
      numbers. */
  lemma MaskedIff(c: int, m: nat, r: nat, n: nat, s: nat, d: nat)
    requires GoodKey(n, d) && d >= 1 && Formed(c, m, r, n, s)
    ensures Masked(c, m, r, n, s, d) <==> Invertible(r, n)
  {
    hide Pow, Cong, SmallFactorials, Invertible, Formed, Power;
    if Cong(Pow(r, d), 1, n) { RootInvertible(r, d, n); }
  }

  lemma CongSymmetric(a: int, b: int, m: int)
    requires m > 0 && Cong(a, b, m)
    ensures Cong(b, a, m)
  {
  }

  lemma PositivePower(n: nat, s: nat)
    requires n > 1
    ensures Power(n, s) >= 1
  {
    PowPositive(n, s);
  }

  lemma RootInvertible(r: nat, e: nat, n: nat)
    requires n > 1 && e >= 1 && Cong(Pow(r, e), 1, n)
    ensures Invertible(r, n)
  {
    assert Cong(r * Pow(r, e - 1), 1, n);
  }

  // ------------------------------------------------------------- equal primes

  /** With n = p^2 the private exponent p - 1 does not remove the mask: it leaves a power of the
      generator, which vanishes only where r^(p-1) is one modulo n. */
  lemma SquareMask(r: nat, p: nat, s: nat) returns (e: nat)
    requires Prime(p) && p > 2 && s >= 1 && p * p > 1 && Invertible(r, p * p)
    ensures e == Pow(r, p - 1) - 1
    ensures Power(p * p, s) * (p - 1) >= 0 && e * Power(p * p, s - 1) >= 0 && Power(p * p, s + 1) > 0
    ensures Cong(Pow(r, Power(p * p, s) * (p - 1)), Pow(1 + p * p, e * Power(p * p, s - 1)), Power(p * p, s + 1))
  {
    hide Pow, Cong, Prime;
    var n, ns := p * p, Power(p * p, s);
    var x := Pow(r, p - 1);
    var t := FermatQuotient(r, p);
    e := t * p;
    OddPrime(p);
    SquareOf(p);
    SquarePowers(p, s);
    CongByMultiple(x, 1 + t * p, 0, n);
    LiftDigits(x, t, p, 2 * s);
    PowMul(r, p - 1, ns);
    PositivePower(n, s);
    MulMono(0, ns, p - 1);
    assert (p - 1) * ns == ns * (p - 1);
    assert t * (p * ns) == e * ns by { Associate(t, p, ns); }
    OddSquare(p);
    GeneratorPower(n, e, s);
    CongSymmetric(Pow(1 + n, e * Power(n, s - 1)), 1 + e * ns, Power(n, s + 1));
    CongTrans(Pow(x, ns), 1 + e * ns, Pow(1 + n, e * Power(n, s - 1)), Power(n, s + 1));
  }

  /** Fermat: r^(p-1) is 1 + t*p. */
  lemma FermatQuotient(r: nat, p: nat) returns (t: nat)
    requires Prime(p) && p * p > 1 && Invertible(r, p * p)
    ensures t * p >= 0 && Pow(r, p - 1) == 1 + t * p
  {
    hide Pow, Cong, Prime;
    InvertibleFactor(r, p, p);
    Fermat(p, r);
    var k := CongMultiple(Pow(r, p - 1), 1, p);
    assert r > 0 by { if r == 0 { ZeroNotInvertible(p); } }
    PowPositive(r, p - 1);
    if k < 0 { MulMono(k, -1, p); }
    t := k;
    MulMono(0, t, p);
  }

  lemma ZeroNotInvertible(p: nat)
    requires p > 1
    ensures !Invertible(0, p)
  {
    SmallMod(0, p);
    SmallMod(1, p);
    forall u: int ensures !Cong(0 * u, 1, p) { assert 0 * u == 0; }
  }

  lemma OddSquare(p: nat)
    requires p % 2 == 1
    ensures (p * p) % 2 == 1
  {
    var h := p / 2;
    assert p * p == 2 * (2 * (h * h) + 2 * h) + 1;
  }

  lemma SquarePowers(p: nat, s: nat)
    ensures Power(p * p, s) == Pow(p, 2 * s) && p * Power(p * p, s) == Pow(p, 2 * s + 1)
    ensures Power(p * p, s + 1) == Pow(p, 2 * s + 2)
  {
    SquareOf(p);
    PowMul(p, 2, s);
    PowMul(p, 2, s + 1);
    PowerUnfold(p, 2 * s + 1);
  }

  /** So the private power of a ciphertext is a shifted power of the generator. */
  lemma SquarePower(c: int, m: nat, r: nat, p: nat, s: nat) returns (e: nat)
    requires Prime(p) && p > 2 && s >= 1 && p * p > 1 && Invertible(r, p * p) && Formed(c, m, r, p * p, s)
    ensures e == Pow(r, p - 1) - 1 && Power(p * p, s - 1) > 0 && e * Power(p * p, s - 1) >= 0 && m * (p - 1) >= 0
    ensures Cong(Pow(c, p - 1), Pow(1 + p * p, m * (p - 1) + e * Power(p * p, s - 1)), Power(p * p, s + 1))
  {
    hide Pow, Cong, Prime, Power;
    var n, d, N := p * p, p - 1, Power(p * p, s + 1);
    var a, b := Pow(1 + n, m), Pow(r, Power(n, s));
    e := SquareMask(r, p, s);
    PositivePower(n, s - 1);
    MulMono(0, m, d);
    CongPow(c, a * b, d, N);
    PowBaseMul(a, b, d);
    PowMul(1 + n, m, d);
    PowMul(r, Power(n, s), d);
    var g := Pow(1 + n, e * Power(n, s - 1));
    CongScale(Pow(b, d), g, Pow(a, d), N);
    assert Pow(b, d) * Pow(a, d) == Pow(a, d) * Pow(b, d) && g * Pow(a, d) == Pow(a, d) * g;
    CongTrans(Pow(c, d), Pow(a, d) * Pow(b, d), Pow(a, d) * g, N);
    PowAdd(1 + n, m * d, e * Power(n, s - 1));
  }

  /** A shifted exponent that is right after all has no shift. */
  lemma ShiftVanishes(e: nat, m: int, n: nat, s: nat)
    requires n > 1 && s >= 1 && Power(n, s - 1) > 0 && Power(n, s) > 0
    requires Cong(m + e * Power(n, s - 1), m, Power(n, s))
    ensures Cong(e, 0, n)
  {
    hide Pow, Cong;
    var x := e * Power(n, s - 1);
    CongSub(m + x, m, m, m, Power(n, s));
    DigitVanishes(e, n, s - 1);
  }

  lemma QuotientVanishes(x: int, e: int, n: int)
    requires n > 0 && x == 1 + e
    ensures Cong(e, 0, n) <==> Cong(x, 1, n)
  {
    if Cong(e, 0, n) { CongAdd(e, 0, 1, 1, n); }
    if Cong(x, 1, n) { CongSub(x, 1, 1, 1, n); }
  }

  /** For every key and invertible random number: the private exponent removes the mask if and
      only if it takes the random number to one modulo n. */
  lemma UnmaskIff(c: int, m: nat, r: nat, p: nat, q: nat, s: nat)
    requires KeyPrimes(p, q) && 1 <= s && p * q > 1 && Invertible(r, p * q) && Formed(c, m, r, p * q, s)
    ensures Lcm(p - 1, q - 1) >= 1 && m * Lcm(p - 1, q - 1) >= 0
    ensures Cong(Pow(c, Lcm(p - 1, q - 1)), Pow(1 + p * q, m * Lcm(p - 1, q - 1)), Power(p * q, s + 1))
       <==> Cong(Pow(r, Lcm(p - 1, q - 1)), 1, p * q)
  {
    hide Pow, Cong, Prime, Power, Lcm;
    var n, d := p * q, Lcm(p - 1, q - 1);
    KeySizes(p, q);
    MulMono(0, m, d);
    if Cong(Pow(r, d), 1, n) { Unmask(c, m, r, n, s, d); }
    if p == q && Cong(Pow(c, d), Pow(1 + n, m * d), Power(n, s + 1)) {
      EqualPrimesFail(p);
      var e := SquarePower(c, m, r, p, s);
      OddPrime(p);
      OddSquare(p);
      SamePower(c, m * d, e, n, s, d);
      QuotientVanishes(Pow(r, d), e, n);
    }
    if p != q { PrimesMakeKey(p, q); KeyMask(n, d, r); }
  }

  lemma KeyMask(n: nat, d: nat, r: nat)
    requires GoodKey(n, d) && Invertible(r, n)
    ensures Cong(Pow(r, d), 1, n)
  {
  }

  /** Two powers of the generator that agree modulo n^(s+1) differ by no shift. */
  lemma SamePower(c: int, a: nat, e: nat, n: nat, s: nat, d: nat)
    requires n > 1 && n % 2 == 1 && s >= 1 && Power(n, s - 1) > 0 && Power(n, s + 1) > 0 && e * Power(n, s - 1) >= 0
    requires Cong(Pow(c, d), Pow(1 + n, a), Power(n, s + 1))
    requires Cong(Pow(c, d), Pow(1 + n, a + e * Power(n, s - 1)), Power(n, s + 1))
    ensures Cong(e, 0, n)
  {
    hide Pow, Cong;
    var N, g := Power(n, s + 1), Pow(1 + n, e * Power(n, s - 1));
    PowAdd(1 + n, a, e * Power(n, s - 1));
    GeneratorPower(n, e, s);
    PowPositive(n, s);
    CongSymmetric(Pow(c, d), Pow(1 + n, a), N);
    CongTrans(Pow(1 + n, a), Pow(c, d), Pow(1 + n, a) * g, N);
    GeneratorInvertible(n, a, s);
    CancelOne(Pow(1 + n, a), g, N);
    CongSymmetric(g, 1, N);
    CongTrans(1, g, 1 + e * Power(n, s), N);
    CongSub(1 + e * Power(n, s), 1 + e * Power(n, s), 1, 1 + e * Power(n, s), N);
    CongSymmetric(e * Power(n, s), 0, N);
    DigitVanishes(e, n, s);
  }

  lemma GeneratorInvertible(n: nat, a: nat, s: nat)
    requires n > 1 && Power(n, s + 1) > 0
    ensures Invertible(Pow(1 + n, a), Power(n, s + 1))
  {
    hide Pow, Cong;
    ResidueOfOne(n, a);
    assert Invertible(Pow(1 + n, a), n) by { assert Pow(1 + n, a) * 1 == Pow(1 + n, a); }
    InvertiblePower(Pow(1 + n, a), n, s + 1);
  }

  lemma CancelOne(x: int, g: int, N: int)
    requires N > 0 && Invertible(x, N) && Cong(x, x * g, N)
    ensures Cong(g, 1, N)
  {
    var u :| Cong(x * u, 1, N);
    hide Cong;
    assert x * 1 == x;
    CongCancel(x, u, 1, g, N);
    CongSymmetric(1, g, N);
  }

  /** Whether the private exponent removes every mask. */
  ghost predicate Unmasks(n: nat, d: nat, s: nat) {
    && n > 1 && Power(n, s + 1) > 0
    && forall c: nat, m: nat, r: nat :: Invertible(r, n) && Formed(c, m, r, n, s) ==> PowerOf(c, m, n, s, d)
  }

  ghost predicate PowerOf(c: nat, m: nat, n: nat, s: nat, d: nat)
    requires n > 1 && Power(n, s + 1) > 0
  {
    m * d >= 0 && Cong(Pow(c, d), Pow(1 + n, m * d), Power(n, s + 1))
  }

  /** Keys of primes of the same size remove every mask exactly when the primes differ, which
      keygen does not check. */
  lemma KeyIff(p: nat, q: nat, s: nat)
    requires KeyPrimes(p, q) && s >= 1
    ensures Lcm(p - 1, q - 1) >= 1
    ensures Unmasks(p * q, Lcm(p - 1, q - 1), s) <==> p != q
  {
    hide Pow, Cong, Prime, Power, Lcm, Invertible, Formed;
    var n, d := p * q, Lcm(p - 1, q - 1);
    KeySizes(p, q);
    PositivePower(n, s + 1);
    if p != q {
      PrimesMakeKey(p, q);
      forall c: nat, m: nat, r: nat | Invertible(r, n) && Formed(c, m, r, n, s) ensures PowerOf(c, m, n, s, d) {
        KeyMask(n, d, r);
        UnmaskIff(c, m, r, p, q, s);
      }
    } else {
      EqualPrimesFail(p);
      var c := MaskOnly(1 + p, n, s);
      UnmaskIff(c, 0, 1 + p, p, q, s);
      assert !PowerOf(c, 0, n, s, d);
    }
  }

  /** The ciphertext of zero. */
  lemma MaskOnly(r: nat, n: nat, s: nat) returns (c: nat)
    requires n > 1 && Power(n, s + 1) > 0
    ensures Formed(c, 0, r, n, s)
  {
    PowNat(r, Power(n, s));
    c := Pow(r, Power(n, s));
    assert Pow(1 + n, 0) == 1;
    assert Pow(1 + n, 0) * Pow(r, Power(n, s)) == c;
  }

  /** keygen, with the two primes as arguments. */
  method Keygen(p: nat, q: nat, initS: nat) returns (pub: PubKey, d: nat)
    requires KeyPrimes(p, q)
    ensures fresh(pub) && pub.Valid(p * q) && pub.g == p * q + 1 && p * q > 1 && d == Lcm(p - 1, q - 1) >= 1
    ensures Invertible(d, p * q) && SmallFactorials(p * q, MAX_S - 1)
    ensures forall i :: 2 <= i <= Capped(initS + 1) ==> pub.nj[i] == Power(p * q, i)
    ensures forall m: nat :: Divides(p - 1, m) && Divides(q - 1, m) ==> Divides(d, m)
    ensures GoodKey(p * q, d) <==> p != q
    ensures forall s: nat :: 1 <= s ==> (Unmasks(p * q, d, s) <==> p != q)
  {
    hide KeyPrimes, GoodKey, Lcm, Unmasks, Power, SmallFactorials, Invertible, Divides;
    pub := new PubKey();
    KeySizes(p, q);
    pub.SetModulus(p, q);
    pub.CompleteKey(initS + 1, p * q);
    GoodKeyIff(p, q);
    KeyBasics(p, q);
    d := Lcm(p - 1, q - 1);
    forall m: nat | Divides(p - 1, m) && Divides(q - 1, m) ensures Divides(d, m) { LcmLeast(p - 1, q - 1, m); }
    forall s: nat | 1 <= s ensures Unmasks(p * q, d, s) <==> p != q { KeyIff(p, q, s); }
  }

  lemma KeySizes(p: nat, q: nat)
    requires KeyPrimes(p, q)
    ensures p > 2 && q > 2 && p * q > 1 && Lcm(p - 1, q - 1) >= 1
  {
    hide Prime, Gcd;
    MulMono(2, p, q);
    LcmFacts(p - 1, q - 1);
    MulMono(1, p - 1, q - 1);
    if Lcm(p - 1, q - 1) == 0 { assert Lcm(p - 1, q - 1) * Gcd(p - 1, q - 1) == 0; }
  }

  ghost predicate AllEncrypt(cs: seq<nat>, ms: seq<nat>, n: nat, s: nat, d: nat) {
    |cs| <= |ms| && forall i :: 0 <= i < |cs| ==> Encrypts(cs[i], ms[i], n, s, d)
  }

  /** Encrypt, compute on the ciphertexts, decrypt: the same computation on the plaintexts modulo
      n^s, for every level and for random numbers that are invertible modulo n. */
  method EncryptThenDecrypt(p: nat, q: nat, e: Expr, ms: seq<nat>, s: nat, rs: seq<nat>) returns (res: nat)
    requires KeyPrimes(p, q) && p != q && 1 <= s < MAX_S && |ms| == |rs| && Inputs(e, |ms|)
    requires p * q > 0 && forall i :: 0 <= i < |rs| ==> Invertible(rs[i], p * q)
    ensures Power(p * q, s) > 0 && res == OnPlain(e, ms) % Power(p * q, s)
  {
    hide KeyPrimes, Encrypts, Power, Invertible, Formed, GoodKey;
    var pub, d := Keygen(p, q, s);
    ghost var n := p * q;
    KeyParts(n, d, s);
    var cs := [];
    for i := 0 to |ms|
      invariant pub.Valid(n) && pub.g == n + 1 && |cs| == i && AllEncrypt(cs, ms, n, s, d)
    {
      var c := Enc(pub, ms[i], s, rs[i], n);
      MaskedIff(c, ms[i], rs[i], n, s, d);
      MaskedEncrypts(c, ms[i], rs[i], n, s, d);
      cs := cs + [c];
    }
    res := DecryptExpression(pub, d, e, cs, s, ms, n);
  }

  /** The private power of a ciphertext as a power of the generator, whatever the primes. */
  lemma ExponentOf(c: int, m: nat, r: nat, p: nat, q: nat, s: nat) returns (i: nat)
    requires KeyPrimes(p, q) && 1 <= s && p * q > 1 && Invertible(r, p * q) && Formed(c, m, r, p * q, s)
    ensures Power(p * q, s + 1) > 0 && Power(p * q, s) > 0 && Lcm(p - 1, q - 1) >= 1
    ensures Cong(Pow(c, Lcm(p - 1, q - 1)), Pow(1 + p * q, i), Power(p * q, s + 1))
    ensures Cong(i, m * Lcm(p - 1, q - 1), Power(p * q, s)) <==> Cong(Pow(r, Lcm(p - 1, q - 1)), 1, p * q)
  {
    hide Pow, Cong, Prime, Power, Lcm;
    var n, d := p * q, Lcm(p - 1, q - 1);
    KeySizes(p, q);
    PositivePower(n, s);
    PositivePower(n, s + 1);
    MulMono(0, m, d);
    if p != q {
      PrimesMakeKey(p, q);
      KeyMask(n, d, r);
      UnmaskIff(c, m, r, p, q, s);
      i := m * d;
      CongSame(i, Power(n, s));
    } else {
      EqualPrimesFail(p);
      var e := SquarePower(c, m, r, p, s);
      i := m * d + e * Power(n, s - 1);
      QuotientVanishes(Pow(r, d), e, n);
      if Cong(i, m * d, Power(n, s)) { ShiftVanishes(e, m * d, n, s); }
      if Cong(e, 0, n) { NoShift(e, m * d, n, s); }
    }
  }

  /** The first division by n in dec is exact if and only if the random number is invertible modulo
      n, whatever the primes: any other random number spoils the ciphertext. */
  lemma DivisionExactIff(c: int, m: nat, r: nat, p: nat, q: nat, s: nat)
    requires KeyPrimes(p, q) && 1 <= s && p * q > 1 && Formed(c, m, r, p * q, s)
    ensures Lcm(p - 1, q - 1) >= 1 && (Cong(Pow(c, Lcm(p - 1, q - 1)), 1, p * q) <==> Invertible(r, p * q))
  {
    hide Pow, Cong, Prime, Power, Lcm, Invertible;
    var n, d := p * q, Lcm(p - 1, q - 1);
    KeySizes(p, q);
    var ns, x := Power(n, s), Pow(c, d);
    if Invertible(r, n) {
      var i := ExponentOf(c, m, r, p, q, s);
      ModuloBase(x, Pow(1 + n, i), n, s);
      ResidueOfOne(n, i);
      CongTrans(x, Pow(1 + n, i), 1, n);
    }
    PowerModulo(c, m, r, n, s, d);
    PositivePower(n, s);
    MulMono(1, ns, d);
    if Cong(x, 1, n) {
      CongSymmetric(x, Pow(r, ns * d), n);
      CongTrans(Pow(r, ns * d), x, 1, n);
      RootInvertible(r, ns * d, n);
    }
  }

  lemma ModuloBase(x: int, y: int, n: nat, s: nat)
    requires n > 1 && Power(n, s + 1) > 0 && Cong(x, y, Power(n, s + 1))
    ensures Cong(x, y, n)
  {
    hide Pow, Cong;
    PowPositive(n, 1);
    SmallPowers(n);
    CongSmaller(x, y, n, 1, s + 1);
  }

  lemma CongSame(i: int, M: int)
    requires M > 0
    ensures Cong(i, i, M)
  {
  }

  lemma NoShift(e: nat, m: int, n: nat, s: nat)
    requires n > 1 && s >= 1 && Power(n, s - 1) > 0 && Power(n, s) > 0 && Cong(e, 0, n)
    ensures Cong(m + e * Power(n, s - 1), m, Power(n, s))
  {
    var k := CongMultiple(e, 0, n);
    PowerUnfold(n, s);
    Associate(k, n, Power(n, s - 1));
    CongByMultiple(m + e * Power(n, s - 1), m, k, Power(n, s));
  }

  /** Encrypt and decrypt one message with any two primes of the same size and any invertible
      random number: the message comes back if and only if the private exponent takes the random
      number to one modulo n. For different primes it always does; for equal ones it does not at
      1 + p. */
  method DecryptsIff(p: nat, q: nat, m: nat, s: nat, r: nat) returns (res: nat)
    requires KeyPrimes(p, q) && 1 <= s < MAX_S && p * q > 1 && Invertible(r, p * q)
    ensures Power(p * q, s) > 0 && Lcm(p - 1, q - 1) >= 1
    ensures res == m % Power(p * q, s) <==> Cong(Pow(r, Lcm(p - 1, q - 1)), 1, p * q)
    ensures p != q ==> res == m % Power(p * q, s)
    ensures p == q && r == 1 + p ==> res != m % Power(p * q, s)
  {
    hide KeyPrimes, Power, Invertible, Formed, GoodKey, Unmasks, Pow, Cong, SmallFactorials, Lcm;
    var pub, d := Keygen(p, q, s);
    ghost var n := p * q;
    FewerFactorials(n, s);
    var c := Enc(pub, m, s, r, n);
    ghost var i := ExponentOf(c, m, r, p, q, s);
    res := DecExponent(pub, d, c, s, i, n);
    ResultIff(res, i, m, d, n, s);
    if p != q { KeyMask(n, d, r); }
    if p == q && r == 1 + p { EqualPrimesKey(p); }
  }

  lemma EqualPrimesKey(p: nat)
    requires KeyPrimes(p, p)
    ensures p * p > 0 && Lcm(p - 1, p - 1) >= 1 && !Cong(Pow(1 + p, Lcm(p - 1, p - 1)), 1, p * p)
  {
    hide Lcm, Pow, Cong;
    EqualPrimesFail(p);
  }

  lemma FewerFactorials(n: nat, s: nat)
    requires SmallFactorials(n, MAX_S - 1) && s < MAX_S
    ensures SmallFactorials(n, s)
  {
  }

  lemma ResultIff(res: nat, i: nat, m: nat, d: nat, n: nat, s: nat)
    requires n > 1 && Power(n, s) > 0 && res < Power(n, s) && Cong(res * d, i, Power(n, s)) && Invertible(d, n)
    ensures res == m % Power(n, s) <==> Cong(i, m * d, Power(n, s))
  {
    hide Cong, Pow;
    var M := Power(n, s);
    InvertiblePower(d, n, s);
    CongSymmetric(res * d, i, M);
    if res == m % M {
      CongMod(m, M);
      CongScale(res, m, d, M);
      CongTrans(i, res * d, m * d, M);
    }
    if Cong(i, m * d, M) {
      CongTrans(res * d, i, m * d, M);
      Cancelled(res, m, d, M);
    }
  }

  lemma MaskedEncrypts(c: int, m: nat, rho: nat, n: nat, s: nat, d: nat)
    requires Masked(c, m, rho, n, s, d)
    ensures Encrypts(c, m, n, s, d)
  {
  }

  lemma KeyParts(n: nat, d: nat, s: nat)
    requires GoodKey(n, d) && s < MAX_S
    ensures n > 1 && Invertible(d, n) && SmallFactorials(n, s)
  {
  }
}
