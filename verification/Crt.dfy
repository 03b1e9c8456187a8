/** Residues modulo several coprime moduli: the lifting integers, and the lift of a vector of
    residues to the one integer below the product of the moduli. */
module Crt {
  import opened Arith

  // ------------------------------------------------------------- the moduli

  function Product(ms: seq<int>, n: nat): int
    requires n <= |ms|
  {
    if n == 0 then 1 else Product(ms, n - 1) * ms[n - 1]
  }

  /** Product of the first n moduli, leaving out modulus cm. */
  function ProductExcept(ms: seq<int>, cm: nat, n: nat): int
    requires n <= |ms|
  {
    if n == 0 then 1
    else if n - 1 == cm then ProductExcept(ms, cm, n - 1)
    else ProductExcept(ms, cm, n - 1) * ms[n - 1]
  }

  ghost predicate Invertible(a: int, m: int)
    requires m > 0
  {
    exists u :: Cong(a * u, 1, m)
  }

  ghost predicate Coprime(ms: seq<int>) {
    && (forall i :: 0 <= i < |ms| ==> ms[i] > 1)
    && forall i, j :: 0 <= i < |ms| && 0 <= j < |ms| && i != j ==> Invertible(ms[i], ms[j])
  }

  lemma InvertibleProduct(a: int, b: int, m: int)
    requires m > 0 && Invertible(a, m) && Invertible(b, m)
    ensures Invertible(a * b, m)
  {
    var u :| Cong(a * u, 1, m);
    var v :| Cong(b * v, 1, m);
    CongMul(a * u, 1, b * v, 1, m);
    MulSwap(a, u, b, v);
    assert Cong((a * b) * (u * v), 1, m);
  }

  lemma InvertibleOne(m: int)
    requires m > 0
    ensures Invertible(1, m)
  {
    assert Cong(1 * 1, 1, m);
  }

  lemma {:induction false} ProductPositive(ms: seq<int>, n: nat)
    requires Coprime(ms) && n <= |ms|
    ensures Product(ms, n) > 0
  {
    if n > 0 { ProductPositive(ms, n - 1); MulMono(1, Product(ms, n - 1), ms[n - 1]); }
  }

  lemma {:induction false} ProductInvertible(ms: seq<int>, n: nat, j: nat)
    requires Coprime(ms) && n <= j < |ms|
    ensures Invertible(Product(ms, n), ms[j])
  {
    if n == 0 {
      InvertibleOne(ms[j]);
    } else {
      ProductInvertible(ms, n - 1, j);
      InvertibleProduct(Product(ms, n - 1), ms[n - 1], ms[j]);
    }
  }

  lemma {:induction false} ExceptInvertible(ms: seq<int>, cm: nat, n: nat)
    requires Coprime(ms) && cm < |ms| && n <= |ms|
    ensures Invertible(ProductExcept(ms, cm, n), ms[cm])
  {
    if n == 0 {
      InvertibleOne(ms[cm]);
    } else {
      ExceptInvertible(ms, cm, n - 1);
      if n - 1 != cm { InvertibleProduct(ProductExcept(ms, cm, n - 1), ms[n - 1], ms[cm]); }
    }
  }

  /** Every other modulus divides the product that leaves out modulus cm. */
  lemma {:induction false} ExceptDivisible(ms: seq<int>, cm: nat, n: nat, j: nat)
    requires Coprime(ms) && j < n <= |ms| && j != cm
    ensures Cong(ProductExcept(ms, cm, n), 0, ms[j])
  {
    if n - 1 == j {
      CongByMultiple(ProductExcept(ms, cm, n), 0, ProductExcept(ms, cm, n - 1), ms[j]);
    } else {
      ExceptDivisible(ms, cm, n - 1, j);
      CongScale(ProductExcept(ms, cm, n - 1), 0, ms[n - 1], ms[j]);
    }
  }

  // -------------------------------------------------------------- uniqueness

  lemma CongCoprime(x: int, y: int, a: int, b: int)
    requires a > 0 && b > 0 && a * b > 0 && Invertible(a, b) && Cong(x, y, a) && Cong(x, y, b)
    ensures Cong(x, y, a * b)
  {
    var k := CongMultiple(x, y, a);
    var u :| Cong(a * u, 1, b);
    DifferenceVanishes(x, y, a, k, b);
    CongCancel(a, u, k, 0, b);
    var l := CongMultiple(k, 0, b);
    Associate(l, a, b);
    CongByMultiple(x, y, l, a * b);
  }

  lemma DifferenceVanishes(x: int, y: int, a: int, k: int, b: int)
    requires b > 0 && x == y + k * a && Cong(x, y, b)
    ensures Cong(a * k, a * 0, b)
  {
    CongSub(x, y, y, y, b);
  }

  /** Integers that agree modulo every modulus agree modulo the product. */
  lemma {:induction false} CongProduct(x: int, y: int, ms: seq<int>, n: nat)
    requires Coprime(ms) && n <= |ms| && Product(ms, n) > 0
    requires forall j :: 0 <= j < n ==> Cong(x, y, ms[j])
    ensures Cong(x, y, Product(ms, n))
  {
    if n == 0 {
      CongByMultiple(x, y, x - y, 1);
    } else {
      ProductPositive(ms, n - 1);
      CongProduct(x, y, ms, n - 1);
      ProductInvertible(ms, n - 1, n - 1);
      CongCoprime(x, y, Product(ms, n - 1), ms[n - 1]);
    }
  }

  // ----------------------------------------------------------------- lifting

  /** lift[cm] is 1 modulo its own modulus and 0 modulo every other one. */
  ghost predicate LiftingIntegers(lift: seq<int>, ms: seq<int>) {
    && |lift| == |ms|
    && (forall i :: 0 <= i < |ms| ==> ms[i] > 1)
    && forall c, j :: 0 <= c < |ms| && 0 <= j < |ms| ==> Cong(lift[c], if c == j then 1 else 0, ms[j])
  }

  /** The sum of lift[c] * r[c] over c below n. */
  function LiftSum(lift: seq<int>, r: seq<int>, n: nat): int
    requires n <= |lift| && n <= |r|
  {
    if n == 0 then 0 else LiftSum(lift, r, n - 1) + lift[n - 1] * r[n - 1]
  }

  lemma {:induction false} LiftSumResidue(lift: seq<int>, ms: seq<int>, r: seq<int>, n: nat, j: nat)
    requires LiftingIntegers(lift, ms) && |r| == |ms| && n <= |ms| && j < |ms|
    ensures Cong(LiftSum(lift, r, n), if j < n then r[j] else 0, ms[j])
  {
    if n > 0 {
      LiftSumResidue(lift, ms, r, n - 1, j);
      var one := if n - 1 == j then 1 else 0;
      CongScale(lift[n - 1], one, r[n - 1], ms[j]);
      CongAdd(LiftSum(lift, r, n - 1), if j < n - 1 then r[j] else 0, lift[n - 1] * r[n - 1], one * r[n - 1], ms[j]);
    }
  }

  /** Lifting the residues of v gives v back, modulo the product of the moduli. */
  lemma LiftExact(lift: seq<int>, ms: seq<int>, r: seq<int>, v: int)
    requires Coprime(ms) && LiftingIntegers(lift, ms) && |r| == |ms|
    requires forall j :: 0 <= j < |ms| ==> Cong(r[j], v, ms[j])
    ensures Product(ms, |ms|) > 0
    ensures LiftSum(lift, r, |ms|) % Product(ms, |ms|) == v % Product(ms, |ms|)
  {
    ProductPositive(ms, |ms|);
    forall j | 0 <= j < |ms| ensures Cong(LiftSum(lift, r, |ms|), v, ms[j]) {
      LiftSumResidue(lift, ms, r, |ms|, j);
    }
    CongProduct(LiftSum(lift, r, |ms|), v, ms, |ms|);
  }

  /** Modular inverse, as the arithmetic library provides it. */
  method Invert(a: int, m: int) returns (inv: int)
    requires m > 1 && Invertible(a, m)
    ensures 0 <= inv < m && Cong(a * inv, 1, m)
  {
    ghost var u :| Cong(a * u, 1, m);
    CongMod(u, m);
    CongScale(u % m, u, a, m);
    assert 0 <= u % m < m && Cong(a * (u % m), 1, m);
    inv :| 0 <= inv < m && Cong(a * inv, 1, m);
  }

  /** The inverse-CRT constants for all moduli, and their product. */
  method ComputeLifting(ms: seq<int>) returns (lift: seq<int>, product: int)
    requires Coprime(ms)
    ensures LiftingIntegers(lift, ms) && product == Product(ms, |ms|)
  {
    lift := [];
    for cm := 0 to |ms|
      invariant |lift| == cm
      invariant forall c, j :: 0 <= c < cm && 0 <= j < |ms| ==> Cong(lift[c], if c == j then 1 else 0, ms[j])
    {
      var q := 1;
      for i := 0 to |ms|
        invariant q == ProductExcept(ms, cm, i)
      {
        if i != cm { q := q * ms[i]; }
      }
      ExceptInvertible(ms, cm, |ms|);
      var inv := Invert(q, ms[cm]);
      forall j | 0 <= j < |ms| ensures Cong(q * inv, if cm == j then 1 else 0, ms[j]) {
        if cm != j {
          ExceptDivisible(ms, cm, |ms|, j);
          CongScale(q, 0, inv, ms[j]);
        }
      }
      lift := lift + [q * inv];
    }
    product := 1;
    for i := 0 to |ms|
      invariant product == Product(ms, i)
    {
      product := product * ms[i];
    }
  }
}
