/** Integer powers and congruences: the algebra that the transform, the
    cryptosystems and the bit packers share. */
module Arith {

  // ---------------------------------------------------------------- powers

  function Pow(b: int, e: nat): int {
    if e == 0 then 1 else b * Pow(b, e - 1)
  }

  function Exp2(e: nat): (r: nat)
    ensures r >= 1
  {
    if e == 0 then 1 else 2 * Exp2(e - 1)
  }

  lemma {:induction false} PowAdd(b: int, e: nat, f: nat)
    ensures Pow(b, e + f) == Pow(b, e) * Pow(b, f)
  {
    if e > 0 {
      PowAdd(b, e - 1, f);
      assert Pow(b, e + f) == b * Pow(b, (e - 1) + f);
      Associate(b, Pow(b, e - 1), Pow(b, f));
    }
  }

  lemma {:induction false} PowMul(b: int, e: nat, f: nat)
    ensures 0 <= e * f && Pow(Pow(b, e), f) == Pow(b, e * f)
  {
    if f > 0 {
      PowMul(b, e, f - 1);
      assert e * f == e + e * (f - 1);
      PowAdd(b, e, e * (f - 1));
    }
  }

  lemma MulSwap(a: int, b: int, x: int, y: int)
    ensures (a * b) * (x * y) == (a * x) * (b * y)
  {
    var u := b * x;
    assert (a * b) * (x * y) == a * (b * (x * y));
    assert b * (x * y) == u * y;
    assert (a * x) * (b * y) == a * (x * (b * y));
    assert x * (b * y) == u * y;
  }

  lemma HornerStep(z: int, e: int, q: int, f: int)
    ensures z * (e + q * f) == z * e + (z * q) * f
  {
    assert z * (q * f) == (z * q) * f;
  }

  lemma Distribute(z: int, a: int, b: int)
    ensures z * (a + b) == z * a + z * b
  {
  }

  lemma Associate(a: int, b: int, c: int)
    ensures a * (b * c) == (a * b) * c && a * (b * c) == b * (a * c)
  {
  }

  lemma {:induction false} PowBaseMul(a: int, b: int, e: nat)
    ensures Pow(a * b, e) == Pow(a, e) * Pow(b, e)
  {
    if e > 0 {
      PowBaseMul(a, b, e - 1);
      MulSwap(a, b, Pow(a, e - 1), Pow(b, e - 1));
    }
  }

  lemma {:induction false} PowOne(e: nat)
    ensures Pow(1, e) == 1
  {
    if e > 0 { PowOne(e - 1); }
  }

  lemma {:induction false} PowPositive(b: int, e: nat)
    requires b > 0
    ensures Pow(b, e) > 0
  {
    if e > 0 { PowPositive(b, e - 1); }
  }

  lemma {:induction false} Exp2Add(e: nat, f: nat)
    ensures Exp2(e + f) == Exp2(e) * Exp2(f)
  {
    if e > 0 { Exp2Add(e - 1, f); }
  }

  lemma {:induction false} Exp2Monotone(e: nat, f: nat)
    requires e <= f
    ensures Exp2(e) <= Exp2(f)
  {
    if e < f { Exp2Monotone(e, f - 1); }
  }

  // ------------------------------------------------------------ div and mod

  lemma MulMono(a: int, b: int, c: int)
    requires a <= b && 0 <= c
    ensures a * c <= b * c
  {
  }

  lemma DivModEq(x: int, m: int)
    requires m > 0
    ensures x == (x / m) * m + x % m && 0 <= x % m < m
  {
  }

  /** The quotient and the remainder are determined by the division equation. */
  lemma DivModUnique(x: int, q: int, r: int, m: int)
    requires m > 0 && 0 <= r < m && x == q * m + r
    ensures x / m == q && x % m == r
  {
    var q', r' := x / m, x % m;
    assert x == q' * m + r';
    if q' < q { MulMono(q' + 1, q, m); }
    if q' > q { MulMono(q + 1, q', m); }
  }

  lemma SmallMod(x: int, m: int)
    requires 0 <= x < m
    ensures x % m == x && x / m == 0
  {
    DivModUnique(x, 0, x, m);
  }

  lemma NestedDiv(x: nat, a: nat, b: nat)
    requires a > 0 && b > 0
    ensures a * b > 0 && (x / a) / b == x / (a * b)
  {
    var q := x / a;
    var s, r := q / b, q % b;
    DivModEq(x, a);
    DivModEq(q, b);
    MulMono(r + 1, b, a);
    MulMono(0, r, a);
    Associate(s, b, a);
    assert q * a == s * (b * a) + r * a;
    MulMono(1, a, b);
    DivModUnique(x, s, r * a + x % a, a * b);
  }

  /** Quotient rounded up. */
  function CeilDiv(x: nat, d: nat): (r: nat)
    requires d > 0
    ensures (r - 1) * d < x <= r * d || (x == 0 && r == 0)
  {
    var y := x + d - 1;
    DivModEq(y, d);
    assert (y / d - 1) * d == (y / d) * d - d;
    if x == 0 then SmallMod(y, d); y / d else y / d
  }

  lemma CeilDivUnique(x: nat, d: nat, q: nat)
    requires d > 0 && ((q - 1) * d < x <= q * d || (x == 0 && q == 0))
    ensures CeilDiv(x, d) == q
  {
    var r := CeilDiv(x, d);
    if r < q { MulMono(r, q - 1, d); }
    if r > q { MulMono(q, r - 1, d); }
  }

  // ------------------------------------------------------------ congruences

  predicate Cong(a: int, b: int, m: int)
    requires m > 0
  {
    a % m == b % m
  }

  lemma CongByMultiple(a: int, b: int, k: int, m: int)
    requires m > 0 && a == b + k * m
    ensures Cong(a, b, m)
  {
    var q, r := b / m, b % m;
    assert b == q * m + r;
    assert (q + k) * m == q * m + k * m;
    DivModUnique(a, q + k, r, m);
  }

  lemma CongMultiple(a: int, b: int, m: int) returns (k: int)
    requires m > 0 && Cong(a, b, m)
    ensures a == b + k * m
  {
    k := a / m - b / m;
    assert a == (a / m) * m + a % m;
    assert b == (b / m) * m + b % m;
    assert (a / m - b / m) * m == (a / m) * m - (b / m) * m;
  }

  lemma CongMod(a: int, m: int)
    requires m > 0
    ensures Cong(a % m, a, m) && 0 <= a % m < m
  {
    SmallMod(a % m, m);
  }

  lemma CongAdd(a: int, a': int, b: int, b': int, m: int)
    requires m > 0 && Cong(a, a', m) && Cong(b, b', m)
    ensures Cong(a + b, a' + b', m)
  {
    var k := CongMultiple(a, a', m);
    var l := CongMultiple(b, b', m);
    assert (k + l) * m == k * m + l * m;
    CongByMultiple(a + b, a' + b', k + l, m);
  }

  lemma CongSub(a: int, a': int, b: int, b': int, m: int)
    requires m > 0 && Cong(a, a', m) && Cong(b, b', m)
    ensures Cong(a - b, a' - b', m)
  {
    var k := CongMultiple(a, a', m);
    var l := CongMultiple(b, b', m);
    assert (k - l) * m == k * m - l * m;
    CongByMultiple(a - b, a' - b', k - l, m);
  }

  lemma CongScale(a: int, b: int, c: int, m: int)
    requires m > 0 && Cong(a, b, m)
    ensures Cong(c * a, c * b, m) && Cong(a * c, b * c, m)
  {
    var k := CongMultiple(a, b, m);
    HornerStep(c, b, k, m);
    CongByMultiple(c * a, c * b, c * k, m);
  }

  lemma CongMul(a: int, a': int, b: int, b': int, m: int)
    requires m > 0 && Cong(a, a', m) && Cong(b, b', m)
    ensures Cong(a * b, a' * b', m)
  {
    CongScale(a, a', b, m);
    CongScale(b, b', a', m);
  }

  lemma {:induction false} CongPow(a: int, b: int, e: nat, m: int)
    requires m > 0 && Cong(a, b, m)
    ensures Cong(Pow(a, e), Pow(b, e), m)
  {
    if e > 0 {
      CongPow(a, b, e - 1, m);
      CongMul(a, b, Pow(a, e - 1), Pow(b, e - 1), m);
    }
  }

  lemma CongExact(a: int, b: int, m: int)
    requires m > 0 && Cong(a, b, m) && 0 <= a < m
    ensures a == b % m
  {
    SmallMod(a, m);
  }

  /** Two residues that agree modulo m and lie in the same window of length m are equal. */
  lemma CongSmallEqual(a: int, b: int, m: int)
    requires m > 0 && Cong(a, b, m) && -m < a - b < m
    ensures a == b
  {
    var k := CongMultiple(a, b, m);
    if k >= 1 { MulMono(1, k, m); }
    if k <= -1 { MulMono(k, -1, m); }
  }

  /** A congruence modulo a product holds modulo each factor. */
  lemma CongFactor(a: int, b: int, m: int, n: int)
    requires m > 0 && n > 0 && m * n > 0 && Cong(a, b, m * n)
    ensures Cong(a, b, m)
  {
    var k := CongMultiple(a, b, m * n);
    assert k * (m * n) == (k * n) * m;
    CongByMultiple(a, b, k * n, m);
  }

  /** Both sides and the modulus may be scaled together. */
  lemma CongScaleModulus(a: int, b: int, c: int, m: int)
    requires m > 0 && c > 0 && c * m > 0 && Cong(a, b, m)
    ensures Cong(c * a, c * b, c * m)
  {
    var k := CongMultiple(a, b, m);
    assert c * (b + k * m) == c * b + k * (c * m);
    CongByMultiple(c * a, c * b, k, c * m);
  }

  /** A factor with an inverse modulo m can be cancelled. */
  lemma CongCancel(c: int, inv: int, a: int, b: int, m: int)
    requires m > 0 && Cong(c * inv, 1, m) && Cong(c * a, c * b, m)
    ensures Cong(a, b, m)
  {
    CongScale(c * a, c * b, inv, m);
    CongScale(c * inv, 1, a, m);
    CongScale(c * inv, 1, b, m);
    assert inv * (c * a) == (c * inv) * a;
    assert inv * (c * b) == (c * inv) * b;
  }

  // ------------------------------------------- congruence of whole vectors

  ghost predicate CongSeq(a: seq<int>, b: seq<int>, m: int)
    requires m > 0
  {
    |a| == |b| && forall i :: 0 <= i < |a| ==> Cong(a[i], b[i], m)
  }
}
