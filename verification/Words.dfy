/** Arithmetic on 64-bit words: wrap-around is written out, and Shoup's modular
    multiplication is related to the integers it computes with. */
module Words {
  import opened Arith

  const W64: int := 0x1_0000_0000_0000_0000

  type uint64 = x: int | 0 <= x < 0x1_0000_0000_0000_0000

  /** Reduction of a 64-bit unsigned result. */
  function Wrap(x: int): (r: uint64)
    ensures 0 <= x < W64 ==> r == x
  {
    x % W64
  }

  lemma Exp4()
    ensures Exp2(4) == 16
  {
    assert Exp2(2) == 4;
  }

  lemma Exp64()
    ensures Exp2(64) == W64
  {
    hide Exp2;
    Exp4();
    Exp2Add(4, 4);
    Exp2Add(8, 8);
    Exp2Add(16, 16);
    Exp2Add(32, 32);
  }

  lemma Exp61()
    ensures Exp2(61) == W64 / 8
  {
    hide Exp2;
    Exp2Add(61, 3);
    Exp64();
    assert Exp2(3) == 8 by { Exp3(); }
  }

  lemma Exp3()
    ensures Exp2(3) == 8
  {
    assert Exp2(1) == 2;
  }

  // ------------------------------------------------- lazy modular operations

  function AddMod(x: uint64, y: uint64, p: uint64): (r: uint64)
    requires p > 0
  {
    var z := Wrap(x + y);
    if z >= p then z - p else z
  }

  function SubMod(x: uint64, y: uint64, p: uint64): (r: uint64)
    requires p > 0
  {
    if y < p then AddMod(x, p - y, p) else AddMod(x, p - y % p, p)
  }

  function MulMod(x: uint64, y: uint64, p: uint64): (r: uint64)
    requires p > 0
    ensures r < p
  {
    (x * y) % p
  }

  lemma MulModCong(x: uint64, y: uint64, p: uint64)
    requires p > 0
    ensures MulMod(x, y, p) < p && Cong(MulMod(x, y, p), x * y, p)
  {
    CongMod(x * y, p);
  }

  /** One subtraction brings a sum below p + b below the larger of p and b. */
  lemma AddModExact(x: uint64, y: uint64, p: uint64)
    requires p > 0 && x + y < W64
    ensures Cong(AddMod(x, y, p), x + y, p)
    ensures x + y < 2 * p ==> AddMod(x, y, p) == (x + y) % p
  {
    CongByMultiple(x + y - p, x + y, -1, p);
    if x + y < 2 * p { CongExact(AddMod(x, y, p), x + y, p); }
  }

  lemma SubModExact(x: uint64, y: uint64, p: uint64)
    requires p > 0 && x + p < W64
    ensures Cong(SubMod(x, y, p), x - y, p)
    ensures x < p ==> SubMod(x, y, p) == (x - y) % p
    ensures SubMod(x, y, p) <= x || SubMod(x, y, p) < p
  {
    CongMod(y, p);
    if y < p { SmallMod(y, p); }
    AddModExact(x, p - y % p, p);
    CongByMultiple(x + (p - y % p), x - y % p, 1, p);
    CongSub(x, x, y % p, y, p);
    if x < p { CongExact(SubMod(x, y, p), x - y, p); }
  }

  // -------------------------------------------------- Shoup's multiplication

  /** The precomputed quotient that accompanies a fixed factor y. */
  function ShoupQuotient(y: int, p: int): (r: int)
    requires 0 <= y < p
    ensures 0 <= r < W64
  {
    QuotientRange(y, p);
    (y * W64) / p
  }

  lemma QuotientRange(y: int, p: int)
    requires 0 <= y < p
    ensures 0 <= (y * W64) / p < W64
  {
    var q := (y * W64) / p;
    assert y * W64 == q * p + (y * W64) % p;
    if q >= W64 { MulMono(W64, q, p); MulMono(y + 1, p, W64); }
    if q < 0 { MulMono(q, -1, p); }
  }

  /** x*y minus the estimated multiple of p, before any final subtraction. */
  function Lazy(x: int, y: int, yprime: int, p: int): int {
    x * y - ((x * yprime) / W64) * p
  }

  /** The estimate is never too large and at most slightly too small: the lazy product is
      non-negative and below p * (1 + x / 2^64). */
  lemma LazyRange(x: int, y: int, p: int)
    requires 0 <= x < W64 && 0 <= y < p
    ensures 0 <= Lazy(x, y, ShoupQuotient(y, p), p) < 2 * p
    ensures Lazy(x, y, ShoupQuotient(y, p), p) * W64 < p * W64 + p * x
    ensures Cong(Lazy(x, y, ShoupQuotient(y, p), p), x * y, p)
  {
    var y' := ShoupQuotient(y, p);
    var q := (x * y') / W64;
    LazyScaled(x, y, y', q, p, W64);
    CongByMultiple(x * y - q * p, x * y, -q, p);
  }

  lemma LazyScaled(x: int, y: int, y': int, q: int, p: int, W: int)
    requires 0 <= x < W && 0 <= y < p && y' == (y * W) / p && q == (x * y') / W
    ensures 0 <= x * y - q * p < 2 * p
    ensures (x * y - q * p) * W < p * W + p * x
  {
    var r, s := (y * W) % p, (x * y') % W;
    DivModEq(y * W, p);
    DivModEq(x * y', W);
    LazyIdentity(x, y, y', q, p, W, r, s);
    LazyBounds(x * y - q * p, s, r, p, x, W);
  }

  lemma LazyBounds(u: int, s: int, r: int, p: int, x: int, W: int)
    requires 0 <= s < W && 0 <= r < p && 0 <= x < W && u * W == s * p + r * x
    ensures 0 <= u < 2 * p && u * W < p * W + p * x
  {
    MulMono(0, s, p);
    MulMono(s + 1, W, p);
    MulMono(0, r, x);
    MulMono(r, p, x);
    MulMono(x, W, p);
    Distribute(p, s, 1);
    assert 0 <= u * W < p * W + p * x <= (2 * p) * W;
    QuotientBounds(u, 2 * p, W);
  }

  lemma QuotientBounds(u: int, v: int, W: int)
    requires W > 0 && 0 <= u * W < v * W
    ensures 0 <= u < v
  {
    if u < 0 { MulMono(u, -1, W); }
    if u >= v { MulMono(v, u, W); }
  }

  lemma LazyIdentity(x: int, y: int, y': int, q: int, p: int, W: int, r: int, s: int)
    requires y * W == y' * p + r && x * y' == q * W + s
    ensures (x * y - q * p) * W == s * p + r * x
  {
    calc {
      (x * y - q * p) * W;
      (x * y) * W - (q * p) * W;
      { assert (x * y) * W == x * (y * W); assert (q * p) * W == (q * W) * p; }
      x * (y' * p + r) - (q * W) * p;
      { assert x * (y' * p + r) == (x * y') * p + x * r; }
      (x * y') * p + x * r - (q * W) * p;
      { assert (q * W + s) * p == (q * W) * p + s * p; }
      s * p + r * x;
    }
  }

  function MulModShoup(x: uint64, y: uint64, yprime: uint64, p: uint64): (r: uint64)
    requires p > 0
  {
    var res := Wrap(Lazy(x, y, yprime, p));
    if res >= p then res - p else res
  }

  /** With the right quotient the product is fully reduced, for every 64-bit x. */
  lemma MulModShoupExact(x: uint64, y: uint64, p: uint64)
    requires y < p < W64 / 2
    ensures MulModShoup(x, y, ShoupQuotient(y, p), p) == (x * y) % p
  {
    LazyRange(x, y, p);
    var u := Lazy(x, y, ShoupQuotient(y, p), p);
    if u < p {
      CongExact(u, x * y, p);
    } else {
      CongByMultiple(u - p, u, -1, p);
      CongExact(u - p, x * y, p);
    }
  }

  // --------------------------------------------- fused multiply and accumulate

  function MulAndAddShoup(rop: uint64, x: uint64, y: uint64, yprime: uint64, p: uint64): (r: uint64)
    requires p > 0
  {
    var s := Wrap(rop + Wrap(Lazy(x, y, yprime, p)));
    if s >= p then s - p else s
  }

  /** The guard that keeps one accumulation step inside 64 bits. */
  ghost predicate NoCarry(rop: uint64, x: uint64, y: uint64, p: uint64)
    requires y < p
  {
    rop + Lazy(x, y, ShoupQuotient(y, p), p) < W64
  }

  /** One addition of a lazy product, with the conditional subtraction after it. */
  lemma SumResidue(rop: uint64, u: uint64, z: int, p: uint64)
    requires 0 < p < W64 / 2 && u < 2 * p && W64 % p != 0 && Cong(u, z, p)
    ensures var s := Wrap(rop + u); Cong(if s >= p then s - p else s, rop + z, p) <==> rop + u < W64
  {
    var s := Wrap(rop + u);
    var r := if s >= p then s - p else s;
    CongAdd(rop, rop, u, z, p);
    CongByMultiple(s - p, s, -1, p);
    if rop + u >= W64 {
      assert s == rop + u - W64;
      if Cong(r, rop + z, p) {
        CongSub(rop + u, rop + u, s, rop + u, p);
        SmallMod(0, p);
      }
    }
  }

  /** An accumulation step is correct modulo p exactly when it does not carry out of 64 bits. */
  lemma MulAndAddShoupExact(rop: uint64, x: uint64, y: uint64, p: uint64)
    requires y < p < W64 / 2 && W64 % p != 0
    ensures Cong(MulAndAddShoup(rop, x, y, ShoupQuotient(y, p), p), rop + x * y, p)
       <==> NoCarry(rop, x, y, p)
  {
    hide ShoupQuotient, Cong, Lazy;
    LazyRange(x, y, p);
    var u := Lazy(x, y, ShoupQuotient(y, p), p);
    SumResidue(rop, u, x * y, p);
  }

  /** What one step adds to the accumulator, scaled by 2^64. */
  lemma MulAndAddShoupGrowth(rop: uint64, x: uint64, y: uint64, p: uint64)
    requires y < p < W64 / 2 && NoCarry(rop, x, y, p)
    ensures var r := MulAndAddShoup(rop, x, y, ShoupQuotient(y, p), p);
            r < p || r * W64 < rop * W64 + p * x
    ensures Cong(MulAndAddShoup(rop, x, y, ShoupQuotient(y, p), p), rop + x * y, p)
  {
    LazyRange(x, y, p);
    var u := Lazy(x, y, ShoupQuotient(y, p), p);
    CongAdd(rop, rop, u, x * y, p);
    CongByMultiple(rop + u - p, rop + u, -1, p);
  }
}
