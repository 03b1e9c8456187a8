/** Chains of fused multiply-and-accumulate steps, as the reply generator runs them on one word:
    the accumulator is never reduced completely, so carries out of 64 bits are possible. */
module Accumulation {
  import opened Arith
  import opened Words

  ghost predicate Reduced(ys: seq<uint64>, p: uint64) {
    forall i :: 0 <= i < |ys| ==> ys[i] < p
  }

  /** The accumulator after n steps from acc. */
  function Chain(acc: uint64, xs: seq<uint64>, ys: seq<uint64>, p: uint64, n: nat): (r: uint64)
    requires n <= |xs| && n <= |ys| && p > 0 && Reduced(ys, p)
  {
    if n == 0 then acc
    else MulAndAddShoup(Chain(acc, xs, ys, p, n - 1), xs[n - 1], ys[n - 1], ShoupQuotient(ys[n - 1], p), p)
  }

  /** What the chain is meant to add. */
  function Dot(xs: seq<uint64>, ys: seq<uint64>, n: nat): int
    requires n <= |xs| && n <= |ys|
  {
    if n == 0 then 0
    else
      var x: int, y: int := xs[n - 1], ys[n - 1];
      Dot(xs, ys, n - 1) + x * y
  }

  /** How many of the first n steps carry out of 64 bits. */
  ghost function Carries(acc: uint64, xs: seq<uint64>, ys: seq<uint64>, p: uint64, n: nat): nat
    requires n <= |xs| && n <= |ys| && p > 0 && Reduced(ys, p)
  {
    if n == 0 then 0
    else
      var before := Carries(acc, xs, ys, p, n - 1);
      if NoCarry(Chain(acc, xs, ys, p, n - 1), xs[n - 1], ys[n - 1], p) then before else before + 1
  }

  /** One step, carry or not: a carry loses 2^64. */
  lemma StepResidue(rop: uint64, x: uint64, y: uint64, p: uint64)
    requires y < p < W64 / 2
    ensures Cong(MulAndAddShoup(rop, x, y, ShoupQuotient(y, p), p) + (if NoCarry(rop, x, y, p) then 0 else W64),
                 rop + x * y, p)
  {
    hide ShoupQuotient;
    LazyRange(x, y, p);
    var u := Lazy(x, y, ShoupQuotient(y, p), p);
    CongAdd(rop, rop, u, x * y, p);
    CongByMultiple(rop + u - p, rop + u, -1, p);
    if rop + u >= W64 { assert Wrap(rop + u) == rop + u - W64; }
  }

  lemma ChainUnfold(acc: uint64, xs: seq<uint64>, ys: seq<uint64>, p: uint64, n: nat)
    requires 0 < n <= |xs| && n <= |ys| && p > 0 && Reduced(ys, p)
    ensures var c, x: int, y: int := Chain(acc, xs, ys, p, n - 1), xs[n - 1], ys[n - 1];
      && Chain(acc, xs, ys, p, n) == MulAndAddShoup(c, x, y, ShoupQuotient(y, p), p)
      && Carries(acc, xs, ys, p, n) == Carries(acc, xs, ys, p, n - 1) + (if NoCarry(c, x, y, p) then 0 else 1)
      && Dot(xs, ys, n) == Dot(xs, ys, n - 1) + x * y
  {
  }

  /** The chain is off by 2^64 for every carry. */
  lemma {:induction false} ChainResidue(acc: uint64, xs: seq<uint64>, ys: seq<uint64>, p: uint64, n: nat)
    requires n <= |xs| && n <= |ys| && 0 < p < W64 / 2 && Reduced(ys, p)
    ensures Cong(Chain(acc, xs, ys, p, n) + Carries(acc, xs, ys, p, n) * W64, acc + Dot(xs, ys, n), p)
  {
    hide MulAndAddShoup, NoCarry, ShoupQuotient, Cong, Chain, Carries, Dot;
    if n == 0 {
      ChainEmpty(acc, xs, ys, p);
    } else {
      ChainResidue(acc, xs, ys, p, n - 1);
      var c, k := Chain(acc, xs, ys, p, n - 1), Carries(acc, xs, ys, p, n - 1);
      var x: int, y: int := xs[n - 1], ys[n - 1];
      var d, r := Dot(xs, ys, n - 1), Chain(acc, xs, ys, p, n);
      var j := if NoCarry(c, x, y, p) then 0 else 1;
      StepResidue(c, x, y, p);
      ChainUnfold(acc, xs, ys, p, n);
      ChainStep(r, c, x * y, k, j, acc + d, p);
    }
  }

  lemma ChainEmpty(acc: uint64, xs: seq<uint64>, ys: seq<uint64>, p: uint64)
    requires p > 0 && Reduced(ys, p)
    ensures Cong(Chain(acc, xs, ys, p, 0) + Carries(acc, xs, ys, p, 0) * W64, acc + Dot(xs, ys, 0), p)
  {
  }

  lemma ChainStep(r: int, c: int, xy: int, k: int, j: int, d: int, p: int)
    requires p > 0 && Cong(c + k * W64, d, p) && Cong(r + j * W64, c + xy, p)
    ensures Cong(r + (k + j) * W64, d + xy, p)
  {
    CongAdd(r + j * W64, c + xy, k * W64, k * W64, p);
    CongAdd(c + k * W64, d, xy, xy, p);
  }

  lemma {:induction false} OddCancel(c: int, p: int, k: nat)
    requires p > 1 && p % 2 == 1 && Cong(c * Exp2(k), 0, p)
    ensures Cong(c, 0, p)
  {
    if k > 0 {
      Associate(2, c, Exp2(k - 1));
      CongByMultiple(2 * ((p + 1) / 2), 1, 1, p);
      CongCancel(2, (p + 1) / 2, c * Exp2(k - 1), 0, p);
      OddCancel(c, p, k - 1);
    }
  }

  /** A chain shorter than an odd modulus is correct exactly when no step carries. */
  lemma ChainExact(acc: uint64, xs: seq<uint64>, ys: seq<uint64>, p: uint64, n: nat)
    requires n <= |xs| && n <= |ys| && Reduced(ys, p) && p % 2 == 1 && n < p < W64 / 2
    ensures Cong(Chain(acc, xs, ys, p, n), acc + Dot(xs, ys, n), p) <==> Carries(acc, xs, ys, p, n) == 0
  {
    hide Chain, Dot, Carries;
    ChainResidue(acc, xs, ys, p, n);
    var c, k := Chain(acc, xs, ys, p, n), Carries(acc, xs, ys, p, n);
    if Cong(c, acc + Dot(xs, ys, n), p) && p > 1 {
      CongSub(c + k * W64, acc + Dot(xs, ys, n), c, acc + Dot(xs, ys, n), p);
      Exp64();
      OddCancel(k, p, 64);
      CarriesBound(acc, xs, ys, p, n);
      CongSmallEqual(k, 0, p);
    } else if p == 1 {
      CarriesBound(acc, xs, ys, p, n);
    }
  }

  lemma {:induction false} CarriesBound(acc: uint64, xs: seq<uint64>, ys: seq<uint64>, p: uint64, n: nat)
    requires n <= |xs| && n <= |ys| && p > 0 && Reduced(ys, p)
    ensures Carries(acc, xs, ys, p, n) <= n
  {
    if n > 0 { CarriesBound(acc, xs, ys, p, n - 1); }
  }

  // ------------------------------------------------------------- how far it grows

  ghost predicate AtMost(xs: seq<uint64>, X: nat) {
    forall i :: 0 <= i < |xs| ==> xs[i] <= X
  }

  /** Without carries, n steps with factors up to X add less than n*p*X/2^64 to a reduced
      accumulator, however long the chain. */
  lemma {:induction false} ChainGrowth(acc: uint64, xs: seq<uint64>, ys: seq<uint64>, p: uint64, n: nat, X: nat)
    requires n <= |xs| && n <= |ys| && acc < p < W64 / 2 && Reduced(ys, p) && AtMost(xs, X)
    requires Carries(acc, xs, ys, p, n) == 0
    ensures Chain(acc, xs, ys, p, n) * W64 < p * W64 + n * (p * X)
  {
    hide MulAndAddShoup, NoCarry, ShoupQuotient, Chain, Carries;
    if n == 0 {
      ChainZeroSteps(acc, xs, ys, p);
    } else {
      ChainUnfold(acc, xs, ys, p, n);
      ChainGrowth(acc, xs, ys, p, n - 1, X);
      GrowthStep(Chain(acc, xs, ys, p, n - 1), xs[n - 1], ys[n - 1], p, n - 1, X);
    }
  }

  lemma ChainZeroSteps(acc: uint64, xs: seq<uint64>, ys: seq<uint64>, p: uint64)
    requires p > 0 && Reduced(ys, p)
    ensures Chain(acc, xs, ys, p, 0) == acc && Carries(acc, xs, ys, p, 0) == 0
  {
  }

  lemma GrowthStep(c: uint64, x: uint64, y: uint64, p: uint64, k: nat, X: nat)
    requires y < p < W64 / 2 && x <= X && NoCarry(c, x, y, p) && c * W64 < p * W64 + k * (p * X)
    ensures MulAndAddShoup(c, x, y, ShoupQuotient(y, p), p) * W64 < p * W64 + (k + 1) * (p * X)
  {
    hide MulAndAddShoup, ShoupQuotient, NoCarry;
    MulAndAddShoupGrowth(c, x, y, p);
    MulMono(x, X, p);
    OneMore(k, p * X);
  }

  lemma OneMore(k: nat, m: nat)
    ensures (k + 1) * m == k * m + m >= m
  {
    MulMono(0, k, m);
  }

  /** From zero the first step ends reduced, so one step less counts. */
  lemma {:induction false} ZeroChainGrowth(xs: seq<uint64>, ys: seq<uint64>, p: uint64, n: nat, X: nat)
    requires 1 <= n <= |xs| && n <= |ys| && 0 < p < W64 / 2 && Reduced(ys, p) && AtMost(xs, X)
    requires Carries(0, xs, ys, p, n) == 0
    ensures Chain(0, xs, ys, p, n) * W64 < p * W64 + (n - 1) * (p * X)
  {
    hide MulAndAddShoup, NoCarry, ShoupQuotient, Chain, Carries;
    ChainUnfold(0, xs, ys, p, n);
    if n == 1 {
      ChainZeroSteps(0, xs, ys, p);
      FirstStep(xs[0], ys[0], p);
    } else {
      ZeroChainGrowth(xs, ys, p, n - 1, X);
      GrowthStep(Chain(0, xs, ys, p, n - 1), xs[n - 1], ys[n - 1], p, n - 2, X);
    }
  }

  lemma FirstStep(x: uint64, y: uint64, p: uint64)
    requires y < p < W64 / 2
    ensures NoCarry(0, x, y, p) && MulAndAddShoup(0, x, y, ShoupQuotient(y, p), p) < p
  {
    hide ShoupQuotient;
    LazyRange(x, y, p);
  }

  lemma RoomForStep(c: uint64, x: uint64, y: uint64, p: uint64, k: nat, X: nat)
    requires y < p < W64 / 2 && x <= X && c * W64 < p * W64 + k * (p * X)
    requires 2 * (p * W64) + (k + 1) * (p * X) <= W64 * W64
    ensures NoCarry(c, x, y, p)
  {
    hide ShoupQuotient;
    LazyRange(x, y, p);
    MulMono(x, X, p);
    assert (k + 1) * (p * X) == k * (p * X) + p * X;
  }

  /** A bound on n, p and X under which no step can carry. */
  lemma {:induction false} ChainNeverCarries(acc: uint64, xs: seq<uint64>, ys: seq<uint64>, p: uint64, n: nat, X: nat)
    requires n <= |xs| && n <= |ys| && acc < p < W64 / 2 && Reduced(ys, p) && AtMost(xs, X)
    requires 2 * (p * W64) + n * (p * X) <= W64 * W64
    ensures Carries(acc, xs, ys, p, n) == 0
  {
    hide MulAndAddShoup, NoCarry, ShoupQuotient, Chain, Carries;
    if n == 0 {
      ChainZeroSteps(acc, xs, ys, p);
    } else {
      MulMono(0, p, X);
      assert n * (p * X) == (n - 1) * (p * X) + p * X;
      ChainNeverCarries(acc, xs, ys, p, n - 1, X);
      ChainGrowth(acc, xs, ys, p, n - 1, X);
      ChainUnfold(acc, xs, ys, p, n);
      RoomForStep(Chain(acc, xs, ys, p, n - 1), xs[n - 1], ys[n - 1], p, n - 1, X);
    }
  }

  lemma {:induction false} ZeroChainNeverCarries(xs: seq<uint64>, ys: seq<uint64>, p: uint64, n: nat, X: nat)
    requires 1 <= n <= |xs| && n <= |ys| && 0 < p < W64 / 2 && Reduced(ys, p) && AtMost(xs, X)
    requires 2 * (p * W64) + (n - 1) * (p * X) <= W64 * W64
    ensures Carries(0, xs, ys, p, n) == 0
  {
    hide MulAndAddShoup, NoCarry, ShoupQuotient, Chain, Carries;
    ChainUnfold(0, xs, ys, p, n);
    if n == 1 {
      ChainZeroSteps(0, xs, ys, p);
      FirstStep(xs[0], ys[0], p);
    } else {
      MulMono(0, p, X);
      assert (n - 1) * (p * X) == (n - 2) * (p * X) + p * X;
      ZeroChainNeverCarries(xs, ys, p, n - 1, X);
      ZeroChainGrowth(xs, ys, p, n - 1, X);
      RoomForStep(Chain(0, xs, ys, p, n - 1), xs[n - 1], ys[n - 1], p, n - 2, X);
    }
  }

  /** The quarter of p that a factor below 2p adds, when p is below 2^61. */
  lemma Quarters(p: nat, m: nat)
    requires p < W64 / 8
    ensures 4 * (m * (p * (2 * p))) <= (m * p) * W64
  {
    var Q := p * (2 * p);
    assert 4 * Q <= p * W64 by { MulMono(2 * p, W64 / 4, p); }
    MulMono(4 * Q, p * W64, m);
    Associate(m, p, W64);
    Associate(4, m, Q);
  }

  /** With factors below 2p and p below 2^61, 24 steps from a reduced accumulator never carry. */
  lemma ChainBound(acc: uint64, xs: seq<uint64>, ys: seq<uint64>, p: uint64, n: nat)
    requires n <= |xs| && n <= |ys| && acc < p < W64 / 8 && Reduced(ys, p) && Reduced(xs, 2 * p) && n <= 24
    ensures Carries(acc, xs, ys, p, n) == 0
    ensures 4 * Chain(acc, xs, ys, p, n) < (4 + n) * p
  {
    hide Chain, Carries, Reduced;
    ReducedAtMost(xs, 2 * p);
    Quarters(p, n);
    MulMono(n, 24, p);
    ChainNeverCarries(acc, xs, ys, p, n, 2 * p);
    ChainGrowth(acc, xs, ys, p, n, 2 * p);
    assert (4 + n) * p == 4 * p + n * p;
  }

  lemma ReducedAtMost(xs: seq<uint64>, X: uint64)
    requires Reduced(xs, X)
    ensures AtMost(xs, X)
  {
  }

  /** From zero, as replies start: 25 steps never carry, and 5 stay below 2p. */
  lemma ZeroChainBound(xs: seq<uint64>, ys: seq<uint64>, p: uint64, n: nat)
    requires n <= |xs| && n <= |ys| && 0 < p < W64 / 8 && Reduced(ys, p) && Reduced(xs, 2 * p) && n <= 25
    ensures Carries(0, xs, ys, p, n) == 0
    ensures n <= 5 ==> Chain(0, xs, ys, p, n) < 2 * p
  {
    hide Chain, Carries, Reduced;
    if n == 0 {
      ChainZeroSteps(0, xs, ys, p);
    } else {
      ReducedAtMost(xs, 2 * p);
      Quarters(p, n - 1);
      MulMono(n - 1, 24, p);
      ZeroChainNeverCarries(xs, ys, p, n, 2 * p);
      ZeroChainGrowth(xs, ys, p, n, 2 * p);
      if n <= 5 { MulMono(n - 1, 4, p); }
    }
  }

  // --------------------------------------------------- chains that do not fit

  /** One product just below p, then always the same factors. */
  ghost predicate Ramp(xs: seq<uint64>, ys: seq<uint64>, n: nat, d: nat) {
    && |xs| == |ys| == n >= 1 && xs[0] == 1 && ys[0] == 2305843009213317120 - d
    && forall i :: 1 <= i < n ==> xs[i] == 4611686018426622967 && ys[i] == 15696095992655355
  }

  lemma {:induction false} RampChain(xs: seq<uint64>, ys: seq<uint64>, n: nat, d: nat, k: nat)
    requires Ramp(xs, ys, n, d) && d < 32 && 1 <= k <= n && k <= 25
    ensures Reduced(xs, 2 * 2305843009213317121) && Reduced(ys, 2305843009213317121)
    ensures Chain(0, xs, ys, 2305843009213317121, k) == 2305843009213317120 - d + (k - 1) * 576429392236290692
    ensures Carries(0, xs, ys, 2305843009213317121, k) == 0
  {
    hide Chain, Carries, ShoupQuotient;
    var p: uint64 := 2305843009213317121;
    ChainUnfold(0, xs, ys, p, k);
    if k == 1 {
      ChainZeroSteps(0, xs, ys, p);
      ShortLazy(ys[0], p);
    } else {
      RampChain(xs, ys, n, d, k - 1);
      LongLazy();
    }
  }

  /** The bounds are exact: operands in the ranges that the transform produces, for which five
      steps stay below 2p and six do not, and 25 steps are right and 26 are not. */
  lemma CarryingChain(xs: seq<uint64>, ys: seq<uint64>, n: nat)
    requires n == 6 || n == 26
    requires Ramp(xs, ys, n, 0)
    ensures Reduced(xs, 2 * 2305843009213317121) && Reduced(ys, 2305843009213317121)
    ensures n == 6 ==> Chain(0, xs, ys, 2305843009213317121, 6) >= 2 * 2305843009213317121
    ensures n == 26 ==> !Cong(Chain(0, xs, ys, 2305843009213317121, 26), Dot(xs, ys, 26), 2305843009213317121)
  {
    hide Chain, Dot, Carries, Cong, ShoupQuotient;
    var p: uint64 := 2305843009213317121;
    if n == 6 {
      RampChain(xs, ys, 6, 0, 6);
    } else {
      RampChain(xs, ys, 26, 0, 25);
      ChainUnfold(0, xs, ys, p, 26);
      LongLazy();
      ChainExact(0, xs, ys, p, 26);
    }
  }

  lemma ShortLazy(y: uint64, p: uint64)
    requires y < p
    ensures Lazy(1, y, ShoupQuotient(y, p), p) == y
  {
    QuotientRange(y, p);
  }

  lemma LongLazy()
    ensures Lazy(4611686018426622967, 15696095992655355, ShoupQuotient(15696095992655355, 2305843009213317121),
                 2305843009213317121)
      == 2882272401449607813
  {
    DivModUnique(15696095992655355 * W64, 125568767941263360, 2305843009213317120, 2305843009213317121);
    DivModUnique(4611686018426622967 * 125568767941263360, 31392191985310632, 18446493193174007808, W64);
  }
}
