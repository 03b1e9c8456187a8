/** What the in-place number-theoretic transform computes: layers of butterflies,
    the bit-reversed order of the result, and the inverse transform. */
module NttSpec {
  import opened Arith
  import opened Polynomials

  /** w is a root of order 2^L modulo p, witnessed by w^(2^(L-1)) = -1. */
  ghost predicate Root(w: int, L: nat, p: int)
    requires p > 0
  {
    L == 0 || Cong(Pow(w, Exp2(L - 1)), -1, p)
  }

  lemma RootSquare(w: int, L: nat, p: int)
    requires p > 0 && L > 0 && Root(w, L, p)
    ensures Root(w * w, L - 1, p)
  {
    if L > 1 { SquarePow(w, Exp2(L - 2)); }
  }

  // ------------------------------------------------------------ bit reversal

  /** The number whose L bits are those of k in reverse order. */
  function Rev(k: nat, L: nat): (r: nat)
    ensures r < Exp2(L)
  {
    if L == 0 then 0 else (if k % 2 == 1 then Exp2(L - 1) else 0) + Rev(k / 2, L - 1)
  }

  function LowBits(k: nat, L: nat): nat {
    if k >= Exp2(L) then k - Exp2(L) else k
  }

  /** Reversal read from the other end: the top bit becomes the bottom bit. */
  lemma {:induction false} RevTop(k: nat, L: nat)
    requires L > 0 && k < Exp2(L)
    ensures Rev(k, L) == 2 * Rev(LowBits(k, L - 1), L - 1) + (if k >= Exp2(L - 1) then 1 else 0)
  {
    if L > 1 {
      RevTop(k / 2, L - 1);
      var low := LowBits(k, L - 1);
      assert low / 2 == LowBits(k / 2, L - 2) && low % 2 == k % 2;
    }
  }

  /** Bit reversal is its own inverse. */
  lemma {:induction false} RevInvolution(k: nat, L: nat)
    requires k < Exp2(L)
    ensures Rev(Rev(k, L), L) == k
  {
    if L > 0 {
      RevTop(Rev(k, L), L);
      RevInvolution(k / 2, L - 1);
    }
  }

  // ------------------------------------------------------------------ layers

  function At(s: seq<int>, i: int): int {
    if 0 <= i < |s| then s[i] else 0
  }

  /** Value i after a layer of butterflies on blocks of 2h values. */
  function LayerEntry(s: seq<int>, h: nat, w: int, i: int): int
    requires h > 0
  {
    var o := i % (2 * h);
    if o < h then At(s, i) + At(s, i + h) else (At(s, i - h) - At(s, i)) * Pow(w, o - h)
  }

  /** One layer of butterflies: s is a sequence of blocks of 2h values. */
  function Layer(s: seq<int>, h: nat, w: int): (r: seq<int>)
    requires h > 0
    ensures |r| == |s|
  {
    seq(|s|, i requires 0 <= i < |s| => LayerEntry(s, h, w, i))
  }

  /** All layers still to be done on blocks of 2^l values. */
  function Remaining(s: seq<int>, l: nat, w: int): (r: seq<int>)
    ensures |r| == |s|
    decreases l
  {
    if l == 0 then s else Remaining(Layer(s, Exp2(l - 1), w), l - 1, w * w)
  }

  lemma LayerSingle(s: seq<int>, h: nat, w: int)
    requires h > 0 && |s| == 2 * h
    ensures Layer(s, h, w) == SumHalves(s, h) + DiffHalves(s, h, w)
  {
    var t := SumHalves(s, h) + DiffHalves(s, h, w);
    forall i | 0 <= i < |s| ensures Layer(s, h, w)[i] == t[i] {
      SmallMod(i, 2 * h);
    }
  }

  /** An index below c blocks of m leaves its whole block below c * m. */
  lemma BlockBelow(i: nat, c: nat, m: nat)
    requires m > 0 && i < c * m
    ensures i - i % m + m <= c * m
  {
    var q := i / m;
    assert i == q * m + i % m;
    if q >= c { MulMono(c, q, m); }
    MulMono(q + 1, c, m);
  }

  /** Skipping c whole blocks keeps the place inside the block. */
  lemma BlockShift(i: nat, c: nat, m: nat)
    requires m > 0 && c * m <= i
    ensures (i - c * m) % m == i % m <= i - c * m
  {
    var q, o := i / m, i % m;
    assert i == q * m + o;
    if q < c { MulMono(q + 1, c, m); }
    assert (q - c) * m == q * m - c * m;
    DivModUnique(i - c * m, q - c, o, m);
    MulMono(0, q - c, m);
  }

  lemma LayerConcatLeft(a: seq<int>, b: seq<int>, c: nat, h: nat, w: int, i: nat)
    requires h > 0 && |a| == c * (2 * h) && i < |a|
    ensures LayerEntry(a + b, h, w, i) == LayerEntry(a, h, w, i)
  {
    hide Pow;
    BlockBelow(i, c, 2 * h);
    var o := i % (2 * h);
    assert o < h ==> At(a + b, i + h) == At(a, i + h);
    assert At(a + b, i) == At(a, i) && At(a + b, i - h) == At(a, i - h);
  }

  lemma LayerConcatRight(a: seq<int>, b: seq<int>, c: nat, h: nat, w: int, i: nat)
    requires h > 0 && |a| == c * (2 * h) && |a| <= i < |a| + |b|
    ensures LayerEntry(a + b, h, w, i) == LayerEntry(b, h, w, i - |a|)
  {
    hide Pow;
    BlockShift(i, c, 2 * h);
    var o := i % (2 * h);
    assert At(a + b, i + h) == At(b, i - |a| + h) && At(a + b, i) == At(b, i - |a|);
    assert o >= h ==> At(a + b, i - h) == At(b, i - |a| - h);
  }

  lemma LayerConcat(a: seq<int>, b: seq<int>, c: nat, h: nat, w: int)
    requires h > 0 && |a| == c * (2 * h)
    ensures Layer(a + b, h, w) == Layer(a, h, w) + Layer(b, h, w)
  {
    hide LayerEntry;
    var s, t := a + b, Layer(a, h, w) + Layer(b, h, w);
    forall i | 0 <= i < |s| ensures Layer(s, h, w)[i] == t[i] {
      if i < |a| {
        LayerConcatLeft(a, b, c, h, w, i);
      } else {
        LayerConcatRight(a, b, c, h, w, i);
      }
    }
  }

  lemma TwiceBlocks(c: nat, h: nat)
    ensures c * (2 * h) == (2 * c) * h
  {
  }

  lemma {:induction false} RemainingConcat(a: seq<int>, b: seq<int>, c: nat, l: nat, w: int)
    requires |a| == c * Exp2(l)
    ensures Remaining(a + b, l, w) == Remaining(a, l, w) + Remaining(b, l, w)
    decreases l
  {
    if l > 0 {
      hide Layer;
      var h := Exp2(l - 1);
      TwiceBlocks(c, h);
      LayerConcat(a, b, c, h, w);
      RemainingConcat(Layer(a, h, w), Layer(b, h, w), 2 * c, l - 1, w * w);
    }
  }

  lemma TwiddleCong(a: int, a': int, b: int, b': int, w: int, u: int, e: nat, p: int)
    requires p > 0 && Cong(a, a', p) && Cong(b, b', p) && Cong(w, u, p)
    ensures Cong((a - b) * Pow(w, e), (a' - b') * Pow(u, e), p)
  {
    CongSub(a, a', b, b', p);
    CongPow(w, u, e, p);
    CongMul(a - b, a' - b', Pow(w, e), Pow(u, e), p);
  }

  lemma LayerCong(s: seq<int>, t: seq<int>, h: nat, w: int, u: int, p: int)
    requires p > 0 && h > 0 && CongSeq(s, t, p) && Cong(w, u, p)
    ensures CongSeq(Layer(s, h, w), Layer(t, h, u), p)
  {
    hide LayerEntry, Cong;
    forall i | 0 <= i < |s| ensures Cong(Layer(s, h, w)[i], Layer(t, h, u)[i], p) {
      LayerEntryCong(s, t, h, w, u, i, p);
    }
  }

  lemma LayerEntryCong(s: seq<int>, t: seq<int>, h: nat, w: int, u: int, i: nat, p: int)
    requires p > 0 && h > 0 && CongSeq(s, t, p) && Cong(w, u, p)
    ensures Cong(LayerEntry(s, h, w, i), LayerEntry(t, h, u, i), p)
  {
    hide Pow;
    var o := i % (2 * h);
    if o < h {
      CongAdd(At(s, i), At(t, i), At(s, i + h), At(t, i + h), p);
    } else {
      TwiddleCong(At(s, i - h), At(t, i - h), At(s, i), At(t, i), w, u, o - h, p);
    }
  }

  lemma {:induction false} RemainingCong(s: seq<int>, t: seq<int>, l: nat, w: int, u: int, p: int)
    requires p > 0 && CongSeq(s, t, p) && Cong(w, u, p)
    ensures CongSeq(Remaining(s, l, w), Remaining(t, l, u), p)
    decreases l
  {
    if l > 0 {
      LayerCong(s, t, Exp2(l - 1), w, u, p);
      CongMul(w, u, w, u, p);
      RemainingCong(Layer(s, Exp2(l - 1), w), Layer(t, Exp2(l - 1), u), l - 1, w * w, u * u, p);
    }
  }

  /** The layers compute the transform, in bit-reversed order: position Rev(k) holds the
      value of the polynomial at w^k. */
  lemma {:induction false} LayersEvaluate(s: seq<int>, L: nat, w: int, k: nat, p: int)
    requires p > 0 && |s| == Exp2(L) && Root(w, L, p) && k < Exp2(L)
    ensures Cong(Remaining(s, L, w)[Rev(k, L)], Eval(s, Pow(w, k)), p)
    decreases L
  {
    if L == 0 {
      assert s[1..] == [];
    } else {
      var h := Exp2(L - 1);
      var a, b := SumHalves(s, h), DiffHalves(s, h, w);
      LayerSingle(s, h, w);
      RemainingConcat(a, b, 1, L - 1, w * w);
      RootSquare(w, L, p);
      HalvingStep(s, h, w, k / 2, p);
      if k % 2 == 0 {
        LayersEvaluate(a, L - 1, w * w, k / 2, p);
        assert k == 2 * (k / 2);
      } else {
        LayersEvaluate(b, L - 1, w * w, k / 2, p);
        assert k == 2 * (k / 2) + 1;
      }
    }
  }

  // ------------------------------------------------------- inverse transform

  /** X lists the values of y at the powers of w, modulo p. */
  ghost predicate IsTransform(X: seq<int>, y: seq<int>, w: int, p: int)
    requires p > 0
  {
    |X| == |y| && forall k :: 0 <= k < |y| ==> Cong(X[k], Eval(y, Pow(w, k)), p)
  }

  function Evens(X: seq<int>, h: nat): (r: seq<int>)
    requires |X| == 2 * h
    ensures |r| == h
  {
    seq(h, i requires 0 <= i < h => X[2 * i])
  }

  function Odds(X: seq<int>, h: nat): (r: seq<int>)
    requires |X| == 2 * h
    ensures |r| == h
  {
    seq(h, i requires 0 <= i < h => X[2 * i + 1])
  }

  lemma {:induction false} EvalEvenOdd(X: seq<int>, h: nat, z: int)
    requires |X| == 2 * h
    ensures Eval(X, z) == Eval(Evens(X, h), z * z) + z * Eval(Odds(X, h), z * z)
  {
    if h > 0 {
      var Y := X[2..];
      EvalEvenOdd(Y, h - 1, z);
      var e, o := Eval(Evens(Y, h - 1), z * z), Eval(Odds(Y, h - 1), z * z);
      assert Evens(X, h)[1..] == Evens(Y, h - 1) && Odds(X, h)[1..] == Odds(Y, h - 1);
      assert X[1..][1..] == Y;
      assert Eval(X, z) == X[0] + z * (X[1] + z * (e + z * o));
      HornerPair(X[0], X[1], e, o, z);
    }
  }

  lemma HornerPair(a: int, b: int, e: int, o: int, z: int)
    ensures a + z * (b + z * (e + z * o)) == (a + (z * z) * e) + z * (b + (z * z) * o)
  {
    var zz := z * z;
    HornerStep(z, e, z, o);
    assert z * (e + z * o) == z * e + zz * o;
    assert z * (b + (z * e + zz * o)) == z * b + z * (z * e) + z * (zz * o);
    assert z * (z * e) == zz * e;
    assert z * (b + zz * o) == z * b + z * (zz * o);
  }

  lemma TransformHalves(X: seq<int>, y: seq<int>, h: nat, w: int, p: int)
    requires p > 0 && |y| == 2 * h && Cong(Pow(w, h), -1, p) && IsTransform(X, y, w, p)
    ensures IsTransform(Evens(X, h), SumHalves(y, h), w * w, p)
    ensures IsTransform(Odds(X, h), DiffHalves(y, h, w), w * w, p)
  {
    forall k | 0 <= k < h
      ensures Cong(Evens(X, h)[k], Eval(SumHalves(y, h), Pow(w * w, k)), p)
      ensures Cong(Odds(X, h)[k], Eval(DiffHalves(y, h, w), Pow(w * w, k)), p)
    {
      HalvingStep(y, h, w, k, p);
    }
  }

  lemma InverseRoot(w: int, v: int, L: nat, p: int)
    requires p > 0 && Root(w, L, p) && Cong(w * v, 1, p)
    ensures Root(v, L, p)
  {
    if L > 0 {
      var h := Exp2(L - 1);
      PowBaseMul(w, v, h);
      CongPow(w * v, 1, h, p);
      PowOne(h);
      CongScale(Pow(w, h), -1, Pow(v, h), p);
      CongSub(0, 0, -1 * Pow(v, h), 1, p);
    }
  }

  /** Recombination of the two half transforms, below (sign 1) and above (sign -1) the half. */
  lemma Recombine(lo: int, hi: int, n: int, wj: int, z: int, sign: int, A: int, B: int, p: int)
    requires p > 0 && (sign == 1 || sign == -1) && Cong(z * wj, sign, p)
    requires Cong(A, n * (lo + hi), p) && Cong(B, n * ((lo - hi) * wj), p)
    ensures Cong(A + z * B, (2 * n) * (if sign == 1 then lo else hi), p)
  {
    var d := n * (lo - hi);
    Associate(n, lo - hi, wj);
    CongScale(B, d * wj, z, p);
    Associate(z, d, wj);
    CongScale(z * wj, sign, d, p);
    CongAdd(A, n * (lo + hi), z * B, sign * d, p);
    HalfSum(n, lo, hi);
    if sign == 1 { assert sign * d == d; } else { assert sign * d == -d; }
  }

  lemma HalfSum(n: int, lo: int, hi: int)
    ensures n * (lo + hi) + n * (lo - hi) == (2 * n) * lo
    ensures n * (lo + hi) - n * (lo - hi) == (2 * n) * hi
  {
  }

  lemma PowerPair(w: int, v: int, j: nat, p: int)
    requires p > 0 && Cong(w * v, 1, p)
    ensures Cong(Pow(v, j) * Pow(w, j), 1, p)
  {
    PowBaseMul(w, v, j);
    CongPow(w * v, 1, j, p);
    PowOne(j);
  }

  /** v^(h+i) = -v^i modulo p, so its square is that of v^i. */
  lemma UpperPower(w: int, v: int, h: nat, i: nat, p: int)
    requires p > 0 && Cong(Pow(v, h), -1, p) && Cong(w * v, 1, p)
    ensures Cong(Pow(v, h + i) * Pow(w, i), -1, p)
    ensures Cong(Pow(v, h + i) * Pow(v, h + i), Pow(v * v, i), p)
  {
    var a, z, u := Pow(v, i), Pow(v, h + i), Pow(w, i);
    PowAdd(v, h, i);
    CongScale(Pow(v, h), -1, a, p);
    assert Cong(z, -a, p);
    PowerPair(w, v, i, p);
    CongScale(z, -a, u, p);
    CongScale(a * u, 1, -1, p);
    assert -a * u == -1 * (a * u);
    CongMul(z, -a, z, -a, p);
    assert (-a) * (-a) == a * a;
    PowBaseMul(v, v, i);
  }

  lemma LowerPower(w: int, v: int, i: nat, p: int)
    requires p > 0 && Cong(w * v, 1, p)
    ensures Cong(Pow(v, i) * Pow(w, i), 1, p)
    ensures Cong(Pow(v, i) * Pow(v, i), Pow(v * v, i), p)
  {
    PowerPair(w, v, i, p);
    PowBaseMul(v, v, i);
  }

  /** Orthogonality: transforming the values back with the inverse root gives every
      coefficient multiplied by the number of points. */
  lemma {:induction false} InverseTransform(X: seq<int>, y: seq<int>, L: nat, w: int, v: int, j: nat, p: int)
    requires p > 0 && |y| == Exp2(L) && Root(w, L, p) && Cong(w * v, 1, p)
    requires IsTransform(X, y, w, p) && j < Exp2(L)
    ensures Cong(Eval(X, Pow(v, j)), Exp2(L) * y[j], p)
    decreases L
  {
    if L == 0 {
      assert X[1..] == [] && y[1..] == [];
    } else {
      var h := Exp2(L - 1);
      var z := Pow(v, j);
      var Xe, Xo := Evens(X, h), Odds(X, h);
      TransformHalves(X, y, h, w, p);
      RootSquare(w, L, p);
      SquareInverse(w, v, p);
      EvalEvenOdd(X, h, z);
      InverseRoot(w, v, L, p);
      var i := if j < h then j else j - h;
      var sign := if j < h then 1 else -1;
      InverseTransform(Xe, SumHalves(y, h), L - 1, w * w, v * v, i, p);
      InverseTransform(Xo, DiffHalves(y, h, w), L - 1, w * w, v * v, i, p);
      if j < h { LowerPower(w, v, i, p); } else { UpperPower(w, v, h, i, p); }
      EvalCong(Xe, Xe, z * z, Pow(v * v, i), p);
      EvalCong(Xo, Xo, z * z, Pow(v * v, i), p);
      Recombine(y[i], y[i + h], h, Pow(w, i), z, sign, Eval(Xe, z * z), Eval(Xo, z * z), p);
    }
  }

  lemma SquareInverse(w: int, v: int, p: int)
    requires p > 0 && Cong(w * v, 1, p)
    ensures Cong((w * w) * (v * v), 1, p)
  {
    CongMul(w * v, 1, w * v, 1, p);
    MulSwap(w, v, w, v);
  }
}
