/** Polynomials as coefficient vectors, their evaluation by Horner's rule, and the
    halving identity that every fast transform rests on. */
module Polynomials {
  import opened Arith

  /** The value at z of the polynomial whose coefficient of X^i is x[i]. */
  function Eval(x: seq<int>, z: int): int {
    if |x| == 0 then 0 else x[0] + z * Eval(x[1..], z)
  }

  lemma {:induction false} EvalConcat(x: seq<int>, y: seq<int>, z: int)
    ensures Eval(x + y, z) == Eval(x, z) + Pow(z, |x|) * Eval(y, z)
  {
    if |x| == 0 {
      assert x + y == y;
    } else {
      EvalConcat(x[1..], y, z);
      assert (x + y)[1..] == x[1..] + y;
      HornerStep(z, Eval(x[1..], z), Pow(z, |x| - 1), Eval(y, z));
      assert (x + y)[0] == x[0];
    }
  }

  lemma EvalSnoc(x: seq<int>, a: int, z: int)
    ensures Eval(x + [a], z) == Eval(x, z) + a * Pow(z, |x|)
  {
    EvalConcat(x, [a], z);
    assert [a][1..] == [] && Eval([], z) == 0;
    assert Eval([a], z) == a + z * 0;
    assert Pow(z, |x|) * a == a * Pow(z, |x|);
  }

  lemma {:induction false} EvalCong(x: seq<int>, y: seq<int>, z: int, u: int, p: int)
    requires p > 0 && CongSeq(x, y, p) && Cong(z, u, p)
    ensures Cong(Eval(x, z), Eval(y, u), p)
  {
    if |x| > 0 {
      EvalCong(x[1..], y[1..], z, u, p);
      CongMul(z, u, Eval(x[1..], z), Eval(y[1..], u), p);
      CongAdd(x[0], y[0], z * Eval(x[1..], z), u * Eval(y[1..], u), p);
    }
  }

  // ----------------------------------------------- coefficientwise operations

  function Plus(x: seq<int>, y: seq<int>): (r: seq<int>)
    requires |x| == |y|
    ensures |r| == |x|
  {
    seq(|x|, i requires 0 <= i < |x| => x[i] + y[i])
  }

  function Minus(x: seq<int>, y: seq<int>): (r: seq<int>)
    requires |x| == |y|
    ensures |r| == |x|
  {
    seq(|x|, i requires 0 <= i < |x| => x[i] - y[i])
  }

  function Scaled(c: int, x: seq<int>): (r: seq<int>)
    ensures |r| == |x|
  {
    seq(|x|, i requires 0 <= i < |x| => c * x[i])
  }

  /** Coefficient i multiplied by g^i: the substitution X -> g*X. */
  function Twist(x: seq<int>, g: int): (r: seq<int>)
    ensures |r| == |x|
  {
    seq(|x|, i requires 0 <= i < |x| => x[i] * Pow(g, i))
  }

  lemma {:induction false} EvalPlus(x: seq<int>, y: seq<int>, z: int)
    requires |x| == |y|
    ensures Eval(Plus(x, y), z) == Eval(x, z) + Eval(y, z)
  {
    if |x| > 0 {
      assert Plus(x, y)[1..] == Plus(x[1..], y[1..]);
      EvalPlus(x[1..], y[1..], z);
      Distribute(z, Eval(x[1..], z), Eval(y[1..], z));
    }
  }

  lemma {:induction false} EvalScaled(c: int, x: seq<int>, z: int)
    ensures Eval(Scaled(c, x), z) == c * Eval(x, z)
  {
    if |x| > 0 {
      assert Scaled(c, x)[1..] == Scaled(c, x[1..]);
      EvalScaled(c, x[1..], z);
      HornerStep(c, x[0], z, Eval(x[1..], z));
      Associate(c, z, Eval(x[1..], z));
    }
  }

  lemma EvalMinus(x: seq<int>, y: seq<int>, z: int)
    requires |x| == |y|
    ensures Eval(Minus(x, y), z) == Eval(x, z) - Eval(y, z)
  {
    EvalPlus(Minus(x, y), y, z);
    assert Plus(Minus(x, y), y) == x;
  }

  lemma {:induction false} EvalTwist(x: seq<int>, g: int, z: int)
    ensures Eval(Twist(x, g), z) == Eval(x, g * z)
  {
    if |x| > 0 {
      var n := |x| - 1;
      var y, a := x[..n], x[n];
      assert x == y + [a] && Twist(x, g) == Twist(y, g) + [a * Pow(g, n)];
      EvalTwist(y, g, z);
      EvalSnoc(y, a, g * z);
      EvalSnoc(Twist(y, g), a * Pow(g, n), z);
      PowBaseMul(g, z, n);
      Associate(a, Pow(g, n), Pow(z, n));
    }
  }

  // ----------------------------------------------------------- halving a DFT

  /** First outputs of a radix-2 decimation-in-frequency step. */
  function SumHalves(x: seq<int>, h: nat): (r: seq<int>)
    requires |x| == 2 * h
    ensures |r| == h
  {
    Plus(x[..h], x[h..])
  }

  /** Last outputs of a radix-2 decimation-in-frequency step with root w. */
  function DiffHalves(x: seq<int>, h: nat, w: int): (r: seq<int>)
    requires |x| == 2 * h
    ensures |r| == h
  {
    Twist(Minus(x[..h], x[h..]), w)
  }

  lemma SquarePow(w: int, k: nat)
    ensures Pow(w, 2 * k) == Pow(w * w, k)
  {
    assert Pow(w, 2) == w * Pow(w, 1) == w * w;
    PowMul(w, 2, k);
  }

  lemma MinusOnePower(w: int, h: nat, k: nat, p: int)
    requires p > 0 && Cong(Pow(w, h), -1, p)
    ensures Cong(Pow(Pow(w, 2 * k), h), 1, p)
    ensures Cong(Pow(Pow(w, 2 * k + 1), h), -1, p)
  {
    PowMul(w, 2 * k, h);
    PowMul(w, h, 2 * k);
    assert (2 * k) * h == h * (2 * k);
    CongPow(Pow(w, h), -1, 2 * k, p);
    SquarePow(-1, k);
    PowOne(k);
    PowBaseMul(w, Pow(w, 2 * k), h);
    CongMul(Pow(w, h), -1, Pow(Pow(w, 2 * k), h), 1, p);
  }

  /** Even-numbered values of a transform of size 2h are the transform of the summed
      halves, odd-numbered values that of the twisted differences. */
  lemma HalvingStep(x: seq<int>, h: nat, w: int, k: nat, p: int)
    requires p > 0 && |x| == 2 * h && Cong(Pow(w, h), -1, p)
    ensures Cong(Eval(x, Pow(w, 2 * k)), Eval(SumHalves(x, h), Pow(w * w, k)), p)
    ensures Cong(Eval(x, Pow(w, 2 * k + 1)), Eval(DiffHalves(x, h, w), Pow(w * w, k)), p)
  {
    var lo, hi := x[..h], x[h..];
    assert x == lo + hi;
    MinusOnePower(w, h, k, p);
    SquarePow(w, k);
    var z := Pow(w, 2 * k);
    EvalConcat(lo, hi, z);
    EvalPlus(lo, hi, z);
    CongScale(Pow(z, h), 1, Eval(hi, z), p);
    CongAdd(Eval(lo, z), Eval(lo, z), Pow(z, h) * Eval(hi, z), 1 * Eval(hi, z), p);
    var u := w * z;
    assert u == Pow(w, 2 * k + 1);
    EvalConcat(lo, hi, u);
    EvalMinus(lo, hi, u);
    EvalTwist(Minus(lo, hi), w, z);
    CongScale(Pow(u, h), -1, Eval(hi, u), p);
    CongAdd(Eval(lo, u), Eval(lo, u), Pow(u, h) * Eval(hi, u), -1 * Eval(hi, u), p);
  }
}
