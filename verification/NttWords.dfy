/** The transform as a function on 64-bit words, wrap-around included: what the in-place loops
    compute, when nothing is lost to the word size, and when the words stay below 2p. */
module NttWords {
  import opened Arith
  import opened Polynomials
  import opened NttSpec
  import opened Words

  // ------------------------------------------------------------- butterflies

  /** u0 + u1, kept below 2p. */
  function Sum2p(u0: uint64, u1: uint64, p: uint64): (r: uint64)
    requires 0 < p < W64 / 4
  {
    var t0 := Wrap(u0 + u1);
    if t0 >= 2 * p then t0 - 2 * p else t0
  }

  /** u0 - u1, made non-negative by testing the sign bit. */
  function Diff2p(u0: uint64, u1: uint64, p: uint64): (r: uint64)
    requires 0 < p < W64 / 4
  {
    var t1 := Wrap(u0 - u1);
    if t1 >= W64 / 2 then Wrap(t1 + 2 * p) else t1
  }

  /** (u0 - u1) * w by Shoup's method, without a final subtraction. */
  function TwiddledDiff(u0: uint64, u1: uint64, w: uint64, w': uint64, p: uint64): (r: uint64)
    requires 0 < p < W64 / 4
  {
    Wrap(Lazy(Wrap(u0 - u1 + 2 * p), w, w', p))
  }

  /** Neither the sum nor the lifted difference leaves the word. */
  predicate NoWrap(u0: uint64, u1: uint64, p: uint64) {
    u0 + u1 < W64 && 0 <= u0 - u1 + 2 * p < W64
  }

  /** Then both results are right modulo p. */
  lemma ButterflyExact(u0: uint64, u1: uint64, p: uint64)
    requires 0 < p < W64 / 4 && NoWrap(u0, u1, p)
    ensures Cong(Sum2p(u0, u1, p), u0 + u1, p)
    ensures Cong(Diff2p(u0, u1, p), u0 - u1, p)
  {
    CongByMultiple(u0 + u1 - 2 * p, u0 + u1, -2, p);
    CongByMultiple(u0 - u1 + 2 * p, u0 - u1, 2, p);
    if u0 < u1 {
      assert Wrap(u0 - u1) == u0 - u1 + W64;
      assert Diff2p(u0, u1, p) == u0 - u1 + 2 * p;
    }
  }

  /** The sign that is tested is that of the difference as a signed word. */
  lemma DiffSigned(u0: uint64, u1: uint64, p: uint64, d: int)
    requires 0 < p < W64 / 4 && -(W64 / 2) <= d < W64 / 2 && Cong(d, u0 - u1, W64)
    ensures Diff2p(u0, u1, p) == Wrap(if d < 0 then d + 2 * p else d)
  {
    var t1 := Wrap(u0 - u1);
    if d < 0 {
      CongByMultiple(d + W64, d, 1, W64);
      CongSmallEqual(d + W64, t1, W64);
      CongByMultiple(d + W64 + 2 * p, d + 2 * p, 1, W64);
    } else {
      CongSmallEqual(d, t1, W64);
    }
  }

  /** Words below 2p never wrap, and stay below 2p. */
  lemma ButterflyBelow(u0: uint64, u1: uint64, p: uint64)
    requires 0 < p < W64 / 4 && u0 < 2 * p && u1 < 2 * p
    ensures NoWrap(u0, u1, p) && Sum2p(u0, u1, p) < 2 * p && Diff2p(u0, u1, p) < 2 * p
  {
    if u0 < u1 {
      assert Wrap(u0 - u1) == u0 - u1 + W64;
      assert Diff2p(u0, u1, p) == u0 - u1 + 2 * p;
    }
  }

  /** For an odd modulus above one the condition is exact for the sum: a carry makes it wrong. */
  lemma SumExactIff(u0: uint64, u1: uint64, p: uint64)
    requires 1 < p < W64 / 4 && W64 % p != 0
    ensures Cong(Sum2p(u0, u1, p), u0 + u1, p) <==> u0 + u1 < W64
  {
    var t0 := Wrap(u0 + u1);
    CongByMultiple(t0 - 2 * p, t0, -2, p);
    if u0 + u1 >= W64 {
      assert t0 == u0 + u1 - W64;
      if Cong(Sum2p(u0, u1, p), u0 + u1, p) {
        CongSub(u0 + u1, u0 + u1, t0, u0 + u1, p);
        SmallMod(0, p);
      }
    }
  }

  /** The twiddled difference is below 2p for any words, and right if the difference does not wrap. */
  lemma TwiddledDiffExact(u0: uint64, u1: uint64, w: uint64, W: int, e: nat, p: uint64)
    requires 0 < p < W64 / 4 && w == Pow(W, e) % p
    ensures TwiddledDiff(u0, u1, w, ShoupQuotient(w, p), p) < 2 * p
    ensures NoWrap(u0, u1, p) ==> Cong(TwiddledDiff(u0, u1, w, ShoupQuotient(w, p), p), (u0 - u1) * Pow(W, e), p)
  {
    var t1 := Wrap(u0 - u1 + 2 * p);
    LazyRange(t1, w, p);
    if NoWrap(u0, u1, p) {
      CongByMultiple(t1, u0 - u1, 2, p);
      CongMod(Pow(W, e), p);
      CongMul(t1, u0 - u1, w, Pow(W, e), p);
    }
  }

  // ------------------------------------------------------------------ layers

  function WordAt(s: seq<uint64>, i: int): uint64 {
    if 0 <= i < |s| then s[i] else 0
  }

  /** Word i after a layer on blocks of 2h words. The last two layers, which are unrolled, do not
      multiply by the root's power zero. */
  function WordEntry(s: seq<uint64>, h: nat, W: int, p: uint64, i: int): uint64
    requires h > 0 && 0 < p < W64 / 4
  {
    var o := i % (2 * h);
    if o < h then Sum2p(WordAt(s, i), WordAt(s, i + h), p)
    else if h <= 2 && o == h then Diff2p(WordAt(s, i - h), WordAt(s, i), p)
    else Twiddled(WordAt(s, i - h), WordAt(s, i), W, o - h, p)
  }

  function Twiddled(u0: uint64, u1: uint64, W: int, e: nat, p: uint64): uint64
    requires 0 < p < W64 / 4
  {
    var w := Pow(W, e) % p;
    QuotientRange(w, p);
    TwiddledDiff(u0, u1, w, ShoupQuotient(w, p), p)
  }

  function WordLayer(s: seq<uint64>, h: nat, W: int, p: uint64): (r: seq<uint64>)
    requires h > 0 && 0 < p < W64 / 4
    ensures |r| == |s|
  {
    seq(|s|, i requires 0 <= i < |s| => WordEntry(s, h, W, p, i))
  }

  /** All layers on blocks of 2^l words. */
  function WordLayers(s: seq<uint64>, l: nat, W: int, p: uint64): (r: seq<uint64>)
    requires 0 < p < W64 / 4
    ensures |r| == |s|
    decreases l
  {
    if l == 0 then s else WordLayers(WordLayer(s, Exp2(l - 1), W, p), l - 1, (W * W) % p, p)
  }

  lemma WordLayerAt(s: seq<uint64>, h: nat, W: int, p: uint64, r: nat, o: nat)
    requires h > 0 && o < h && (2 * h) * r + 2 * h <= |s| && 0 < p < W64 / 4
    ensures 0 <= (2 * h) * r + o < (2 * h) * r + o + h < |s|
    ensures WordLayer(s, h, W, p)[(2 * h) * r + o] == Sum2p(s[(2 * h) * r + o], s[(2 * h) * r + o + h], p)
    ensures WordLayer(s, h, W, p)[(2 * h) * r + o + h]
         == if h <= 2 && o == 0 then Diff2p(s[(2 * h) * r + o], s[(2 * h) * r + o + h], p)
            else Twiddled(s[(2 * h) * r + o], s[(2 * h) * r + o + h], W, o, p)
  {
    hide Sum2p, Diff2p, Twiddled;
    DivModUnique((2 * h) * r + o, r, o, 2 * h);
    DivModUnique((2 * h) * r + o + h, r, o + h, 2 * h);
  }

  // ------------------------------------------------ layers that lose nothing

  ghost predicate PairSmooth(s: seq<uint64>, h: nat, p: uint64, i: nat)
    requires h > 0
  {
    i + h < |s| && i % (2 * h) < h ==> NoWrap(s[i], s[i + h], p)
  }

  ghost predicate SmoothLayer(s: seq<uint64>, h: nat, p: uint64)
    requires h > 0
  {
    forall i: nat :: PairSmooth(s, h, p, i)
  }

  /** No butterfly of any layer leaves the word. */
  ghost predicate Smooth(s: seq<uint64>, l: nat, W: int, p: uint64)
    requires 0 < p < W64 / 4
    decreases l
  {
    l == 0 || (SmoothLayer(s, Exp2(l - 1), p) && Smooth(WordLayer(s, Exp2(l - 1), W, p), l - 1, (W * W) % p, p))
  }

  /** The partner of word i in its butterfly. */
  lemma Partner(i: nat, c: nat, h: nat, len: nat)
    requires h > 0 && len == c * (2 * h) && i < len
    ensures i % (2 * h) < h ==> i + h < len
    ensures i % (2 * h) >= h ==> i - h >= 0 && (i - h) % (2 * h) == i % (2 * h) - h
  {
    BlockBelow(i, c, 2 * h);
    DivModEq(i, 2 * h);
    var q, o := i / (2 * h), i % (2 * h);
    if o >= h {
      if q < 0 { MulMono(q, -1, 2 * h); }
      MulMono(0, q, 2 * h);
      DivModUnique(i - h, q, o - h, 2 * h);
    }
  }

  lemma WordEntryExact(s: seq<uint64>, c: nat, h: nat, W: int, p: uint64, i: nat)
    requires h > 0 && 0 < p < W64 / 4 && |s| == c * (2 * h) && i < |s| && SmoothLayer(s, h, p)
    ensures Cong(WordEntry(s, h, W, p, i), LayerEntry(s, h, W, i), p)
  {
    hide Sum2p, Diff2p, TwiddledDiff, Cong, ShoupQuotient, Pow, NoWrap;
    Partner(i, c, h, |s|);
    var o := i % (2 * h);
    if o < h {
      assert PairSmooth(s, h, p, i);
      ButterflyExact(s[i], s[i + h], p);
    } else {
      assert PairSmooth(s, h, p, i - h);
      var u0: int, u1: int := s[i - h], s[i];
      ButterflyExact(u0, u1, p);
      TwiddledDiffExact(u0, u1, Pow(W, o - h) % p, W, o - h, p);
      if o == h { PowZeroIsOne(W); assert (u0 - u1) * 1 == u0 - u1; }
    }
  }

  lemma PowZeroIsOne(W: int)
    ensures Pow(W, 0) == 1
  {
  }

  lemma SmoothLayerExact(s: seq<uint64>, c: nat, h: nat, W: int, p: uint64)
    requires h > 0 && 0 < p < W64 / 4 && |s| == c * (2 * h) && SmoothLayer(s, h, p)
    ensures CongSeq(WordLayer(s, h, W, p), Layer(s, h, W), p)
  {
    hide WordEntry, LayerEntry, Cong;
    forall i | 0 <= i < |s| ensures Cong(WordLayer(s, h, W, p)[i], Layer(s, h, W)[i], p) {
      WordEntryExact(s, c, h, W, p, i);
    }
  }

  lemma TwoToThe(c: nat, l: nat)
    requires l > 0
    ensures c * Exp2(l) == c * (2 * Exp2(l - 1)) == (2 * c) * Exp2(l - 1)
  {
  }

  /** The layers of words compute the layers of integers, if nothing wraps. */
  lemma {:induction false} SmoothExact(s: seq<uint64>, c: nat, l: nat, W: int, U: int, p: uint64)
    requires 0 < p < W64 / 4 && |s| == c * Exp2(l) && Smooth(s, l, W, p) && Cong(W, U, p)
    ensures CongSeq(WordLayers(s, l, W, p), Remaining(s, l, U), p)
    decreases l
  {
    hide WordLayer, Layer, Cong;
    if l == 0 {
      CongItself(s, p);
    } else {
      var h := Exp2(l - 1);
      TwoToThe(c, l);
      SmoothLayerExact(s, c, h, W, p);
      var t, V := WordLayer(s, h, W, p), (W * W) % p;
      CongMod(W * W, p);
      SmoothExact(t, 2 * c, l - 1, V, W * W, p);
      RemainingCong(t, Layer(s, h, W), l - 1, W * W, W * W, p) by { CongSelf(W * W, p); }
      CongSeqTrans(WordLayers(t, l - 1, V, p), Remaining(t, l - 1, W * W), Remaining(Layer(s, h, W), l - 1, W * W), p);
      CongItself(s, p);
      RemainingCong(s, s, l, W, U, p);
      CongSeqTrans(WordLayers(s, l, W, p), Remaining(s, l, W), Remaining(s, l, U), p);
    }
  }

  lemma CongSelf(x: int, p: int)
    requires p > 0
    ensures Cong(x, x, p)
  {
  }

  lemma CongItself(s: seq<int>, p: int)
    requires p > 0
    ensures CongSeq(s, s, p)
  {
  }

  lemma CongSeqTrans(a: seq<int>, b: seq<int>, c: seq<int>, p: int)
    requires p > 0 && CongSeq(a, b, p) && CongSeq(b, c, p)
    ensures CongSeq(a, c, p)
  {
  }

  // ------------------------------------------------------- words below 2p

  ghost predicate Below(x: seq<int>, b: int) {
    forall i :: 0 <= i < |x| ==> 0 <= x[i] < b
  }

  lemma BelowLayer(s: seq<uint64>, c: nat, h: nat, W: int, p: uint64)
    requires h > 0 && 0 < p < W64 / 4 && |s| == c * (2 * h) && Below(s, 2 * p)
    ensures SmoothLayer(s, h, p) && Below(WordLayer(s, h, W, p), 2 * p)
  {
    hide Sum2p, Diff2p, TwiddledDiff, ShoupQuotient, Pow, NoWrap;
    forall i: nat ensures PairSmooth(s, h, p, i) {
      if i + h < |s| { ButterflyBelow(s[i], s[i + h], p); }
    }
    forall i: nat | i < |s| ensures WordEntry(s, h, W, p, i) < 2 * p {
      Partner(i, c, h, |s|);
      var o := i % (2 * h);
      if o < h {
        ButterflyBelow(s[i], s[i + h], p);
      } else {
        ButterflyBelow(s[i - h], s[i], p);
        TwiddledDiffExact(s[i - h], s[i], Pow(W, o - h) % p, W, o - h, p);
      }
    }
  }

  /** Words below 2p lose nothing in any layer, and end below 2p. */
  lemma {:induction false} BelowSmooth(s: seq<uint64>, c: nat, l: nat, W: int, p: uint64)
    requires 0 < p < W64 / 4 && |s| == c * Exp2(l) && Below(s, 2 * p)
    ensures Smooth(s, l, W, p) && Below(WordLayers(s, l, W, p), 2 * p)
    decreases l
  {
    hide WordLayer, Below, SmoothLayer;
    if l > 0 {
      TwoToThe(c, l);
      BelowLayer(s, c, Exp2(l - 1), W, p);
      BelowSmooth(WordLayer(s, Exp2(l - 1), W, p), 2 * c, l - 1, (W * W) % p, p);
    }
  }

  // -------------------------------------------------------------- transforms

  /** t holds the values of s at the powers of w modulo p, in bit-reversed order. */
  ghost predicate Evaluates(t: seq<int>, s: seq<int>, w: int, L: nat, p: int)
    requires p > 0
  {
    && |t| == |s| == Exp2(L)
    && forall k: nat :: k < Exp2(L) ==> Cong(t[Rev(k, L)], Eval(s, Pow(w, k)), p)
  }

  /** The same, with every word below 2p. */
  ghost predicate Transformed(t: seq<int>, s: seq<int>, w: int, L: nat, p: int)
    requires p > 0
  {
    Evaluates(t, s, w, L, p) && Below(t, 2 * p)
  }

  /** The transform of words is right if nothing wraps. */
  lemma SmoothEvaluates(s: seq<uint64>, L: nat, w: int, p: uint64)
    requires 0 < p < W64 / 4 && |s| == Exp2(L) && Root(w, L, p) && Smooth(s, L, w, p)
    ensures Evaluates(WordLayers(s, L, w, p), s, w, L, p)
  {
    hide WordLayers, Remaining, Eval, Pow, Root;
    SmoothExact(s, 1, L, w, w, p) by { CongSelf(w, p); }
    forall k: nat | k < Exp2(L) ensures Cong(WordLayers(s, L, w, p)[Rev(k, L)], Eval(s, Pow(w, k)), p) {
      LayersEvaluate(s, L, w, k, p);
    }
  }

  /** And words below 2p always transform right, to words below 2p. */
  lemma BelowTransforms(s: seq<uint64>, L: nat, w: int, p: uint64)
    requires 0 < p < W64 / 4 && |s| == Exp2(L) && Root(w, L, p) && Below(s, 2 * p)
    ensures Transformed(WordLayers(s, L, w, p), s, w, L, p)
  {
    hide WordLayers, Below, Smooth, Root;
    BelowSmooth(s, 1, L, w, p);
    SmoothEvaluates(s, L, w, p);
  }
}
