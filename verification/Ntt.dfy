/** Harvey's in-place lazy transform on 64-bit words, its tables and its inverse: the loops compute
    exactly the layers of words, for any words. */
module Ntt {
  import opened Arith
  import opened Polynomials
  import opened NttSpec
  import opened Words
  import opened NttWords

  // ----------------------------------------------------------------- tables

  /** The root used by layer j: w squared j times modulo p. */
  function LevelRoot(w: int, j: nat, p: int): int
    requires p > 0
  {
    if j == 0 then w else (LevelRoot(w, j - 1, p) * LevelRoot(w, j - 1, p)) % p
  }

  /** h entries from position at: the powers of W with their Shoup quotients. */
  ghost predicate PowerRow(tab: seq<int>, quot: seq<int>, at: nat, h: nat, W: int, p: int)
    requires p > 0
  {
    && at + h <= |tab| && at + h <= |quot|
    && forall i :: at <= i < at + h ==>
         tab[i] == Pow(W, i - at) % p && quot[i] == ShoupQuotient(Pow(W, i - at) % p, p)
  }

  /** Where the row of layer j starts: the rows before it hold K/2, K/4, ... entries. */
  function RowStart(L: nat, j: nat): (r: nat)
    requires j <= L
    ensures r + Exp2(L - j) == Exp2(L)
  {
    if j == 0 then 0 else RowStart(L, j - 1) + Exp2(L - j)
  }

  /** One row of powers for each of the L layers, laid out one after the other. */
  ghost predicate Tables(tab: seq<int>, quot: seq<int>, w: int, L: nat, p: int)
    requires p > 0
  {
    forall j: nat :: j < L ==>
      PowerRow(tab, quot, RowStart(L, j), Exp2(L - j - 1), LevelRoot(w, j, p), p)
  }

  lemma NextPower(W: int, i: nat, wi: int, p: int)
    requires p > 0 && wi == Pow(W, i) % p
    ensures (wi * W) % p == Pow(W, i + 1) % p
  {
    CongMod(Pow(W, i), p);
    CongScale(wi, Pow(W, i), W, p);
  }

  /** Fills one row of K/2 entries. */
  method PrepRow(wtab: array<uint64>, wtabshoup: array<uint64>, at: nat, h: nat, w: uint64, p: uint64)
    requires wtab != wtabshoup && at + h <= wtab.Length && at + h <= wtabshoup.Length && 1 < p
    modifies wtab, wtabshoup
    ensures PowerRow(wtab[..], wtabshoup[..], at, h, w, p)
    ensures wtab[..at] == old(wtab[..at]) && wtabshoup[..at] == old(wtabshoup[..at])
  {
    var wi: uint64 := 1;
    SmallMod(1, p);
    for i := 0 to h
      invariant wi == Pow(w, i) % p
      invariant PowerRow(wtab[..], wtabshoup[..], at, i, w, p)
      invariant wtab[..at] == old(wtab[..at]) && wtabshoup[..at] == old(wtabshoup[..at])
    {
      CongMod(Pow(w, i), p);
      wtab[at + i] := wi;
      wtabshoup[at + i] := (wi * W64) / p by { QuotientRange(wi, p); }
      NextPower(w, i, wi, p);
      wi := MulMod(wi, w, p);
    }
  }

  /** The first n rows are filled. */
  ghost predicate Rows(tab: seq<int>, quot: seq<int>, w: int, L: nat, n: nat, p: int)
    requires p > 0 && n <= L
  {
    forall j: nat :: j < n ==>
      PowerRow(tab, quot, RowStart(L, j), Exp2(L - j - 1), LevelRoot(w, j, p), p)
  }

  lemma NextRow(tab: seq<int>, quot: seq<int>, tab': seq<int>, quot': seq<int>, w: int, L: nat, n: nat, p: int)
    requires p > 0 && n < L && Rows(tab, quot, w, L, n, p)
    requires RowStart(L, n) <= |tab| == |tab'| && RowStart(L, n) <= |quot| == |quot'|
    requires tab'[..RowStart(L, n)] == tab[..RowStart(L, n)] && quot'[..RowStart(L, n)] == quot[..RowStart(L, n)]
    requires PowerRow(tab', quot', RowStart(L, n), Exp2(L - n - 1), LevelRoot(w, n, p), p)
    ensures Rows(tab', quot', w, L, n + 1, p)
  {
    hide Pow, ShoupQuotient, LevelRoot;
    forall j: nat | j < n
      ensures PowerRow(tab', quot', RowStart(L, j), Exp2(L - j - 1), LevelRoot(w, j, p), p)
    {
      RowOrder(L, j + 1, n);
      RowCopied(tab, quot, tab', quot', RowStart(L, j), Exp2(L - j - 1), RowStart(L, n), LevelRoot(w, j, p), p);
    }
  }

  lemma RowCopied(tab: seq<int>, quot: seq<int>, tab': seq<int>, quot': seq<int>, at: nat, h: nat, c: nat, W: int,
                  p: int)
    requires p > 0 && PowerRow(tab, quot, at, h, W, p) && at + h <= c
    requires c <= |tab| == |tab'| && c <= |quot| == |quot'| && tab'[..c] == tab[..c] && quot'[..c] == quot[..c]
    ensures PowerRow(tab', quot', at, h, W, p)
  {
    hide Pow, ShoupQuotient;
    forall i | at <= i < at + h ensures tab'[i] == tab[i] && quot'[i] == quot[i] {
      assert tab'[i] == tab'[..c][i] && quot'[i] == quot'[..c][i];
    }
  }

  lemma {:induction false} RowOrder(L: nat, j: nat, n: nat)
    requires j <= n <= L
    ensures RowStart(L, j) <= RowStart(L, n)
  {
    if j < n { RowOrder(L, j, n - 1); }
  }

  /** prep_wtab: all rows, squaring the root and halving K after each. */
  method PrepWtab(wtab: array<uint64>, wtabshoup: array<uint64>, w: uint64, K: nat, p: uint64, ghost L: nat)
    requires wtab != wtabshoup && K == Exp2(L) <= wtab.Length + 1 && K <= wtabshoup.Length + 1 && 1 < p
    modifies wtab, wtabshoup
    ensures Tables(wtab[..], wtabshoup[..], w, L, p)
  {
    hide PowerRow, Rows;
    var at, W, size := 0, w, K;
    ghost var n := 0;
    assert Rows(wtab[..], wtabshoup[..], w, L, 0, p) by { NoRows(wtab[..], wtabshoup[..], w, L, p); }
    while size >= 2
      invariant n <= L && size == Exp2(L - n) && at == RowStart(L, n) && W == LevelRoot(w, n, p)
      invariant Rows(wtab[..], wtabshoup[..], w, L, n, p)
      decreases size
    {
      ghost var tab, quot := wtab[..], wtabshoup[..];
      PrepRow(wtab, wtabshoup, at, size / 2, W, p);
      NextRow(tab, quot, wtab[..], wtabshoup[..], w, L, n, p);
      at := at + size / 2;
      W := MulMod(W, W, p);
      size := size / 2;
      n := n + 1;
    }
    AllRows(wtab[..], wtabshoup[..], w, L, p);
  }

  lemma NoRows(tab: seq<int>, quot: seq<int>, w: int, L: nat, p: int)
    requires p > 0
    ensures Rows(tab, quot, w, L, 0, p)
  {
  }

  lemma AllRows(tab: seq<int>, quot: seq<int>, w: int, L: nat, p: int)
    requires p > 0 && Rows(tab, quot, w, L, L, p)
    ensures Tables(tab, quot, w, L, p)
  {
  }

  // ------------------------------------------------------ layers done in place

  lemma RowEntry(wtab: seq<uint64>, winvtab: seq<uint64>, at: nat, h: nat, W: int, o: nat, p: uint64)
    requires p > 0 && o < h && PowerRow(wtab, winvtab, at, h, W, p)
    ensures at + h <= |wtab| && at + h <= |winvtab|
    ensures wtab[at + o] == Pow(W, o) % p && winvtab[at + o] == ShoupQuotient(wtab[at + o], p)
  {
    assert at + o - at == o;
  }

  /** The first n butterflies of the block of 2h words at b turn X into Y. */
  ghost predicate Butterflies(X: seq<uint64>, Y: seq<uint64>, b: nat, h: nat, n: nat,
                              wtab: seq<uint64>, winvtab: seq<uint64>, at: nat, p: uint64)
    requires 0 < p < W64 / 4 && n <= h && b + 2 * h <= |X| == |Y| && at + h <= |wtab| && at + h <= |winvtab|
  {
    && (forall i :: 0 <= i < |X| && !(b <= i < b + n) && !(b + h <= i < b + h + n) ==> Y[i] == X[i])
    && (forall i :: b <= i < b + n ==> Y[i] == Sum2p(X[i], X[i + h], p))
    && (forall i :: b + h <= i < b + h + n ==>
          Y[i] == TwiddledDiff(X[i - h], X[i], wtab[at + (i - h - b)], winvtab[at + (i - h - b)], p))
  }

  lemma NoButterfly(X: seq<uint64>, b: nat, h: nat, wtab: seq<uint64>, winvtab: seq<uint64>, at: nat, p: uint64)
    requires 0 < p < W64 / 4 && b + 2 * h <= |X| && at + h <= |wtab| && at + h <= |winvtab|
    ensures Butterflies(X, X, b, h, 0, wtab, winvtab, at, p)
  {
  }

  lemma NextButterfly(X: seq<uint64>, Y: seq<uint64>, Z: seq<uint64>, b: nat, h: nat, n: nat,
                      wtab: seq<uint64>, winvtab: seq<uint64>, at: nat, p: uint64)
    requires 0 < p < W64 / 4 && n < h && b + 2 * h <= |X| == |Y| && at + h <= |wtab| && at + h <= |winvtab|
    requires Butterflies(X, Y, b, h, n, wtab, winvtab, at, p)
    requires Z == Y[b + n := Sum2p(Y[b + n], Y[b + n + h], p)]
                   [b + n + h := TwiddledDiff(Y[b + n], Y[b + n + h], wtab[at + n], winvtab[at + n], p)]
    ensures Butterflies(X, Z, b, h, n + 1, wtab, winvtab, at, p)
  {
    hide Sum2p, TwiddledDiff;
  }

  /** The inner loop of a layer: all butterflies of one block. */
  method ButterflyBlock(x: array<uint64>, b: nat, h: nat, wtab: seq<uint64>, winvtab: seq<uint64>, at: nat, p: uint64)
    requires b + 2 * h <= x.Length && at + h <= |wtab| && at + h <= |winvtab| && 0 < p < W64 / 4
    modifies x
    ensures Butterflies(old(x[..]), x[..], b, h, h, wtab, winvtab, at, p)
  {
    hide Sum2p, TwiddledDiff, Butterflies;
    assert Butterflies(x[..], x[..], b, h, 0, wtab, winvtab, at,
                       p) by { NoButterfly(x[..], b, h, wtab, winvtab, at, p); }
    for i := 0 to h
      invariant Butterflies(old(x[..]), x[..], b, h, i, wtab, winvtab, at, p)
    {
      ghost var Y := x[..];
      var u0, u1 := x[b + i], x[b + i + h];
      x[b + i] := Sum2p(u0, u1, p);
      x[b + i + h] := TwiddledDiff(u0, u1, wtab[at + i], winvtab[at + i], p);
      NextButterfly(old(x[..]), Y, x[..], b, h, i, wtab, winvtab, at, p);
    }
  }

  /** X0 has become X by rewriting the first c words of X0[off..off+|goal|] into those of goal. */
  ghost predicate UpTo(X0: seq<uint64>, X: seq<uint64>, off: nat, goal: seq<uint64>, c: nat)
    requires c <= |goal| && off + |goal| <= |X0|
  {
    && |X| == |X0|
    && X[..off] == X0[..off] && X[off..off + c] == goal[..c] && X[off + c..] == X0[off + c..]
  }

  lemma StartUpTo(X0: seq<uint64>, off: nat, goal: seq<uint64>)
    requires off + |goal| <= |X0|
    ensures UpTo(X0, X0, off, goal, 0)
  {
  }

  /** Rewriting n more words extends the finished part. */
  lemma ExtendUpTo(X0: seq<uint64>, X: seq<uint64>, Y: seq<uint64>, off: nat, goal: seq<uint64>, c: nat, n: nat)
    requires c + n <= |goal| && off + |goal| <= |X0| && UpTo(X0, X, off, goal, c)
    requires |Y| == |X| && Y[..off + c] == X[..off + c] && Y[off + c + n..] == X[off + c + n..]
    requires forall i :: off + c <= i < off + c + n ==> Y[i] == goal[i - off]
    ensures UpTo(X0, Y, off, goal, c + n)
  {
    assert Y[..off] == Y[..off + c][..off] == X[..off];
    assert Y[off + c + n..] == X[off + c..][n..] == X0[off + c..][n..];
    var done := Y[off..off + (c + n)];
    forall i | 0 <= i < c + n ensures done[i] == goal[i] {
      if i < c { assert Y[off + i] == Y[..off + c][off + i] == X[off..off + c][i]; }
    }
    assert done == goal[..c + n];
  }

  /** Word k of the segment, from place c on, is still that of the input. */
  lemma SameWord(X0: seq<uint64>, X: seq<uint64>, off: nat, K: nat, c: nat, k: nat)
    requires c <= k < K && off + K <= |X0| == |X| && X[off + c..] == X0[off + c..]
    ensures X[off + k] == X0[off..off + K][k]
  {
    assert X[off + k] == X[off + c..][k - c] == X0[off + k];
  }

  /** Word i of the layer after the inner loop on block r. */
  lemma BlockWord(X0: seq<uint64>, X: seq<uint64>, Y: seq<uint64>, off: nat, K: nat, h: nat, W: int, r: nat, c: nat,
                  i: nat, wtab: seq<uint64>, winvtab: seq<uint64>, at: nat, p: uint64)
    requires 0 < p < W64 / 4 && h > 2 && c == (2 * h) * r && c <= i < c + 2 * h <= K && off + K <= |X0| == |X| == |Y|
    requires X[off + c..] == X0[off + c..] && PowerRow(wtab, winvtab, at, h, W, p)
    requires Butterflies(X, Y, off + c, h, h, wtab, winvtab, at, p)
    ensures Y[off + i] == WordLayer(X0[off..off + K], h, W, p)[i]
  {
    hide WordLayer, Sum2p, TwiddledDiff, ShoupQuotient, Pow, Butterflies, PowerRow;
    var s := X0[off..off + K];
    var o := if i < c + h then i - c else i - c - h;
    SameWord(X0, X, off, K, c, c + o);
    SameWord(X0, X, off, K, c, c + o + h);
    RowEntry(wtab, winvtab, at, h, W, o, p);
    WordLayerAt(s, h, W, p, r, o);
    ButterflyAt(X, Y, off + c, h, wtab, winvtab, at, p, o);
  }

  lemma ButterflyAt(X: seq<uint64>, Y: seq<uint64>, b: nat, h: nat, wtab: seq<uint64>, winvtab: seq<uint64>, at: nat,
                    p: uint64, o: nat)
    requires 0 < p < W64 / 4 && o < h && b + 2 * h <= |X| == |Y| && at + h <= |wtab| && at + h <= |winvtab|
    requires Butterflies(X, Y, b, h, h, wtab, winvtab, at, p)
    ensures Y[b + o] == Sum2p(X[b + o], X[b + o + h], p)
    ensures Y[b + o + h] == TwiddledDiff(X[b + o], X[b + o + h], wtab[at + o], winvtab[at + o], p)
  {
    hide Sum2p, TwiddledDiff;
    var i := b + h + o;
    assert Y[i] == TwiddledDiff(X[i - h], X[i], wtab[at + (i - h - b)], winvtab[at + (i - h - b)], p);
  }

  /** The inner loop on block r extends the finished part of the layer by that block. */
  lemma BlockOfLayer(X0: seq<uint64>, X: seq<uint64>, Y: seq<uint64>, off: nat, K: nat, h: nat, W: int, r: nat, c: nat,
                     wtab: seq<uint64>, winvtab: seq<uint64>, at: nat, p: uint64)
    requires 0 < p < W64 / 4 && h > 2 && c == BlockStart(h, r) && c + 2 * h <= K && off + K <= |X0| == |Y|
    requires PowerRow(wtab, winvtab, at, h, W, p)
    requires UpTo(X0, X, off, WordLayer(X0[off..off + K], h, W, p), c)
    requires Butterflies(X, Y, off + c, h, h, wtab, winvtab, at, p)
    ensures UpTo(X0, Y, off, WordLayer(X0[off..off + K], h, W, p), c + 2 * h)
  {
    hide WordLayer, Sum2p, TwiddledDiff, PowerRow;
    var goal := WordLayer(X0[off..off + K], h, W, p);
    forall i | off + c <= i < off + c + 2 * h ensures Y[i] == goal[i - off] {
      BlockWord(X0, X, Y, off, K, h, W, r, c, i - off, wtab, winvtab, at, p);
    }
    ExtendUpTo(X0, X, Y, off, goal, c, 2 * h);
  }

  /** Where block r of 2h words starts. */
  function BlockStart(h: nat, r: nat): nat {
    MulMono(0, r, 2 * h);
    (2 * h) * r
  }

  lemma BlockNext(h: nat, r: nat, M: nat)
    requires r < M
    ensures BlockStart(h, r + 1) == BlockStart(h, r) + 2 * h <= BlockStart(h, M)
  {
    MulMono(r + 1, M, 2 * h);
  }

  lemma BlockFirst(h: nat)
    ensures BlockStart(h, 0) == 0
  {
  }

  /** The middle loop: M blocks of 2h words. */
  method LayerInPlace(x: array<uint64>, off: nat, M: nat, h: nat, wtab: seq<uint64>, winvtab: seq<uint64>,
                      at: nat, p: uint64, K: nat, ghost W: int)
    requires h > 2 && K == BlockStart(h, M) && off + K <= x.Length && 0 < p < W64 / 4
    requires at + h <= |wtab| && at + h <= |winvtab| && PowerRow(wtab, winvtab, at, h, W, p)
    modifies x
    ensures UpTo(old(x[..]), x[..], off, WordLayer(old(x[off..off + K]), h, W, p), K)
  {
    hide Butterflies, UpTo, PowerRow, WordLayer, BlockStart;
    ghost var X0 := x[..];
    BlockFirst(h);
    assert X0[off..off + K] == x[off..off + K];
    ghost var goal := WordLayer(X0[off..off + K], h, W, p);
    var c := 0;
    StartUpTo(X0, off, goal);
    for r := 0 to M
      invariant c == BlockStart(h, r)
      invariant c <= K
      invariant UpTo(X0, x[..], off, goal, c)
    {
      BlockNext(h, r, M);
      ghost var X := x[..];
      ButterflyBlock(x, off + c, h, wtab, winvtab, at, p);
      BlockOfLayer(X0, X, x[..], off, K, h, W, r, c, wtab, winvtab, at, p);
      c := c + 2 * h;
    }
  }

  // -------------------------------------------------------- last two layers

  /** The two unrolled layers on the four words at 4r. */
  lemma TwoLayersAt(s: seq<uint64>, W: int, p: uint64, r: nat)
    requires 4 * r + 4 <= |s| && 0 < p < W64 / 4
    ensures
      var u0, u1, u2, u3 := s[4 * r], s[4 * r + 1], s[4 * r + 2], s[4 * r + 3];
      var v0, v1, v2, v3 := Sum2p(u0, u2, p), Sum2p(u1, u3, p), Diff2p(u0, u2, p), Twiddled(u1, u3, W, 1, p);
      && WordLayers(s, 2, W, p)[4 * r] == Sum2p(v0, v1, p)
      && WordLayers(s, 2, W, p)[4 * r + 1] == Diff2p(v0, v1, p)
      && WordLayers(s, 2, W, p)[4 * r + 2] == Sum2p(v2, v3, p)
      && WordLayers(s, 2, W, p)[4 * r + 3] == Diff2p(v2, v3, p)
  {
    hide WordLayer, Sum2p, Diff2p, Twiddled;
    var t, V := WordLayer(s, 2, W, p), (W * W) % p;
    SmallPowersOfTwo();
    WordLayerAt(s, 2, W, p, r, 0);
    WordLayerAt(s, 2, W, p, r, 1);
    assert WordLayers(s, 2, W, p) == WordLayers(t, 1, V, p);
    assert WordLayers(t, 1, V, p) == WordLayers(WordLayer(t, 1, V, p), 0, (V * V) % p, p) == WordLayer(t, 1, V, p);
    WordLayerAt(t, 1, V, p, 2 * r, 0);
    WordLayerAt(t, 1, V, p, 2 * r + 1, 0);
  }

  lemma SmallPowersOfTwo()
    ensures Exp2(0) == 1 && Exp2(1) == 2
  {
  }

  /** The body of the last loop, on the four words at b. */
  method Quad(x: array<uint64>, b: nat, w: uint64, w': uint64, p: uint64)
    requires b + 4 <= x.Length && 0 < p < W64 / 4
    modifies x
    ensures
      var X := old(x[..]);
      var v0, v1, v2 := Sum2p(X[b], X[b + 2], p), Sum2p(X[b + 1], X[b + 3], p), Diff2p(X[b], X[b + 2], p);
      var v3 := TwiddledDiff(X[b + 1], X[b + 3], w, w', p);
      x[..] == X[..b] + [Sum2p(v0, v1, p), Diff2p(v0, v1, p), Sum2p(v2, v3, p), Diff2p(v2, v3, p)] + X[b + 4..]
  {
    hide Sum2p, Diff2p, TwiddledDiff;
    var u0, u1, u2, u3 := x[b], x[b + 1], x[b + 2], x[b + 3];
    var v0, v2 := Sum2p(u0, u2, p), Diff2p(u0, u2, p);
    var v1, v3 := Sum2p(u1, u3, p), TwiddledDiff(u1, u3, w, w', p);
    x[b] := Sum2p(v0, v1, p);
    x[b + 1] := Diff2p(v0, v1, p);
    x[b + 2] := Sum2p(v2, v3, p);
    x[b + 3] := Diff2p(v2, v3, p);
  }

  lemma QuadOfLayers(X0: seq<uint64>, X: seq<uint64>, Y: seq<uint64>, off: nat, K: nat, W: int, r: nat,
                     w: uint64, p: uint64)
    requires 0 < p < W64 / 4 && 4 * r + 4 <= K && off + K <= |X0| && w == W % p
    requires UpTo(X0, X, off, WordLayers(X0[off..off + K], 2, W, p), 4 * r)
    requires
      var b := off + 4 * r;
      var v0, v1, v2 := Sum2p(X[b], X[b + 2], p), Sum2p(X[b + 1], X[b + 3], p), Diff2p(X[b], X[b + 2], p);
      var v3 := TwiddledDiff(X[b + 1], X[b + 3], w, ShoupQuotient(w, p), p);
      Y == X[..b] + [Sum2p(v0, v1, p), Diff2p(v0, v1, p), Sum2p(v2, v3, p), Diff2p(v2, v3, p)] + X[b + 4..]
    ensures UpTo(X0, Y, off, WordLayers(X0[off..off + K], 2, W, p), 4 * r + 4)
  {
    hide WordLayers, Sum2p, Diff2p, TwiddledDiff, ShoupQuotient, Pow;
    var b, s := off + 4 * r, X0[off..off + K];
    var goal := WordLayers(s, 2, W, p);
    SameWord(X0, X, off, K, 4 * r, 4 * r);
    SameWord(X0, X, off, K, 4 * r, 4 * r + 1);
    SameWord(X0, X, off, K, 4 * r, 4 * r + 2);
    SameWord(X0, X, off, K, 4 * r, 4 * r + 3);
    TwoLayersAt(s, W, p, r);
    PowOneIs(W);
    forall i | b <= i < b + 4 ensures Y[i] == goal[i - off] {
      assert i == b || i == b + 1 || i == b + 2 || i == b + 3;
    }
    ExtendUpTo(X0, X, Y, off, goal, 4 * r, 4);
  }

  lemma PowOneIs(W: int)
    ensures Pow(W, 1) == W
  {
    assert Pow(W, 1) == W * Pow(W, 0);
  }

  /** The loop over blocks of four words that fuses the last two layers. */
  method LastTwoLayers(x: array<uint64>, off: nat, M: nat, w: uint64, w': uint64, p: uint64, ghost W: int)
    requires off + 4 * M <= x.Length && 0 < p < W64 / 4 && w == W % p && w' == ShoupQuotient(w, p)
    modifies x
    ensures UpTo(old(x[..]), x[..], off, WordLayers(old(x[off..off + 4 * M]), 2, W, p), 4 * M)
  {
    hide UpTo, WordLayers, Sum2p, Diff2p, TwiddledDiff, ShoupQuotient;
    ghost var X0, K := x[..], 4 * M;
    assert X0[off..off + K] == x[off..off + K];
    ghost var goal := WordLayers(X0[off..off + K], 2, W, p);
    StartUpTo(X0, off, goal);
    for r := 0 to M
      invariant UpTo(X0, x[..], off, goal, 4 * r)
    {
      ghost var X := x[..];
      Quad(x, off + 4 * r, w, w', p);
      QuadOfLayers(X0, X, x[..], off, K, W, r, w, p);
    }
  }

  // ----------------------------------------------------------- the transform

  /** Position of the highest set bit of K. */
  function BitScanReverse(K: nat): (r: nat)
    requires K > 0
    ensures Exp2(r) <= K < 2 * Exp2(r)
  {
    if K == 1 then 0 else 1 + BitScanReverse(K / 2)
  }

  lemma {:induction false} BitScanExp2(L: nat)
    ensures BitScanReverse(Exp2(L)) == L
  {
    if L > 0 {
      BitScanExp2(L - 1);
      assert Exp2(L) / 2 == Exp2(L - 1) >= 1;
    }
  }

  lemma ShiftExp2(L: nat, j: nat)
    requires j <= L
    ensures Exp2(L) / Exp2(j) == Exp2(L - j) && Exp2(L) == Exp2(L - j) * Exp2(j)
  {
    Exp2Add(L - j, j);
    DivModUnique(Exp2(L), Exp2(L - j), 0, Exp2(j));
  }

  /** Nothing outside the segment has changed, and the layers still to do would turn the segment
      into goal. */
  ghost predicate Pending(X0: seq<uint64>, X: seq<uint64>, off: nat, goal: seq<uint64>, l: nat, W: int, p: uint64)
    requires 0 < p < W64 / 4 && off + |goal| <= |X0|
  {
    && |X| == |X0|
    && X[..off] == X0[..off] && X[off + |goal|..] == X0[off + |goal|..]
    && WordLayers(X[off..off + |goal|], l, W, p) == goal
  }

  /** One finished layer leaves one layer less to do, with the squared root. */
  lemma LayerAdvances(X0: seq<uint64>, X: seq<uint64>, Y: seq<uint64>, off: nat, goal: seq<uint64>,
                      l: nat, h: nat, W: int, p: uint64)
    requires 0 < p < W64 / 4 && l > 0 && h == Exp2(l - 1) && off + |goal| <= |X0|
    requires Pending(X0, X, off, goal, l, W, p)
    requires UpTo(X, Y, off, WordLayer(X[off..off + |goal|], h, W, p), |goal|)
    ensures Pending(X0, Y, off, goal, l - 1, (W * W) % p, p)
  {
    hide WordLayer;
    var s := X[off..off + |goal|];
    assert Y[off..off + |goal|] == WordLayer(s, h, W, p);
  }

  /** When the last two layers are done, nothing is left to do. */
  lemma LastLayersFinish(X0: seq<uint64>, X: seq<uint64>, Y: seq<uint64>, off: nat, goal: seq<uint64>, W: int,
                         p: uint64)
    requires 0 < p < W64 / 4 && off + |goal| <= |X0|
    requires Pending(X0, X, off, goal, 2, W, p)
    requires UpTo(X, Y, off, WordLayers(X[off..off + |goal|], 2, W, p), |goal|)
    ensures |Y| == |X0| && Y[..off] == X0[..off] && Y[off + |goal|..] == X0[off + |goal|..]
    ensures Y[off..off + |goal|] == goal
  {
    hide WordLayers;
    assert goal[..|goal|] == goal;
  }

  lemma PendingLength(X0: seq<uint64>, X: seq<uint64>, off: nat, goal: seq<uint64>, l: nat, W: int, p: uint64)
    requires 0 < p < W64 / 4 && off + |goal| <= |X0| && Pending(X0, X, off, goal, l, W, p)
    ensures |X| == |X0|
  {
  }

  lemma TableRow(wtab: seq<uint64>, winvtab: seq<uint64>, w: int, L: nat, j: nat, p: uint64)
    requires p > 0 && j < L && Tables(wtab, winvtab, w, L, p)
    ensures PowerRow(wtab, winvtab, RowStart(L, j), Exp2(L - j - 1), LevelRoot(w, j, p), p)
    ensures RowStart(L, j) + Exp2(L - j - 1) <= |wtab| && RowStart(L, j) + Exp2(L - j - 1) <= |winvtab|
    ensures RowStart(L, j + 1) == RowStart(L, j) + Exp2(L - j - 1)
  {
  }

  lemma LastRow(wtab: seq<uint64>, winvtab: seq<uint64>, at: nat, W: int, p: uint64)
    requires p > 0 && PowerRow(wtab, winvtab, at, 2, W, p)
    ensures wtab[at + 1] == W % p && winvtab[at + 1] == ShoupQuotient(W % p, p)
  {
    RowEntry(wtab, winvtab, at, 2, W, 1, p);
    assert Pow(W, 1) == W * Pow(W, 0) == W;
  }

  /** The outer loop: all layers but the last two. The table position advances row by row. */
  method FirstLayers(x: array<uint64>, off: nat, wtab: seq<uint64>, winvtab: seq<uint64>, K: nat, J: nat, p: uint64,
                     ghost X0: seq<uint64>, ghost goal: seq<uint64>, ghost L: nat, ghost w: int) returns (at: nat)
    requires K == Exp2(L) == |goal| && J + 2 == L && off + K <= x.Length == |X0| && 0 < p < W64 / 4
    requires Tables(wtab, winvtab, w, L, p) && Pending(X0, x[..], off, goal, L, w, p)
    modifies x
    ensures at == RowStart(L, J) && Pending(X0, x[..], off, goal, 2, LevelRoot(w, J, p), p)
  {
    hide WordLayer, WordLayers, UpTo, Pending, PowerRow, Tables, ShoupQuotient;
    at := 0;
    for lvl := 0 to J
      invariant at == RowStart(L, lvl)
      invariant Pending(X0, x[..], off, goal, L - lvl, LevelRoot(w, lvl, p), p)
    {
      ShiftExp2(L, lvl);
      Exp2Monotone(3, L - lvl);
      EightIs();
      var M := Exp2(lvl);
      var N := K / M;
      ghost var X, W := x[..], LevelRoot(w, lvl, p);
      assert X[off..off + K] == x[off..off + K];
      TableRow(wtab, winvtab, w, L, lvl, p);
      LayerInPlace(x, off, M, N / 2, wtab, winvtab, at, p, K, W);
      LayerAdvances(X0, X, x[..], off, goal, L - lvl, N / 2, W, p);
      at := at + N / 2;
    }
  }

  lemma EightIs()
    ensures Exp2(3) == 8
  {
    Exp3();
  }

  /** Harvey's transform of K = 2^L words, in place and in bit-reversed order. The words are those
      of the layers, whatever the input. They are right modulo p if nothing wraps, and words below
      2p stay below 2p. */
  method Ntt(x: array<uint64>, off: nat, wtab: seq<uint64>, winvtab: seq<uint64>, K: nat, p: uint64,
             ghost L: nat, ghost w: int)
    requires K == Exp2(L) && off + K <= x.Length && 0 < p < W64 / 4
    requires Tables(wtab, winvtab, w, L, p)
    modifies x
    ensures x[..off] == old(x[..off]) && x[off + K..] == old(x[off + K..])
    ensures x[off..off + K] == WordLayers(old(x[off..off + K]), L, w, p)
    ensures Root(w, L, p) && Smooth(old(x[off..off + K]), L, w, p) ==>
      Evaluates(x[off..off + K], old(x[off..off + K]), w, L, p)
    ensures Root(w, L, p) && Below(old(x[off..off + K]), 2 * p) ==>
      Transformed(x[off..off + K], old(x[off..off + K]), w, L, p)
  {
    hide WordLayers, WordLayer, UpTo, Pending, PowerRow, Tables, ShoupQuotient, Smooth, Below, Evaluates,
      Transformed, Root, Sum2p, Diff2p, LevelRoot;
    ghost var X0 := x[..];
    ghost var s := X0[off..off + K];
    assert s == x[off..off + K];
    ghost var goal := WordLayers(s, L, w, p);
    WordsMean(s, L, w, p);
    if K == 1 {
      OneWord(s, L, w, p);
      return;
    }
    if K == 2 {
      var u0, u1 := x[off], x[off + 1];
      x[off] := Sum2p(u0, u1, p);
      x[off + 1] := Diff2p(u0, u1, p);
      TwoWords(s, L, w, p);
      assert x[off..off + K] == goal;
      assert x[..off] == X0[..off] && x[off + K..] == X0[off + K..];
      return;
    }
    BitScanExp2(L);
    assert L >= 2 by { if L <= 1 { SmallPowersOfTwo(); } }
    var J := BitScanReverse(K) - 2;
    AllPending(X0, off, K, L, w, p);
    var at := FirstLayers(x, off, wtab, winvtab, K, J, p, X0, goal, L, w);
    ghost var X, W := x[..], LevelRoot(w, J, p);
    PendingLength(X0, X, off, goal, 2, W, p);
    assert X[off..off + K] == x[off..off + K];
    TableRow(wtab, winvtab, w, L, J, p);
    ShiftExp2(L, J);
    LastRow(wtab, winvtab, at, W, p);
    LastTwoLayers(x, off, Exp2(J), wtab[at + 1], winvtab[at + 1], p, W);
    LastLayersFinish(X0, X, x[..], off, goal, W, p);
    assert x[..off] == x[..][..off] && x[off + K..] == x[..][off + K..] && x[off..off + K] == x[..][off..off + K];
  }

  lemma WordsMean(s: seq<uint64>, L: nat, w: int, p: uint64)
    requires 0 < p < W64 / 4 && |s| == Exp2(L)
    ensures Root(w, L, p) && Smooth(s, L, w, p) ==> Evaluates(WordLayers(s, L, w, p), s, w, L, p)
    ensures Root(w, L, p) && Below(s, 2 * p) ==> Transformed(WordLayers(s, L, w, p), s, w, L, p)
  {
    hide WordLayers, Smooth, Below, Evaluates, Transformed, Root;
    if Root(w, L, p) && Smooth(s, L, w, p) { SmoothEvaluates(s, L, w, p); }
    if Root(w, L, p) && Below(s, 2 * p) { BelowTransforms(s, L, w, p); }
  }

  lemma AllPending(X0: seq<uint64>, off: nat, K: nat, L: nat, w: int, p: uint64)
    requires 0 < p < W64 / 4 && off + K <= |X0|
    ensures Pending(X0, X0, off, WordLayers(X0[off..off + K], L, w, p), L, w, p)
  {
  }

  lemma OneWord(s: seq<uint64>, L: nat, w: int, p: uint64)
    requires 0 < p < W64 / 4 && Exp2(L) == 1
    ensures WordLayers(s, L, w, p) == s
  {
  }

  lemma TwoWords(s: seq<uint64>, L: nat, w: int, p: uint64)
    requires 0 < p < W64 / 4 && |s| == Exp2(L) == 2
    ensures WordLayers(s, L, w, p) == [Sum2p(s[0], s[1], p), Diff2p(s[0], s[1], p)]
  {
    hide WordLayer, Sum2p, Diff2p;
    assert L == 1;
    SmallPowersOfTwo();
    WordLayerAt(s, 1, w, p, 0, 0);
    assert WordLayers(s, 1, w, p) == WordLayers(WordLayer(s, 1, w, p), 0, (w * w) % p, p) == WordLayer(s, 1, w, p);
  }

  // ------------------------------------------------- permutation and inverse

  /** The words of s listed in bit-reversed order. */
  function BitReversed(s: seq<int>, L: nat): (r: seq<int>)
    requires |s| == Exp2(L)
    ensures |r| == |s|
  {
    seq(|s|, j requires 0 <= j < |s| => s[Rev(j, L)])
  }

  /** The same, as words. */
  function ReversedWords(s: seq<uint64>, L: nat): (r: seq<uint64>)
    requires |s| == Exp2(L)
    ensures r == BitReversed(s, L)
  {
    var r := seq(|s|, j requires 0 <= j < |s| => s[Rev(j, L)]);
    assert r == BitReversed(s, L);
    r
  }

  ghost predicate IsBitReversal(inv_indexes: seq<nat>, L: nat) {
    |inv_indexes| == Exp2(L) && forall i :: 0 <= i < |inv_indexes| ==> inv_indexes[i] == Rev(i, L)
  }

  ghost predicate PermutedUpTo(t: seq<uint64>, s: seq<uint64>, i: nat, L: nat)
    requires |t| == |s| == Exp2(L)
  {
    forall j: nat :: j < |t| && Rev(j, L) < i ==> t[j] == s[Rev(j, L)]
  }

  lemma PermutStep(t: seq<uint64>, s: seq<uint64>, i: nat, L: nat)
    requires |t| == |s| == Exp2(L) && i < |s| && PermutedUpTo(t, s, i, L)
    ensures PermutedUpTo(t[Rev(i, L) := s[i]], s, i + 1, L)
  {
    RevInvolution(i, L);
    forall j: nat | j < |t| && Rev(j, L) == i ensures j == Rev(i, L) {
      RevInvolution(j, L);
    }
  }

  /** Writes word i of x to place inv_indexes[i] of y. */
  method Permut(y: array<uint64>, yoff: nat, x: array<uint64>, xoff: nat, inv_indexes: seq<nat>, K: nat, ghost L: nat)
    requires y != x && K == Exp2(L) && yoff + K <= y.Length && xoff + K <= x.Length
    requires IsBitReversal(inv_indexes, L)
    modifies y
    ensures y[..yoff] == old(y[..yoff]) && y[yoff + K..] == old(y[yoff + K..])
    ensures y[yoff..yoff + K] == BitReversed(x[xoff..xoff + K], L)
  {
    ghost var s := x[xoff..xoff + K];
    for i := 0 to K
      invariant x[xoff..xoff + K] == s
      invariant y[..yoff] == old(y[..yoff]) && y[yoff + K..] == old(y[yoff + K..])
      invariant PermutedUpTo(y[yoff..yoff + K], s, i, L)
    {
      ghost var t := y[yoff..yoff + K];
      y[yoff + inv_indexes[i]] := x[xoff + i];
      assert x[xoff + i] == s[i];
      assert y[yoff..yoff + K] == t[Rev(i, L) := s[i]];
      PermutStep(t, s, i, L);
    }
  }

  /** What the inverse transform computes, up to the factor K. */
  function WordInverse(v: seq<uint64>, L: nat, winv: int, p: uint64): (r: seq<uint64>)
    requires |v| == Exp2(L) && 0 < p < W64 / 4
    ensures |r| == |v|
  {
    ReversedWords(WordLayers(ReversedWords(v, L), L, winv, p), L)
  }

  /** The inverse transform of v loses nothing to the word size. */
  ghost predicate Steady(v: seq<uint64>, L: nat, winv: int, p: uint64) {
    0 < p < W64 / 4 && |v| == Exp2(L) && Smooth(ReversedWords(v, L), L, winv, p)
  }

  lemma BelowSteady(v: seq<uint64>, L: nat, winv: int, p: uint64)
    requires 0 < p < W64 / 4 && |v| == Exp2(L) && Below(v, 2 * p)
    ensures Steady(v, L, winv, p)
  {
    hide Smooth, WordLayers;
    BelowSmooth(ReversedWords(v, L), 1, L, winv, p);
  }

  /** Position j receives the value at winv^j of the polynomial whose coefficients are the given
      words in natural order. */
  lemma SteadyInverse(v: seq<uint64>, L: nat, winv: int, p: uint64)
    requires Steady(v, L, winv, p) && Root(winv, L, p)
    ensures forall j: nat :: j < Exp2(L) ==>
      Cong(WordInverse(v, L, winv, p)[j], Eval(BitReversed(v, L), Pow(winv, j)), p)
  {
    hide Smooth, WordLayers, Root, Cong, Eval;
    SmoothEvaluates(ReversedWords(v, L), L, winv, p);
  }

  /** Inverse transform, for any words. */
  method InvNtt(x: array<uint64>, off: nat, inv_wtab: seq<uint64>, inv_winvtab: seq<uint64>, K: nat, p: uint64,
                inv_indexes: seq<nat>, ghost L: nat, ghost winv: int)
    requires K == Exp2(L) && off + K <= x.Length && 0 < p < W64 / 4
    requires Tables(inv_wtab, inv_winvtab, winv, L, p) && IsBitReversal(inv_indexes, L)
    modifies x
    ensures x[..off] == old(x[..off]) && x[off + K..] == old(x[off + K..])
    ensures x[off..off + K] == WordInverse(old(x[off..off + K]), L, winv, p)
    ensures Root(winv, L, p) && Steady(old(x[off..off + K]), L, winv, p) ==> forall j: nat :: j < K ==>
      Cong(x[off..off + K][j], Eval(BitReversed(old(x[off..off + K]), L), Pow(winv, j)), p)
  {
    hide Tables, Root, Cong, IsBitReversal, WordLayers, Steady, Eval, Pow, Smooth, Below, Evaluates, Transformed;
    ghost var s := x[off..off + K];
    var y := new uint64[K + 1](_ => 0);
    if Root(winv, L, p) && Steady(s, L, winv, p) { SteadyInverse(s, L, winv, p); }
    if K == 1 {
      InverseOfOne(s, L, winv, p);
      return;
    }
    Permut(y, 0, x, off, inv_indexes, K, L);
    Ntt(y, 0, inv_wtab, inv_winvtab, K, p, L, winv);
    Permut(x, off, y, 0, inv_indexes, K, L);
  }

  lemma InverseOfOne(s: seq<uint64>, L: nat, winv: int, p: uint64)
    requires 0 < p < W64 / 4 && |s| == Exp2(L) == 1
    ensures WordInverse(s, L, winv, p) == s
  {
    assert L == 0;
    assert ReversedWords(s, L) == s;
  }
}
