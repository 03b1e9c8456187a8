/** The per-modulus tables of the transform, how they are computed, and the two twisted
    transforms that use them. */
module NflTables {
  import opened Arith
  import opened Polynomials
  import opened NttSpec
  import opened Words
  import opened NttWords
  import opened Ntt
  import opened Negacyclic

  datatype NttTables = NttTables(
    p: uint64,
    phi: uint64,
    omega: uint64,
    invomega: uint64,
    phis: seq<uint64>,
    shoupphis: seq<uint64>,
    omegas: seq<uint64>,
    shoupomegas: seq<uint64>,
    invomegas: seq<uint64>,
    shoupinvomegas: seq<uint64>,
    invpolyTimesInvphis: seq<uint64>,
    shoupinvpolyTimesInvphis: seq<uint64>)

  /** Every factor is reduced and comes with its Shoup quotient. */
  ghost predicate Factors(tab: seq<int>, quot: seq<int>, n: nat, p: int)
    requires p > 0
  {
    |tab| == |quot| == n && forall i :: 0 <= i < n ==> 0 <= tab[i] < p && quot[i] == ShoupQuotient(tab[i], p)
  }

  /** Entry i inverts N * phi^i. */
  ghost predicate Untwists(tab: seq<int>, phi: int, L: nat, p: int)
    requires p > 0 && |tab| == Exp2(L)
  {
    forall i :: 0 <= i < |tab| ==> Cong(tab[i] * (Exp2(L) * Pow(phi, i)), 1, p)
  }

  ghost predicate Twists(tab: seq<int>, phi: int, p: int)
    requires p > 0
  {
    forall i :: 0 <= i < |tab| ==> Cong(tab[i], Pow(phi, i), p)
  }

  /** What the transforms need of the tables for degree N = 2^L. */
  ghost predicate Configured(t: NttTables, L: nat) {
    && 1 < t.p < W64 / 8
    && NegRoot(t.phi, L, t.p)
    && Cong(t.omega, t.phi * t.phi, t.p) && Cong((t.phi * t.phi) * t.invomega, 1, t.p)
    && Factors(t.phis, t.shoupphis, Exp2(L), t.p) && Twists(t.phis, t.phi, t.p)
    && Factors(t.invpolyTimesInvphis, t.shoupinvpolyTimesInvphis, Exp2(L), t.p)
    && Untwists(t.invpolyTimesInvphis, t.phi, L, t.p)
    && Tables(t.omegas, t.shoupomegas, t.omega, L, t.p)
    && Tables(t.invomegas, t.shoupinvomegas, t.invomega, L, t.p)
  }

  // -------------------------------------------------- coefficientwise scaling

  function ScaledMod(s: seq<int>, tab: seq<int>, p: int): (r: seq<int>)
    requires |s| == |tab| && p > 0
    ensures |r| == |s|
  {
    seq(|s|, i requires 0 <= i < |s| => (s[i] * tab[i]) % p)
  }

  /** The loop that multiplies every coefficient by its table entry. */
  method ScaleByTable(op: array<uint64>, off: nat, tab: seq<uint64>, quot: seq<uint64>, N: nat, p: uint64)
    requires off + N <= op.Length && 0 < p < W64 / 2 && Factors(tab, quot, N, p)
    modifies op
    ensures op[..off] == old(op[..off]) && op[off + N..] == old(op[off + N..])
    ensures op[off..off + N] == ScaledMod(old(op[off..off + N]), tab, p)
  {
    ghost var s := op[off..off + N];
    for i := 0 to N
      invariant op[..off] == old(op[..off]) && op[off + i..] == old(op[off + i..])
      invariant op[off..off + i] == ScaledMod(s, tab, p)[..i]
    {
      hide ScaledMod, MulModShoup, ShoupQuotient;
      assert op[off + i] == op[off + i..][0] == s[i];
      op[off + i] := MulModShoup(op[off + i], tab[i], quot[i], p);
      MulModShoupExact(s[i], tab[i], p);
      assert ScaledMod(s, tab, p)[i] == (s[i] * tab[i]) % p by { ScaledModAt(s, tab, p, i); }
      assert op[off..off + (i + 1)] == op[off..off + i] + [op[off + i]];
      assert op[off + i + 1..] == old(op[off + i..])[1..];
    }
  }

  lemma ScaledModAt(s: seq<int>, tab: seq<int>, p: int, i: nat)
    requires |s| == |tab| && p > 0 && i < |s|
    ensures ScaledMod(s, tab, p)[i] == (s[i] * tab[i]) % p
  {
  }

  // ------------------------------------------------------ twisted transforms

  lemma TwistedWords(s: seq<int>, tab: seq<int>, phi: int, p: int)
    requires p > 0 && |s| == |tab| && Twists(tab, phi, p)
    ensures CongSeq(ScaledMod(s, tab, p), Twist(s, phi), p) && Below(ScaledMod(s, tab, p), p)
  {
    forall i | 0 <= i < |s|
      ensures Cong(ScaledMod(s, tab, p)[i], Twist(s, phi)[i], p) && 0 <= ScaledMod(s, tab, p)[i] < p
    {
      CongMod(s[i] * tab[i], p);
      CongScale(tab[i], Pow(phi, i), s[i], p);
    }
  }

  /** nttAndPowPhi for one modulus: the words at off, of any size, come to represent the
      polynomial whose coefficients they were. */
  method TwistAndTransform(op: array<uint64>, off: nat, t: NttTables, N: nat, ghost L: nat)
    requires N == Exp2(L) && off + N <= op.Length && Configured(t, L)
    modifies op
    ensures op[..off] == old(op[..off]) && op[off + N..] == old(op[off + N..])
    ensures Below(op[off..off + N], 2 * t.p)
    ensures Represents(op[off..off + N], old(op[off..off + N]), t.phi, L, t.p)
  {
    hide Factors, Tables, Untwists, Twists, Twist, ScaledMod, NegRoot, Represents;
    ghost var c := op[off..off + N];
    assert |t.phis| == N by { FactorsLength(t.phis, t.shoupphis, N, t.p); }
    ScaleByTable(op, off, t.phis, t.shoupphis, N, t.p);
    ghost var y := op[off..off + N];
    TwistedWords(c, t.phis, t.phi, t.p);
    OmegaRoot(t, L);
    Ntt.Ntt(op, off, t.omegas, t.shoupomegas, N, t.p, L, t.omega);
    TwistedTransform(op[off..off + N], y, c, t.omega, t.phi, L, t.p);
  }

  lemma FactorsLength(tab: seq<int>, quot: seq<int>, n: nat, p: int)
    requires p > 0 && Factors(tab, quot, n, p)
    ensures |tab| == |quot| == n
  {
  }

  lemma OmegaRoot(t: NttTables, L: nat)
    requires Configured(t, L)
    ensures Root(t.omega, L, t.p) && Root(t.invomega, L, t.p)
  {
    hide Factors, Tables, Untwists, Twists;
    TwistedRoot(t.phi, L, t.p);
    if L > 0 { CongPow(t.omega, t.phi * t.phi, Exp2(L - 1), t.p); }
    InverseRoot(t.phi * t.phi, t.invomega, L, t.p);
  }

  /** out is the polynomial that v represents, fully reduced, whichever it is. */
  ghost predicate Recovers(out: seq<int>, v: seq<int>, phi: int, L: nat, p: int)
    requires p > 0
  {
    && |out| == Exp2(L) && Below(out, p)
    && forall c: seq<int> :: Represents(v, c, phi, L, p) ==> forall j :: 0 <= j < |out| ==> out[j] == c[j] % p
  }

  lemma UntwistedWords(v: seq<int>, y: seq<int>, t: NttTables, L: nat)
    requires Configured(t, L) && |v| == |y| == Exp2(L)
    requires forall j: nat :: j < Exp2(L) ==> Cong(y[j], Eval(BitReversed(v, L), Pow(t.invomega, j)), t.p)
    ensures |t.invpolyTimesInvphis| == Exp2(L)
    ensures Recovers(ScaledMod(y, t.invpolyTimesInvphis, t.p), v, t.phi, L, t.p)
  {
    hide Tables, Twists, Represents;
    var tab, p := t.invpolyTimesInvphis, t.p;
    var out := ScaledMod(y, tab, p);
    forall j: nat | j < |out| ensures 0 <= out[j] < p { CongMod(y[j] * tab[j], p); }
    forall c: seq<int>, j: nat | Represents(v, c, t.phi, L, p) && j < |out|
      ensures j < |c| && out[j] == c[j] % p
    {
      assert |c| == Exp2(L) by { RepresentsLength(v, c, t.phi, L, p); }
      UntwistedWord(v, y[j], c, t, j, L);
    }
  }

  lemma RepresentsLength(v: seq<int>, c: seq<int>, phi: int, L: nat, p: int)
    requires p > 0 && Represents(v, c, phi, L, p)
    ensures |v| == |c| == Exp2(L)
  {
  }

  lemma UntwistedWord(v: seq<int>, y: int, c: seq<int>, t: NttTables, j: nat, L: nat)
    requires Configured(t, L) && j < Exp2(L) && Represents(v, c, t.phi, L, t.p)
    requires Cong(y, Eval(BitReversed(v, L), Pow(t.invomega, j)), t.p)
    ensures j < |c| && (y * t.invpolyTimesInvphis[j]) % t.p == c[j] % t.p
  {
    hide Tables, Twists, Represents, Eval, Pow;
    RepresentsLength(v, c, t.phi, L, t.p);
    var s, e := t.invpolyTimesInvphis[j], Eval(BitReversed(v, L), Pow(t.invomega, j));
    TwistedInverse(v, BitReversed(v, L), c, t.phi, t.invomega, s, j, L, t.p);
    CongScale(y, e, s, t.p);
  }

  /** What invnttAndPowInvPhi makes of the words v of one modulus. */
  function RecoveredWords(v: seq<uint64>, t: NttTables, L: nat): (r: seq<int>)
    requires |v| == |t.invpolyTimesInvphis| == Exp2(L) && 0 < t.p < W64 / 4
    ensures |r| == |v|
  {
    ScaledMod(WordInverse(v, L, t.invomega, t.p), t.invpolyTimesInvphis, t.p)
  }

  /** It is the polynomial they represent, if the inverse transform loses nothing. */
  lemma SteadyRecovers(v: seq<uint64>, t: NttTables, L: nat)
    requires Configured(t, L) && Steady(v, L, t.invomega, t.p)
    ensures |t.invpolyTimesInvphis| == Exp2(L) && Recovers(RecoveredWords(v, t, L), v, t.phi, L, t.p)
  {
    hide Factors, Tables, Untwists, Twists, ScaledMod, NegRoot, Represents, Recovers, WordInverse;
    OmegaRoot(t, L);
    SteadyInverse(v, L, t.invomega, t.p);
    UntwistedWords(v, WordInverse(v, L, t.invomega, t.p), t, L);
  }

  /** The polynomial whose values are the words v. */
  function Interpolated(v: seq<int>, t: NttTables, L: nat): (c: seq<int>)
    requires |v| == |t.invpolyTimesInvphis| == Exp2(L)
    ensures |c| == |v|
  {
    seq(|v|, j requires 0 <= j < |v| => t.invpolyTimesInvphis[j] * Eval(BitReversed(v, L), Pow(t.invomega, j)))
  }

  /** Entry j of the untwisting table takes phi^j to the inverse of N. */
  lemma UntwistFactor(t: NttTables, L: nat, j: nat)
    requires Configured(t, L) && j < Exp2(L)
    ensures Cong(t.invpolyTimesInvphis[j] * Pow(t.phi, j), t.invpolyTimesInvphis[0], t.p)
    ensures Cong(t.invpolyTimesInvphis[0] * Exp2(L), 1, t.p)
  {
    hide Tables, Twists, NegRoot, Pow, Exp2;
    PowZeroIsOne(t.phi);
    var tab: seq<int>, f: int, n: int := t.invpolyTimesInvphis, Pow(t.phi, j), Exp2(L);
    assert Cong(tab[0] * (n * Pow(t.phi, 0)), 1, t.p) && Cong(tab[j] * (n * f), 1, t.p);
    assert n * Pow(t.phi, 0) == n;
    CongScale(tab[0] * n, 1, tab[j] * f, t.p);
    CongScale(tab[j] * (n * f), 1, tab[0], t.p);
    assert (tab[j] * f) * (tab[0] * n) == tab[0] * (tab[j] * (n * f));
  }

  /** The values of the transform of y come back to y. */
  lemma TransformedTwice(y: seq<int>, X: seq<int>, t: NttTables, L: nat, k: nat)
    requires Configured(t, L) && |y| == |X| == Exp2(L) && k < Exp2(L)
    requires forall j: nat :: j < Exp2(L) ==> X[j] == Eval(y, Pow(t.invomega, j))
    ensures Cong(Eval(Scaled(t.invpolyTimesInvphis[0], X), Pow(t.phi * t.phi, k)), y[k], t.p)
  {
    hide Tables, Twists, Untwists, NegRoot, Pow, Eval, Exp2, Scaled, Cong, Root, ShoupQuotient;
    var s: int, w: int, g: int := t.invpolyTimesInvphis[0], t.phi * t.phi, t.invomega;
    OmegaRoot(t, L);
    assert g * w == w * g;
    IsTransformOf(X, y, g, L, t.p);
    InverseTransform(X, y, L, g, w, k, t.p);
    EvalScaled(s, X, Pow(w, k));
    UntwistFactor(t, L, k);
    Unscaled(s, Eval(X, Pow(w, k)), Exp2(L), y[k], t.p);
  }

  lemma IsTransformOf(X: seq<int>, y: seq<int>, g: int, L: nat, p: int)
    requires p > 0 && |y| == |X| == Exp2(L) && forall j: nat :: j < Exp2(L) ==> X[j] == Eval(y, Pow(g, j))
    ensures IsTransform(X, y, g, p)
  {
  }

  lemma Unscaled(s: int, e: int, n: int, y: int, p: int)
    requires p > 0 && Cong(e, n * y, p) && Cong(s * n, 1, p)
    ensures Cong(s * e, y, p)
  {
    CongScale(e, n * y, s, p);
    CongScale(s * n, 1, y, p);
    assert s * (n * y) == (s * n) * y;
  }

  lemma UntwistedProduct(u: int, x: int, f: int, s: int, p: int)
    requires p > 0 && Cong(u * f, s, p)
    ensures Cong(s * x, (u * x) * f, p)
  {
    CongScale(u * f, s, x, p);
    assert (u * x) * f == x * (u * f);
  }

  /** What the inverse transform reads off the words, before it untwists. */
  function Spectrum(y: seq<int>, g: int): (X: seq<int>)
    ensures |X| == |y|
  {
    seq(|y|, j requires 0 <= j < |y| => Eval(y, Pow(g, j)))
  }

  lemma InterpolatedTwist(v: seq<int>, t: NttTables, L: nat)
    requires Configured(t, L) && |v| == Exp2(L)
    ensures |t.invpolyTimesInvphis| == |v|
    ensures CongSeq(Scaled(t.invpolyTimesInvphis[0], Spectrum(BitReversed(v, L), t.invomega)),
                    Twist(Interpolated(v, t, L), t.phi), t.p)
  {
    hide Tables, Twists, NegRoot, Pow, Eval, Untwists, Cong, ShoupQuotient, BitReversed, Exp2;
    var X := Spectrum(BitReversed(v, L), t.invomega);
    forall j: nat | j < |v|
      ensures Cong(Scaled(t.invpolyTimesInvphis[0], X)[j], Twist(Interpolated(v, t, L), t.phi)[j], t.p)
    {
      UntwistFactor(t, L, j);
      UntwistedProduct(t.invpolyTimesInvphis[j], X[j], Pow(t.phi, j), t.invpolyTimesInvphis[0], t.p);
    }
  }

  /** Any words represent a polynomial: with Recovers, exactly one modulo p. */
  lemma InterpolatedRepresents(v: seq<int>, t: NttTables, L: nat)
    requires Configured(t, L) && |v| == Exp2(L)
    ensures |t.invpolyTimesInvphis| == |v| && Represents(v, Interpolated(v, t, L), t.phi, L, t.p)
  {
    hide Tables, Twists, NegRoot, Pow, Eval, Untwists, Represents, ShoupQuotient, Exp2, Scaled, Twist, Interpolated,
      CongSeq;
    var y, w: int := BitReversed(v, L), t.phi * t.phi;
    var X := Spectrum(y, t.invomega);
    var Y := Scaled(t.invpolyTimesInvphis[0], X);
    InterpolatedTwist(v, t, L);
    forall k: nat | k < Exp2(L) ensures Cong(v[Rev(k, L)], Eval(Y, Pow(w, k)), t.p) {
      TransformedTwice(y, X, t, L, k);
    }
    TwistedTransform(v, Y, Interpolated(v, t, L), w, t.phi, L, t.p);
  }

  /** invnttAndPowInvPhi for one modulus, on any words. */
  method InverseAndUntwist(op: array<uint64>, off: nat, t: NttTables, N: nat, inv_indexes: seq<nat>, ghost L: nat)
    requires N == Exp2(L) && off + N <= op.Length && Configured(t, L) && IsBitReversal(inv_indexes, L)
    modifies op
    ensures op[..off] == old(op[..off]) && op[off + N..] == old(op[off + N..])
    ensures |t.invpolyTimesInvphis| == N && op[off..off + N] == RecoveredWords(old(op[off..off + N]), t, L)
    ensures Steady(old(op[off..off + N]), L, t.invomega, t.p) ==>
      Recovers(op[off..off + N], old(op[off..off + N]), t.phi, L, t.p)
  {
    hide Factors, Tables, Untwists, Twists, ScaledMod, NegRoot, Represents, Recovers, IsBitReversal, Steady,
      WordInverse;
    ghost var v := op[off..off + N];
    assert |t.invpolyTimesInvphis| == N by {
      FactorsLength(t.invpolyTimesInvphis, t.shoupinvpolyTimesInvphis, N, t.p);
    }
    InvNtt(op, off, t.invomegas, t.shoupinvomegas, N, t.p, inv_indexes, L, t.invomega);
    ScaleByTable(op, off, t.invpolyTimesInvphis, t.shoupinvpolyTimesInvphis, N, t.p);
    if Steady(v, L, t.invomega, t.p) { SteadyRecovers(v, t, L); }
  }
}
