/** The library object: one set of tables per modulus, and the operations on polynomials that
    are stored as one segment of N words per modulus, one after the other. */
module NflLib {
  import opened Arith
  import opened Polynomials
  import opened NttSpec
  import opened Words
  import opened NttWords
  import opened Ntt
  import opened Negacyclic
  import opened NflParams
  import opened NflCoprime
  import opened NflTables
  import opened NflConfigure
  import opened Crt
  import opened Pointwise

  // ------------------------------------------------------------- segments

  /** The N words of modulus cm. */
  function Segment(X: seq<uint64>, cm: nat, N: nat): (r: seq<uint64>)
    requires cm * N + N <= |X|
    ensures |r| == N
  {
    X[cm * N..cm * N + N]
  }

  lemma SegmentFits(cm: nat, n: nat, N: nat)
    requires cm < n
    ensures cm * N + N <= n * N
  {
    MulMono(cm + 1, n, N);
  }

  /** Rewriting one segment leaves the others alone. */
  lemma OtherSegments(X: seq<uint64>, Y: seq<uint64>, cm: nat, c: nat, N: nat)
    requires c != cm && |X| == |Y| && cm * N + N <= |X| && c * N + N <= |X|
    requires Y[..cm * N] == X[..cm * N] && Y[cm * N + N..] == X[cm * N + N..]
    ensures Segment(Y, c, N) == Segment(X, c, N)
  {
    if c < cm { SegmentFits(c, cm, N); } else { SegmentFits(cm, c, N); }
    var o, e := cm * N, c * N;
    OtherSlices(X, Y, o, e, N);
  }

  lemma OtherSlices(X: seq<uint64>, Y: seq<uint64>, o: nat, e: nat, N: nat)
    requires |X| == |Y| && o + N <= |X| && e + N <= |X| && (e + N <= o || o + N <= e)
    requires Y[..o] == X[..o] && Y[o + N..] == X[o + N..]
    ensures Y[e..e + N] == X[e..e + N]
  {
    if e + N <= o {
      assert Y[e..e + N] == Y[..o][e..e + N];
      assert X[e..e + N] == X[..o][e..e + N];
    } else {
      SliceOfTail(X, o + N, e, N);
      SliceOfTail(Y, o + N, e, N);
    }
  }

  lemma SliceOfTail(X: seq<uint64>, d: nat, e: nat, N: nat)
    requires d <= e && e + N <= |X|
    ensures X[e..e + N] == X[d..][e - d..e - d + N]
  {
  }

  /** Segment cm of Y represents the polynomial that segment cm of X lists, below 2p. */
  ghost predicate SegmentTransformed(X: seq<uint64>, Y: seq<uint64>, t: NttTables, cm: nat, N: nat, L: nat) {
    && t.p > 0 && cm * N + N <= |X| == |Y|
    && Below(Segment(Y, cm, N), 2 * t.p)
    && Represents(Segment(Y, cm, N), Segment(X, cm, N), t.phi, L, t.p)
  }

  /** Word Rev(k) of segment cm of Y is the value, at the (2k+1)-th power of the library's root for
      degree N, of the polynomial that segment cm of X lists. */
  ghost predicate SegmentEvaluated(X: seq<uint64>, Y: seq<uint64>, m: ModulusParams, cm: nat, N: nat, L: nat) {
    && m.p > 0 && cm * N + N <= |X| == |Y| && N == Exp2(L)
    && forall k: nat :: k < N ==> EvaluatedAt(Segment(Y, cm, N)[Rev(k, L)], Segment(X, cm, N), m, k, L)
  }

  ghost predicate EvaluatedAt(y: int, c: seq<int>, m: ModulusParams, k: nat, L: nat) {
    && m.p > 0 && 0 <= RootExponent(L) * (2 * k + 1)
    && Cong(y, Eval(c, Pow(m.root, RootExponent(L) * (2 * k + 1))), m.p)
  }

  lemma EvaluatedWord(y: int, c: seq<int>, phi: int, m: ModulusParams, k: nat, L: nat)
    requires m.p > 0 && IsRootOfDegree(phi, m, L) && Cong(y, Eval(c, Pow(phi, 2 * k + 1)), m.p)
    ensures EvaluatedAt(y, c, m, k, L)
  {
    hide Pow, Eval, Exp2, RootExponent;
    var p, e, o := m.p, RootExponent(L), 2 * k + 1;
    MulMono(0, e, o);
    CongMod(Pow(m.root, e), p);
    CongPow(phi, Pow(m.root, e), o, p);
    PowMul(m.root, e, o);
    EvalCong(c, c, Pow(phi, o), Pow(m.root, e * o), p);
  }

  lemma AllEvaluated(X: seq<uint64>, Y: seq<uint64>, tables: seq<NttTables>, N: nat, L: nat)
    requires Listed(tables, L) && N == Exp2(L)
    requires forall cm: nat :: cm < |tables| ==> SegmentTransformed(X, Y, tables[cm], cm, N, L)
    ensures |tables| <= MAX_NB_MODULI
    ensures forall cm: nat :: cm < |tables| ==> SegmentEvaluated(X, Y, Params(cm), cm, N, L)
  {
    hide Params, EvaluatedAt, IsRootOfDegree, Exp2, Eval, Pow, Below, RootExponent;
    forall cm: nat | cm < |tables| ensures SegmentEvaluated(X, Y, Params(cm), cm, N, L) {
      assert SegmentTransformed(X, Y, tables[cm], cm, N, L) && ListedAt(tables[cm], Params(cm), L);
      forall k: nat | k < N ensures EvaluatedAt(Segment(Y, cm, N)[Rev(k, L)], Segment(X, cm, N), Params(cm), k, L) {
        EvaluatedWord(Segment(Y, cm, N)[Rev(k, L)], Segment(X, cm, N), tables[cm].phi, Params(cm), k, L);
      }
    }
  }

  /** Segment cm of Y is the polynomial that segment cm of X represents. */
  ghost predicate SegmentRecovered(X: seq<uint64>, Y: seq<uint64>, t: NttTables, cm: nat, N: nat, L: nat) {
    && t.p > 0 && cm * N + N <= |X| == |Y|
    && Recovers(Segment(Y, cm, N), Segment(X, cm, N), t.phi, L, t.p)
  }

  function ModuliOf(tables: seq<NttTables>): (r: seq<int>)
    ensures |r| == |tables|
  {
    seq(|tables|, i requires 0 <= i < |tables| => tables[i].p)
  }

  /** The first n moduli of the library. */
  function FirstModuli(n: nat): (r: seq<int>)
    requires n <= MAX_NB_MODULI
    ensures |r| == n
  {
    seq(n, i requires 0 <= i < n => Params(i).p)
  }

  /** The tables are those of the first moduli, with the library's own roots for degree 2^L. */
  ghost predicate Listed(tables: seq<NttTables>, L: nat) {
    && |tables| <= MAX_NB_MODULI && L <= MAX_LOG_DEGREE
    && forall cm: nat :: cm < |tables| ==> ListedAt(tables[cm], Params(cm), L)
  }

  ghost predicate ListedAt(t: NttTables, m: ModulusParams, L: nat) {
    t.p == m.p && IsRootOfDegree(t.phi, m, L)
  }

  /** All moduli of the library are pairwise coprime. */
  lemma ModuliCoprime(n: nat)
    requires n <= MAX_NB_MODULI
    ensures Coprime(FirstModuli(n))
  {
    hide Invertible, Params;
    var ms := FirstModuli(n);
    forall i: nat | i < n ensures ms[i] > 1 { GoodModuli(i); }
    forall i: nat, j: nat | i < n && j < n && i < j ensures Invertible(ms[i], ms[j]) && Invertible(ms[j], ms[i]) {
      PairCoprime(i, j);
    }
  }

  class NflLib {
    var polyDegree: nat
    var tables: seq<NttTables>
    var inv_indexes: seq<nat>
    var liftingIntegers: seq<int>
    var moduliProduct: int
    ghost var L: nat

    ghost predicate Valid()
      reads this
    {
      && polyDegree == Exp2(L) && IsBitReversal(inv_indexes, L)
      && (forall cm :: 0 <= cm < |tables| ==> Configured(tables[cm], L)) && Listed(tables, L)
      && Coprime(ModuliOf(tables)) && LiftingIntegers(liftingIntegers, ModuliOf(tables))
      && moduliProduct == Product(ModuliOf(tables), |tables|)
    }

    constructor ()
      ensures polyDegree == 0 && tables == []
    {
      polyDegree, tables, inv_indexes, liftingIntegers, moduliProduct := 0, [], [], [], 1;
    }

    /** setNewParameters and configureNTT. The number of moduli follows from the requested
        modulus size, which must be a multiple of 60 bits. */
    method SetNewParameters(degree: nat, modulusBitsize: nat) returns (ok: bool)
      requires exists l: nat :: l <= MAX_LOG_DEGREE && degree == Exp2(l)
      requires modulusBitsize / 60 <= MAX_NB_MODULI
      modifies this
      ensures ok <==> modulusBitsize % 60 == 0
      ensures ok ==> Valid() && polyDegree == degree && ModuliOf(tables) == FirstModuli(modulusBitsize / 60)
    {
      hide Configured, Listed, Params, Coprime, LiftingIntegers, IsBitReversal, Product;
      polyDegree := degree;
      if modulusBitsize % 60 != 0 { return false; }
      ghost var l: nat :| l <= MAX_LOG_DEGREE && degree == Exp2(l);
      BitScanExp2(l);
      var logN := BitScanReverse(degree);
      L := logN;
      tables := BuildAll(modulusBitsize / 60, degree, logN);
      ModuliCoprime(modulusBitsize / 60);
      liftingIntegers, moduliProduct := ComputeLifting(ModuliOf(tables));
      inv_indexes := ReversalIndexes(degree, logN);
      return true;
    }

    /** nttAndPowPhi: every segment is replaced by the values it represents, which are those at the
        odd powers of the library's root. */
    method NttAndPowPhi(op: array<uint64>)
      requires Valid() && op.Length == |tables| * polyDegree
      modifies op
      ensures forall cm: nat :: cm < |tables| ==>
        SegmentTransformed(old(op[..]), op[..], tables[cm], cm, polyDegree, L)
      ensures |tables| <= MAX_NB_MODULI && forall cm: nat :: cm < |tables| ==>
        SegmentEvaluated(old(op[..]), op[..], Params(cm), cm, polyDegree, L)
    {
      hide Configured, TransformedUpTo, Listed, Params, SegmentEvaluated, SegmentTransformed;
      var N := polyDegree;
      ghost var X := op[..];
      var off := 0;
      TransformedStart(X, tables, N, L);
      for cm := 0 to |tables|
        invariant off == cm * N && off <= op.Length
        invariant TransformedUpTo(X, op[..], tables, cm, off, N, L)
      {
        SegmentFits(cm, |tables|, N);
        ghost var Y := op[..];
        TwistAndTransform(op, off, tables[cm], N, L);
        TransformedStep(X, Y, op[..], tables, cm, off, N, L) by { assert Configured(tables[cm], L); }
        off := off + N;
      }
      TransformedEnd(X, op[..], tables, off, N, L);
      AllEvaluated(X, op[..], tables, N, L);
    }

    /** invnttAndPowInvPhi: every segment is replaced by the polynomial it represents, if its inverse
        transform loses nothing to the word size. */
    method InvNttAndPowInvPhi(op: array<uint64>)
      requires Valid() && op.Length == |tables| * polyDegree
      modifies op
      ensures forall cm: nat :: cm < |tables| ==>
        SegmentInverted(old(op[..]), op[..], tables[cm], cm, polyDegree, L)
    {
      hide Configured, Listed, RecoveredUpTo, Recovers, RecoveredWords, Steady;
      var N := polyDegree;
      ghost var X := op[..];
      var off := 0;
      RecoveredStart(X, tables, N, L);
      for cm := 0 to |tables|
        invariant off == cm * N && off <= op.Length
        invariant RecoveredUpTo(X, op[..], tables, cm, off, N, L)
      {
        SegmentFits(cm, |tables|, N);
        ghost var Y := op[..];
        label B:
        ConfiguredModulus(tables[cm], L);
        InverseAndUntwist(op, off, tables[cm], N, inv_indexes, L);
        assert op[off..off + N] == op[..][off..off + N] && Y[off..off + N] == old@B(op[off..off + N]);
        RecoveredStep(X, Y, op[..], tables, cm, off, N, L);
        off := off + N;
      }
      RecoveredEnd(X, op[..], tables, off, N, L);
    }

    /** mulmodPolyNTT: word by word products modulo each modulus. */
    method MulModPolyNTT(rop: array<uint64>, op1: array<uint64>, op2: array<uint64>)
      requires Valid() && rop != op1 && rop != op2
      requires rop.Length == op1.Length == op2.Length == |tables| * polyDegree
      modifies rop
      ensures forall cm: nat :: cm < |tables| ==>
        SegmentMultiplied(op1[..], op2[..], rop[..], tables[cm], cm, polyDegree)
    {
      hide Configured, Listed, MultipliedUpTo, ScaledMod, Coprime, LiftingIntegers, IsBitReversal, Product,
        Replaced, Exp2;
      var N := polyDegree;
      var off := 0;
      ghost var U, V := op1[..], op2[..];
      MultipliedStart(U, V, rop[..], tables, N);
      for cm := 0 to |tables|
        invariant off == cm * N && off <= rop.Length && op1[..] == U && op2[..] == V
        invariant MultipliedUpTo(U, V, rop[..], tables, cm, off, N)
      {
        SegmentFits(cm, |tables|, N);
        ghost var Y := rop[..];
        assert tables[cm].p > 0 by { ConfiguredModulus(tables[cm], L); }
        MulPlainSegment(rop, op1, op2, off, N, tables[cm].p);
        assert op1[off..off + N] == Segment(U, cm, N) && op2[off..off + N] == Segment(V, cm, N);
        MultipliedStep(U, V, Y, rop[..], tables, cm, off, N);
        off := off + N;
      }
      MultipliedEnd(U, V, rop[..], tables, off, N);
    }

    /** Transforming both operands, multiplying word by word and transforming back computes
        the product modulo X^N + 1 and each modulus, for any 64-bit coefficients. */
    method NegacyclicProduct(op1: array<uint64>, op2: array<uint64>) returns (rop: array<uint64>)
      requires Valid() && op1 != op2 && op1.Length == op2.Length == |tables| * polyDegree
      modifies op1, op2
      ensures fresh(rop) && rop.Length == op1.Length
      ensures forall cm: nat :: cm < |tables| ==>
        SegmentProduct(old(op1[..]), old(op2[..]), rop[..], tables[cm], cm, polyDegree)
    {
      hide Configured, SegmentTransformed, SegmentMultiplied, SegmentRecovered, SegmentProduct, SegmentBelow, Valid,
        SegmentInverted;
      ghost var A, B := op1[..], op2[..];
      NttAndPowPhi(op1);
      NttAndPowPhi(op2);
      ghost var U, V := op1[..], op2[..];
      rop := new uint64[op1.Length](_ => 0);
      MulModPolyNTT(rop, op1, op2);
      ghost var T := rop[..];
      forall cm: nat | cm < |tables| ensures SegmentBelow(T, tables[cm], cm, polyDegree) {
        MultipliedBelow(U, V, T, tables[cm], cm, polyDegree);
      }
      InvNttAndPowInvPhi(rop);
      forall cm: nat | cm < |tables|
        ensures SegmentProduct(A, B, rop[..], tables[cm], cm, polyDegree)
      {
        assert Configured(tables[cm], L) by { ValidTables(cm); }
        InvertedBelow(T, rop[..], tables[cm], cm, polyDegree, L);
        ProductOfSegments(A, B, U, V, T, rop[..], tables[cm], cm, polyDegree, L);
      }
    }

    /** The inverse transform undoes the transform: every 64-bit coefficient comes back reduced,
        for every modulus. */
    method RoundTrip(op: array<uint64>)
      requires Valid() && op.Length == |tables| * polyDegree
      modifies op
      ensures forall cm: nat :: cm < |tables| ==> SegmentReduced(old(op[..]), op[..], tables[cm], cm, polyDegree)
    {
      hide Configured, SegmentTransformed, SegmentRecovered, SegmentReduced, SegmentBelow, Valid, SegmentInverted;
      ghost var X := op[..];
      NttAndPowPhi(op);
      ghost var Y := op[..];
      InvNttAndPowInvPhi(op);
      forall cm: nat | cm < |tables| ensures SegmentReduced(X, op[..], tables[cm], cm, polyDegree) {
        ValidTables(cm);
        TransformedBelow(X, Y, tables[cm], cm, polyDegree, L);
        InvertedBelow(Y, op[..], tables[cm], cm, polyDegree, L);
        TransformedBack(X, Y, op[..], tables[cm], cm, polyDegree, L);
      }
    }

    lemma ValidTables(cm: nat)
      requires Valid() && cm < |tables|
      ensures Configured(tables[cm], L)
    {
    }

    /** poly2mpz: the coefficients as integers below the product of the moduli. */
    method Poly2Mpz(p: array<uint64>) returns (z: seq<int>)
      requires Valid() && p.Length == |tables| * polyDegree
      ensures |z| == polyDegree && Below(z, moduliProduct) && Lifts(z, p[..], tables, polyDegree, moduliProduct)
    {
      hide Configured, Coprime, LiftingIntegers, LiftedAt, Lifts, Product;
      z := [];
      var N := polyDegree;
      LiftingLength(liftingIntegers, ModuliOf(tables));
      ProductPositive(ModuliOf(tables), |tables|);
      for i := 0 to N
        invariant |z| == i && Below(z, moduliProduct)
        invariant forall k: nat :: k < i ==> z[k] == LiftedAt(p[..], liftingIntegers, |tables|, k, N, moduliProduct)
      {
        var sum := LiftCoefficient(p, liftingIntegers, |tables|, i, N);
        LiftedReduced(p[..], liftingIntegers, |tables|, i, N, moduliProduct, sum);
        CongMod(sum, moduliProduct);
        z := z + [sum % moduliProduct];
      }
      LiftAll(z, p[..], tables, liftingIntegers, N, moduliProduct);
    }
  }

  // ------------------------------------------------- loops over the moduli

  method BuildAll(nbModuli: nat, degree: nat, logN: nat) returns (tables: seq<NttTables>)
    requires logN <= MAX_LOG_DEGREE && degree == Exp2(logN) && nbModuli <= MAX_NB_MODULI
    ensures forall c :: 0 <= c < |tables| ==> Configured(tables[c], logN)
    ensures Listed(tables, logN) && ModuliOf(tables) == FirstModuli(nbModuli)
  {
    hide Configured, Params, IsRootOfDegree;
    tables := [];
    for cm := 0 to nbModuli
      invariant |tables| == cm
      invariant forall c :: 0 <= c < cm ==> Configured(tables[c], logN) && ListedAt(tables[c], Params(c), logN)
    {
      GoodModuli(cm);
      var t := BuildTables(Params(cm), degree, logN);
      tables := tables + [t];
    }
    assert ModuliOf(tables) == FirstModuli(nbModuli);
  }

  ghost predicate SegmentBelow(X: seq<uint64>, t: NttTables, cm: nat, N: nat) {
    cm * N + N <= |X| && Below(Segment(X, cm, N), 2 * t.p)
  }

  /** The inverse transform of segment cm loses nothing to the word size. */
  ghost predicate SegmentSteady(X: seq<uint64>, t: NttTables, cm: nat, N: nat, L: nat) {
    cm * N + N <= |X| && Steady(Segment(X, cm, N), L, t.invomega, t.p)
  }

  /** Segment cm of Z is what the inverse transform makes of segment cm of X, which is the
      polynomial it represents if nothing is lost. */
  ghost predicate SegmentInverted(X: seq<uint64>, Z: seq<uint64>, t: NttTables, cm: nat, N: nat, L: nat) {
    && 0 < t.p < W64 / 4 && cm * N + N <= |X| == |Z| && N == Exp2(L) == |t.invpolyTimesInvphis|
    && Segment(Z, cm, N) == RecoveredWords(Segment(X, cm, N), t, L)
    && (SegmentSteady(X, t, cm, N, L) ==> SegmentRecovered(X, Z, t, cm, N, L))
  }

  lemma BelowIsSteady(X: seq<uint64>, t: NttTables, cm: nat, N: nat, L: nat)
    requires SegmentBelow(X, t, cm, N) && N == Exp2(L) && 0 < t.p < W64 / 4
    ensures SegmentSteady(X, t, cm, N, L)
  {
    hide Steady, Below;
    BelowSteady(Segment(X, cm, N), L, t.invomega, t.p);
  }

  lemma InvertedBelow(X: seq<uint64>, Z: seq<uint64>, t: NttTables, cm: nat, N: nat, L: nat)
    requires SegmentInverted(X, Z, t, cm, N, L) && SegmentBelow(X, t, cm, N)
    ensures SegmentRecovered(X, Z, t, cm, N, L)
  {
    hide SegmentSteady, SegmentRecovered, RecoveredWords;
    BelowIsSteady(X, t, cm, N, L);
  }

  /** The first cm segments are done; the words from off on are untouched. */
  ghost predicate TransformedUpTo(X: seq<uint64>, Y: seq<uint64>, tables: seq<NttTables>, cm: nat, off: nat, N: nat,
                                  L: nat)
    requires cm <= |tables|
  {
    && |Y| == |X| && off <= |X| && Y[off..] == X[off..]
    && forall c: nat :: c < cm ==> SegmentTransformed(X, Y, tables[c], c, N, L)
  }

  lemma TransformedStart(X: seq<uint64>, tables: seq<NttTables>, N: nat, L: nat)
    ensures TransformedUpTo(X, X, tables, 0, 0, N, L)
  {
  }

  lemma TransformedEnd(X: seq<uint64>, Y: seq<uint64>, tables: seq<NttTables>, off: nat, N: nat, L: nat)
    requires TransformedUpTo(X, Y, tables, |tables|, off, N, L)
    ensures forall c: nat :: c < |tables| ==> SegmentTransformed(X, Y, tables[c], c, N, L)
  {
  }

  lemma TransformedStep(X: seq<uint64>, Y: seq<uint64>, Z: seq<uint64>, tables: seq<NttTables>,
                        cm: nat, off: nat, N: nat, L: nat)
    requires cm < |tables| && tables[cm].p > 0 && off == cm * N && off + N <= |X| == |Z|
    requires TransformedUpTo(X, Y, tables, cm, off, N, L)
    requires Z[..off] == Y[..off] && Z[off + N..] == Y[off + N..]
    requires Below(Z[off..off + N], 2 * tables[cm].p)
    requires Represents(Z[off..off + N], Y[off..off + N], tables[cm].phi, L, tables[cm].p)
    ensures TransformedUpTo(X, Z, tables, cm + 1, off + N, N, L)
  {
    hide Represents, Below;
    forall c: nat | c < cm ensures SegmentTransformed(X, Z, tables[c], c, N, L) {
      assert SegmentTransformed(X, Y, tables[c], c, N, L);
      OtherSegments(Y, Z, cm, c, N);
    }
    assert Y[off..off + N] == Y[off..][..N] == X[off..][..N] == Segment(X, cm, N);
    assert Z[off + N..] == Y[off..][N..] == X[off..][N..] == X[off + N..];
  }

  /** The first cm segments are done; the words from off on are untouched. */
  ghost predicate RecoveredUpTo(X: seq<uint64>, Y: seq<uint64>, tables: seq<NttTables>, cm: nat, off: nat, N: nat,
                                L: nat)
    requires cm <= |tables|
  {
    && |Y| == |X| && off <= |X| && Y[off..] == X[off..]
    && forall c: nat :: c < cm ==> SegmentInverted(X, Y, tables[c], c, N, L)
  }

  lemma RecoveredStart(X: seq<uint64>, tables: seq<NttTables>, N: nat, L: nat)
    ensures RecoveredUpTo(X, X, tables, 0, 0, N, L)
  {
  }

  lemma RecoveredEnd(X: seq<uint64>, Y: seq<uint64>, tables: seq<NttTables>, off: nat, N: nat, L: nat)
    requires RecoveredUpTo(X, Y, tables, |tables|, off, N, L)
    ensures forall c: nat :: c < |tables| ==> SegmentInverted(X, Y, tables[c], c, N, L)
  {
  }

  lemma RecoveredStep(X: seq<uint64>, Y: seq<uint64>, Z: seq<uint64>, tables: seq<NttTables>,
                      cm: nat, off: nat, N: nat, L: nat)
    requires cm < |tables| && tables[cm].p > 0 && off == cm * N && off + N <= |X| == |Z|
    requires RecoveredUpTo(X, Y, tables, cm, off, N, L)
    requires Z[..off] == Y[..off] && Z[off + N..] == Y[off + N..]
    requires N == Exp2(L) == |tables[cm].invpolyTimesInvphis| && tables[cm].p < W64 / 4
    requires Z[off..off + N] == RecoveredWords(Y[off..off + N], tables[cm], L)
    requires Steady(Y[off..off + N], L, tables[cm].invomega, tables[cm].p) ==>
      Recovers(Z[off..off + N], Y[off..off + N], tables[cm].phi, L, tables[cm].p)
    ensures RecoveredUpTo(X, Z, tables, cm + 1, off + N, N, L)
  {
    hide Recovers, RecoveredWords, Steady;
    forall c: nat | c < cm ensures SegmentInverted(X, Z, tables[c], c, N, L) {
      assert SegmentInverted(X, Y, tables[c], c, N, L);
      OtherSegments(Y, Z, cm, c, N);
    }
    assert Y[off..off + N] == Y[off..][..N] == X[off..][..N] == Segment(X, cm, N);
    assert Z[off + N..] == Y[off..][N..] == X[off..][N..] == X[off + N..];
  }

  // --------------------------------------------------------------- products

  ghost predicate SegmentMultiplied(U: seq<uint64>, V: seq<uint64>, T: seq<uint64>, t: NttTables, cm: nat, N: nat) {
    && t.p > 0 && cm * N + N <= |U| == |V| == |T|
    && Segment(T, cm, N) == ScaledMod(Segment(U, cm, N), Segment(V, cm, N), t.p)
  }

  ghost predicate MultipliedUpTo(U: seq<uint64>, V: seq<uint64>, T: seq<uint64>, tables: seq<NttTables>,
                                 cm: nat, off: nat, N: nat)
    requires cm <= |tables|
  {
    && off <= |T| == |U| == |V|
    && forall c: nat :: c < cm ==> SegmentMultiplied(U, V, T, tables[c], c, N)
  }

  lemma MultipliedStart(U: seq<uint64>, V: seq<uint64>, T: seq<uint64>, tables: seq<NttTables>, N: nat)
    requires |T| == |U| == |V|
    ensures MultipliedUpTo(U, V, T, tables, 0, 0, N)
  {
  }

  lemma MultipliedEnd(U: seq<uint64>, V: seq<uint64>, T: seq<uint64>, tables: seq<NttTables>, off: nat, N: nat)
    requires MultipliedUpTo(U, V, T, tables, |tables|, off, N)
    ensures forall c: nat :: c < |tables| ==> SegmentMultiplied(U, V, T, tables[c], c, N)
  {
  }

  lemma MultipliedStep(U: seq<uint64>, V: seq<uint64>, Y: seq<uint64>, Z: seq<uint64>, tables: seq<NttTables>,
                       cm: nat, off: nat, N: nat)
    requires cm < |tables| && tables[cm].p > 0 && off == cm * N && off + N <= |U| == |V| == |Z|
    requires MultipliedUpTo(U, V, Y, tables, cm, off, N)
    requires Replaced(Y, Z, off, ScaledMod(Segment(U, cm, N), Segment(V, cm, N), tables[cm].p))
    ensures MultipliedUpTo(U, V, Z, tables, cm + 1, off + N, N)
  {
    hide ScaledMod;
    forall c: nat | c < cm ensures SegmentMultiplied(U, V, Z, tables[c], c, N) {
      assert SegmentMultiplied(U, V, Y, tables[c], c, N);
      OtherSegments(Y, Z, cm, c, N);
    }
  }

  lemma MultipliedBelow(U: seq<uint64>, V: seq<uint64>, T: seq<uint64>, t: NttTables, cm: nat, N: nat)
    requires SegmentMultiplied(U, V, T, t, cm, N)
    ensures SegmentBelow(T, t, cm, N)
  {
    var u: seq<int>, v: seq<int> := Segment(U, cm, N), Segment(V, cm, N);
    forall i | 0 <= i < N ensures 0 <= ScaledMod(u, v, t.p)[i] < 2 * t.p {
      CongMod(u[i] * v[i], t.p);
    }
  }

  /** Segment cm of C is the product of those of A and B modulo X^N + 1 and the modulus. */
  ghost predicate SegmentProduct(A: seq<uint64>, B: seq<uint64>, C: seq<uint64>, t: NttTables, cm: nat, N: nat) {
    && t.p > 0 && cm * N + N <= |A| == |B| == |C|
    && forall j :: 0 <= j < N ==>
         Segment(C, cm, N)[j] == NegMul(Segment(A, cm, N), Segment(B, cm, N))[j] % t.p
  }

  lemma ConfiguredModulus(t: NttTables, L: nat)
    requires Configured(t, L)
    ensures 1 < t.p < W64 / 8 && NegRoot(t.phi, L, t.p)
  {
  }

  lemma ProductOfSegments(A: seq<uint64>, B: seq<uint64>, U: seq<uint64>, V: seq<uint64>, T: seq<uint64>,
                          C: seq<uint64>,
                          t: NttTables, cm: nat, N: nat, L: nat)
    requires Configured(t, L)
    requires SegmentTransformed(A, U, t, cm, N, L) && SegmentTransformed(B, V, t, cm, N, L)
    requires SegmentMultiplied(U, V, T, t, cm, N) && SegmentRecovered(T, C, t, cm, N, L)
    ensures SegmentProduct(A, B, C, t, cm, N)
  {
    hide Represents, NegMul, Configured, ScaledMod, Recovers;
    var a: seq<int>, b: seq<int> := Segment(A, cm, N), Segment(B, cm, N);
    var u: seq<int>, v: seq<int>, w: seq<int> := Segment(U, cm, N), Segment(V, cm, N), Segment(T, cm, N);
    ConfiguredModulus(t, L);
    RepresentsLength(u, a, t.phi, L, t.p);
    MultipliedWords(u, v, w, t.p);
    RepresentsProduct(w, u, v, a, b, t.phi, L, t.p);
    RecoversThis(Segment(C, cm, N), w, NegMul(a, b), t.phi, L, t.p);
  }

  lemma MultipliedWords(u: seq<int>, v: seq<int>, w: seq<int>, p: int)
    requires p > 0 && |u| == |v| && w == ScaledMod(u, v, p)
    ensures forall i :: 0 <= i < |w| ==> Cong(w[i], u[i] * v[i], p)
  {
    forall i | 0 <= i < |w| ensures Cong(w[i], u[i] * v[i], p) {
      CongMod(u[i] * v[i], p);
    }
  }

  lemma RecoversThis(out: seq<int>, v: seq<int>, c: seq<int>, phi: int, L: nat, p: int)
    requires p > 0 && Recovers(out, v, phi, L, p) && Represents(v, c, phi, L, p)
    ensures |out| == |c| && forall j :: 0 <= j < |out| ==> out[j] == c[j] % p
  {
  }

  /** Segment cm of Z is segment cm of X, fully reduced. */
  ghost predicate SegmentReduced(X: seq<uint64>, Z: seq<uint64>, t: NttTables, cm: nat, N: nat) {
    && t.p > 0 && cm * N + N <= |X| == |Z|
    && forall j :: 0 <= j < N ==> Segment(Z, cm, N)[j] == Segment(X, cm, N)[j] % t.p
  }

  lemma TransformedBack(X: seq<uint64>, Y: seq<uint64>, Z: seq<uint64>, t: NttTables, cm: nat, N: nat, L: nat)
    requires SegmentTransformed(X, Y, t, cm, N, L) && SegmentRecovered(Y, Z, t, cm, N, L)
    ensures SegmentReduced(X, Z, t, cm, N)
  {
    hide Represents, Recovers;
    RepresentsLength(Segment(Y, cm, N), Segment(X, cm, N), t.phi, L, t.p);
    RecoversThis(Segment(Z, cm, N), Segment(Y, cm, N), Segment(X, cm, N), t.phi, L, t.p);
  }

  lemma TransformedBelow(X: seq<uint64>, Y: seq<uint64>, t: NttTables, cm: nat, N: nat, L: nat)
    requires SegmentTransformed(X, Y, t, cm, N, L)
    ensures SegmentBelow(Y, t, cm, N)
  {
  }

  // ------------------------------------------------------------ lifted words

  ghost predicate InSegment(cm: nat, N: nat, i: nat, X: seq<uint64>) {
    cm * N + i < |X|
  }

  /** Word i of every segment is congruent to v modulo its modulus. */
  ghost predicate IsResidue(X: seq<uint64>, tables: seq<NttTables>, i: nat, N: nat, v: int) {
    forall cm: nat :: cm < |tables| ==>
      tables[cm].p > 0 && InSegment(cm, N, i, X) && Cong(X[cm * N + i], v, tables[cm].p)
  }

  /** Word i of each of the n segments. */
  function Column(X: seq<uint64>, n: nat, i: nat, N: nat): (r: seq<int>)
    requires i < N && n * N <= |X|
    ensures |r| == n
  {
    seq(n, c requires 0 <= c < n => SegmentFits(c, n, N); X[c * N + i])
  }

  /** The sum of the residues of coefficient i, each times its lifting integer. */
  method LiftCoefficient(p: array<uint64>, lift: seq<int>, n: nat, i: nat, N: nat) returns (sum: int)
    requires |lift| == n && i < N && n * N <= p.Length
    ensures sum == LiftSum(lift, Column(p[..], n, i, N), n)
  {
    sum := 0;
    for cm := 0 to n
      invariant sum == LiftSum(lift, Column(p[..], n, i, N), cm)
    {
      SegmentFits(cm, n, N);
      sum := sum + lift[cm] * p[cm * N + i];
    }
  }

  lemma LiftingLength(lift: seq<int>, ms: seq<int>)
    requires LiftingIntegers(lift, ms)
    ensures |lift| == |ms|
  {
  }

  lemma LiftOne(X: seq<uint64>, tables: seq<NttTables>, lift: seq<int>, i: nat, N: nat, v: int)
    requires Coprime(ModuliOf(tables)) && LiftingIntegers(lift, ModuliOf(tables))
    requires i < N && |tables| * N <= |X| && IsResidue(X, tables, i, N, v)
    ensures |lift| == |tables| && Product(ModuliOf(tables), |tables|) > 0
    ensures LiftSum(lift, Column(X, |tables|, i, N), |tables|) % Product(ModuliOf(tables), |tables|)
         == v % Product(ModuliOf(tables), |tables|)
  {
    hide LiftingIntegers;
    var ms, r := ModuliOf(tables), Column(X, |tables|, i, N);
    LiftingLength(lift, ms);
    forall j: nat | j < |ms| ensures Cong(r[j], v, ms[j]) {
      assert InSegment(j, N, i, X);
    }
    LiftExact(lift, ms, r, v);
  }

  function LiftedAt(X: seq<uint64>, lift: seq<int>, n: nat, i: nat, N: nat, P: int): int
    requires |lift| == n && i < N && n * N <= |X| && P > 0
  {
    LiftSum(lift, Column(X, n, i, N), n) % P
  }

  lemma LiftedReduced(X: seq<uint64>, lift: seq<int>, n: nat, i: nat, N: nat, P: int, sum: int)
    requires |lift| == n && i < N && n * N <= |X| && P > 0 && sum == LiftSum(lift, Column(X, n, i, N), n)
    ensures LiftedAt(X, lift, n, i, N, P) == sum % P
  {
  }

  /** Coefficient i of z is v modulo P, whenever v has the residues that X lists for it. */
  ghost predicate Lifts(z: seq<int>, X: seq<uint64>, tables: seq<NttTables>, N: nat, P: int) {
    && P > 0 && |z| == N
    && forall i: nat, v: int :: i < N && IsResidue(X, tables, i, N, v) ==> z[i] == v % P
  }

  lemma LiftAll(z: seq<int>, X: seq<uint64>, tables: seq<NttTables>, lift: seq<int>, N: nat, P: int)
    requires Coprime(ModuliOf(tables)) && LiftingIntegers(lift, ModuliOf(tables)) && |lift| == |tables|
    requires P == Product(ModuliOf(tables), |tables|) > 0 && |tables| * N <= |X| && |z| == N
    requires forall i: nat :: i < N ==> z[i] == LiftedAt(X, lift, |tables|, i, N, P)
    ensures Lifts(z, X, tables, N, P)
  {
    hide Coprime, LiftingIntegers, IsResidue;
    forall i: nat, v: int | i < N && IsResidue(X, tables, i, N, v) ensures z[i] == v % P {
      LiftOne(X, tables, lift, i, N, v);
    }
  }
}
