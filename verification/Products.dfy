/** Products with precomputed quotients: the second factor is reduced once, as encryption reduces
    the queries, and then multiplied by Shoup's method. */
module Products {
  import opened Arith
  import opened Words
  import opened Negacyclic
  import opened NflTables
  import opened NflLib
  import opened Flat

  lemma TablesPositive(nfl: NflLib)
    requires nfl.Valid()
    ensures Positive(nfl.tables)
  {
    hide NflTables.Configured;
    forall cm | 0 <= cm < |nfl.tables| ensures 1 < nfl.tables[cm].p < W64 / 8 {
      ConfiguredModulus(nfl.tables[cm], nfl.L);
    }
  }

  /** Reducing the words of a transform keeps what they represent. */
  lemma ReducedTransform(X: seq<uint64>, Y: seq<uint64>, tables: seq<NttTables>, cm: nat, N: nat, L: nat)
    requires Positive(tables) && |Y| == |tables| * N && cm < |tables| && SegmentTransformed(X, Y, tables[cm], cm, N, L)
    ensures SegmentTransformed(X, ModWords(Y, tables, N), tables[cm], cm, N, L)
  {
    hide Represents, ModWords;
    var p, Z := tables[cm].p, ModWords(Y, tables, N);
    ModRows(Y, tables, N, cm);
    var y: seq<int>, z: seq<int> := Segment(Y, cm, N), Segment(Z, cm, N);
    forall i | 0 <= i < N ensures 0 <= z[i] < 2 * p && Cong(z[i], y[i], p) {
      assert z[i] == Y[cm * N + i] % p;
      CongMod(y[i], p);
    }
    RepresentsWords(y, z, Segment(X, cm, N), tables[cm].phi, L, p);
  }

  lemma ProductSegment(U: seq<uint64>, V: seq<uint64>, tables: seq<NttTables>, cm: nat, N: nat)
    requires Positive(tables) && |U| == |V| == |tables| * N && cm < |tables|
    ensures SegmentMultiplied(U, V, ProductWords(U, V, tables, N), tables[cm], cm, N)
  {
    hide ModulusAt;
    RowOf(tables, N, cm);
    var T := ProductWords(U, V, tables, N);
    var t: seq<int>, s := Segment(T, cm, N), ScaledMod(Segment(U, cm, N), Segment(V, cm, N), tables[cm].p);
    forall i | 0 <= i < N ensures t[i] == s[i] {
      assert t[i] == MulMod(U[cm * N + i], V[cm * N + i], ModulusAt(tables, N, cm * N + i));
    }
    assert t == s;
  }

  /** Transform, reduce one factor, multiply with its quotients, transform back: the product
      modulo X^N + 1 and each modulus, for any 64-bit coefficients. */
  method NegacyclicProductShoup(nfl: NflLib, op1: array<uint64>, op2: array<uint64>) returns (rop: array<uint64>)
    requires nfl.Valid() && op1 != op2 && op1.Length == op2.Length == |nfl.tables| * nfl.polyDegree
    modifies op1, op2
    ensures fresh(rop) && rop.Length == op1.Length
    ensures forall cm: nat :: cm < |nfl.tables| ==>
      SegmentProduct(old(op1[..]), old(op2[..]), rop[..], nfl.tables[cm], cm, nfl.polyDegree)
  {
    hide NflLib.Valid, NflTables.Configured, SegmentTransformed, SegmentMultiplied, SegmentRecovered,
      SegmentProduct, SegmentBelow, SegmentInverted, ModWords, ProductWords, ShoupWords, ReducedWords, Positive;
    var tables, N := nfl.tables, nfl.polyDegree;
    TablesPositive(nfl);
    ghost var A, B := op1[..], op2[..];
    nfl.NttAndPowPhi(op1);
    nfl.NttAndPowPhi(op2);
    ghost var U, W := op1[..], op2[..];
    ReduceWords(op2, tables, N);
    ghost var V := op2[..];
    ModReduced(W, tables, N);
    var quotients := ShoupPoly(op2[..], tables, N);
    rop := new uint64[op1.Length](_ => 0);
    MulModPolyShoup(rop, op1[..], op2[..], quotients[..], tables, N);
    ghost var T := rop[..];
    forall cm: nat | cm < |tables|
      ensures SegmentMultiplied(U, V, T, tables[cm], cm, N) && SegmentBelow(T, tables[cm], cm, N)
    {
      ProductSegment(U, V, tables, cm, N);
      MultipliedBelow(U, V, T, tables[cm], cm, N);
    }
    nfl.InvNttAndPowInvPhi(rop);
    forall cm: nat | cm < |tables| ensures SegmentProduct(A, B, rop[..], tables[cm], cm, N) {
      nfl.ValidTables(cm);
      InvertedBelow(T, rop[..], tables[cm], cm, N, nfl.L);
      ReducedTransform(B, W, tables, cm, N, nfl.L);
      ProductOfSegments(A, B, U, V, T, rop[..], tables[cm], cm, N, nfl.L);
    }
  }
}
