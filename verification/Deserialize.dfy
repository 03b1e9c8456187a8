/** bs_finish and deserializeDataNFL: byte buffers become transformed polynomials. */
module Deserialize {
  import opened Arith
  import opened Words
  import opened ByteStrings
  import opened Fields
  import opened Negacyclic
  import opened NflTables
  import opened NflLib
  import opened Flat
  import opened Splitter
  import opened BsLoop
  import opened CrtData
  import opened Lwe
  import opened Replies

  /** Word x of the output is a residue of the chunk it belongs to. */
  ghost predicate ResidueWords(out: seq<uint64>, V: nat, B: nat, tables: seq<NttTables>, N: nat, len: nat)
    requires N > 0 && |tables| > 0 && Positive(tables)
  {
    len <= |out| && forall x: nat :: x < len ==>
      ResidueWord(out[x], V, B, CoefOf(x, N, |tables|), tables[ModOf(x, N, |tables|)].p)
  }

  ghost predicate ResidueWord(w: uint64, V: nat, B: nat, i: nat, p: uint64) {
    p > 0 && Cong(w, Chunk(V, B, i), p)
  }

  lemma PastChunks(V: nat, B: nat, bits: nat, i: nat)
    requires V < Exp2(bits) && bits <= i * B
    ensures Chunk(V, B, i) == 0
  {
    BitsAbove(V, i * B, B, bits);
  }

  lemma SummedResidues(out: seq<uint64>, limbs: seq<uint64>, V: nat, B: nat, bits: nat, total: nat,
                       tables: seq<NttTables>, N: nat, len: nat)
    requires N > 0 && |tables| > 0 && Positive(tables) && B > 0 && limbs == Limbs56(V, B, |limbs|) && len <= |out|
    requires V < Exp2(bits) && bits <= total * B && total * FieldCount(B, 56) <= |limbs|
    requires Summed(out, limbs, FieldCount(B, 56), tables, N, total, 0, 0)
    ensures ResidueWords(out, V, B, tables, N, len)
  {
    hide CoefOf, ModOf, Limbs56, Exp2, Chunk, FieldCount;
    forall x: nat | x < len ensures ResidueWord(out[x], V, B, CoefOf(x, N, |tables|), tables[ModOf(x, N, |tables|)].p) {
      SummedResidue(out, limbs, V, B, bits, total, tables, N, x);
    }
  }

  lemma SummedResidue(out: seq<uint64>, limbs: seq<uint64>, V: nat, B: nat, bits: nat, total: nat,
                      tables: seq<NttTables>, N: nat, x: nat)
    requires N > 0 && |tables| > 0 && Positive(tables) && B > 0 && limbs == Limbs56(V, B, |limbs|) && x < |out|
    requires V < Exp2(bits) && bits <= total * B && total * FieldCount(B, 56) <= |limbs|
    requires Summed(out, limbs, FieldCount(B, 56), tables, N, total, 0, 0)
    ensures ResidueWord(out[x], V, B, CoefOf(x, N, |tables|), tables[ModOf(x, N, |tables|)].p)
  {
    hide CoefOf, ModOf, Limbs56, Exp2, FieldCount, CrtWord, LimbSum;
    var i, p, c := CoefOf(x, N, |tables|), tables[ModOf(x, N, |tables|)].p, FieldCount(B, 56);
    assert out[x] == SumAt(limbs, i, c, p, Stage(x, N, |tables|, c, total, 0, 0));
    if i < total {
      MulMono(i + 1, total, c);
      assert (i + 1) * c == i * c + c;
      CrtWordCong(limbs, i, c, p, c);
      LimbsOfChunk(V, B, limbs, i, c);
    } else {
      MulMono(total, i, B);
      PastChunks(V, B, bits, i);
      assert SumAt(limbs, i, c, p, 0) == 0 by { NothingSummed(limbs, i, c, p); }
    }
  }

  lemma NothingSummed(limbs: seq<uint64>, i: nat, c: nat, p: uint64)
    requires p > 0
    ensures SumAt(limbs, i, c, p, 0) == 0
  {
  }

  // --------------------------------------------------- chunks of a single limb

  lemma SingleLimb(V: nat, B: nat, i: nat)
    requires B > 0 && FieldCount(B, 56) == 1
    ensures Limb(V, B, i) == Chunk(V, B, i)
  {
    hide Bits;
    DivModUnique(i, i, 0, 1);
  }

  /** Every modulus gets a copy of the chunks of a polynomial. */
  function Copies(splitData: seq<uint64>, N: nat, nb: nat, len: nat): (r: seq<uint64>)
    requires N > 0 && nb > 0 && forall x: nat :: x < len ==> CoefOf(x, N, nb) < |splitData|
    ensures |r| == len
  {
    seq(len, x requires 0 <= x < len => splitData[CoefOf(x, N, nb)])
  }

  lemma CopyIndex(x: nat, i: nat, cm: nat, k: nat, N: nat, nb: nat)
    requires N > 0 && cm < nb && k < N && x == (i * nb + cm) * N + k
    ensures CoefOf(x, N, nb) == i * N + k && ModOf(x, N, nb) == cm
  {
    DivModUnique(x, i * nb + cm, k, N);
    DivModUnique(i * nb + cm, i, cm, nb);
  }

  lemma CoefBound(x: nat, N: nat, nb: nat, polys: nat)
    requires N > 0 && nb > 0 && x < polys * (nb * N)
    ensures CoefOf(x, N, nb) < polys * N
  {
    DivModEq(x, N);
    DivModEq(x / N, nb);
    Associate(polys, nb, N);
    if x / N >= polys * nb { MulMono(polys * nb, x / N, N); }
    if (x / N) / nb >= polys { MulMono(polys, (x / N) / nb, nb); }
    MulMono((x / N) / nb + 1, polys, N);
    assert ((x / N) / nb + 1) * N == ((x / N) / nb) * N + N;
  }

  /** memcpy of one segment. */
  method CopyRow(out: array<uint64>, splitData: seq<uint64>, x: nat, src: nat, N: nat, ghost target: seq<uint64>,
                 ghost Z: seq<uint64>)
    requires x + N <= out.Length == |target| == |Z| && src + N <= |splitData| && out[..] == Blend(target, Z, x)
    requires forall j :: x <= j < x + N ==> target[j] == splitData[j - x + src]
    modifies out
    ensures out[..] == Blend(target, Z, x + N)
  {
    hide Blend;
    for k := 0 to N
      invariant out[..] == Blend(target, Z, x + k)
    {
      var j := x + k;
      BlendStep(target, Z, j);
      ghost var before := out[..];
      out[j] := splitData[src + k];
      assert out[..] == before[j := target[j]];
    }
  }

  lemma CopySource(splitData: seq<uint64>, N: nat, nb: nat, polys: nat, i: nat, cm: nat, x: nat, target: seq<uint64>)
    requires N > 0 && cm < nb && i < polys && polys * N <= |splitData| && x == (i * nb + cm) * N
    requires forall y: nat :: y < polys * (nb * N) ==> CoefOf(y, N, nb) < |splitData|
    requires target == Copies(splitData, N, nb, polys * (nb * N)) + [0]
    ensures x + N < |target| && i * N + N <= |splitData|
    ensures forall j :: x <= j < x + N ==> target[j] == splitData[j - x + i * N]
  {
    hide CoefOf;
    MulMono(i + 1, polys, N);
    assert (i + 1) * N == i * N + N;
    Associate(polys, nb, N);
    MulMono(i + 1, polys, nb);
    assert (i + 1) * nb == i * nb + nb;
    MulMono(i * nb + cm + 1, polys * nb, N);
    assert (i * nb + cm + 1) * N == (i * nb + cm) * N + N;
    forall j | x <= j < x + N ensures target[j] == splitData[j - x + i * N] {
      CopyIndex(j, i, cm, j - x, N, nb);
    }
  }

  /** Every modulus gets a copy of the limbs. */
  ghost predicate Copied(out: seq<uint64>, limbs: seq<uint64>, N: nat, nb: nat, len: nat) {
    && N > 0 && nb > 0 && len <= |out|
    && forall x: nat :: x < len ==> CoefOf(x, N, nb) < |limbs| && out[x] == limbs[CoefOf(x, N, nb)]
  }

  method CopyAll(splitData: seq<uint64>, N: nat, nb: nat, polys: nat) returns (out: array<uint64>)
    requires N > 0 && nb > 0 && polys * N <= |splitData|
    ensures fresh(out) && out.Length == polys * (nb * N) + 1
    ensures Copied(out[..], splitData, N, nb, polys * (nb * N)) && out[polys * (nb * N)] == 0
  {
    hide CoefOf, Blend;
    var len := polys * (nb * N);
    forall x: nat | x < len ensures CoefOf(x, N, nb) < |splitData| { CoefBound(x, N, nb, polys); }
    out := new uint64[len + 1](_ => 0);
    ghost var Z, target := out[..], Copies(splitData, N, nb, len) + [0];
    BlendEnds(target, Z);
    var x := 0;
    for i := 0 to polys
      invariant x == (i * nb) * N && x <= len && out[..] == Blend(target, Z, x)
    {
      for cm := 0 to nb
        invariant x == (i * nb + cm) * N && x <= len && out[..] == Blend(target, Z, x)
      {
        CopySource(splitData, N, nb, polys, i, cm, x, target);
        CopyRow(out, splitData, x, i * N, N, target, Z);
        assert (i * nb + (cm + 1)) * N == (i * nb + cm) * N + N;
        x := x + N;
      }
      assert (i + 1) * nb == i * nb + nb;
    }
    Associate(polys, nb, N);
    CopiedAll(splitData, N, nb, len, target, Z);
  }

  lemma CopiedAll(splitData: seq<uint64>, N: nat, nb: nat, len: nat, target: seq<uint64>, Z: seq<uint64>)
    requires N > 0 && nb > 0 && |Z| == len + 1
    requires forall x: nat :: x < len ==> CoefOf(x, N, nb) < |splitData|
    requires target == Copies(splitData, N, nb, len) + [0]
    ensures Copied(Blend(target, Z, len), splitData, N, nb, len) && Blend(target, Z, len)[len] == Z[len]
  {
    hide CoefOf;
  }

  lemma LimbResidues(out: seq<uint64>, limbs: seq<uint64>, V: nat, B: nat, tables: seq<NttTables>, N: nat, len: nat)
    requires N > 0 && |tables| > 0 && Positive(tables) && B > 0 && FieldCount(B, 56) == 1
    requires limbs == Limbs56(V, B, |limbs|)
    requires Copied(out, limbs, N, |tables|, len)
    ensures ResidueWords(out, V, B, tables, N, len)
  {
    hide CoefOf, ModOf, Chunk, Limb;
    forall x: nat | x < len ensures ResidueWord(out[x], V, B, CoefOf(x, N, |tables|), tables[ModOf(x, N, |tables|)].p) {
      SingleLimb(V, B, CoefOf(x, N, |tables|));
    }
  }

  /** bs_finish: whichever branch is taken, residue cm of coefficient i is at the same place. */
  method BsFinish(splitData: array<uint64>, B: nat, bits: nat, polys: nat, tables: seq<NttTables>, N: nat, ghost V: nat)
    returns (outdata: array<uint64>)
    requires N > 0 && |tables| > 0 && Positive(tables) && B > 0 && FieldCount(B, 56) <= 8
    requires polys * N * FieldCount(B, 56) + 1 == splitData.Length && splitData[..] == Limbs56(V, B, splitData.Length)
    requires V < Exp2(bits) && CeilDiv(bits, B) <= polys * N
    ensures outdata.Length == polys * (|tables| * N) + 1 && (outdata == splitData || fresh(outdata))
    ensures FieldCount(B, 56) == 1 ==>
      Copied(outdata[..], Limbs56(V, B, splitData.Length), N, |tables|, polys * (|tables| * N))
    ensures ResidueWords(outdata[..], V, B, tables, N, polys * (|tables| * N))
  {
    hide Limbs56, Summed, ResidueWords, CoefOf, FieldCount, Exp2;
    var nb, c := |tables|, FieldCount(B, 56);
    var limbs := splitData[..];
    if c > 1 {
      outdata := new uint64[polys * (nb * N) + 1](_ => 0);
      var total := CeilDiv(bits, B);
      MulMono(total, polys * N, c);
      LongIntegersToCrt(limbs, outdata, c, total, tables, N, polys);
      SummedResidues(outdata[..], limbs, V, B, bits, total, tables, N, polys * (nb * N));
    } else if nb > 1 {
      outdata := CopyAll(limbs, N, nb, polys);
      LimbResidues(outdata[..], limbs, V, B, tables, N, polys * (nb * N));
    } else {
      outdata := splitData;
      OneModulus(N, polys);
      LimbResidues(outdata[..], limbs, V, B, tables, N, polys * (nb * N));
    }
  }

  lemma OneModulus(N: nat, polys: nat)
    requires N > 0
    ensures polys * (1 * N) == polys * N && forall x: nat :: x < polys * N ==> CoefOf(x, N, 1) == x
  {
    forall x: nat | x < polys * N ensures CoefOf(x, N, 1) == x {
      DivModEq(x, N);
      DivModUnique(x / N, x / N, 0, 1);
    }
  }

  // ----------------------------------------------------------- polynomials

  /** Coefficient k of polynomial q is chunk q*N + k. */
  function ChunkPoly(V: nat, B: nat, N: nat, q: nat): (d: seq<int>)
    ensures |d| == N
  {
    seq(N, k requires 0 <= k < N => Chunk(V, B, q * N + k))
  }

  lemma PolyResidues(out: seq<uint64>, V: nat, B: nat, tables: seq<NttTables>, N: nat, polys: nat, q: nat,
                     X: seq<uint64>, cm: nat)
    requires N > 0 && |tables| > 0 && Positive(tables) && q < polys && cm < |tables|
    requires ResidueWords(out, V, B, tables, N, polys * (|tables| * N))
    requires q * (|tables| * N) + |tables| * N <= |out|
    requires X == out[q * (|tables| * N)..q * (|tables| * N) + |tables| * N]
    ensures cm * N + N <= |X| && CongSeq(Segment(X, cm, N), ChunkPoly(V, B, N, q), tables[cm].p)
  {
    hide CoefOf, ModOf, Chunk;
    var nb, off, p := |tables|, q * (|tables| * N), tables[cm].p;
    MulMono(cm + 1, nb, N);
    var row := cm * N;
    NextBlock(q, polys, nb * N);
    Associate(q, nb, N);
    Distributed(q * nb, cm, N);
    var x: seq<int>, d := Segment(X, cm, N), ChunkPoly(V, B, N, q);
    forall k | 0 <= k < N ensures Cong(x[k], d[k], p) {
      var y := off + row + k;
      assert x[k] == X[row + k] == out[y];
      CopyIndex(y, q, cm, k, N, nb);
    }
  }

  lemma NextBlock(q: nat, polys: nat, size: nat)
    requires q < polys
    ensures q * size + size <= polys * size
  {
    MulMono(q + 1, polys, size);
  }

  lemma Distributed(a: int, b: int, c: int)
    ensures (a + b) * c == a * c + b * c
  {
  }

  lemma PolyRepresents(out: seq<uint64>, V: nat, B: nat, tables: seq<NttTables>, N: nat, polys: nat, q: nat,
                       X: seq<uint64>, Y: seq<uint64>, L: nat)
    requires N > 0 && |tables| > 0 && Positive(tables) && q < polys
    requires ResidueWords(out, V, B, tables, N, polys * (|tables| * N))
    requires q * (|tables| * N) + |tables| * N <= |out|
    requires X == out[q * (|tables| * N)..q * (|tables| * N) + |tables| * N]
    requires |Y| == |X| && forall cm: nat :: cm < |tables| ==> SegmentTransformed(X, Y, tables[cm], cm, N, L)
    ensures RepresentsAll(Y, ChunkPoly(V, B, N, q), tables, N, L) && LazyWords(Y, tables, N)
  {
    hide ResidueWords, Represents, CongSeq, ChunkPoly, ModulusAt;
    forall cm: nat | cm < |tables| ensures SegmentRepresents(Y, ChunkPoly(V, B, N, q), tables[cm], cm, N, L) {
      PolyResidues(out, V, B, tables, N, polys, q, X, cm);
      assert SegmentTransformed(X, Y, tables[cm], cm, N, L);
      RepresentsCong(Segment(Y, cm, N), Segment(X, cm, N), ChunkPoly(V, B, N, q), tables[cm].phi, L, tables[cm].p);
    }
    TransformedLazy(X, Y, tables, N, L);
  }

  lemma TransformedLazy(X: seq<uint64>, Y: seq<uint64>, tables: seq<NttTables>, N: nat, L: nat)
    requires N > 0 && |Y| == |tables| * N
    requires forall cm: nat :: cm < |tables| ==> SegmentTransformed(X, Y, tables[cm], cm, N, L)
    ensures LazyWords(Y, tables, N)
  {
    hide Represents, ModulusAt, SegmentTransformed;
    forall j: nat | j < |Y| ensures Y[j] < 2 * ModulusAt(tables, N, j) {
      IndexFits(j, |tables|, N);
      DivModEq(j, N);
      WordOf(tables, N, j / N, j % N);
      TransformedWord(X, Y, tables[j / N], j / N, j % N, N, L);
    }
  }

  lemma TransformedWord(X: seq<uint64>, Y: seq<uint64>, t: NttTables, cm: nat, i: nat, N: nat, L: nat)
    requires SegmentTransformed(X, Y, t, cm, N, L) && i < N
    ensures cm * N + i < |Y| && Y[cm * N + i] < 2 * t.p
  {
    hide Represents;
    var y: seq<int> := Segment(Y, cm, N);
    assert y[i] == Y[cm * N + i];
  }

  /** CRT round trip: lifting the residues of a polynomial gives back every chunk below the
      product of the moduli. */
  lemma LiftedChunks(out: seq<uint64>, V: nat, B: nat, tables: seq<NttTables>, N: nat, polys: nat, q: nat,
                     X: seq<uint64>, z: seq<int>, P: int)
    requires N > 0 && |tables| > 0 && Positive(tables) && q < polys
    requires ResidueWords(out, V, B, tables, N, polys * (|tables| * N))
    requires q * (|tables| * N) + |tables| * N <= |out|
    requires X == out[q * (|tables| * N)..q * (|tables| * N) + |tables| * N]
    requires Lifts(z, X, tables, N, P)
    ensures |z| == N && P > 0
    ensures forall k :: 0 <= k < N ==> z[k] == ChunkPoly(V, B, N, q)[k] % P
    ensures forall k :: 0 <= k < N && ChunkPoly(V, B, N, q)[k] < P ==> z[k] == ChunkPoly(V, B, N, q)[k]
  {
    hide ResidueWords, ChunkPoly, IsResidue;
    forall k: nat | k < N
      ensures z[k] == ChunkPoly(V, B, N, q)[k] % P
    {
      ChunkResidue(out, V, B, tables, N, polys, q, X, k);
      assert IsResidue(X, tables, k, N, ChunkPoly(V, B, N, q)[k]);
    }
    forall k: nat | k < N && ChunkPoly(V, B, N, q)[k] < P ensures z[k] == ChunkPoly(V, B, N, q)[k] {
      ChunkNat(V, B, N, q, k);
      SmallMod(ChunkPoly(V, B, N, q)[k], P);
    }
  }

  lemma ChunkNat(V: nat, B: nat, N: nat, q: nat, k: nat)
    requires k < N
    ensures ChunkPoly(V, B, N, q)[k] >= 0
  {
    assert ChunkPoly(V, B, N, q)[k] == Chunk(V, B, q * N + k);
  }

  lemma ChunkResidue(out: seq<uint64>, V: nat, B: nat, tables: seq<NttTables>, N: nat, polys: nat, q: nat,
                     X: seq<uint64>, k: nat)
    requires N > 0 && |tables| > 0 && Positive(tables) && q < polys && k < N
    requires ResidueWords(out, V, B, tables, N, polys * (|tables| * N))
    requires q * (|tables| * N) + |tables| * N <= |out|
    requires X == out[q * (|tables| * N)..q * (|tables| * N) + |tables| * N]
    ensures IsResidue(X, tables, k, N, ChunkPoly(V, B, N, q)[k])
  {
    hide ResidueWords, ChunkPoly;
    var d := ChunkPoly(V, B, N, q);
    forall cm: nat | cm < |tables|
      ensures tables[cm].p > 0 && InSegment(cm, N, k, X) && Cong(X[cm * N + k], d[k], tables[cm].p)
    {
      PolyResidues(out, V, B, tables, N, polys, q, X, cm);
      var x: seq<int> := Segment(X, cm, N);
      assert Cong(x[k], d[k], tables[cm].p);
    }
  }

  /** The number of polynomials, and why the splitter's array is long enough. */
  lemma EnoughRoom(bits: nat, B: nat, N: nat, polys: nat, len: nat)
    requires B > 0 && N > 0 && B * N > 0 && polys == CeilDiv(bits, B * N) && len == polys * N * FieldCount(B, 56) + 1
    ensures bits <= FieldOff(B, 56, len) && CeilDiv(bits, B) <= polys * N
  {
    hide FieldOff, FieldCount;
    var m := polys * N;
    assert polys * (B * N) == m * B by { Associate(polys, B, N); Associate(B, polys, N); }
    var c := FieldCount(B, 56);
    FieldShift(B, 56, 0, m);
    FieldMonotone(B, 56, m * c, len);
    FirstLimb(B, 0);
    var t := CeilDiv(bits, B);
    if t > m { MulMono(m, t - 1, B); }
  }

  /** The words of one polynomial, as an array of their own. */
  method CopyBlock(out: array<uint64>, at: nat, size: nat) returns (op: array<uint64>)
    requires at + size <= out.Length
    ensures fresh(op) && op[..] == out[at..at + size]
  {
    op := new uint64[size](k requires 0 <= k < size reads out => out[at + k]);
  }

  /** deserializeDataNFL: each buffer of bits becomes polynomials whose coefficients are the
      chunks, in the transformed domain and below twice each modulus. */
  method DeserializeData(nfl: NflLib, bufs: seq<seq<byte>>, nB: nat, B: nat) returns (data: seq<seq<uint64>>)
    requires nfl.Valid() && |nfl.tables| > 0 && Positive(nfl.tables) && nfl.polyDegree > 0
    requires B > 0 && FieldCount(B, 56) <= 8 && EqualSize(bufs, nB) && Walkable(B, nB, |bufs|) && 8 * nB < W64
    ensures B * nfl.polyDegree > 0 && |data| == CeilDiv(8 * (|bufs| * nB), B * nfl.polyDegree)
    ensures forall q :: 0 <= q < |data| ==>
      LazyWords(data[q], nfl.tables, nfl.polyDegree) &&
      RepresentsAll(data[q], ChunkPoly(Value(Concat(bufs)), B, nfl.polyDegree, q), nfl.tables, nfl.polyDegree, nfl.L)
  {
    hide NflLib.Valid, Walkable, LazyWords, RepresentsAll, ChunkPoly, Value, Concat, EqualSize, Limbs56, FieldOff,
      FieldCount, ResidueWords, SegmentTransformed, Exp2;
    var N, tables := nfl.polyDegree, nfl.tables;
    ghost var V := Value(Concat(bufs));
    MulMono(1, B, N);
    var bits := 8 * (|bufs| * nB);
    var polys := CeilDiv(bits, B * N);
    var len := polys * N * FieldCount(B, 56) + 1;
    EnoughRoom(bits, B, N, polys, len);
    var splitData := BitSplitter(bufs, nB, B, len);
    ConcatLength(bufs, nB);
    ValueBound(Concat(bufs));
    var out := BsFinish(splitData, B, bits, polys, tables, N, V);
    ghost var W := out[..];
    data := [];
    var size := |tables| * N;
    for q := 0 to polys
      invariant |data| == q && out[..] == W
      invariant forall k :: 0 <= k < q ==>
        LazyWords(data[k], tables, N) && RepresentsAll(data[k], ChunkPoly(V, B, N, k), tables, N, nfl.L)
    {
      NextBlock(q, polys, size);
      var op := CopyBlock(out, q * size, size);
      ghost var X := op[..];
      nfl.NttAndPowPhi(op);
      PolyRepresents(W, V, B, tables, N, polys, q, X, op[..], nfl.L);
      data := data + [op[..]];
    }
  }
}
