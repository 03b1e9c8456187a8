/** From files to the bytes that the client gets back. */
module EndToEnd {
  import opened Arith
  import opened Words
  import opened ByteStrings
  import opened Fields
  import opened NttWords
  import opened NflTables
  import opened NflLib
  import opened NflParams
  import opened Crt
  import opened Flat
  import opened Splitter
  import opened BsLoop
  import opened Deserialize
  import opened Serializer
  import opened Repacking
  import opened Lwe
  import opened Sampling
  import opened Selection
  import opened Replies
  import opened Retrieval
  import Scheme = NflLwe

  /** Bits of one plaintext polynomial, the whole bytes they fill, and the bytes that decrypt
      allocates for them. */
  function BlockBits(A: nat, N: nat): nat {
    MulMono(0, A, N);
    A * N
  }

  function BlockLength(A: nat, N: nat): nat { BlockBits(A, N) / 8 }

  function RoomOf(A: nat, N: nat): nat { 8 * (BlockBits(A, N) / 64 + 1) }

  /** The buffer that decrypt allocates has room for every write, when 64 divides the degree. */
  lemma BufferRoom(A: nat, N: nat, used: nat)
    requires N % 64 == 0 && used <= A * N
    ensures used / 8 + 8 <= RoomOf(A, N)
  {
    BlockBytes(A, N);
  }

  lemma BlockBytes(A: nat, N: nat)
    requires N % 64 == 0
    ensures BlockBits(A, N) % 64 == 0 && 8 * BlockLength(A, N) == BlockBits(A, N) == A * N == N * A
    ensures RoomOf(A, N) == BlockLength(A, N) + 8
  {
    var k := N / 64;
    assert A * N == 64 * (A * k);
  }

  /** decrypt: the coefficients of the hidden polynomial modulo 2^A, packed into bytes, as long as
      decryption loses nothing to the word size. */
  method Decrypt(lwe: Scheme.NflLwe, a: seq<uint64>, b: seq<uint64>) returns (out: array<byte>)
    requires lwe.Valid() && lwe.absBits >= 1 && lwe.nfl.polyDegree % 64 == 0
    requires |a| == |b| == |lwe.nfl.tables| * lwe.nfl.polyDegree
    requires |lwe.nfl.tables| == 1 ==> Progress(lwe.absBits, lwe.nfl.polyDegree)
    ensures fresh(out) && out.Length == BlockLength(lwe.absBits, lwe.nfl.polyDegree) + 8
    ensures PhaseInRange(a, b, lwe.secretKey, lwe.secretKeyShoup, lwe.nfl.tables, lwe.nfl.polyDegree, lwe.nfl.L) ==>
      forall c ::
      HidesAll(a, b, lwe.secretKey, c, lwe.nfl.tables, lwe.nfl.polyDegree, lwe.nfl.L) &&
      Decodable(c, lwe.nfl.moduliProduct) ==>
      |c| == lwe.nfl.polyDegree &&
      Value(out[..]) == Packed(Decoded(c, lwe.absBits), Widths(lwe.absBits, lwe.nfl.polyDegree), lwe.nfl.polyDegree)
  {
    hide NflLib.Valid, ShoupWords, HidesAll, Amplifiers, Decodable, Decoded, PhaseInRange, Exp2, Cong, Value,
      Packed, Progress, AllLimbs, FieldCount, RoomOf, BlockLength, BlockBits, Offset, BlockWidths,
      Scheme.DecodesSingle, Scheme.DecodesLifted;
    var N, n, A := lwe.nfl.polyDegree, |lwe.nfl.tables|, lwe.absBits;
    var scratch := new uint64[|a|](_ => 0);
    ghost var v;
    var words;
    words, v := lwe.Dec(scratch, a, b);
    BlockBytes(A, N);
    out := new byte[RoomOf(A, N)](_ => 0);
    ValueZeros(out[..]);
    assert Fits(v, Widths(A, N));
    if n == 1 {
      LastChunkRoom(A, N);
      SerializeData64(words, out, A);
    } else {
      BlocksPack(v, A);
      WordCount(A);
      LastBlockRoom(A, N);
      SerializeData32(words, out, A);
    }
  }

  lemma WordCount(A: nat)
    requires A > 0
    ensures WordsPerCoefficient(A) == FieldCount(A, 32)
  {
  }

  lemma LastChunkRoom(A: nat, N: nat)
    requires N % 64 == 0
    ensures N > 0 ==> ((N - 1) * A) / 8 + 8 <= RoomOf(A, N)
  {
    if N > 0 {
      MulMono(N - 1, N, A);
      BufferRoom(A, N, (N - 1) * A);
    }
  }

  lemma LastBlockRoom(A: nat, N: nat)
    requires A > 0 && N % 64 == 0
    ensures N * FieldCount(A, 32) >= 0
    ensures N * FieldCount(A, 32) > 0 ==>
      Offset(BlockWidths(A, N * FieldCount(A, 32)), N * FieldCount(A, 32) - 1) / 8 + 8 <= RoomOf(A, N)
  {
    hide Offset, FieldCount, FieldOff;
    var m := N * FieldCount(A, 32);
    MulMono(0, N, FieldCount(A, 32));
    if m > 0 {
      OffsetMonotone(BlockWidths(A, m), m - 1, m);
      BlockOffset(A, m, m);
      FieldShift(A, 32, 0, N);
      FieldOffZero(A);
      BufferRoom(A, N, Offset(BlockWidths(A, m), m - 1));
    }
  }

  /** Equally long files, as lists of nbuf buffers of nB bytes. */
  ghost predicate Files(files: seq<seq<seq<byte>>>, nB: nat, nbuf: nat) {
    forall f :: 0 <= f < |files| ==> EqualSize(files[f], nB) && |files[f]| == nbuf
  }

  /** Polynomial q of the file V, as the server holds it. */
  ghost predicate PolyImported(x: seq<uint64>, V: nat, q: nat, st: Setting) {
    && LazyWords(x, st.tables, st.N)
    && RepresentsAll(x, ChunkPoly(V, st.A, st.N, q), st.tables, st.N, st.L)
  }

  ghost predicate FileImported(ps: seq<seq<uint64>>, V: nat, polys: nat, st: Setting) {
    |ps| == polys && forall q :: 0 <= q < polys ==> PolyImported(ps[q], V, q, st)
  }

  ghost predicate Imported(db: seq<seq<seq<uint64>>>, files: seq<seq<seq<byte>>>, polys: nat, st: Setting) {
    |db| == |files| && forall f :: 0 <= f < |files| ==> FileImported(db[f], Value(Concat(files[f])), polys, st)
  }

  lemma RepresentsSize(x: seq<uint64>, d: seq<int>, tables: seq<NttTables>, N: nat, L: nat)
    requires RepresentsAll(x, d, tables, N, L)
    ensures |x| == |tables| * N
  {
  }

  lemma ChunkPolyBelow(V: nat, A: nat, N: nat, q: nat)
    ensures Below(ChunkPoly(V, A, N, q), Exp2(A))
  {
    hide Bits, Exp2;
    forall k | 0 <= k < N ensures 0 <= ChunkPoly(V, A, N, q)[k] < Exp2(A) { BitsBound(V, (q * N + k) * A, A); }
  }

  /** Polynomials per file. */
  function PolyCount(nbuf: nat, nB: nat, A: nat, N: nat): nat
    requires A >= 1 && N >= 1
  {
    MulMono(0, nbuf, nB);
    MulMono(1, A, N);
    CeilDiv(8 * (nbuf * nB), BlockBits(A, N))
  }

  /** The server's import: every file becomes polynomials of its chunks. */
  method ImportFiles(lwe: Scheme.NflLwe, files: seq<seq<seq<byte>>>, nB: nat, nbuf: nat)
    returns (db: seq<seq<seq<uint64>>>)
    requires lwe.Valid() && lwe.absBits >= 1 && FieldCount(lwe.absBits, 56) <= 8 && lwe.nfl.polyDegree > 0
    requires Walkable(lwe.absBits, nB, nbuf) && 8 * nB < W64 && Files(files, nB, nbuf)
    ensures Imported(db, files, PolyCount(nbuf, nB, lwe.absBits, lwe.nfl.polyDegree), SettingOf(lwe))
  {
    hide NflLib.Valid, ShoupWords, Amplifiers, LazyWords, RepresentsAll, ChunkPoly, Value, Concat, EqualSize, Exp2,
      Cong, FieldCount, Positive, Walkable, CeilDiv;
    var A, N := lwe.absBits, lwe.nfl.polyDegree;
    ghost var st := SettingOf(lwe);
    lwe.TablesPositive();
    MulMono(1, A, N);
    db := [];
    for f := 0 to |files|
      invariant |db| == f
      invariant forall g :: 0 <= g < f ==>
        FileImported(db[g], Value(Concat(files[g])), PolyCount(nbuf, nB, A, N), st)
    {
      var polys := DeserializeData(lwe.nfl, files[f], nB, A);
      db := db + [polys];
    }
  }

  /** Polynomial q of every file. */
  function Column(db: seq<seq<seq<uint64>>>, q: nat): (data: seq<seq<uint64>>)
    requires forall f :: 0 <= f < |db| ==> q < |db[f]|
    ensures |data| == |db|
  {
    seq(|db|, f requires 0 <= f < |db| => db[f][q])
  }

  ghost function ColumnPolys(files: seq<seq<seq<byte>>>, q: nat, st: Setting): (ds: seq<seq<int>>)
    ensures |ds| == |files|
  {
    seq(|files|, f requires 0 <= f < |files| => ChunkPoly(Value(Concat(files[f])), st.A, st.N, q))
  }

  lemma ColumnDatabase(db: seq<seq<seq<uint64>>>, files: seq<seq<seq<byte>>>, polys: nat, st: Setting, q: nat)
    requires Imported(db, files, polys, st) && q < polys
    ensures forall f :: 0 <= f < |db| ==> q < |db[f]|
    ensures Database(Column(db, q), ColumnPolys(files, q, st), st.A, st.tables, st.N, st.L)
  {
    hide LazyWords, RepresentsAll, ChunkPoly, Value, Concat, Exp2, Below;
    var data, ds := Column(db, q), ColumnPolys(files, q, st);
    forall f | 0 <= f < |db|
      ensures RepresentsAll(data[f], ds[f], st.tables, st.N, st.L) && LazyWords(data[f], st.tables, st.N)
      ensures |ds[f]| == st.N && Below(ds[f], Exp2(st.A)) && |data[f]| == |st.tables| * st.N
    {
      assert FileImported(db[f], Value(Concat(files[f])), polys, st);
      assert PolyImported(db[f][q], Value(Concat(files[f])), q, st);
      ChunkPolyBelow(Value(Concat(files[f])), st.A, st.N, q);
      RepresentsSize(data[f], ds[f], st.tables, st.N, st.L);
    }
  }

  lemma ChunkPolyPacks(V: nat, A: nat, N: nat, q: nat, v: seq<nat>)
    requires A > 0 && v == ChunkPoly(V, A, N, q)
    ensures 0 <= q * N && 0 <= (q * N) * A && 0 <= N * A
    ensures |v| == N && Packed(v, Widths(A, N), N) == Bits(V, (q * N) * A, N * A)
  {
    hide Bits, Exp2, Packed;
    MulMono(0, q, N);
    ChunksPack(V, A, v, q * N);
  }

  // ----------------------------------------------------- from replies to bytes

  /** The bytes above a value are zero, and may be cut off. */
  lemma Trimmed(out: seq<byte>, m: nat, U: nat)
    requires m <= |out| && Value(out) == U < Exp2(8 * m)
    ensures Value(out[..m]) == U
  {
    hide Exp2, Value;
    ValueConcat(out[..m], out[m..]);
    assert out[..m] + out[m..] == out;
    var hi := Value(out[m..]);
    if hi > 0 { MulMono(1, hi, Exp2(8 * m)); }
  }

  lemma BlockCut(out: seq<byte>, V: nat, A: nat, N: nat, q: nat, v: seq<nat>)
    requires A > 0 && N % 64 == 0 && |out| == RoomOf(A, N) && v == ChunkPoly(V, A, N, q)
    requires |v| == N && Value(out) == Packed(v, Widths(A, N), N)
    ensures BlockLength(A, N) <= |out| && IsBlock(out[..BlockLength(A, N)], V, q, BlockBits(A, N))
  {
    hide Exp2, Value, Bits, Packed, ChunkPoly, RoomOf, BlockLength, BlockBits;
    BlockBytes(A, N);
    ChunkPolyPacks(V, A, N, q, v);
    Associate(q, N, A);
    MulMono(0, q, BlockBits(A, N));
    BitsBound(V, (q * N) * A, N * A);
    Trimmed(out, BlockLength(A, N), Bits(V, (q * N) * A, N * A));
  }

  /** Numbers of elements for which every reply can be read: all with complete reductions, five as
      the lazy accumulation is written, and 25 if its words are brought below 2p. */
  predicate WithinLimit(n: nat, shoup: bool, reduce: bool) {
    shoup ==> n <= if reduce then 25 else 5
  }

  /** The reply hides the sum, and decryption can read it. */
  ghost predicate Retrievable(data: seq<seq<uint64>>, query: Query, st: Setting, shoup: bool, reduce: bool) {
    Guarded(data, query, st, shoup) && Readable(data, query, st, shoup, reduce)
  }

  /** One block: the reply for polynomial q, decrypted and cut to its bytes. */
  method RetrieveBlock(lwe: Scheme.NflLwe, data: seq<seq<uint64>>, query: Query, shoup: bool, reduce: bool,
                       ghost k: nat, ghost q: nat, ghost ds: seq<seq<int>>, ghost h: Hidden, ghost V: nat)
    returns (block: seq<byte>)
    requires lwe.Valid() && LargeModuli(ModuliOf(lwe.nfl.tables)) && k < |data| && lwe.absBits >= 1
    requires lwe.nfl.polyDegree % 64 == 0 && (|lwe.nfl.tables| == 1 ==> Progress(lwe.absBits, lwe.nfl.polyDegree))
    requires Database(data, ds, lwe.absBits, lwe.nfl.tables, lwe.nfl.polyDegree, lwe.nfl.L)
    requires k < |ds| && ds[k] == ChunkPoly(V, lwe.absBits, lwe.nfl.polyDegree, q)
    requires QueriesUpTo(query, h, k, SettingOf(lwe), |data|, shoup)
    requires Absorbs(lwe.absBits, |data|, lwe.noiseUB, lwe.nfl.polyDegree, 60 * |lwe.nfl.tables|)
    ensures |block| == BlockLength(lwe.absBits, lwe.nfl.polyDegree)
    ensures WithinLimit(|data|, shoup, reduce) ==> Retrievable(data, query, SettingOf(lwe), shoup, reduce)
    ensures Retrievable(data, query, SettingOf(lwe), shoup, reduce) ==>
      IsBlock(block, V, q, BlockBits(lwe.absBits, lwe.nfl.polyDegree))
  {
    hide NflLib.Valid, ShoupWords, Amplifiers, Database, LazyWords, ChunkPoly, Value, Exp2, Cong, HidesAll,
      Decodable, Decoded, Packed, LargeModuli, Absorbs, Progress, QueriesUpTo, CarryFree, Answerable, Sent,
      PhaseInRange, IsBlock, Widths, RoomOf, BlockLength, BlockBits, ModuliOf;
    var A, N := lwe.absBits, lwe.nfl.polyDegree;
    ghost var c;
    var ra, rb;
    ra, rb, c := Respond(lwe, data, query, shoup, reduce, k, ds, h);
    var out := Decrypt(lwe, ra[..], rb[..]);
    BlockBytes(A, N);
    block := out[..BlockLength(A, N)];
    assert block == out[..][..BlockLength(A, N)];
    if Retrievable(data, query, SettingOf(lwe), shoup, reduce) { BlockCut(out[..], V, A, N, q, Decoded(c, A)); }
  }

  /** The bytes are block q of V, in blocks of size bits. */
  ghost predicate IsBlock(block: seq<byte>, V: nat, q: nat, size: nat) {
    q * size >= 0 && Value(block) == Bits(V, q * size, size)
  }

  /** All blocks together are the low bits of V. */
  lemma {:induction false} Reassemble(blocks: seq<seq<byte>>, V: nat, m: nat)
    requires EqualSize(blocks, m) && forall q :: 0 <= q < |blocks| ==> IsBlock(blocks[q], V, q, 8 * m)
    ensures |blocks| * (8 * m) >= 0 && |Concat(blocks)| == |blocks| * m
    ensures Value(Concat(blocks)) == Bits(V, 0, |blocks| * (8 * m))
  {
    hide Exp2, Value, Bits, Concat;
    var n := |blocks|;
    MulMono(0, n, 8 * m);
    ConcatLength(blocks, m);
    if n == 0 {
      EmptyBits(V);
    } else {
      var front := blocks[..n - 1];
      Reassemble(front, V, m);
      ConcatLast(blocks);
      ValueConcat(Concat(front), blocks[n - 1]);
      assert IsBlock(blocks[n - 1], V, n - 1, 8 * m);
      NextBlockBits(V, n, m);
    }
  }

  lemma NextBlockBits(V: nat, n: nat, m: nat)
    requires n >= 1
    ensures 0 <= (n - 1) * (8 * m) == 8 * ((n - 1) * m) && 0 <= n * (8 * m)
    ensures Bits(V, 0, n * (8 * m))
      == Bits(V, 0, (n - 1) * (8 * m)) + Exp2((n - 1) * (8 * m)) * Bits(V, (n - 1) * (8 * m), 8 * m)
  {
    hide Exp2, Bits;
    BlockOffsets(n, m);
    var a: nat := (n - 1) * (8 * m);
    BitsSplit(V, 0, a, 8 * m);
  }

  lemma BlockOffsets(n: nat, m: nat)
    requires n >= 1
    ensures 0 <= (n - 1) * (8 * m) == 8 * ((n - 1) * m) && n * (8 * m) == (n - 1) * (8 * m) + 8 * m
  {
    MulMono(0, n - 1, 8 * m);
  }

  lemma EmptyBits(V: nat)
    ensures Value([]) == 0 && Bits(V, 0, 0) == 0
  {
    assert Exp2(0) == 1;
  }

  /** s is t, filled up with zeros. */
  ghost predicate ZeroFilled(s: seq<byte>, t: seq<byte>) {
    |t| <= |s| && s[..|t|] == t && forall i :: |t| <= i < |s| ==> s[i] == 0
  }

  /** Strings with the same value differ in trailing zeros only. */
  lemma {:induction false} SameValue(s: seq<byte>, t: seq<byte>)
    requires |t| <= |s| && Value(s) == Value(t)
    ensures ZeroFilled(s, t)
  {
    if s != [] {
      if t == [] {
        SameValue(s[1..], []);
        assert forall i :: 1 <= i < |s| ==> s[i] == s[1..][i - 1];
      } else {
        assert s[0] == t[0];
        SameValue(s[1..], t[1..]);
        assert s[..|t|] == [s[0]] + s[1..][..|t| - 1] && t == [t[0]] + t[1..];
        assert forall i :: |t| <= i < |s| ==> s[i] == s[1..][i - 1];
      }
    }
  }

  /** Enough blocks give back the file, filled up with zeros. */
  lemma FileBack(blocks: seq<seq<byte>>, file: seq<byte>, m: nat)
    requires EqualSize(blocks, m) && forall q :: 0 <= q < |blocks| ==> IsBlock(blocks[q], Value(file), q, 8 * m)
    requires |file| <= |blocks| * m
    ensures |Concat(blocks)| == |blocks| * m && ZeroFilled(Concat(blocks), file)
  {
    hide Exp2, Value, Bits, Concat, EqualSize, IsBlock;
    Reassemble(blocks, Value(file), m);
    ValueBound(file);
    assert |blocks| * (8 * m) == 8 * (|blocks| * m);
    Exp2Monotone(8 * |file|, |blocks| * (8 * m));
    BitsAll(Value(file), |blocks| * (8 * m));
    SameValue(Concat(blocks), file);
  }

  /** What client and server computed on the way, with what it stands for. */
  datatype Run = Run(db: seq<seq<seq<uint64>>>, polys: nat, query: Query, hidden: Hidden)

  /** The database holds the files, and the query asks for k, with the given random words. */
  ghost predicate Ran(run: Run, files: seq<seq<seq<byte>>>, k: nat, st: Setting, shoup: bool,
                      noise: seq<seq<uint64>>, masks: seq<seq<uint64>>) {
    && Imported(run.db, files, run.polys, st) && QueriesUpTo(run.query, run.hidden, k, st, |files|, shoup)
    && DrawnFrom(run.query, run.hidden, noise, masks, st, |files|)
  }

  /** No polynomial of the reply loses anything to the word size, on either side. */
  ghost predicate AllRetrievable(run: Run, st: Setting, shoup: bool, reduce: bool)
    requires forall f :: 0 <= f < |run.db| ==> |run.db[f]| == run.polys
  {
    forall q: nat :: q < run.polys ==> Retrievable(Column(run.db, q), run.query, st, shoup, reduce)
  }

  /** Private retrieval: one query, and one reply for each polynomial of the elements. The bytes
      that come back are file k and zeros after it, for any number of files if nothing is lost to the word
      size, and always within the limit. */
  method RetrieveFile(lwe: Scheme.NflLwe, files: seq<seq<seq<byte>>>, nB: nat, nbuf: nat, k: nat,
                      noise: seq<seq<uint64>>, masks: seq<seq<uint64>>, shoup: bool, reduce: bool)
    returns (blocks: seq<seq<byte>>, ghost run: Run)
    requires lwe.Valid() && LargeModuli(ModuliOf(lwe.nfl.tables))
    requires lwe.absBits >= 1 && FieldCount(lwe.absBits, 56) <= 8
    requires lwe.nfl.polyDegree > 0 && lwe.nfl.polyDegree % 64 == 0
    requires |lwe.nfl.tables| == 1 ==> Progress(lwe.absBits, lwe.nfl.polyDegree)
    requires Walkable(lwe.absBits, nB, nbuf) && 8 * nB < W64 && Files(files, nB, nbuf)
    requires k < |files| == |noise| == |masks|
    requires Sized(noise, lwe.nfl.polyDegree) && Sized(masks, |lwe.nfl.tables| * lwe.nfl.polyDegree)
    requires Absorbs(lwe.absBits, |files|, lwe.noiseUB, lwe.nfl.polyDegree, 60 * |lwe.nfl.tables|)
    ensures Ran(run, files, k, SettingOf(lwe), shoup, noise, masks)
    ensures |blocks| == run.polys == PolyCount(nbuf, nB, lwe.absBits, lwe.nfl.polyDegree)
    ensures forall f :: 0 <= f < |run.db| ==> |run.db[f]| == run.polys
    ensures WithinLimit(|files|, shoup, reduce) ==> AllRetrievable(run, SettingOf(lwe), shoup, reduce)
    ensures EqualSize(blocks, BlockLength(lwe.absBits, lwe.nfl.polyDegree))
    ensures |Concat(files[k])| == nbuf * nB <= |Concat(blocks)|
    ensures AllRetrievable(run, SettingOf(lwe), shoup, reduce) ==> ZeroFilled(Concat(blocks), Concat(files[k]))
  {
    hide NflLib.Valid, ShoupWords, Amplifiers, Database, LazyWords, ChunkPoly, Value, Concat, EqualSize, Exp2, Cong,
      FieldCount, LargeModuli, Absorbs, Progress, QueriesUpTo, Retrievable, Sized, Column, ColumnPolys, IsBlock,
      PolyCount, BlockLength, BlockBits, FileImported, DrawnFrom;
    var A, N := lwe.absBits, lwe.nfl.polyDegree;
    ghost var st := SettingOf(lwe);
    var db := ImportFiles(lwe, files, nB, nbuf);
    var polys := PolyCount(nbuf, nB, A, N);
    ImportedShape(db, files, polys, st);
    var query;
    ghost var h;
    query, h := MakeQuery(lwe, |files|, k, noise, masks, shoup);
    run := Run(db, polys, query, h);
    blocks := [];
    ghost var m, V := BlockLength(A, N), Value(Concat(files[k]));
    BlockBytes(A, N);
    for q := 0 to polys
      invariant |blocks| == q
      invariant forall p: nat :: p < q ==> |blocks[p]| == m
      invariant forall p: nat :: p < q && WithinLimit(|files|, shoup, reduce) ==>
        Retrievable(Column(db, p), query, st, shoup, reduce)
      invariant forall p: nat :: p < q && Retrievable(Column(db, p), query, st, shoup, reduce) ==>
        IsBlock(blocks[p], V, p, 8 * m)
    {
      ColumnDatabase(db, files, polys, st, q);
      ColumnAt(files, q, st, k);
      var block := RetrieveBlock(lwe, Column(db, q), query, shoup, reduce, k, q, ColumnPolys(files, q, st), h, V);
      blocks := blocks + [block];
    }
    BlocksSized(blocks, m);
    BlocksSuffice(nbuf, nB, A, N);
    ConcatLength(files[k], nB);
    ConcatLength(blocks, m);
    if AllRetrievable(run, st, shoup, reduce) { FileBack(blocks, Concat(files[k]), m); }
  }

  lemma ImportedShape(db: seq<seq<seq<uint64>>>, files: seq<seq<seq<byte>>>, polys: nat, st: Setting)
    requires Imported(db, files, polys, st)
    ensures |db| == |files| && forall f :: 0 <= f < |db| ==> |db[f]| == polys
  {
    hide PolyImported;
    forall f | 0 <= f < |db| ensures |db[f]| == polys {
      assert FileImported(db[f], Value(Concat(files[f])), polys, st);
    }
  }

  lemma ColumnAt(files: seq<seq<seq<byte>>>, q: nat, st: Setting, k: nat)
    requires k < |files|
    ensures ColumnPolys(files, q, st)[k] == ChunkPoly(Value(Concat(files[k])), st.A, st.N, q)
  {
  }

  lemma BlocksSized(blocks: seq<seq<byte>>, m: nat)
    requires forall p: nat :: p < |blocks| ==> |blocks[p]| == m
    ensures EqualSize(blocks, m)
  {
  }

  lemma BlocksSuffice(nbuf: nat, nB: nat, A: nat, N: nat)
    requires A >= 1 && N >= 1 && N % 64 == 0
    ensures nbuf * nB <= PolyCount(nbuf, nB, A, N) * BlockLength(A, N)
  {
    hide BlockLength, BlockBits;
    BlockBytes(A, N);
    var c, m := PolyCount(nbuf, nB, A, N), BlockLength(A, N);
    assert c * BlockBits(A, N) == 8 * (c * m);
  }

  // --------------------------------------------------- from raw parameters

  lemma FirstModuliLarge(nb: nat)
    requires nb <= MAX_NB_MODULI
    ensures LargeModuli(FirstModuli(nb))
  {
    hide Params;
    forall i: nat | i < nb ensures W64 / 8 - 0x80_0000 < FirstModuli(nb)[i] < W64 / 8 { GoodModuli(i); }
  }

  /** At most 30 bits per modulus and coefficient can be absorbed, and at least one if two are. */
  lemma AbsorbedRange(a: int, n: nat, Berr: nat, N: nat, nb: nat)
    requires nb >= 1 && n * Berr * N >= 1
    requires Scheme.Largest(a, n, Berr, N, 60 * nb)
    requires 4 * (n * Berr * N) <= Exp2(60 * nb - 1)
    ensures 1 <= a < 30 * nb && Absorbs(a, n, Berr, N, 60 * nb)
  {
    hide Exp2;
    var K := n * Berr * N;
    Scheme.NegativeWithin(if a < 0 then a + 1 else 0, K, 60 * nb);
    SmallExponents();
    if a >= 30 * nb {
      Exp2Monotone(30 * nb, a);
      var x, y := Exp2(30 * nb), Exp2(a);
      MulMono(x, y, x);
      MulMono(x, y, y);
      MulMono(1, K, y * y);
      Exp2Add(30 * nb, 30 * nb);
      Scheme.DoublePower(60 * nb);
    }
  }

  lemma SmallExponents()
    ensures Exp2(1) == 2 && Exp2(0) == 1
  {
  }

  /** The splitter can walk the buffers, for every width below the bound. */
  ghost predicate WalkableUpTo(bound: nat, nB: nat, nbuf: nat) {
    forall A: nat :: 1 <= A < bound ==> Walkable(A, nB, nbuf)
  }

  /** One buffer per file, buffers of one word, and buffers of at least 14 bytes suit every width. */
  lemma EnoughBytes(bound: nat, nB: nat, nbuf: nat)
    requires nB >= 8 && (nbuf <= 1 || nB == 8 || nB >= 14)
    ensures WalkableUpTo(bound, nB, nbuf)
  {
    hide Walkable;
    forall A: nat | 1 <= A < bound ensures Walkable(A, nB, nbuf) {
      if nB == 8 || nB >= 14 { LongWalkable(A, nB, nbuf); } else { SingleWalkable(A, nB, nbuf); }
    }
  }

  /** The whole path with nothing assumed but numbers: degrees from 64 on, up to 14 moduli, and a
      database that leaves room for one bit. Whatever the random words, and with the amplifier as
      coded or as intended, file k comes back if nothing is lost to the word size: always with
      complete reductions, up to five files as the lazy accumulation is written, and up to 25 if
      its words are brought below 2p. */
  method PrivateRetrieval(l: nat, nb: nat, securityBits: nat, files: seq<seq<seq<byte>>>, nB: nat, nbuf: nat, k: nat,
                          keyWords: seq<uint64>, noise: seq<seq<uint64>>, masks: seq<seq<uint64>>,
                          shoup: bool, reduce: bool, intended: bool)
    returns (blocks: seq<seq<byte>>, A: nat, ghost run: Run, ghost st: Setting)
    requires 6 <= l <= MAX_LOG_DEGREE && 1 <= nb <= 14 && 1 <= securityBits < 0x1_0000_0000
    requires nB < 0x1_0000_0000 && WalkableUpTo(30 * nb, nB, nbuf) && Files(files, nB, nbuf)
    requires k < |files| == |noise| == |masks|
    requires |keyWords| == nb * Exp2(l) && Sized(noise, Exp2(l)) && Sized(masks, nb * Exp2(l))
    requires 4 * (|files| * (5 * securityBits / 2) * Exp2(l)) <= Exp2(60 * nb - 1)
    ensures 1 <= A < 30 * nb && Scheme.Largest(A, |files|, 5 * securityBits / 2, Exp2(l), 60 * nb)
    ensures st.A == A && st.N == Exp2(l) && st.T == (if intended then Exp2(A) else 0) && st.Berr == 5 * securityBits / 2
    ensures |st.tables| == nb && Listed(st.tables, l) && DrawnWords(st.key, keyWords, st.tables, Exp2(l))
    ensures Ran(run, files, k, st, shoup, noise, masks) && |blocks| == run.polys == PolyCount(nbuf, nB, A, Exp2(l))
    ensures forall f :: 0 <= f < |run.db| ==> |run.db[f]| == run.polys
    ensures WithinLimit(|files|, shoup, reduce) ==> AllRetrievable(run, st, shoup, reduce)
    ensures EqualSize(blocks, BlockLength(A, Exp2(l))) && |Concat(files[k])| == nbuf * nB <= |Concat(blocks)|
    ensures AllRetrievable(run, st, shoup, reduce) ==> ZeroFilled(Concat(blocks), Concat(files[k]))
  {
    hide Params, Coprime, Exp2, Concat, LargeModuli, EqualSize, Sized, Absorbs, NflLib.Valid, ShoupWords,
      Amplifiers, Cong, Progress, Ran, Retrievable, Scheme.Within, Scheme.Largest, Files, Walkable, DrawnWords,
      Listed, PolyCount;
    var N := Exp2(l);
    var lwe := new Scheme.NflLwe();
    assert (60 * nb) / 60 == nb && (60 * nb) % 60 == 0;
    FirstModuliLarge(nb);
    var ok := lwe.SetNewParameters(N, 60 * nb, securityBits, 0, keyWords);
    assert |lwe.nfl.tables| == |ModuliOf(lwe.nfl.tables)| == nb;
    var n := |files|;
    MulMono(1, n, 5 * securityBits / 2);
    DegreeMultiple(l);
    MulMono(1, n * (5 * securityBits / 2), N);
    var a := lwe.SetAndGetAbsBits(n);
    AbsorbedRange(a, n, lwe.noiseUB, N, nb);
    A := a;
    if intended { lwe.IntendedNoiseAmplifiers(); }
    st := SettingOf(lwe);
    LibraryTables(lwe.nfl, l);
    FewFields(A);
    if nb == 1 { WidthsThatProgress(A); }
    blocks, run := RetrieveFile(lwe, files, nB, nbuf, k, noise, masks, shoup, reduce);
  }

  lemma LibraryTables(nfl: NflLib, l: nat)
    requires nfl.Valid() && nfl.polyDegree == Exp2(l)
    ensures Listed(nfl.tables, l)
  {
    hide Configured, Listed, Coprime, LiftingIntegers, Exp2;
    SameExponent(nfl.L, l);
  }

  lemma {:induction false} SameExponent(a: nat, b: nat)
    requires Exp2(a) == Exp2(b)
    ensures a == b
  {
    if a < b { Exp2Monotone(a + 1, b); }
    if b < a { Exp2Monotone(b + 1, a); }
  }

  lemma FewFields(A: nat)
    requires 1 <= A < 420
    ensures FieldCount(A, 56) <= 8
  {
  }

  lemma DegreeMultiple(l: nat)
    requires l >= 6
    ensures Exp2(l) > 0 && Exp2(l) % 64 == 0
  {
    Exp2Add(l - 6, 6);
    assert Exp2(6) == 64 by { assert Exp2(3) == 8; }
  }
}
