/** The ring-LWE cryptosystem: keys, encryption, decryption and homomorphic accumulation, on
    polynomials that are stored as one segment of transformed words per modulus. */
module Lwe {
  import opened Arith
  import opened BitOps
  import opened Words
  import opened NttWords
  import opened Negacyclic
  import opened NflTables
  import opened Crt
  import opened NflLib
  import opened Flat
  import opened Sampling
  import opened LweSpec
  import opened LweWords

  // ------------------------------------------------------------ all moduli

  ghost predicate SegmentHides(a: seq<uint64>, b: seq<uint64>, s: seq<uint64>, c: seq<int>, t: NttTables, cm: nat,
                               N: nat, L: nat) {
    && t.p > 0 && cm * N + N <= |a| == |b| == |s|
    && Hides(Segment(a, cm, N), Segment(b, cm, N), Segment(s, cm, N), c, t.phi, L, t.p)
  }

  /** The ciphertext (a, b) hides one integer polynomial c, whatever the modulus. */
  ghost predicate HidesAll(a: seq<uint64>, b: seq<uint64>, s: seq<uint64>, c: seq<int>, tables: seq<NttTables>,
                           N: nat, L: nat) {
    && |a| == |b| == |s| == |tables| * N
    && forall cm: nat :: cm < |tables| ==> SegmentHides(a, b, s, c, tables[cm], cm, N, L)
  }

  /** The words m are residues of the integer coefficients mz, small enough for enc's addition. */
  ghost predicate MessageWords(m: seq<uint64>, mz: seq<int>, tables: seq<NttTables>, N: nat) {
    && |m| == |tables| * N && |mz| == N > 0 && Positive(tables)
    && forall j: nat :: j < |m| ==> MessageWord(m[j], mz[j % N], ModulusAt(tables, N, j))
  }

  ghost predicate MessageWord(m: uint64, z: int, p: uint64) {
    p > 0 && m + p <= W64 && Cong(m, z, p)
  }

  /** The integer amplifier T, listed modulo each modulus, with the Shoup quotients. */
  datatype AmplifierWords = AmplifierWords(t: seq<uint64>, tprime: seq<uint64>, T: nat)

  ghost predicate Amplifiers(amp: AmplifierWords, tables: seq<NttTables>) {
    && |amp.t| == |amp.tprime| == |tables|
    && forall cm :: 0 <= cm < |tables| ==> Amplifier(amp.t[cm], amp.tprime[cm], amp.T, tables[cm].p)
  }

  ghost predicate Amplifier(t: uint64, tprime: uint64, T: nat, p: uint64) {
    p > 0 && t < p && Cong(t, T, p) && tprime == ShoupQuotient(t, p)
  }

  /** The noise polynomial that is drawn from the random words. */
  function NoisePoly(rnd: seq<uint64>, bound: uint64): (e: seq<int>)
    requires bound > 0
    ensures |e| == |rnd| && Below(e, bound) && forall i :: 0 <= i < |e| ==> Drawn(e[i], rnd[i], bound)
  {
    seq(|rnd|, i requires 0 <= i < |rnd| => Sampled(rnd[i], bound))
  }

  // -------------------------------------------------------------- encryption

  lemma AmplifiedCong(e: uint64, m: uint64, t: uint64, tprime: uint64, z: int, T: nat, p: uint64)
    requires p < W64 / 8 && MessageWord(m, z, p) && Amplifier(t, tprime, T, p)
    ensures Cong(AmplifiedWord(e, m, t, tprime, p), T * e + z, p)
  {
    hide AmplifiedWord, ShoupQuotient;
    AmplifiedExact(e, m, t, p);
    CongScale(t, T, e, p);
    CongAdd(t * e, T * e, m, z, p);
  }

  /** Segment cm of X holds residues of the coefficients c. */
  ghost predicate SegmentCong(X: seq<uint64>, c: seq<int>, t: NttTables, cm: nat, N: nat) {
    t.p > 0 && cm * N + N <= |X| && CongSeq(Segment(X, cm, N), c, t.p)
  }

  ghost predicate ResiduesOf(X: seq<uint64>, c: seq<int>, tables: seq<NttTables>, N: nat) {
    forall cm: nat :: cm < |tables| ==> SegmentCong(X, c, tables[cm], cm, N)
  }

  /** The words before the transform are residues of amplifier times noise plus message. */
  lemma AmplifiedAll(E: seq<uint64>, m: seq<uint64>, amp: AmplifierWords, rnd: seq<uint64>, bound: uint64, mz: seq<int>,
                     tables: seq<NttTables>, N: nat)
    requires MessageWords(m, mz, tables, N) && Amplifiers(amp, tables)
    requires |E| == |m| && |rnd| == N && IsNoise(E, rnd, bound, N)
    ensures ResiduesOf(AmplifiedWords(E, m, amp.t, amp.tprime, tables, N), Noisy(amp.T, NoisePoly(rnd, bound), mz),
                       tables, N)
  {
    hide AmplifiedWords, Noisy, NoisePoly, Amplifier, MessageWord, ModulusAt, Sampled, SegmentCong;
    forall cm: nat | cm < |tables|
      ensures SegmentCong(AmplifiedWords(E, m, amp.t, amp.tprime, tables, N), Noisy(amp.T, NoisePoly(rnd, bound), mz),
                          tables[cm], cm, N)
    {
      AmplifiedSegment(E, m, amp, rnd, bound, mz, tables, cm, N);
    }
  }

  lemma AmplifiedSegment(E: seq<uint64>, m: seq<uint64>, amp: AmplifierWords, rnd: seq<uint64>, bound: uint64,
                         mz: seq<int>, tables: seq<NttTables>, cm: nat, N: nat)
    requires cm < |tables| && MessageWords(m, mz, tables, N) && Amplifiers(amp, tables)
    requires |E| == |m| && |rnd| == N && IsNoise(E, rnd, bound, N)
    ensures SegmentCong(AmplifiedWords(E, m, amp.t, amp.tprime, tables, N), Noisy(amp.T, NoisePoly(rnd, bound), mz),
                        tables[cm], cm, N)
  {
    hide AmplifiedWord, Sampled, AmplifiedWords, ModulusAt, Amplifier, MessageWord;
    var p, off, X := tables[cm].p, cm * N, AmplifiedWords(E, m, amp.t, amp.tprime, tables, N);
    var c := Noisy(amp.T, NoisePoly(rnd, bound), mz);
    MulMono(cm + 1, |tables|, N);
    AmplifiedRows(E, m, amp.t, amp.tprime, tables, N, cm);
    var x: seq<int> := Segment(X, cm, N);
    forall i | 0 <= i < N ensures Cong(x[i], c[i], p) {
      WordOf(tables, N, cm, i);
      AmplifiedCong(E[off + i], m[off + i], amp.t[cm], amp.tprime[cm], mz[i], amp.T, p);
    }
  }

  lemma MaskedPhase(y: uint64, a: uint64, s: uint64, sprime: uint64, p: uint64, shoup: bool)
    requires y < 2 * p && s < p < W64 / 8 && sprime == ShoupQuotient(s, p)
    ensures Cong(MaskedWord(y, a, s, sprime, p, shoup) - Settled(a, p, shoup) * s, y, p)
  {
    hide MaskedWord, ShoupQuotient, Settled;
    MaskedExact(y, a, s, p, shoup);
    CongScale(Settled(a, p, shoup), a, s, p);
    CongSub(MaskedWord(y, a, s, sprime, p, shoup), y + a * s, Settled(a, p, shoup) * s, a * s, p);
  }

  /** Masking the transformed words Y with A gives a ciphertext that hides what Y represents. */
  lemma MaskedSegment(Y: seq<uint64>, A: seq<uint64>, s: seq<uint64>, sprime: seq<uint64>, c: seq<int>,
                      tables: seq<NttTables>, cm: nat, N: nat, L: nat, shoup: bool)
    requires Positive(tables) && cm < |tables| && |A| == |Y| && ShoupWords(s, sprime, tables, N) && |Y| == |s|
    requires cm * N + N <= |Y| && Below(Segment(Y, cm, N), 2 * tables[cm].p)
    requires Represents(Segment(Y, cm, N), c, tables[cm].phi, L, tables[cm].p)
    ensures SegmentHides(SettledWords(A, tables, N, shoup), MaskedWords(Y, A, s, sprime, tables, N, shoup), s, c,
                         tables[cm], cm, N, L)
  {
    hide MaskedWord, MaskedWords, Settled, SettledWords, ModulusAt, Represents, ShoupQuotient;
    var a, b := SettledWords(A, tables, N, shoup), MaskedWords(Y, A, s, sprime, tables, N, shoup);
    var p, off := tables[cm].p, cm * N;
    MaskedRows(Y, A, s, sprime, tables, N, cm, shoup);
    var w := PhaseWords(Segment(a, cm, N), Segment(b, cm, N), Segment(s, cm, N));
    var y: seq<int> := Segment(Y, cm, N);
    forall i | 0 <= i < N ensures Cong(w[i], y[i], p) {
      WordOf(tables, N, cm, i);
      MaskedPhase(Y[off + i], A[off + i], s[off + i], sprime[off + i], p, shoup);
    }
    RepresentsWords(y, w, c, tables[cm].phi, L, p);
  }

  lemma EncryptedSegment(X: seq<uint64>, Y: seq<uint64>, A: seq<uint64>, s: seq<uint64>, sprime: seq<uint64>,
                         c: seq<int>, tables: seq<NttTables>, cm: nat, N: nat, L: nat, shoup: bool)
    requires Positive(tables) && cm < |tables| && ResiduesOf(X, c, tables, N)
    requires SegmentTransformed(X, Y, tables[cm], cm, N, L)
    requires |A| == |Y| == |s| && ShoupWords(s, sprime, tables, N)
    ensures SegmentHides(SettledWords(A, tables, N, shoup), MaskedWords(Y, A, s, sprime, tables, N, shoup), s, c,
                         tables[cm], cm, N, L)
  {
    hide Represents, MaskedWords, SettledWords, CongSeq, SegmentHides, ShoupWords;
    assert SegmentCong(X, c, tables[cm], cm, N);
    RepresentsCong(Segment(Y, cm, N), Segment(X, cm, N), c, tables[cm].phi, L, tables[cm].p);
    MaskedSegment(Y, A, s, sprime, c, tables, cm, N, L, shoup);
  }

  // -------------------------------------------------------------- decryption

  predicate LazyWords(b: seq<uint64>, tables: seq<NttTables>, N: nat) {
    |b| == |tables| * N && forall j: nat :: j < |b| ==> b[j] < 2 * ModulusAt(tables, N, j)
  }

  /** b - a*s is computed without overflow, and its inverse transform loses nothing. */
  ghost predicate PhaseInRange(a: seq<uint64>, b: seq<uint64>, s: seq<uint64>, sprime: seq<uint64>,
                               tables: seq<NttTables>, N: nat, L: nat) {
    && Positive(tables) && |a| == |b| == |s| == |sprime| == |tables| * N && NoOverflow(b, tables, N)
    && forall cm: nat :: cm < |tables| ==>
         SegmentSteady(PhasedWords(a, b, s, sprime, tables, N), tables[cm], cm, N, L)
  }

  ghost predicate NoOverflow(b: seq<uint64>, tables: seq<NttTables>, N: nat)
    requires |b| == |tables| * N
  {
    forall j: nat :: j < |b| ==> b[j] + ModulusAt(tables, N, j) < W64
  }

  /** Words of b below 2p are in range, whatever the words of a. */
  lemma LazyInRange(a: seq<uint64>, b: seq<uint64>, s: seq<uint64>, sprime: seq<uint64>, tables: seq<NttTables>, N: nat,
                    L: nat)
    requires Positive(tables) && LazyWords(b, tables, N) && ShoupWords(s, sprime, tables, N) && |a| == |b|
    requires N == Exp2(L)
    ensures PhaseInRange(a, b, s, sprime, tables, N, L)
  {
    hide PhasedWords, ModulusAt, ShoupWords, SegmentSteady, Exp2;
    ShoupWordsLength(s, sprime, tables, N);
    forall cm: nat | cm < |tables|
      ensures SegmentSteady(PhasedWords(a, b, s, sprime, tables, N), tables[cm], cm, N, L)
    {
      PhasedBelow(a, b, s, sprime, tables, cm, N);
      BelowIsSteady(PhasedWords(a, b, s, sprime, tables, N), tables[cm], cm, N, L);
    }
  }

  lemma ShoupWordsLength(s: seq<uint64>, sprime: seq<uint64>, tables: seq<NttTables>, N: nat)
    requires ShoupWords(s, sprime, tables, N)
    ensures |s| == |sprime| == |tables| * N
  {
  }

  lemma PhasedBelow(a: seq<uint64>, b: seq<uint64>, s: seq<uint64>, sprime: seq<uint64>,
                    tables: seq<NttTables>, cm: nat, N: nat)
    requires Positive(tables) && LazyWords(b, tables, N) && ShoupWords(s, sprime, tables, N) && |a| == |b|
    requires cm < |tables|
    ensures |a| == |s| == |sprime| == |tables| * N
    ensures SegmentBelow(PhasedWords(a, b, s, sprime, tables, N), tables[cm], cm, N)
  {
    hide PhaseWord, PhasedWords, ModulusAt, ShoupQuotient;
    var p, off, V := tables[cm].p, cm * N, PhasedWords(a, b, s, sprime, tables, N);
    MulMono(cm + 1, |tables|, N);
    PhasedRows(a, b, s, sprime, tables, N, cm);
    var v: seq<int> := Segment(V, cm, N);
    forall i | 0 <= i < N ensures 0 <= v[i] < 2 * p {
      WordOf(tables, N, cm, i);
      PhaseExact(a[off + i], b[off + i], s[off + i], p);
    }
  }

  lemma PhasedSegment(a: seq<uint64>, b: seq<uint64>, s: seq<uint64>, sprime: seq<uint64>, V: seq<uint64>,
                      tables: seq<NttTables>, cm: nat, N: nat)
    requires cm < |tables| && Positive(tables) && ShoupWords(s, sprime, tables, N) && |a| == |b| == |tables| * N
    requires NoOverflow(b, tables, N) && V == PhasedWords(a, b, s, sprime, tables, N)
    ensures cm * N + N <= |V|
    ensures CongSeq(Segment(V, cm, N), PhaseWords(Segment(a, cm, N), Segment(b, cm, N), Segment(s, cm, N)),
                    tables[cm].p)
  {
    hide PhaseWord, PhasedWords, ModulusAt, ShoupQuotient;
    var p, off := tables[cm].p, cm * N;
    MulMono(cm + 1, |tables|, N);
    PhasedRows(a, b, s, sprime, tables, N, cm);
    var v: seq<int>, w := Segment(V, cm, N), PhaseWords(Segment(a, cm, N), Segment(b, cm, N), Segment(s, cm, N));
    forall i | 0 <= i < N ensures Cong(v[i], w[i], p) {
      WordOf(tables, N, cm, i);
      PhaseExact(a[off + i], b[off + i], s[off + i], p);
    }
  }

  /** After the inverse transform, segment cm holds the residues of the hidden polynomial. */
  lemma RecoveredSegment(a: seq<uint64>, b: seq<uint64>, s: seq<uint64>, c: seq<int>, V: seq<uint64>, Z: seq<uint64>,
                         t: NttTables, cm: nat, N: nat, L: nat)
    requires SegmentHides(a, b, s, c, t, cm, N, L) && |V| == |a| && SegmentRecovered(V, Z, t, cm, N, L)
    requires CongSeq(Segment(V, cm, N), PhaseWords(Segment(a, cm, N), Segment(b, cm, N), Segment(s, cm, N)), t.p)
    ensures |c| == N && forall i :: 0 <= i < N ==> Segment(Z, cm, N)[i] == c[i] % t.p
  {
    hide Represents, Recovers, CongSeq;
    var w := PhaseWords(Segment(a, cm, N), Segment(b, cm, N), Segment(s, cm, N));
    RepresentsWords(w, Segment(V, cm, N), c, t.phi, L, t.p);
    RecoversThis(Segment(Z, cm, N), Segment(V, cm, N), c, t.phi, L, t.p);
  }

  /** Every coefficient is closer to zero than P/2. */
  ghost predicate Decodable(c: seq<int>, P: int) {
    forall i :: 0 <= i < |c| ==> -P < 2 * c[i] < P
  }

  function Decoded(c: seq<int>, A: nat): (r: seq<nat>)
    ensures |r| == |c|
  {
    seq(|c|, i requires 0 <= i < |c| => LowOrder(c[i], A))
  }

  function LowOrder(x: int, A: nat): nat { x % Exp2(A) }

  /** The k 32-bit words of x, least significant first. */
  function Limbs(x: nat, k: nat): (r: seq<nat>)
    ensures |r| == k
    decreases k
  {
    if k == 0 then [] else [x % 0x1_0000_0000] + Limbs(x / 0x1_0000_0000, k - 1)
  }

  function AllLimbs(v: seq<nat>, k: nat): (r: seq<nat>)
    ensures |r| == |v| * k
  {
    if v == [] then [] else AllLimbs(v[..|v| - 1], k) + Limbs(v[|v| - 1], k)
  }

  /** 32-bit words per coefficient. */
  function WordsPerCoefficient(A: nat): nat { (A + 31) / 32 }

  /** The words that dec leaves: one 64-bit word per coefficient for a single modulus, and
      consecutive 32-bit words otherwise. */
  function DecodedWords(v: seq<nat>, nbModuli: nat, A: nat): seq<nat> {
    if nbModuli == 1 then v else AllLimbs(v, WordsPerCoefficient(A))
  }

  lemma Exp2Divides(A: nat, e: nat)
    requires A <= e
    ensures Cong(Exp2(e), 0, Exp2(A))
  {
    Exp2Add(e - A, A);
    CongByMultiple(Exp2(e), 0, Exp2(e - A), Exp2(A));
  }

  /** The single-modulus branch of dec: the constant 2^61 - p replaces a signed reduction. */
  method DecodeSingle(m: array<uint64>, p: uint64, A: nat)
    requires 1 < p < W64 / 8 && Below(m[..], p) && A <= 61
    modifies m
    ensures forall i :: 0 <= i < m.Length ==> m[i] == DecodeWord(old(m[i]), p, W64 / 8, A) && m[i] < Exp2(A)
  {
    hide And, Exp2;
    var magic := W64 / 8 - p;
    var bitmask := Exp2(A) - 1;
    for k := 0 to m.Length
      invariant forall i :: 0 <= i < k ==> m[i] == DecodeWord(old(m[i]), p, W64 / 8, A) && m[i] < Exp2(A)
      invariant forall i :: k <= i < m.Length ==> m[i] == old(m[i]) == old(m[..])[i]
    {
      MaskRange(m[k], A);
      MaskRange(m[k] + magic, A);
      m[k] := if m[k] > p / 2 then And(m[k] + magic, bitmask) else And(m[k], bitmask);
    }
  }

  lemma MaskRange(x: nat, A: nat)
    ensures 0 <= And(x, Exp2(A) - 1) <= x && And(x, Exp2(A) - 1) < Exp2(A)
  {
    hide And, Exp2;
    AndMask(x, A);
    ModBelow(x, Exp2(A));
  }

  lemma ModBelow(x: nat, m: nat)
    requires m > 0
    ensures 0 <= x % m <= x && x % m < m
  {
    DivModEq(x, m);
    if x < m { SmallMod(x, m); }
  }

  /** All coefficients decoded by the last step of dec. */
  function DecodedFrom(z: seq<int>, P: int, M: int, A: nat): (v: seq<nat>)
    requires P <= M && Below(z, P)
    ensures |v| == |z|
  {
    seq(|z|, i requires 0 <= i < |z| => DecodeWord(z[i], P, M, A))
  }

  lemma DecodedFromBelow(z: seq<int>, P: int, M: int, A: nat, i: nat)
    requires P <= M && Below(z, P) && i < |z|
    ensures DecodedFrom(z, P, M, A)[i] == DecodeWord(z[i], P, M, A) < Exp2(A)
  {
    hide And, Exp2;
    MaskRange(z[i], A);
    MaskRange(z[i] + (M - P), A);
  }

  /** The branch of dec for several moduli, on lifted coefficients. */
  method DecodeLifted(z: seq<int>, P: int, nbModuli: nat, A: nat) returns (out: seq<nat>)
    requires 0 < P <= Exp2(61 * nbModuli) && Below(z, P)
    ensures out == AllLimbs(DecodedFrom(z, P, Exp2(61 * nbModuli), A), WordsPerCoefficient(A))
  {
    hide And, Exp2;
    var magic := Exp2(61 * nbModuli) - P;
    var bitmask := Exp2(A) - 1;
    out := [];
    ghost var v := DecodedFrom(z, P, Exp2(61 * nbModuli), A);
    for i := 0 to |z|
      invariant out == AllLimbs(v[..i], WordsPerCoefficient(A))
    {
      var x := if 2 * z[i] > P then And(z[i] + magic, bitmask) else And(z[i], bitmask);
      out := out + Limbs(x, WordsPerCoefficient(A));
      assert v[..i + 1][..i] == v[..i] && v[..i + 1][i] == x;
    }
    assert v[..|z|] == v;
  }

  lemma {:induction false} ProductBelow(ms: seq<int>, n: nat)
    requires n <= |ms| && forall i :: 0 <= i < |ms| ==> 1 < ms[i] < W64 / 8
    ensures 0 < Product(ms, n) <= Exp2(61 * n)
  {
    if n > 0 {
      hide Exp2;
      ProductBelow(ms, n - 1);
      Exp2Add(61 * (n - 1), 61);
      Exp61();
      MulMono(Product(ms, n - 1), Exp2(61 * (n - 1)), ms[n - 1]);
      MulMono(ms[n - 1], W64 / 8, Exp2(61 * (n - 1)));
      MulMono(1, Product(ms, n - 1), ms[n - 1]);
    } else {
      assert Exp2(0) == 1;
    }
  }

  /** What dec makes of the words V = b - a*s of a single modulus, whatever they are. */
  ghost predicate SingleDecoded(v: seq<nat>, V: seq<uint64>, t: NttTables, L: nat, A: nat) {
    && 0 < t.p < W64 / 8 && |v| == |V| == |t.invpolyTimesInvphis| == Exp2(L)
    && forall i :: 0 <= i < |v| ==> DecodedAs(v[i], RecoveredWords(V, t, L)[i], t.p, A)
  }

  ghost predicate DecodedAs(v: nat, z: int, p: int, A: nat) {
    0 <= z < p < W64 / 8 && v == DecodeWord(z, p, W64 / 8, A)
  }

  /** Decoding the residues of decodable coefficients gives them modulo 2^A. */
  lemma DecodedAll(c: seq<int>, x: seq<int>, v: seq<nat>, P: int, M: int, A: nat)
    requires 0 < P <= M && Cong(M, 0, Exp2(A)) && Decodable(c, P)
    requires |x| == |v| == |c| && (forall i :: 0 <= i < |c| ==> x[i] == c[i] % P)
    requires forall i :: 0 <= i < |c| ==> 0 <= x[i] < P && v[i] == DecodeWord(x[i], P, M, A)
    ensures v == Decoded(c, A)
  {
    hide DecodeWord, Exp2;
    forall i | 0 <= i < |c| ensures v[i] == c[i] % Exp2(A) { DecodeExact(c[i], P, M, A); }
  }
}
