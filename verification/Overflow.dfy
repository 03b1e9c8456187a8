/** Six elements whose reply decryption misreads: the words of the reply reach 2p, and the
    inverse transform loses 2^64. */
module Overflow {
  import opened Arith
  import opened BitOps
  import opened NttSpec
  import opened Words
  import opened Accumulation
  import opened NttWords
  import opened Ntt
  import opened Negacyclic
  import opened NflTables
  import opened NflLib
  import opened Flat
  import opened LweSpec
  import opened LweWords
  import opened Lwe
  import opened Replies
  import opened Retrieval
  import Scheme = NflLwe

  // ------------------------------------------------- the first word of a transform

  /** The first n words are y and then always x. */
  ghost predicate Level(s: seq<uint64>, n: nat, x: uint64, y: uint64) {
    0 < n <= |s| && s[0] == y && forall i :: 1 <= i < n ==> s[i] == x
  }

  /** What l layers of sums make of the first word. */
  function Summed(x: uint64, y: uint64, p: uint64, l: nat): uint64
    requires 0 < p < W64 / 4
    decreases l
  {
    if l == 0 then y else Summed(Sum2p(x, x, p), Sum2p(y, x, p), p, l - 1)
  }

  lemma LevelLayer(s: seq<uint64>, h: nat, W: int, p: uint64, x: uint64, y: uint64)
    requires h > 0 && 0 < p < W64 / 4 && Level(s, 2 * h, x, y)
    ensures Level(WordLayer(s, h, W, p), h, Sum2p(x, x, p), Sum2p(y, x, p))
  {
    hide WordLayer, Sum2p, Diff2p, Twiddled;
    var r := WordLayer(s, h, W, p);
    forall o: nat | o < h ensures r[o] == Sum2p(if o == 0 then y else x, x, p) {
      WordLayerAt(s, h, W, p, 0, o);
      assert (2 * h) * 0 + o == o;
    }
  }

  lemma {:induction false} FirstWord(s: seq<uint64>, l: nat, W: int, p: uint64, x: uint64, y: uint64)
    requires 0 < p < W64 / 4 && Level(s, Exp2(l), x, y)
    ensures WordLayers(s, l, W, p)[0] == Summed(x, y, p, l)
    decreases l
  {
    hide WordLayer, Sum2p;
    if l > 0 {
      LevelLayer(s, Exp2(l - 1), W, p, x, y);
      FirstWord(WordLayer(s, Exp2(l - 1), W, p), l - 1, (W * W) % p, p, Sum2p(x, x, p), Sum2p(y, x, p));
    }
  }

  lemma LevelReversed(v: seq<uint64>, L: nat, x: uint64, y: uint64)
    requires |v| == Exp2(L) && Level(v, |v|, x, y)
    ensures Level(ReversedWords(v, L), |v|, x, y) && Rev(0, L) == 0
  {
    RevZero(L);
    forall j: nat | 1 <= j < |v| ensures ReversedWords(v, L)[j] == x {
      RevInvolution(j, L);
    }
  }

  lemma {:induction false} RevZero(L: nat)
    ensures Rev(0, L) == 0
  {
    if L > 0 { RevZero(L - 1); }
  }

  /** Coefficient zero that comes back from such words. */
  lemma FirstRecovered(v: seq<uint64>, t: NttTables, L: nat, x: uint64, y: uint64, z: uint64)
    requires Configured(t, L) && |v| == Exp2(L) && Level(v, |v|, x, y)
    requires z < t.p && Cong(Exp2(L) * z, Summed(x, y, t.p, L), t.p)
    ensures |t.invpolyTimesInvphis| == |v| && RecoveredWords(v, t, L)[0] == z
  {
    hide Tables, Twists, Untwists, NegRoot, ShoupQuotient, WordLayers, Summed, Cong, Sum2p, Exp2, Rev;
    LevelReversed(v, L, x, y);
    FirstWord(ReversedWords(v, L), L, t.invomega, t.p, x, y);
    var tab: seq<int>, w: seq<int> := t.invpolyTimesInvphis, WordInverse(v, L, t.invomega, t.p);
    assert w[0] == Summed(x, y, t.p, L);
    ScaledModAt(w, tab, t.p, 0);
    UntwistFactor(t, L, 0);
    FirstScaled(tab[0], w[0], Exp2(L), z, t.p);
  }

  lemma FirstScaled(s: int, w: int, n: int, z: int, p: int)
    requires 0 <= z < p && Cong(n * z, w, p) && Cong(s * n, 1, p)
    ensures (w * s) % p == z
  {
    CongScale(n * z, w, s, p);
    CongScale(s * n, 1, z, p);
    assert s * (n * z) == (s * n) * z && 1 * z == z && w * s == s * w;
    SmallMod(z, p);
  }

  // -------------------------------------------------------------- the numbers

  const P: uint64 := 2305843009213317121

  /** The words of the reply: 32 words, all at or above 2p. */
  const HIGH: uint64 := 5187989970394770580

  /** Coefficient zero as it should come back, and as it does. */
  const RIGHT: uint64 := 1440995080423130258
  const WRONG: uint64 := 864534328119706770

  lemma SummedFive(x: uint64, y: uint64)
    ensures Summed(x, y, P, 5) ==
      var x1, y1 := Sum2p(x, x, P), Sum2p(y, x, P);
      var x2, y2 := Sum2p(x1, x1, P), Sum2p(y1, x1, P);
      var x3, y3 := Sum2p(x2, x2, P), Sum2p(y2, x2, P);
      var x4, y4 := Sum2p(x3, x3, P), Sum2p(y3, x3, P);
      Sum2p(y4, x4, P)
  {
    hide Sum2p;
    var x1, y1 := Sum2p(x, x, P), Sum2p(y, x, P);
    var x2, y2 := Sum2p(x1, x1, P), Sum2p(y1, x1, P);
    var x3, y3 := Sum2p(x2, x2, P), Sum2p(y2, x2, P);
    var x4, y4 := Sum2p(x3, x3, P), Sum2p(y3, x3, P);
    assert Summed(x, y, P, 5) == Summed(x1, y1, P, 4);
    assert Summed(x1, y1, P, 4) == Summed(x2, y2, P, 3);
    assert Summed(x2, y2, P, 3) == Summed(x3, y3, P, 2);
    assert Summed(x3, y3, P, 2) == Summed(x4, y4, P, 1);
  }

  /** The fifth sum carries out of 64 bits. */
  lemma HighSums()
    ensures Cong(32 * WRONG, Summed(HIGH, HIGH - 12, P, 5), P)
  {
    SummedFive(HIGH, HIGH - 12);
    assert Summed(HIGH, HIGH - 12, P, 5) == 4606668407697445430;
    CongByMultiple(32 * WRONG, 4606668407697445430, 10, P);
  }

  /** The sums of the same words modulo p do not. */
  lemma LowSums()
    ensures Cong(32 * RIGHT, Summed(HIGH - 2 * P, HIGH - 2 * P - 12, P, 5), P)
  {
    SummedFive(HIGH - 2 * P, HIGH - 2 * P - 12);
    assert Summed(HIGH - 2 * P, HIGH - 2 * P - 12, P, 5) == 4606668407700460078;
    CongByMultiple(32 * RIGHT, 4606668407700460078, 18, P);
  }

  lemma ThirtyTwo()
    ensures Exp2(5) == 32
  {
    Exp4();
    assert Exp2(5) == 2 * Exp2(4);
  }

  // ------------------------------------------------------ what the words stand for

  /** The representative of x modulo p that is closest to zero. */
  function Centered(x: int, p: int): (r: int)
    requires p > 0
  {
    if 2 * (x % p) < p then x % p else x % p - p
  }

  lemma CenteredCong(x: int, p: int)
    requires p > 0 && p % 2 == 1
    ensures Cong(x, Centered(x, p), p) && -p < 2 * Centered(x, p) < p
  {
    CongMod(x, p);
    CongByMultiple(x % p - p, x % p, -1, p);
  }

  /** Any words represent a polynomial with coefficients closer to zero than p/2. */
  lemma DecodableExists(v: seq<int>, t: NttTables, L: nat) returns (c: seq<int>)
    requires Configured(t, L) && |v| == Exp2(L) && t.p % 2 == 1
    ensures Represents(v, c, t.phi, L, t.p) && Decodable(c, t.p)
    ensures forall i :: 0 <= i < |c| ==> c[i] == Centered(c[i], t.p)
  {
    hide Configured, Represents, Cong, Exp2, Interpolated, Centered;
    ConfiguredModulus(t, L);
    InterpolatedRepresents(v, t, L);
    var d := Interpolated(v, t, L);
    var p: int := t.p;
    c := seq(|d|, i requires 0 <= i < |d| => Centered(d[i], p));
    forall i | 0 <= i < |d| ensures Cong(d[i], c[i], p) && -p < 2 * c[i] < p && c[i] == Centered(c[i], p) {
      CenteredCong(d[i], p);
      CenteredTwice(d[i], p);
    }
    RepresentsCong(v, d, c, t.phi, L, t.p);
  }

  lemma CenteredTwice(x: int, p: int)
    requires p > 0
    ensures Centered(Centered(x, p), p) == Centered(x, p)
  {
    CongMod(x, p);
    CongByMultiple(x % p - p, x % p, -1, p);
  }

  /** The words HIGH, one of them slightly less, stand for a polynomial that starts with RIGHT and
      come back as one that starts with WRONG. */
  lemma WordsMisread(v: seq<uint64>, t: NttTables) returns (c: seq<int>)
    requires Configured(t, 5) && t.p == P && |v| == 32 && Level(v, 32, HIGH, HIGH - 12)
    ensures |t.invpolyTimesInvphis| == 32 == Exp2(5) && RecoveredWords(v, t, 5)[0] == WRONG
    ensures |c| == 32 && Represents(v, c, t.phi, 5, P) && Decodable(c, P) && c[0] == RIGHT - P
  {
    hide Configured, Represents, Cong, Exp2, Summed, RecoveredWords, Steady, Decodable;
    ThirtyTwo();
    HighSums();
    FirstRecovered(v, t, 5, HIGH, HIGH - 12, WRONG);
    c := DecodableExists(v, t, 5);
    var u: seq<uint64> := seq(32, i requires 0 <= i < 32 => v[i] - 2 * P);
    var vi: seq<int>, ui: seq<int> := v, u;
    forall i | 0 <= i < 32 ensures Cong(ui[i], vi[i], P) { CongByMultiple(ui[i], vi[i], -2, P); }
    RepresentsWords(v, u, c, t.phi, 5, P);
    BelowSteady(u, 5, t.invomega, P);
    SteadyRecovers(u, t, 5);
    LowSums();
    FirstRecovered(u, t, 5, HIGH - 2 * P, HIGH - 2 * P - 12, RIGHT);
    RepresentsLength(v, c, t.phi, 5, P);
    assert c[0] % P == RIGHT;
    assert c[0] == Centered(c[0], P);
  }

  /** Masked to at least one bit, the two differ. */
  lemma DecodesDiffer(A: nat)
    requires A >= 1
    ensures DecodeWord(WRONG, P, W64 / 8, A) % 2 == 0 && LowOrder(RIGHT - P, A) % 2 == 1
  {
    hide And;
    AndMask(WRONG, A);
    LowBit(WRONG, A);
    LowBit(RIGHT - P, A);
  }

  lemma LowBit(x: int, A: nat)
    requires A >= 1
    ensures (x % Exp2(A)) % 2 == x % 2
  {
    EvenRemainder(x, Exp2(A - 1));
  }

  lemma EvenRemainder(x: int, h: int)
    requires h > 0
    ensures (x % (2 * h)) % 2 == x % 2
  {
    DivModEq(x, 2 * h);
    var m, q := h * (x / (2 * h)), x % (2 * h);
    assert x == 2 * m + q;
  }

  // ------------------------------------------------------------- the six elements

  /** Words below 2p of six elements, the same at all 32 positions. */
  function SixElements(): seq<seq<uint64>> {
    seq(6, i => seq(32, _ => if i == 0 then 1 else 4611686018426622967))
  }

  function BodyWord(i: int, j: int): uint64 {
    if i > 0 then 15696095992655355 else if j == 0 then P - 13 else P - 1
  }

  /** Words below p of six ciphertexts with a = 0. */
  function SixBodies(): seq<seq<uint64>> {
    seq(6, i => seq(32, j => BodyWord(i, j)))
  }

  function BodyQuotient(i: int, j: int): uint64 {
    QuotientRange(BodyWord(i, j), P);
    ShoupQuotient(BodyWord(i, j), P)
  }

  function SixQueries(): Query {
    var zeros := seq(6, _ => seq(32, _ => 0));
    Query(zeros, SixBodies(), zeros, seq(6, i => seq(32, j => BodyQuotient(i, j))))
  }

  /** The modulus that is used whenever there is only one, in degree 32. */
  ghost predicate FirstModulus(st: Setting) {
    |st.tables| == 1 && st.tables[0].p == P && st.N == 32 && st.L == 5 && Configured(st.tables[0], 5)
  }

  lemma OneModulus(tables: seq<NttTables>, j: nat)
    requires |tables| == 1 && j < 32
    ensures ModulusAt(tables, 32, j) == tables[0].p
  {
  }

  lemma SixAnswerable(st: Setting)
    requires FirstModulus(st)
    ensures Answerable(SixElements(), SixQueries(), st, true)
    ensures forall i :: 0 <= i < 6 ==> LazyWords(SixElements()[i], st.tables, 32)
  {
    hide Configured, ModulusAt, ShoupQuotient;
    var data, q := SixElements(), SixQueries();
    forall j: nat | j < 32 ensures ModulusAt(st.tables, 32, j) == P { OneModulus(st.tables, j); }
    QuotientRange(0, P);
    assert ShoupQuotient(0, P) == 0 by { Scheme.QuotientOfZero(P); }
    forall i | 0 <= i < 6
      ensures ShoupWords(q.a[i], q.aprime[i], st.tables, 32) && ShoupWords(q.b[i], q.bprime[i], st.tables, 32)
      ensures LazyWords(data[i], st.tables, 32)
    {
    }
  }

  lemma {:induction false} ZeroChain(xs: seq<uint64>, ys: seq<uint64>, p: uint64, n: nat)
    requires n <= |xs| == |ys| && p > 0 && forall i :: 0 <= i < |ys| ==> ys[i] == 0
    ensures Chain(0, xs, ys, p, n) == 0
  {
    if n > 0 {
      ZeroChain(xs, ys, p, n - 1);
      Scheme.QuotientOfZero(p);
    }
  }

  /** The reply: nothing in the half a, and words at or above 2p in the half b. */
  lemma SixReply(st: Setting)
    requires FirstModulus(st) && Answerable(SixElements(), SixQueries(), st, true)
    ensures
      var r := ReplyOf(SixElements(), SixQueries(), st, true);
      |r.a| == |r.b| == 32 && Level(r.a, 32, 0, 0) && Level(r.b, 32, HIGH, HIGH - 12)
  {
    hide Configured, Reply, Chain, AllShoup, ModulusAt;
    var data, q := SixElements(), SixQueries();
    var r := ReplyOf(data, q, st, true);
    forall j: nat | j < 32 ensures r.a[j] == 0 && r.b[j] == if j == 0 then HIGH - 12 else HIGH {
      OneModulus(st.tables, j);
      ReplyWord(data, q.a, q.aprime, st.tables, 32, 6, j);
      ReplyWord(data, q.b, q.bprime, st.tables, 32, 6, j);
      var xs := WordsAt(data, 32, j);
      ZeroChain(xs, WordsAt(q.a, 32, j), P, 6);
      RampChain(xs, WordsAt(q.b, 32, j), 6, if j == 0 then 12 else 0, 6);
    }
  }

  lemma PhaseOfZero(b: uint64, s: uint64, sprime: uint64, p: uint64)
    requires 0 < p && b + p < W64
    ensures PhaseWord(0, b, s, sprime, p) == b
  {
    assert Lazy(0, s, sprime, p) == 0;
  }

  /** Where a is zero, decryption transforms the words of b. */
  lemma PhaseIsBody(a: seq<uint64>, b: seq<uint64>, st: Setting)
    requires FirstModulus(st) && Positive(st.tables) && |a| == |b| == |st.key| == |st.keyShoup| == 32
    requires Level(a, 32, 0, 0) && Level(b, 32, HIGH, HIGH - 12)
    ensures PhasedWords(a, b, st.key, st.keyShoup, st.tables, 32) == b
  {
    hide Configured, PhaseWord;
    forall j: nat | j < 32 ensures PhaseWord(a[j], b[j], st.key[j], st.keyShoup[j], P) == b[j] {
      PhaseOfZero(b[j], st.key[j], st.keyShoup[j], P);
    }
  }

  /** And what b represents is what the ciphertext hides. */
  lemma BodyHides(a: seq<uint64>, b: seq<uint64>, c: seq<int>, st: Setting)
    requires FirstModulus(st) && |a| == |b| == |st.key| == 32 && Level(a, 32, 0, 0)
    requires Represents(b, c, st.tables[0].phi, 5, P)
    ensures HidesAll(a, b, st.key, c, st.tables, 32, 5)
  {
    hide Configured, Represents;
    var w: seq<int>, y: seq<int> := PhaseWords(a, b, st.key), b;
    assert w == y;
    assert Segment(a, 0, 32) == a && Segment(b, 0, 32) == b && Segment(st.key, 0, 32) == st.key;
  }

  /** Six elements, none of whose accumulations carries, and a reply that hides a decodable
      polynomial: decryption still returns another one. */
  lemma SixElementsMisread(st: Setting) returns (c: seq<int>)
    requires FirstModulus(st) && ShoupWords(st.key, st.keyShoup, st.tables, 32) && st.A >= 1
    ensures Answerable(SixElements(), SixQueries(), st, true) && Guarded(SixElements(), SixQueries(), st, true)
    ensures |c| == 32 && Decodable(c, P)
    ensures
      var r := Sent(SixElements(), SixQueries(), st, true, false);
      HidesAll(r.a, r.b, st.key, c, st.tables, 32, 5)
    ensures
      var r := Sent(SixElements(), SixQueries(), st, true, false);
      forall v :: Scheme.DecodesSingle(v, r.a, r.b, st.key, st.keyShoup, st.tables, 32, 5, st.A) ==>
        |v| == 32 && v[0] % 2 != Decoded(c, st.A)[0] % 2
  {
    hide Configured, ShoupWords, Represents, Decodable, HidesAll, SixElements, SixQueries, RecoveredWords, Level,
      ReplyOf, DecodeWord, NoCarries, PhasedWords, LowOrder;
    SixAnswerable(st);
    SixGuarded(st);
    SixReply(st);
    ShoupWordsLength(st.key, st.keyShoup, st.tables, 32);
    var r, t := ReplyOf(SixElements(), SixQueries(), st, true), st.tables[0];
    c := WordsMisread(r.b, t);
    BodyHides(r.a, r.b, c, st);
    PhaseIsBody(r.a, r.b, st);
    DecodesDiffer(st.A);
  }

  lemma SixGuarded(st: Setting)
    requires FirstModulus(st) && Answerable(SixElements(), SixQueries(), st, true)
    requires forall i :: 0 <= i < 6 ==> LazyWords(SixElements()[i], st.tables, 32)
    ensures Guarded(SixElements(), SixQueries(), st, true)
  {
    hide Configured, LazyWords, Reply, NoCarries, AllShoup, Positive;
    var data, q := SixElements(), SixQueries();
    ShortReply(data, q.a, q.aprime, st.tables, 32, 6);
    ShortReply(data, q.b, q.bprime, st.tables, 32, 6);
  }

  /** The same, as server and client run it, whatever the key: the reply to the six elements and
      its decryption. */
  method Misread(lwe: Scheme.NflLwe) returns (ra: array<uint64>, rb: array<uint64>, out: seq<nat>, ghost c: seq<int>)
    requires lwe.Valid() && lwe.absBits >= 1 && FirstModulus(SettingOf(lwe))
    ensures Answerable(SixElements(), SixQueries(), SettingOf(lwe), true)
    ensures Cipher(ra[..], rb[..]) == ReplyOf(SixElements(), SixQueries(), SettingOf(lwe), true)
    ensures HidesAll(ra[..], rb[..], lwe.secretKey, c, lwe.nfl.tables, lwe.nfl.polyDegree, lwe.nfl.L)
    ensures |c| == 32 && Decodable(c, lwe.nfl.moduliProduct)
    ensures |out| == 32 && out[0] % 2 != Decoded(c, lwe.absBits)[0] % 2
  {
    hide NflLib.Valid, NflTables.Configured, ShoupWords, Amplifiers, Cong, Exp2, HidesAll, Decodable, SixElements,
      SixQueries, ReplyOf, Answerable, Guarded, Scheme.DecodesSingle, PhaseInRange, Decoded, Positive;
    ghost var st := SettingOf(lwe);
    lwe.TablesPositive();
    lwe.ModuliRange();
    c := SixElementsMisread(st);
    ra, rb := Answer(SixElements(), SixQueries(), true, lwe.nfl.tables, 32, st);
    var scratch := new uint64[32](_ => 0);
    ghost var v;
    out, v := lwe.Dec(scratch, ra[..], rb[..]);
  }
}
