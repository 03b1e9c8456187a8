/** The server's reply: for each database element, data times query is accumulated into one
    ciphertext, without complete reductions. */
module Replies {
  import opened Arith
  import opened Polynomials
  import opened Words
  import opened Accumulation
  import opened Negacyclic
  import opened NflTables
  import opened NflLib
  import opened Flat
  import opened LweSpec
  import opened LweWords
  import opened Lwe

  ghost predicate Sized(vs: seq<seq<uint64>>, len: nat) {
    forall i :: 0 <= i < |vs| ==> |vs[i]| == len
  }

  /** The ciphertexts of a query, half by half, and the quotients that Shoup replies use. */
  datatype Query = Query(a: seq<seq<uint64>>, b: seq<seq<uint64>>, aprime: seq<seq<uint64>>, bprime: seq<seq<uint64>>)

  ghost predicate SizedQuery(q: Query, n: nat, len: nat) {
    |q.a| == |q.b| == n && Sized(q.a, len) && Sized(q.b, len)
  }

  ghost predicate ShoupQuery(q: Query, n: nat, tables: seq<NttTables>, N: nat) {
    && |q.a| == |q.b| == |q.aprime| == |q.bprime| == n
    && AllShoup(q.a, q.aprime, tables, N) && AllShoup(q.b, q.bprime, tables, N)
    && Sized(q.a, |tables| * N) && Sized(q.aprime, |tables| * N)
    && Sized(q.b, |tables| * N) && Sized(q.bprime, |tables| * N)
  }

  /** One half of the reply after n elements. */
  ghost function Reply(data: seq<seq<uint64>>, q: seq<seq<uint64>>, qprime: seq<seq<uint64>>,
                       tables: seq<NttTables>, N: nat, n: nat): (r: seq<uint64>)
    requires Positive(tables) && n <= |data| && n <= |q| && n <= |qprime|
    requires Sized(data, |tables| * N) && Sized(q, |tables| * N) && Sized(qprime, |tables| * N)
    ensures |r| == |tables| * N
  {
    if n == 0 then seq(|tables| * N, _ => 0)
    else AccumulatedWords(Reply(data, q, qprime, tables, N, n - 1), data[n - 1], q[n - 1], qprime[n - 1], tables, N)
  }

  /** Word j of every vector. */
  function WordsAt(vs: seq<seq<uint64>>, len: nat, j: nat): (r: seq<uint64>)
    requires Sized(vs, len) && j < len
    ensures |r| == |vs|
  {
    seq(|vs|, i requires 0 <= i < |vs| => vs[i][j])
  }

  ghost predicate AllShoup(q: seq<seq<uint64>>, qprime: seq<seq<uint64>>, tables: seq<NttTables>, N: nat) {
    |q| == |qprime| && forall i :: 0 <= i < |q| ==> ShoupWords(q[i], qprime[i], tables, N)
  }

  lemma AllShoupSized(q: seq<seq<uint64>>, qprime: seq<seq<uint64>>, tables: seq<NttTables>, N: nat)
    requires AllShoup(q, qprime, tables, N)
    ensures Sized(q, |tables| * N) && Sized(qprime, |tables| * N)
    ensures forall j: nat :: j < |tables| * N ==> Reduced(WordsAt(q, |tables| * N, j), ModulusAt(tables, N, j))
  {
    hide ModulusAt, ShoupQuotient;
    forall i | 0 <= i < |q|
      ensures |q[i]| == |tables| * N && |qprime[i]| == |tables| * N && ReducedWords(q[i], tables, N)
    {
      assert ShoupWords(q[i], qprime[i], tables, N);
    }
  }

  /** Word j of the reply is the accumulation chain of the words j. */
  lemma {:induction false} ReplyWord(data: seq<seq<uint64>>, q: seq<seq<uint64>>, qprime: seq<seq<uint64>>,
                                     tables: seq<NttTables>, N: nat, n: nat, j: nat)
    requires Positive(tables) && n <= |data| == |q| && Sized(data, |tables| * N) && AllShoup(q, qprime, tables, N)
    requires j < |tables| * N
    ensures Sized(q, |tables| * N) && Sized(qprime, |tables| * N) && ModulusAt(tables, N, j) > 0
    ensures Reduced(WordsAt(q, |tables| * N, j), ModulusAt(tables, N, j))
    ensures Reply(data, q, qprime, tables, N, n)[j]
      == Chain(0, WordsAt(data, |tables| * N, j), WordsAt(q, |tables| * N, j), ModulusAt(tables, N, j), n)
  {
    hide ModulusAt, ShoupQuotient, MulAndAddShoup;
    AllShoupSized(q, qprime, tables, N);
    if n > 0 {
      ReplyWord(data, q, qprime, tables, N, n - 1, j);
      assert ShoupWords(q[n - 1], qprime[n - 1], tables, N);
    }
  }

  /** No step of any word of the first n elements carries out of 64 bits. */
  ghost predicate NoCarries(data: seq<seq<uint64>>, q: seq<seq<uint64>>, tables: seq<NttTables>, N: nat, n: nat)
    requires n <= |data| == |q| && Sized(data, |tables| * N) && Sized(q, |tables| * N)
  {
    forall j: nat :: j < |tables| * N ==>
      WordSafe(WordsAt(data, |tables| * N, j), WordsAt(q, |tables| * N, j), ModulusAt(tables, N, j), n)
  }

  ghost predicate WordSafe(xs: seq<uint64>, ys: seq<uint64>, p: uint64, n: nat)
    requires n <= |xs| == |ys|
  {
    p > 0 && Reduced(ys, p) && Carries(0, xs, ys, p, n) == 0
  }

  /** Nothing carries in either half of the reply to q: the guard of the accumulation. */
  ghost predicate CarryFree(data: seq<seq<uint64>>, q: Query, tables: seq<NttTables>, N: nat, n: nat) {
    && n <= |data| == |q.a| == |q.b|
    && Sized(data, |tables| * N) && Sized(q.a, |tables| * N) && Sized(q.b, |tables| * N)
    && NoCarries(data, q.a, tables, N, n) && NoCarries(data, q.b, tables, N, n)
  }

  ghost predicate WordExact(r: uint64, xs: seq<uint64>, ys: seq<uint64>, p: uint64, n: nat)
    requires n <= |xs| == |ys|
  {
    p > 0 && Cong(r, Dot(xs, ys, n), p)
  }

  /** The guard is exact: a reply of fewer elements than any modulus is right in every word if
      and only if no step carries. */
  lemma ReplyExactIff(data: seq<seq<uint64>>, q: seq<seq<uint64>>, qprime: seq<seq<uint64>>,
                      tables: seq<NttTables>, N: nat, n: nat)
    requires Positive(tables) && n <= |data| == |q| == |qprime| && AllShoup(q, qprime, tables, N)
    requires Sized(data, |tables| * N) && Sized(q, |tables| * N) && Sized(qprime, |tables| * N)
    requires forall cm :: 0 <= cm < |tables| ==> tables[cm].p % 2 == 1 && n < tables[cm].p
    ensures NoCarries(data, q, tables, N, n) <==>
      forall j: nat :: j < |tables| * N ==>
        WordExact(Reply(data, q, qprime, tables, N, n)[j], WordsAt(data, |tables| * N, j), WordsAt(q, |tables| * N, j),
                  ModulusAt(tables, N, j), n)
  {
    hide Reply, AllShoup, Chain, Carries, Dot, Cong, WordsAt;
    forall j: nat | j < |tables| * N
      ensures WordSafe(WordsAt(data, |tables| * N, j), WordsAt(q, |tables| * N, j), ModulusAt(tables, N, j), n) <==>
        WordExact(Reply(data, q, qprime, tables, N, n)[j], WordsAt(data, |tables| * N, j), WordsAt(q, |tables| * N, j),
                  ModulusAt(tables, N, j), n)
    {
      ReplyWord(data, q, qprime, tables, N, n, j);
      ChainExact(0, WordsAt(data, |tables| * N, j), WordsAt(q, |tables| * N, j), ModulusAt(tables, N, j), n);
    }
  }

  /** Transformed words of one integer polynomial, for every modulus. */
  ghost predicate RepresentsAll(x: seq<uint64>, d: seq<int>, tables: seq<NttTables>, N: nat, L: nat) {
    |x| == |tables| * N && forall cm: nat :: cm < |tables| ==> SegmentRepresents(x, d, tables[cm], cm, N, L)
  }

  ghost predicate SegmentRepresents(x: seq<uint64>, d: seq<int>, t: NttTables, cm: nat, N: nat, L: nat) {
    t.p > 0 && cm * N + N <= |x| && Represents(Segment(x, cm, N), d, t.phi, L, t.p)
  }

  // ------------------------------------------------------- what a reply hides

  lemma {:induction false} FewerSafe(xs: seq<uint64>, ys: seq<uint64>, p: uint64, n: nat)
    requires 0 < n <= |xs| == |ys| && WordSafe(xs, ys, p, n)
    ensures WordSafe(xs, ys, p, n - 1) && NoCarry(Chain(0, xs, ys, p, n - 1), xs[n - 1], ys[n - 1], p)
  {
    hide NoCarry;
    ChainUnfold(0, xs, ys, p, n);
  }

  lemma FewerCarries(data: seq<seq<uint64>>, q: seq<seq<uint64>>, tables: seq<NttTables>, N: nat, n: nat)
    requires 0 < n <= |data| == |q| && Sized(data, |tables| * N) && Sized(q, |tables| * N)
    requires NoCarries(data, q, tables, N, n)
    ensures NoCarries(data, q, tables, N, n - 1)
  {
    hide WordSafe, ModulusAt;
    forall j: nat | j < |tables| * N
      ensures WordSafe(WordsAt(data, |tables| * N, j), WordsAt(q, |tables| * N, j), ModulusAt(tables, N, j), n - 1)
    {
      FewerSafe(WordsAt(data, |tables| * N, j), WordsAt(q, |tables| * N, j), ModulusAt(tables, N, j), n);
    }
  }

  ghost predicate StepCong(r': int, r: int, x: int, y: int, p: int) {
    p > 0 && Cong(r', r + x * y, p)
  }

  /** The last accumulation step of one word, when nothing carries. */
  lemma LastStep(data: seq<seq<uint64>>, q: seq<seq<uint64>>, qprime: seq<seq<uint64>>,
                 tables: seq<NttTables>, N: nat, n: nat, j: nat)
    requires Positive(tables) && 0 < n <= |data| == |q| && Sized(data, |tables| * N) && AllShoup(q, qprime, tables, N)
    requires |q| == |qprime| && Sized(q, |tables| * N) && Sized(qprime, |tables| * N)
    requires NoCarries(data, q, tables, N, n) && j < |tables| * N
    ensures ModulusAt(tables, N, j) > 0
    ensures StepCong(Reply(data, q, qprime, tables, N, n)[j], Reply(data, q, qprime, tables, N, n - 1)[j],
                     data[n - 1][j], q[n - 1][j], ModulusAt(tables, N, j))
  {
    hide ModulusAt, ShoupQuotient, MulAndAddShoup, NoCarry, Reply, Cong;
    var p := ModulusAt(tables, N, j);
    var xs, ys := WordsAt(data, |tables| * N, j), WordsAt(q, |tables| * N, j);
    assert WordSafe(xs, ys, p, n);
    FewerSafe(xs, ys, p, n);
    ReplyWord(data, q, qprime, tables, N, n, j);
    ReplyWord(data, q, qprime, tables, N, n - 1, j);
    ChainUnfold(0, xs, ys, p, n);
    MulAndAddShoupGrowth(Chain(0, xs, ys, p, n - 1), xs[n - 1], ys[n - 1], p);
  }

  ghost predicate QueriesHide(qa: seq<seq<uint64>>, qb: seq<seq<uint64>>, s: seq<uint64>, cs: seq<seq<int>>,
                              tables: seq<NttTables>, N: nat, L: nat) {
    |qa| == |qb| == |cs| && forall i :: 0 <= i < |cs| ==> |cs[i]| == N && HidesAll(qa[i], qb[i], s, cs[i], tables, N, L)
  }

  ghost predicate DataRepresents(data: seq<seq<uint64>>, ds: seq<seq<int>>, tables: seq<NttTables>, N: nat, L: nat) {
    |data| == |ds| && forall i :: 0 <= i < |ds| ==> |ds[i]| == N && RepresentsAll(data[i], ds[i], tables, N, L)
  }

  lemma LastSegment(data: seq<seq<uint64>>, q: seq<seq<uint64>>, qprime: seq<seq<uint64>>,
                    tables: seq<NttTables>, N: nat, n: nat, cm: nat)
    requires Positive(tables) && 0 < n <= |data| == |q| && Sized(data, |tables| * N) && AllShoup(q, qprime, tables, N)
    requires |q| == |qprime| && Sized(q, |tables| * N) && Sized(qprime, |tables| * N)
    requires NoCarries(data, q, tables, N, n) && cm < |tables|
    ensures cm * N + N <= |tables| * N && tables[cm].p > 0
    ensures Stepped(Segment(Reply(data, q, qprime, tables, N, n), cm, N),
                    Segment(Reply(data, q, qprime, tables, N, n - 1), cm, N),
                    Segment(data[n - 1], cm, N), Segment(q[n - 1], cm, N), tables[cm].p)
  {
    hide ModulusAt, Reply, NoCarries, AllShoup, Cong;
    RowOf(tables, N, cm);
    var r', r := Reply(data, q, qprime, tables, N, n), Reply(data, q, qprime, tables, N, n - 1);
    var u', u, x, y := Segment(r', cm, N), Segment(r, cm, N), Segment(data[n - 1], cm, N), Segment(q[n - 1], cm, N);
    forall i | 0 <= i < N ensures StepCong(u'[i], u[i], x[i], y[i], tables[cm].p) {
      LastStep(data, q, qprime, tables, N, n, cm * N + i);
    }
  }

  ghost predicate Rooted(tables: seq<NttTables>, L: nat) {
    Positive(tables) && forall cm :: 0 <= cm < |tables| ==> NegRoot(tables[cm].phi, L, tables[cm].p)
  }

  lemma ReplyStep(data: seq<seq<uint64>>, ds: seq<seq<int>>, q: Query, cs: seq<seq<int>>, s: seq<uint64>, c: seq<int>,
                  tables: seq<NttTables>, N: nat, L: nat, n: nat, cm: nat)
    requires Rooted(tables, L) && 0 < n <= |data| && Sized(data, |tables| * N) && cm < |tables|
    requires ShoupQuery(q, |data|, tables, N) && CarryFree(data, q, tables, N, n) && |c| == N
    requires QueriesHide(q.a, q.b, s, cs, tables, N, L) && DataRepresents(data, ds, tables, N, L)
    requires SegmentHides(Reply(data, q.a, q.aprime, tables, N, n - 1), Reply(data, q.b, q.bprime, tables, N, n - 1),
                          s, c, tables[cm], cm, N, L)
    ensures SegmentHides(Reply(data, q.a, q.aprime, tables, N, n), Reply(data, q.b, q.bprime, tables, N, n), s,
                         Plus(c, NegMul(ds[n - 1], cs[n - 1])), tables[cm], cm, N, L)
  {
    hide Hides, Represents, NegMul, Plus, Cong, Reply, NoCarries, AllShoup, NegRoot, Stepped;
    LastSegment(data, q.a, q.aprime, tables, N, n, cm);
    LastSegment(data, q.b, q.bprime, tables, N, n, cm);
    assert HidesAll(q.a[n - 1], q.b[n - 1], s, cs[n - 1], tables, N, L);
    assert RepresentsAll(data[n - 1], ds[n - 1], tables, N, L);
    StepHides(Cipher(Reply(data, q.a, q.aprime, tables, N, n - 1), Reply(data, q.b, q.bprime, tables, N, n - 1)),
              Cipher(Reply(data, q.a, q.aprime, tables, N, n), Reply(data, q.b, q.bprime, tables, N, n)),
              data[n - 1], Cipher(q.a[n - 1], q.b[n - 1]), s, c, ds[n - 1], cs[n - 1], tables[cm], cm, N, L);
  }

  /** One more element, however the step was computed. */
  lemma StepHides(r: Cipher<uint64>, r': Cipher<uint64>, x: seq<uint64>, q: Cipher<uint64>, s: seq<uint64>,
                  c: seq<int>, d: seq<int>, m: seq<int>, t: NttTables, cm: nat, N: nat, L: nat)
    requires t.p > 0 && NegRoot(t.phi, L, t.p) && cm * N + N <= |r.a| == |r.b| == |r'.a| == |r'.b| == |x|
    requires SegmentHides(r.a, r.b, s, c, t, cm, N, L) && SegmentHides(q.a, q.b, s, m, t, cm, N, L)
    requires SegmentRepresents(x, d, t, cm, N, L)
    requires Stepped(Segment(r'.a, cm, N), Segment(r.a, cm, N), Segment(x, cm, N), Segment(q.a, cm, N), t.p)
    requires Stepped(Segment(r'.b, cm, N), Segment(r.b, cm, N), Segment(x, cm, N), Segment(q.b, cm, N), t.p)
    ensures |c| == |d| == |m| && SegmentHides(r'.a, r'.b, s, Plus(c, NegMul(d, m)), t, cm, N, L)
  {
    hide Hides, Represents, NegMul, Plus, Cong, NegRoot, Stepped;
    AccumulateHides(Cipher(Segment(r.a, cm, N), Segment(r.b, cm, N)),
                    Cipher(Segment(r'.a, cm, N), Segment(r'.b, cm, N)),
                    Segment(x, cm, N), Cipher(Segment(q.a, cm, N), Segment(q.b, cm, N)), Segment(s, cm, N),
                    c, d, m, t.phi, L, t.p);
  }

  lemma ZeroSegment(tables: seq<NttTables>, s: seq<uint64>, cm: nat, N: nat, L: nat)
    requires Positive(tables) && cm < |tables| && |s| == |tables| * N && N == Exp2(L)
    ensures SegmentHides(seq(|tables| * N, _ => 0), seq(|tables| * N, _ => 0), s, Constant(0, N), tables[cm], cm, N, L)
  {
    hide Represents;
    var z: seq<uint64> := seq(|tables| * N, _ => 0);
    MulMono(cm + 1, |tables|, N);
    var w := PhaseWords(Segment(z, cm, N), Segment(z, cm, N), Segment(s, cm, N));
    RepresentsZero(w, tables[cm].phi, L, tables[cm].p);
  }

  /** A reply in which nothing carries hides the sum of the products of data and queries. */
  lemma {:induction false} ReplyHides(data: seq<seq<uint64>>, ds: seq<seq<int>>, q: Query, cs: seq<seq<int>>,
                                      s: seq<uint64>, tables: seq<NttTables>, N: nat, L: nat, n: nat)
    requires Rooted(tables, L) && N == Exp2(L) && n <= |data| && Sized(data, |tables| * N) && |s| == |tables| * N
    requires ShoupQuery(q, |data|, tables, N) && CarryFree(data, q, tables, N, n)
    requires QueriesHide(q.a, q.b, s, cs, tables, N, L) && DataRepresents(data, ds, tables, N, L)
    ensures HidesAll(Reply(data, q.a, q.aprime, tables, N, n), Reply(data, q.b, q.bprime, tables, N, n), s,
                     SumProducts(ds, cs, N, n), tables, N, L)
  {
    hide NegMul, Plus, NoCarries, AllShoup, SegmentHides, NegRoot, Exp2, AccumulatedWords;
    forall cm: nat | cm < |tables|
      ensures SegmentHides(Reply(data, q.a, q.aprime, tables, N, n), Reply(data, q.b, q.bprime, tables, N, n), s,
                           SumProducts(ds, cs, N, n), tables[cm], cm, N, L)
    {
      if n == 0 {
        ZeroSegment(tables, s, cm, N, L);
      } else {
        FewerCarries(data, q.a, tables, N, n);
        FewerCarries(data, q.b, tables, N, n);
        ReplyHides(data, ds, q, cs, s, tables, N, L, n - 1);
        ReplyStep(data, ds, q, cs, s, SumProducts(ds, cs, N, n - 1), tables, N, L, n, cm);
      }
    }
  }

  /** The accumulation loop of the reply generator, for one polynomial of the reply. */
  method GenerateReply(data: seq<seq<uint64>>, q: Query, tables: seq<NttTables>, N: nat)
    returns (a: array<uint64>, b: array<uint64>)
    requires Positive(tables) && |data| == |q.a| == |q.b| == |q.aprime| == |q.bprime|
    requires Sized(data, |tables| * N) && Sized(q.a, |tables| * N) && Sized(q.b, |tables| * N)
    requires Sized(q.aprime, |tables| * N) && Sized(q.bprime, |tables| * N)
    ensures fresh(a) && fresh(b) && a != b
    ensures a[..] == Reply(data, q.a, q.aprime, tables, N, |data|)
    ensures b[..] == Reply(data, q.b, q.bprime, tables, N, |data|)
  {
    hide AccumulatedWords;
    a := new uint64[|tables| * N](_ => 0);
    b := new uint64[|tables| * N](_ => 0);
    for i := 0 to |data|
      invariant a[..] == Reply(data, q.a, q.aprime, tables, N, i)
      invariant b[..] == Reply(data, q.b, q.bprime, tables, N, i)
    {
      MulAndAdd(a, b, data[i], q.a[i], q.b[i], q.aprime[i], q.bprime[i], tables, N);
    }
  }

  /** Up to 25 elements below twice the modulus never carry, and up to five leave words below
      twice the modulus. */
  lemma ShortReply(data: seq<seq<uint64>>, q: seq<seq<uint64>>, qprime: seq<seq<uint64>>,
                   tables: seq<NttTables>, N: nat, n: nat)
    requires Positive(tables) && n <= |data| == |q| == |qprime| && AllShoup(q, qprime, tables, N)
    requires Sized(q, |tables| * N) && Sized(qprime, |tables| * N) && Sized(data, |tables| * N)
    requires forall i :: 0 <= i < |data| ==> LazyWords(data[i], tables, N)
    ensures n <= 25 ==> NoCarries(data, q, tables, N, n)
    ensures n <= 5 ==> LazyWords(Reply(data, q, qprime, tables, N, n), tables, N)
  {
    hide ModulusAt, Reply, AllShoup, Chain, Carries;
    if n <= 25 {
      forall j: nat | j < |tables| * N
        ensures WordSafe(WordsAt(data, |tables| * N, j), WordsAt(q, |tables| * N, j), ModulusAt(tables, N, j), n)
        ensures n <= 5 ==> Reply(data, q, qprime, tables, N, n)[j] < 2 * ModulusAt(tables, N, j)
      {
        ReplyWord(data, q, qprime, tables, N, n, j);
        var p := ModulusAt(tables, N, j);
        forall i | 0 <= i < |data| ensures data[i][j] < 2 * p { assert LazyWords(data[i], tables, N); }
        ZeroChainBound(WordsAt(data, |tables| * N, j), WordsAt(q, |tables| * N, j), p, n);
      }
    }
  }

  // ----------------------------------------------------- bringing b below 2p

  lemma ReducedPhase(b: int, a: int, s: int, p: int)
    requires p > 0
    ensures Cong(b % p - a * s, b - a * s, p)
  {
    CongMod(b, p);
    CongSub(b % p, b, a * s, a * s, p);
  }

  lemma ModSegment(a: seq<uint64>, b: seq<uint64>, s: seq<uint64>, c: seq<int>, tables: seq<NttTables>, cm: nat,
                   N: nat, L: nat)
    requires Positive(tables) && cm < |tables| && |a| == |b| == |s| == |tables| * N
    requires SegmentHides(a, b, s, c, tables[cm], cm, N, L)
    ensures SegmentHides(a, ModWords(b, tables, N), s, c, tables[cm], cm, N, L)
  {
    hide Represents, ModWords, Cong;
    var p, off := tables[cm].p, cm * N;
    var b' := ModWords(b, tables, N);
    ModRows(b, tables, N, cm);
    var v := PhaseWords(Segment(a, cm, N), Segment(b, cm, N), Segment(s, cm, N));
    var w := PhaseWords(Segment(a, cm, N), Segment(b', cm, N), Segment(s, cm, N));
    forall i | 0 <= i < N ensures Cong(w[i], v[i], p) {
      ReducedPhase(b[off + i], a[off + i], s[off + i], p);
    }
    RepresentsWords(v, w, c, tables[cm].phi, L, p);
  }

  /** Reducing the words of b does not change what the ciphertext hides. */
  lemma ReducedHides(a: seq<uint64>, b: seq<uint64>, s: seq<uint64>, c: seq<int>, tables: seq<NttTables>, N: nat,
                     L: nat)
    requires Positive(tables) && HidesAll(a, b, s, c, tables, N, L)
    ensures HidesAll(a, ModWords(b, tables, N), s, c, tables, N, L)
  {
    hide SegmentHides, ModWords;
    forall cm: nat | cm < |tables| ensures SegmentHides(a, ModWords(b, tables, N), s, c, tables[cm], cm, N, L) {
      ModSegment(a, b, s, c, tables, cm, N, L);
    }
  }

  // ------------------------------------------- replies with complete reductions

  /** One half of the reply after n elements, when every step reduces completely. */
  ghost function PlainReply(data: seq<seq<uint64>>, q: seq<seq<uint64>>, tables: seq<NttTables>, N: nat,
                            n: nat): (r: seq<uint64>)
    requires Positive(tables) && n <= |data| && n <= |q| && Sized(data, |tables| * N) && Sized(q, |tables| * N)
    ensures |r| == |tables| * N
  {
    if n == 0 then seq(|tables| * N, _ => 0)
    else PlainWords(PlainReply(data, q, tables, N, n - 1), data[n - 1], q[n - 1], tables, N)
  }

  method GeneratePlainReply(data: seq<seq<uint64>>, q: Query, tables: seq<NttTables>, N: nat)
    returns (a: array<uint64>, b: array<uint64>)
    requires Positive(tables) && Sized(data, |tables| * N) && SizedQuery(q, |data|, |tables| * N)
    ensures fresh(a) && fresh(b) && a != b
    ensures a[..] == PlainReply(data, q.a, tables, N, |data|) && b[..] == PlainReply(data, q.b, tables, N, |data|)
  {
    hide PlainWords;
    a := new uint64[|tables| * N](_ => 0);
    b := new uint64[|tables| * N](_ => 0);
    for i := 0 to |data|
      invariant a[..] == PlainReply(data, q.a, tables, N, i) && b[..] == PlainReply(data, q.b, tables, N, i)
    {
      MulAndAddPolyNTT(a, data[i], q.a[i], tables, N);
      MulAndAddPolyNTT(b, data[i], q.b[i], tables, N);
    }
  }

  lemma PlainSegment(data: seq<seq<uint64>>, q: seq<seq<uint64>>, tables: seq<NttTables>, N: nat, n: nat, cm: nat)
    requires Positive(tables) && 0 < n <= |data| == |q| && Sized(data, |tables| * N) && Sized(q, |tables| * N)
    requires cm < |tables|
    ensures cm * N + N <= |tables| * N && tables[cm].p > 0
    ensures Stepped(Segment(PlainReply(data, q, tables, N, n), cm, N),
                    Segment(PlainReply(data, q, tables, N, n - 1), cm, N),
                    Segment(data[n - 1], cm, N), Segment(q[n - 1], cm, N), tables[cm].p)
  {
    hide ModulusAt, PlainWords, PlainWord, Cong;
    RowOf(tables, N, cm);
    var r', r := PlainReply(data, q, tables, N, n), PlainReply(data, q, tables, N, n - 1);
    PlainRows(r, data[n - 1], q[n - 1], tables, N, cm);
    PlainStepped(r', r, data[n - 1], q[n - 1], tables[cm].p, cm, N);
  }

  lemma PlainStepped(r': seq<uint64>, r: seq<uint64>, x: seq<uint64>, y: seq<uint64>, p: uint64, cm: nat, N: nat)
    requires PlainRow(r', r, x, y, p, cm * N, N)
    ensures Stepped(Segment(r', cm, N), Segment(r, cm, N), Segment(x, cm, N), Segment(y, cm, N), p)
  {
    hide Cong;
    var off := cm * N;
    var u': seq<int>, u: seq<int> := Segment(r', cm, N), Segment(r, cm, N);
    var v: seq<int>, w: seq<int> := Segment(x, cm, N), Segment(y, cm, N);
    forall i | 0 <= i < N ensures Cong(u'[i], u[i] + v[i] * w[i], p) {
      assert u'[i] == PlainWord(r[off + i], x[off + i], y[off + i], p);
    }
  }

  /** With complete reductions, every reply hides the sum of the products. */
  lemma {:induction false} PlainReplyHides(data: seq<seq<uint64>>, ds: seq<seq<int>>, q: Query, cs: seq<seq<int>>,
                                           s: seq<uint64>, tables: seq<NttTables>, N: nat, L: nat, n: nat)
    requires Rooted(tables, L) && N == Exp2(L) && n <= |data| && Sized(data, |tables| * N) && |s| == |tables| * N
    requires SizedQuery(q, |data|, |tables| * N)
    requires QueriesHide(q.a, q.b, s, cs, tables, N, L) && DataRepresents(data, ds, tables, N, L)
    ensures HidesAll(PlainReply(data, q.a, tables, N, n), PlainReply(data, q.b, tables, N, n), s,
                     SumProducts(ds, cs, N, n), tables, N, L)
  {
    hide NegMul, Plus, SegmentHides, NegRoot, Exp2, PlainWords, Stepped;
    forall cm: nat | cm < |tables|
      ensures SegmentHides(PlainReply(data, q.a, tables, N, n), PlainReply(data, q.b, tables, N, n), s,
                           SumProducts(ds, cs, N, n), tables[cm], cm, N, L)
    {
      if n == 0 {
        ZeroSegment(tables, s, cm, N, L);
      } else {
        PlainReplyHides(data, ds, q, cs, s, tables, N, L, n - 1);
        PlainReplyStep(data, ds, q, cs, s, SumProducts(ds, cs, N, n - 1), tables, N, L, n, cm);
      }
    }
  }

  lemma PlainReplyStep(data: seq<seq<uint64>>, ds: seq<seq<int>>, q: Query, cs: seq<seq<int>>, s: seq<uint64>,
                       c: seq<int>, tables: seq<NttTables>, N: nat, L: nat, n: nat, cm: nat)
    requires Rooted(tables, L) && 0 < n <= |data| && Sized(data, |tables| * N) && cm < |tables| && |c| == N
    requires SizedQuery(q, |data|, |tables| * N)
    requires QueriesHide(q.a, q.b, s, cs, tables, N, L) && DataRepresents(data, ds, tables, N, L)
    requires SegmentHides(PlainReply(data, q.a, tables, N, n - 1), PlainReply(data, q.b, tables, N, n - 1), s, c,
                          tables[cm], cm, N, L)
    ensures SegmentHides(PlainReply(data, q.a, tables, N, n), PlainReply(data, q.b, tables, N, n), s,
                         Plus(c, NegMul(ds[n - 1], cs[n - 1])), tables[cm], cm, N, L)
  {
    hide Hides, Represents, NegMul, Plus, Cong, PlainReply, NegRoot, Stepped;
    PlainSegment(data, q.a, tables, N, n, cm);
    PlainSegment(data, q.b, tables, N, n, cm);
    assert HidesAll(q.a[n - 1], q.b[n - 1], s, cs[n - 1], tables, N, L);
    assert RepresentsAll(data[n - 1], ds[n - 1], tables, N, L);
    StepHides(Cipher(PlainReply(data, q.a, tables, N, n - 1), PlainReply(data, q.b, tables, N, n - 1)),
              Cipher(PlainReply(data, q.a, tables, N, n), PlainReply(data, q.b, tables, N, n)),
              data[n - 1], Cipher(q.a[n - 1], q.b[n - 1]), s, c, ds[n - 1], cs[n - 1], tables[cm], cm, N, L);
  }

  lemma PlainLazy(data: seq<seq<uint64>>, q: seq<seq<uint64>>, tables: seq<NttTables>, N: nat, n: nat)
    requires Positive(tables) && n <= |data| == |q| && Sized(data, |tables| * N) && Sized(q, |tables| * N)
    ensures LazyWords(PlainReply(data, q, tables, N, n), tables, N)
  {
    hide ModulusAt, PlainWord;
    if n == 0 { PositiveModuli(tables, N); }
  }

  lemma PositiveModuli(tables: seq<NttTables>, N: nat)
    requires Positive(tables)
    ensures forall j: nat :: j < |tables| * N ==> ModulusAt(tables, N, j) > 0
  {
  }
}
