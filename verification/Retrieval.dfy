/** Retrieval end to end with ring-LWE: encrypt the query, accumulate the reply, decrypt. */
module Retrieval {
  import opened Arith
  import opened Words
  import opened NttWords
  import opened Negacyclic
  import opened NflTables
  import opened Crt
  import opened NflLib
  import opened Flat
  import opened Sampling
  import opened LweSpec
  import opened Lwe
  import opened Selection
  import opened Replies
  import Scheme = NflLwe

  /** The database as the server holds it: transformed words, below twice each modulus, of
      elements with coefficients below 2^a. */
  ghost predicate Database(data: seq<seq<uint64>>, ds: seq<seq<int>>, a: nat, tables: seq<NttTables>, N: nat, L: nat) {
    && DataRepresents(data, ds, tables, N, L) && Elements(ds, a, N) && Sized(data, |tables| * N)
    && forall i :: 0 <= i < |data| ==> LazyWords(data[i], tables, N)
  }

  /** What the ciphertexts of a query hide: amplified noise es plus the messages sel. */
  datatype Hidden = Hidden(cs: seq<seq<int>>, es: seq<seq<int>>, sel: seq<seq<int>>)

  /** Key and parameters of the client, and the ring. */
  datatype Setting = Setting(key: seq<uint64>, keyShoup: seq<uint64>, T: nat, A: nat, Berr: nat,
                             tables: seq<NttTables>, N: nat, L: nat)

  ghost function SettingOf(lwe: Scheme.NflLwe): Setting
    reads lwe, lwe.nfl
  {
    Setting(lwe.secretKey, lwe.secretKeyShoup, lwe.T, lwe.absBits, lwe.noiseUB, lwe.nfl.tables, lwe.nfl.polyDegree,
            lwe.nfl.L)
  }

  /** The first i ciphertexts of a query for k, and what they hide. The build for Shoup replies
      has quotients too. */
  ghost predicate QueriesUpTo(q: Query, h: Hidden, k: nat, st: Setting, i: nat, shoup: bool) {
    && |h.cs| == i && SizedQuery(q, i, |st.tables| * st.N) && (shoup ==> ShoupQuery(q, i, st.tables, st.N))
    && QueriesHide(q.a, q.b, st.key, h.cs, st.tables, st.N, st.L)
    && NoisyQueries(h.cs, h.es, h.sel, st.T, st.Berr, st.N) && Selects(h.sel, k, st.N)
  }

  /** Element i of the query is encrypted with its own noise and under its own mask, drawn from rows i
      of the random words. */
  ghost predicate DrawnFrom(q: Query, h: Hidden, noise: seq<seq<uint64>>, masks: seq<seq<uint64>>, st: Setting,
                            i: nat) {
    && |q.a| == |h.es| == i <= |noise| && i <= |masks| && 1 <= st.Berr < W64 / 2
    && forall l :: 0 <= l < i ==>
         DrawnWords(q.a[l], masks[l], st.tables, st.N) && h.es[l] == NoisePoly(noise[l], 2 * st.Berr - 1)
  }

  lemma QueriesStart(k: nat, st: Setting, shoup: bool)
    requires st.Berr >= 1
    ensures QueriesUpTo(Query([], [], [], []), Hidden([], [], []), k, st, 0, shoup)
  {
  }

  function AddQuery(q: Query, a: seq<uint64>, b: seq<uint64>): Query {
    Query(q.a + [a], q.b + [b], q.aprime, q.bprime)
  }

  function AddQuotients(q: Query, aprime: seq<uint64>, bprime: seq<uint64>): Query {
    Query(q.a, q.b, q.aprime + [aprime], q.bprime + [bprime])
  }

  function AddHidden(h: Hidden, T: int, e: seq<int>, m: seq<int>): Hidden
    requires |e| == |m|
  {
    Hidden(h.cs + [Noisy(T, e, m)], h.es + [e], h.sel + [m])
  }

  lemma QueriesNext(q: Query, h: Hidden, k: nat, st: Setting, i: nat, a: seq<uint64>, b: seq<uint64>, e: seq<int>,
                    m: seq<int>)
    requires QueriesUpTo(q, h, k, st, i, false)
    requires |e| == |m| == st.N && Below(e, 2 * st.Berr - 1) && m == Constant(if i == k then 1 else 0, st.N)
    requires HidesAll(a, b, st.key, Noisy(st.T, e, m), st.tables, st.N, st.L)
    ensures QueriesUpTo(AddQuery(q, a, b), AddHidden(h, st.T, e, m), k, st, i + 1, false)
  {
    hide SegmentHides, ShoupWords, Noisy, Constant, Below;
  }

  lemma QuotientsNext(q: Query, i: nat, a: seq<uint64>, b: seq<uint64>, aprime: seq<uint64>, bprime: seq<uint64>,
                      tables: seq<NttTables>, N: nat)
    requires ShoupQuery(q, i, tables, N) && ShoupWords(a, aprime, tables, N) && ShoupWords(b, bprime, tables, N)
    ensures ShoupQuery(AddQuotients(AddQuery(q, a, b), aprime, bprime), i + 1, tables, N)
  {
    hide ReducedWords, ShoupQuotient, ModulusAt;
  }

  /** What the sum of data times such queries decodes to: element k. */
  lemma QuerySelects(data: seq<seq<uint64>>, ds: seq<seq<int>>, q: Query, h: Hidden, k: nat, st: Setting)
    requires st.N == Exp2(st.L) && |st.tables| >= 1 && k < |data|
    requires Database(data, ds, st.A, st.tables, st.N, st.L) && |ds| == |data|
    requires QueriesUpTo(q, h, k, st, |data|, false)
    requires Cong(st.T, 0, Exp2(st.A)) && st.T <= Exp2(st.A) && LargeModuli(ModuliOf(st.tables))
    requires Absorbs(st.A, |data|, st.Berr, st.N, 60 * |st.tables|)
    ensures |ds| == |h.cs| && (forall i :: 0 <= i < |ds| ==> |ds[i]| == |h.cs[i]| == st.N)
    ensures Decodable(SumProducts(ds, h.cs, st.N, |data|), Product(ModuliOf(st.tables), |st.tables|))
    ensures Decoded(SumProducts(ds, h.cs, st.N, |data|), st.A) == ds[k]
  {
    hide ShoupQuery, SizedQuery, SumProducts, HidesAll, Decodable, Decoded, Elements, Selects, LargeModuli, Absorbs,
      Product, RepresentsAll, Cong, Exp2, Sized, Noisy, Below, LazyWords;
    assert st.N >= 1 by { ExpPositive(st.L); }
    SelectionDecodes(ds, h.cs, h.es, h.sel, k, st.T, st.A, st.Berr, st.N, ModuliOf(st.tables));
  }

  /** The guard under which a reply hides the sum of data times query: lazy accumulation must
      not carry, and complete reductions need none. */
  ghost predicate Guarded(data: seq<seq<uint64>>, q: Query, st: Setting, shoup: bool) {
    shoup ==> CarryFree(data, q, st.tables, st.N, |data|)
  }

  /** Data and query have the words that the server needs. */
  ghost predicate Answerable(data: seq<seq<uint64>>, q: Query, st: Setting, shoup: bool) {
    && Positive(st.tables) && Sized(data, |st.tables| * st.N) && SizedQuery(q, |data|, |st.tables| * st.N)
    && (shoup ==> ShoupQuery(q, |data|, st.tables, st.N))
  }

  /** What the server computes: the halves a and b after all elements. */
  ghost function ReplyOf(data: seq<seq<uint64>>, q: Query, st: Setting, shoup: bool): (r: Cipher<uint64>)
    requires Answerable(data, q, st, shoup)
    ensures |r.a| == |r.b| == |st.tables| * st.N
  {
    if shoup then
      Cipher(Reply(data, q.a, q.aprime, st.tables, st.N, |data|), Reply(data, q.b, q.bprime, st.tables, st.N, |data|))
    else
      Cipher(PlainReply(data, q.a, st.tables, st.N, |data|), PlainReply(data, q.b, st.tables, st.N, |data|))
  }

  /** What decryption gets: the reply as it is, or with words of b that are not below 2p brought
      there. */
  ghost function Sent(data: seq<seq<uint64>>, q: Query, st: Setting, shoup: bool, reduce: bool): (r: Cipher<uint64>)
    requires Answerable(data, q, st, shoup)
    ensures |r.a| == |r.b| == |st.tables| * st.N
  {
    var r := ReplyOf(data, q, st, shoup);
    if reduce && !LazyWords(r.b, st.tables, st.N) then Cipher(r.a, ModWords(r.b, st.tables, st.N)) else r
  }

  /** Decryption loses nothing of what it gets. */
  ghost predicate Readable(data: seq<seq<uint64>>, q: Query, st: Setting, shoup: bool, reduce: bool) {
    && Answerable(data, q, st, shoup)
    && var r := Sent(data, q, st, shoup, reduce); PhaseInRange(r.a, r.b, st.key, st.keyShoup, st.tables, st.N, st.L)
  }

  lemma GuardedHides(data: seq<seq<uint64>>, ds: seq<seq<int>>, q: Query, h: Hidden, k: nat, st: Setting,
                     shoup: bool, reduce: bool)
    requires Rooted(st.tables, st.L) && st.N == Exp2(st.L) && |st.key| == |st.tables| * st.N
    requires Database(data, ds, st.A, st.tables, st.N, st.L) && |data| == |ds|
    requires QueriesUpTo(q, h, k, st, |data|, shoup) && Answerable(data, q, st, shoup) && Guarded(data, q, st, shoup)
    ensures |ds| == |h.cs| && (forall i :: 0 <= i < |ds| ==> |ds[i]| == |h.cs[i]| == st.N)
    ensures
      var r := Sent(data, q, st, shoup, reduce);
      HidesAll(r.a, r.b, st.key, SumProducts(ds, h.cs, st.N, |data|), st.tables, st.N, st.L)
  {
    hide Rooted, Reply, PlainReply, CarryFree, ShoupQuery, SizedQuery, SumProducts, HidesAll, Elements, Selects,
      RepresentsAll, Exp2, Sized, Noisy, Below, LazyWords, Positive, ModWords;
    if shoup {
      ReplyHides(data, ds, q, h.cs, st.key, st.tables, st.N, st.L, |data|);
    } else {
      PlainReplyHides(data, ds, q, h.cs, st.key, st.tables, st.N, st.L, |data|);
    }
    var r := ReplyOf(data, q, st, shoup);
    ReducedHides(r.a, r.b, st.key, SumProducts(ds, h.cs, st.N, |data|), st.tables, st.N, st.L);
  }

  /** Up to 25 elements the guard always holds. */
  lemma GuardHolds(data: seq<seq<uint64>>, ds: seq<seq<int>>, q: Query, st: Setting, shoup: bool)
    requires Database(data, ds, st.A, st.tables, st.N, st.L) && Answerable(data, q, st, shoup) && |data| <= 25
    ensures Guarded(data, q, st, shoup)
  {
    hide Reply, NoCarries, AllShoup, Elements, DataRepresents, LazyWords, Positive;
    if shoup {
      ShortReply(data, q.a, q.aprime, st.tables, st.N, |data|);
      ShortReply(data, q.b, q.bprime, st.tables, st.N, |data|);
    }
  }

  /** Replies with complete reductions, lazy ones of up to five elements and reduced ones are in
      the range of decryption. */
  lemma ReadableWhen(data: seq<seq<uint64>>, ds: seq<seq<int>>, q: Query, st: Setting, shoup: bool, reduce: bool)
    requires Database(data, ds, st.A, st.tables, st.N, st.L) && Answerable(data, q, st, shoup) && st.N == Exp2(st.L)
    requires ShoupWords(st.key, st.keyShoup, st.tables, st.N) && (reduce || !shoup || |data| <= 5)
    ensures Readable(data, q, st, shoup, reduce)
  {
    hide Reply, PlainReply, NoCarries, AllShoup, Elements, DataRepresents, LazyWords, Positive, ModWords,
      ReducedWords, PhaseInRange, Exp2;
    var r, t := ReplyOf(data, q, st, shoup), Sent(data, q, st, shoup, reduce);
    if !shoup {
      PlainLazy(data, q.b, st.tables, st.N, |data|);
    } else if |data| <= 5 {
      ShortReply(data, q.b, q.bprime, st.tables, st.N, |data|);
    }
    ModReduced(r.b, st.tables, st.N);
    ReducedLazy(ModWords(r.b, st.tables, st.N), st.tables, st.N);
    LazyInRange(t.a, t.b, st.key, st.keyShoup, st.tables, st.N, st.L);
  }

  lemma ExpPositive(L: nat)
    ensures Exp2(L) >= 1
  {
  }

  lemma TablesRooted(nfl: NflLib)
    requires nfl.Valid() && Positive(nfl.tables)
    ensures Rooted(nfl.tables, nfl.L) && nfl.polyDegree == Exp2(nfl.L)
    ensures nfl.moduliProduct == Product(ModuliOf(nfl.tables), |nfl.tables|)
  {
    hide NflTables.Configured, NegRoot, Exp2, Product;
    forall cm | 0 <= cm < |nfl.tables| ensures NegRoot(nfl.tables[cm].phi, nfl.L, nfl.tables[cm].p) {
      ConfiguredModulus(nfl.tables[cm], nfl.L);
    }
  }

  lemma BitFits(bit: nat, A: nat, N: nat, L: nat)
    requires bit <= 1 && A >= 1 && N == Exp2(L)
    ensures A * N >= 1 && bit % Exp2(A * N) == bit
  {
    MulMono(1, A, N);
    Exp2Monotone(1, A * N);
    assert Exp2(1) == 2;
    SmallMod(bit, Exp2(A * N));
  }

  lemma DatabaseShape(data: seq<seq<uint64>>, ds: seq<seq<int>>, a: nat, tables: seq<NttTables>, N: nat, L: nat, k: nat)
    requires Database(data, ds, a, tables, N, L) && k < |data|
    ensures |ds| == |data| && |ds[k]| == N && Below(ds[k], Exp2(a))
  {
    hide Below, RepresentsAll;
  }

  /** The client's query: encryptions of one at k and of zero elsewhere, each with its own random
      words, with their quotients in the build for Shoup replies. */
  method MakeQuery(lwe: Scheme.NflLwe, n: nat, k: nat, noise: seq<seq<uint64>>, masks: seq<seq<uint64>>, shoup: bool)
    returns (q: Query, ghost h: Hidden)
    requires lwe.Valid() && lwe.absBits >= 1 && n == |noise| == |masks|
    requires Sized(noise, lwe.nfl.polyDegree) && Sized(masks, |lwe.nfl.tables| * lwe.nfl.polyDegree)
    ensures SizedQuery(q, n, |lwe.nfl.tables| * lwe.nfl.polyDegree)
    ensures shoup ==> ShoupQuery(q, n, lwe.nfl.tables, lwe.nfl.polyDegree)
    ensures QueriesUpTo(q, h, k, SettingOf(lwe), n, shoup)
    ensures DrawnFrom(q, h, noise, masks, SettingOf(lwe), n)
  {
    hide DrawnWords, NflLib.Valid, QueriesUpTo, ShoupQuery, ShoupWords, ReducedWords, HidesAll, Noisy, NoisePoly,
      Amplifiers, Exp2, Cong, Constant, Below;
    var tables, N := lwe.nfl.tables, lwe.nfl.polyDegree;
    ghost var st := SettingOf(lwe);
    lwe.TablesPositive();
    TablesRooted(lwe.nfl);
    q, h := Query([], [], [], []), Hidden([], [], []);
    QueriesStart(k, st, false);
    EmptyQuery(tables, N);
    for i := 0 to n
      invariant QueriesUpTo(q, h, k, st, i, false) && (shoup ==> ShoupQuery(q, i, tables, N))
      invariant DrawnFrom(q, h, noise, masks, st, i)
    {
      var bit := if i == k then 1 else 0;
      var a, b := lwe.EncryptUint(bit, noise[i], masks[i], shoup);
      BitFits(bit, lwe.absBits, N, st.L);
      ghost var e := NoisePoly(noise[i], 2 * st.Berr - 1);
      QueriesNext(q, h, k, st, i, a[..], b[..], e, Constant(bit, N));
      h := AddHidden(h, st.T, e, Constant(bit, N));
      if shoup {
        var aprime := ShoupPoly(a[..], tables, N);
        var bprime := ShoupPoly(b[..], tables, N);
        QuotientsNext(q, i, a[..], b[..], aprime[..], bprime[..], tables, N);
        var q' := AddQuery(q, a[..], b[..]);
        q := AddQuotients(q', aprime[..], bprime[..]);
        QuotientsAside(q', q, h, k, st, i + 1);
      } else {
        q := AddQuery(q, a[..], b[..]);
      }
    }
    ShoupToo(q, h, k, st, n, shoup);
    QueryParts(q, h, k, st, n, shoup);
  }

  lemma EmptyQuery(tables: seq<NttTables>, N: nat)
    ensures ShoupQuery(Query([], [], [], []), 0, tables, N)
  {
  }

  /** What the server sends for one polynomial of every element, and what it hides: a polynomial
      that decodes to element k, for any number of elements under the guard, and always up to 25
      elements or with complete reductions. On request, words of b that are not below 2p are brought
      there; then decryption can read every reply. As the server is written it does not reduce, and
      decryption can read the replies to five elements, and longer ones for which its transform
      does not leave the word. */
  method Respond(lwe: Scheme.NflLwe, data: seq<seq<uint64>>, q: Query, shoup: bool, reduce: bool, ghost k: nat,
                 ghost ds: seq<seq<int>>, ghost h: Hidden)
    returns (ra: array<uint64>, rb: array<uint64>, ghost c: seq<int>)
    requires lwe.Valid() && LargeModuli(ModuliOf(lwe.nfl.tables)) && k < |data|
    requires Database(data, ds, lwe.absBits, lwe.nfl.tables, lwe.nfl.polyDegree, lwe.nfl.L)
    requires QueriesUpTo(q, h, k, SettingOf(lwe), |data|, shoup)
    requires Absorbs(lwe.absBits, |data|, lwe.noiseUB, lwe.nfl.polyDegree, 60 * |lwe.nfl.tables|)
    ensures k < |ds| && fresh(ra) && fresh(rb) && Answerable(data, q, SettingOf(lwe), shoup)
    ensures Cipher(ra[..], rb[..]) == Sent(data, q, SettingOf(lwe), shoup, reduce)
    ensures |data| <= 25 ==> Guarded(data, q, SettingOf(lwe), shoup)
    ensures reduce || !shoup || |data| <= 5 ==> Readable(data, q, SettingOf(lwe), shoup, reduce)
    ensures Guarded(data, q, SettingOf(lwe), shoup) ==>
      HidesAll(ra[..], rb[..], lwe.secretKey, c, lwe.nfl.tables, lwe.nfl.polyDegree, lwe.nfl.L)
    ensures Decodable(c, lwe.nfl.moduliProduct) && Decoded(c, lwe.absBits) == ds[k]
  {
    hide NflLib.Valid, QueriesUpTo, ShoupWords, HidesAll, Amplifiers, Absorbs, LargeModuli, Reply, PlainReply,
      SumProducts, Decodable, Decoded, LazyWords, Exp2, Cong, Positive, Rooted, Below, Elements, DataRepresents,
      ModWords, Guarded, PhaseInRange, ShoupQuery, SizedQuery, Readable;
    var tables, N := lwe.nfl.tables, lwe.nfl.polyDegree;
    ghost var st := SettingOf(lwe);
    lwe.TablesPositive();
    TablesRooted(lwe.nfl);
    DatabaseShape(data, ds, st.A, tables, N, st.L, k);
    Scheme.ShoupLengths(lwe.secretKey, lwe.secretKeyShoup, tables, N);
    QueryParts(q, h, k, st, |data|, shoup);
    QuerySelects(data, ds, q, h, k, st);
    c := SumProducts(ds, h.cs, N, |data|);
    ra, rb := Answer(data, q, shoup, tables, N, st);
    if |data| <= 25 { GuardHolds(data, ds, q, st, shoup); }
    if reduce || !shoup || |data| <= 5 { ReadableWhen(data, ds, q, st, shoup, reduce); }
    if Guarded(data, q, st, shoup) { GuardedHides(data, ds, q, h, k, st, shoup, reduce); }
    if reduce && !LazyWords(rb[..], tables, N) {
      ReduceWords(rb, tables, N);
    }
  }

  /** Query and reply for one polynomial of every element. */
  method Exchange(lwe: Scheme.NflLwe, data: seq<seq<uint64>>, k: nat, noise: seq<seq<uint64>>,
                  masks: seq<seq<uint64>>, shoup: bool, reduce: bool, ghost ds: seq<seq<int>>)
    returns (ra: array<uint64>, rb: array<uint64>, q: Query, ghost h: Hidden, ghost c: seq<int>)
    requires lwe.Valid() && LargeModuli(ModuliOf(lwe.nfl.tables)) && lwe.absBits >= 1
    requires k < |data| == |noise| == |masks|
    requires Sized(noise, lwe.nfl.polyDegree) && Sized(masks, |lwe.nfl.tables| * lwe.nfl.polyDegree)
    requires Database(data, ds, lwe.absBits, lwe.nfl.tables, lwe.nfl.polyDegree, lwe.nfl.L)
    requires Absorbs(lwe.absBits, |data|, lwe.noiseUB, lwe.nfl.polyDegree, 60 * |lwe.nfl.tables|)
    ensures k < |ds| && fresh(ra) && fresh(rb) && Answerable(data, q, SettingOf(lwe), shoup)
    ensures QueriesUpTo(q, h, k, SettingOf(lwe), |data|, shoup)
    ensures DrawnFrom(q, h, noise, masks, SettingOf(lwe), |data|)
    ensures Cipher(ra[..], rb[..]) == Sent(data, q, SettingOf(lwe), shoup, reduce)
    ensures |data| <= 25 ==> Guarded(data, q, SettingOf(lwe), shoup)
    ensures reduce || !shoup || |data| <= 5 ==> Readable(data, q, SettingOf(lwe), shoup, reduce)
    ensures Guarded(data, q, SettingOf(lwe), shoup) ==>
      HidesAll(ra[..], rb[..], lwe.secretKey, c, lwe.nfl.tables, lwe.nfl.polyDegree, lwe.nfl.L)
    ensures Decodable(c, lwe.nfl.moduliProduct) && Decoded(c, lwe.absBits) == ds[k]
  {
    hide NflLib.Valid, QueriesUpTo, ShoupWords, HidesAll, Amplifiers, Absorbs, LargeModuli, Decodable, Decoded,
      LazyWords, Exp2, Cong, Database, Guarded, Readable, Answerable, Sent, DrawnFrom;
    q, h := MakeQuery(lwe, |data|, k, noise, masks, shoup);
    ra, rb, c := Respond(lwe, data, q, shoup, reduce, k, ds, h);
  }

  /** Which accumulation the server runs is a matter of the build. */
  method Answer(data: seq<seq<uint64>>, q: Query, shoup: bool, tables: seq<NttTables>, N: nat, ghost st: Setting)
    returns (ra: array<uint64>, rb: array<uint64>)
    requires Answerable(data, q, st, shoup) && st.tables == tables && st.N == N
    ensures fresh(ra) && fresh(rb) && ra != rb && Cipher(ra[..], rb[..]) == ReplyOf(data, q, st, shoup)
  {
    hide Positive, Reply, PlainReply, AllShoup;
    if shoup {
      ra, rb := GenerateReply(data, q, tables, N);
    } else {
      ra, rb := GeneratePlainReply(data, q, tables, N);
    }
  }

  lemma QueryParts(q: Query, h: Hidden, k: nat, st: Setting, i: nat, shoup: bool)
    requires QueriesUpTo(q, h, k, st, i, shoup)
    ensures QueriesUpTo(q, h, k, st, i, false) && |h.cs| == i
    ensures SizedQuery(q, i, |st.tables| * st.N) && (shoup ==> ShoupQuery(q, i, st.tables, st.N))
  {
    hide QueriesHide, NoisyQueries, Selects, ShoupQuery, SizedQuery;
  }

  lemma ShoupToo(q: Query, h: Hidden, k: nat, st: Setting, i: nat, shoup: bool)
    requires QueriesUpTo(q, h, k, st, i, false) && (shoup ==> ShoupQuery(q, i, st.tables, st.N))
    ensures QueriesUpTo(q, h, k, st, i, shoup)
  {
    hide QueriesHide, NoisyQueries, Selects, ShoupQuery, SizedQuery;
  }

  /** The quotients play no part in what a query hides. */
  lemma QuotientsAside(q: Query, q': Query, h: Hidden, k: nat, st: Setting, i: nat)
    requires QueriesUpTo(q, h, k, st, i, false) && q'.a == q.a && q'.b == q.b
    ensures QueriesUpTo(q', h, k, st, i, false)
  {
    hide QueriesHide, NoisyQueries, Selects;
  }

  /** Decryption undoes encryption, for every key, noise and mask, as long as the amplified noise
      and the message stay below half of the modulus. */
  method EncryptThenDecrypt(lwe: Scheme.NflLwe, m: seq<uint64>, rndNoise: seq<uint64>, rndMask: seq<uint64>,
                            ghost mz: seq<int>)
    returns (out: seq<nat>)
    requires lwe.Valid() && |rndNoise| == lwe.nfl.polyDegree && |rndMask| == |lwe.nfl.tables| * lwe.nfl.polyDegree
    requires MessageWords(m, mz, lwe.nfl.tables, lwe.nfl.polyDegree) && Below(mz, Exp2(lwe.absBits))
    requires 2 * (lwe.T * (2 * lwe.noiseUB - 2) + (Exp2(lwe.absBits) - 1)) < lwe.nfl.moduliProduct
    ensures Decoded(mz, lwe.absBits) == mz
    ensures out == DecodedWords(Decoded(mz, lwe.absBits), |lwe.nfl.tables|, lwe.absBits)
  {
    hide NflLib.Valid, ShoupWords, HidesAll, Amplifiers, Decodable, Noisy, Decoded, Exp2, Cong, DecodedWords,
      ReducedWords, MessageWords;
    var tables, N := lwe.nfl.tables, lwe.nfl.polyDegree;
    ghost var A, T, Berr, L := lwe.absBits, lwe.T, lwe.noiseUB, lwe.nfl.L;
    MessageLength(m, mz, tables, N);
    ghost var e := NoisePoly(rndNoise, 2 * Berr - 1);
    DecodedSmall(mz, A);
    NoisyDecodes(T, e, mz, 2 * Berr - 2, Exp2(A) - 1, A, lwe.nfl.moduliProduct);
    var a, b := lwe.Enc(m, rndNoise, rndMask, true, mz);
    ReducedLazy(a[..], tables, N);
    ReducedLazy(b[..], tables, N);
    lwe.TablesPositive();
    TablesRooted(lwe.nfl);
    Scheme.ShoupLengths(lwe.secretKey, lwe.secretKeyShoup, tables, N);
    LazyInRange(a[..], b[..], lwe.secretKey, lwe.secretKeyShoup, tables, N, L);
    var scratch := new uint64[|tables| * N](_ => 0);
    ghost var v;
    out, v := lwe.Dec(scratch, a[..], b[..]);
  }

  lemma MessageLength(m: seq<uint64>, mz: seq<int>, tables: seq<NttTables>, N: nat)
    requires MessageWords(m, mz, tables, N)
    ensures |mz| == N
  {
  }

  lemma ReducedLazy(b: seq<uint64>, tables: seq<NttTables>, N: nat)
    requires ReducedWords(b, tables, N)
    ensures LazyWords(b, tables, N) && |b| == |tables| * N
  {
    hide ModulusAt;
  }
}
