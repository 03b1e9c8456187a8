/** What encryption, decryption and accumulation do to each 64-bit word, and the loops that do
    it to all words of all moduli. */
module LweWords {
  import opened Arith
  import opened Words
  import opened NflTables
  import opened Flat

  // ---------------------------------------------------------- single words

  /** Noise times amplifier, plus message, as enc computes it before the transform. */
  function AmplifiedWord(e: uint64, m: uint64, T: uint64, Tprime: uint64, p: uint64): (r: uint64)
    requires p > 0
  {
    var u := AddMod(MulModShoup(e, T, Tprime, p), m, p);
    if u > p then u - p else u
  }

  lemma AmplifiedExact(e: uint64, m: uint64, T: uint64, p: uint64)
    requires T < p < W64 / 2 && m + p <= W64
    ensures Cong(AmplifiedWord(e, m, T, ShoupQuotient(T, p), p), T * e + m, p)
  {
    hide ShoupQuotient, MulModShoup, AddMod;
    MulModShoupExact(e, T, p);
    CongMod(e * T, p);
    var v := MulModShoup(e, T, ShoupQuotient(T, p), p);
    AddModExact(v, m, p);
    CongAdd(v, T * e, m, m, p);
    CongByMultiple(AddMod(v, m, p) - p, AddMod(v, m, p), -1, p);
  }

  /** The reduction at the end of enc, which only the build for Shoup replies has. */
  function Settled(x: uint64, p: uint64, shoup: bool): (r: uint64)
    requires p > 0
    ensures Cong(r, x, p) && (shoup ==> r < p)
  {
    CongMod(x, p);
    if shoup then x % p else x
  }

  /** b + a*s, the last step of enc. */
  function MaskedWord(b: uint64, a: uint64, s: uint64, sprime: uint64, p: uint64, shoup: bool): (r: uint64)
    requires p > 0
    ensures shoup ==> r < p
  {
    Settled(MulAndAddShoup(b, a, s, sprime, p), p, shoup)
  }

  lemma MaskedExact(b: uint64, a: uint64, s: uint64, p: uint64, shoup: bool)
    requires b < 2 * p && s < p < W64 / 8
    ensures Cong(MaskedWord(b, a, s, ShoupQuotient(s, p), p, shoup), b + a * s, p)
  {
    hide ShoupQuotient, MulAndAddShoup, Settled;
    LazyRange(a, s, p);
    MulAndAddShoupGrowth(b, a, s, p);
  }

  /** b - a*s below 2p, the first step of dec. */
  function PhaseWord(a: uint64, b: uint64, s: uint64, sprime: uint64, p: uint64): (r: uint64)
    requires p > 0
  {
    SubMod(b, MulAndAddShoup(0, a, s, sprime, p), p)
  }

  lemma PhaseExact(a: uint64, b: uint64, s: uint64, p: uint64)
    requires b + p < W64 && s < p < W64 / 8
    ensures Cong(PhaseWord(a, b, s, ShoupQuotient(s, p), p), b - a * s, p)
    ensures b < 2 * p ==> PhaseWord(a, b, s, ShoupQuotient(s, p), p) < 2 * p
  {
    hide ShoupQuotient, MulAndAddShoup, SubMod;
    LazyRange(a, s, p);
    MulAndAddShoupGrowth(0, a, s, p);
    var t := MulAndAddShoup(0, a, s, ShoupQuotient(s, p), p);
    SubModExact(b, t, p);
    CongSub(b, b, t, a * s, p);
  }

  // -------------------------------------------------------------- all words

  function AmplifiedWords(e: seq<uint64>, m: seq<uint64>, T: seq<uint64>, Tprime: seq<uint64>, tables: seq<NttTables>,
                          N: nat)
    : (r: seq<uint64>)
    requires Positive(tables) && |T| == |Tprime| == |tables| && |e| == |m| == |tables| * N
    ensures |r| == |e|
  {
    seq(|e|, j requires 0 <= j < |e| => IndexFits(j, |tables|, N);
      AmplifiedWord(e[j], m[j], T[j / N], Tprime[j / N], ModulusAt(tables, N, j)))
  }

  /** The words off..off+N of target are those that modulus p gives. */
  ghost predicate AmplifiedRow(target: seq<uint64>, e: seq<uint64>, m: seq<uint64>, T: uint64, Tprime: uint64,
                               p: uint64, off: nat, N: nat) {
    p > 0 && off + N <= |target| == |e| == |m|
    && forall j :: off <= j < off + N ==> target[j] == AmplifiedWord(e[j], m[j], T, Tprime, p)
  }

  lemma AmplifiedRows(e: seq<uint64>, m: seq<uint64>, T: seq<uint64>, Tprime: seq<uint64>, tables: seq<NttTables>,
                      N: nat, cm: nat)
    requires Positive(tables) && |T| == |Tprime| == |tables| && |e| == |m| == |tables| * N && cm < |tables|
    ensures AmplifiedRow(AmplifiedWords(e, m, T, Tprime, tables, N), e, m, T[cm], Tprime[cm], tables[cm].p, cm * N, N)
  {
    hide AmplifiedWord;
    RowOf(tables, N, cm);
  }

  method AmplifyRow(b: array<uint64>, m: seq<uint64>, T: uint64, Tprime: uint64, p: uint64, off: nat, N: nat,
                    ghost target: seq<uint64>, ghost X: seq<uint64>)
    requires b.Length == |X| && AmplifiedRow(target, X, m, T, Tprime, p, off, N) && b[..] == Blend(target, X, off)
    modifies b
    ensures b[..] == Blend(target, X, off + N)
  {
    hide MulModShoup, AddMod, Blend;
    for i := 0 to N
      invariant b[..] == Blend(target, X, off + i)
    {
      var j := off + i;
      BlendStep(target, X, j);
      var u := AddMod(MulModShoup(b[j], T, Tprime, p), m[j], p);
      if u > p { u := u - p; }
      b[j] := u;
      assert b[..] == Blend(target, X, j)[j := target[j]];
    }
  }

  /** The first loop of enc, on noise that is already in b. */
  method Amplify(b: array<uint64>, m: seq<uint64>, T: seq<uint64>, Tprime: seq<uint64>, tables: seq<NttTables>, N: nat)
    requires Positive(tables) && |T| == |Tprime| == |tables| && b.Length == |m| == |tables| * N
    modifies b
    ensures b[..] == AmplifiedWords(old(b[..]), m, T, Tprime, tables, N)
  {
    hide AmplifiedWords, AmplifiedRow, Blend;
    ghost var X := b[..];
    ghost var target := AmplifiedWords(X, m, T, Tprime, tables, N);
    BlendEnds(target, X);
    var off := 0;
    for cm := 0 to |tables|
      invariant off == cm * N <= b.Length && b[..] == Blend(target, X, off)
    {
      MulMono(cm + 1, |tables|, N);
      AmplifiedRows(X, m, T, Tprime, tables, N, cm);
      AmplifyRow(b, m, T[cm], Tprime[cm], tables[cm].p, off, N, target, X);
      off := off + N;
    }
  }

  function SettledWords(a: seq<uint64>, tables: seq<NttTables>, N: nat, shoup: bool): (r: seq<uint64>)
    requires Positive(tables) && |a| == |tables| * N
    ensures |r| == |a|
  {
    seq(|a|, j requires 0 <= j < |a| => Settled(a[j], ModulusAt(tables, N, j), shoup))
  }

  function MaskedWords(b: seq<uint64>, a: seq<uint64>, s: seq<uint64>, sprime: seq<uint64>,
                       tables: seq<NttTables>, N: nat, shoup: bool): (r: seq<uint64>)
    requires Positive(tables) && |a| == |b| == |s| == |sprime| == |tables| * N
    ensures |r| == |b|
  {
    seq(|b|, j requires 0 <= j < |b| => MaskedWord(b[j], a[j], s[j], sprime[j], ModulusAt(tables, N, j), shoup))
  }

  ghost predicate MaskedRow(ta: seq<uint64>, tb: seq<uint64>, a: seq<uint64>, b: seq<uint64>, s: seq<uint64>,
                            sprime: seq<uint64>, p: uint64, off: nat, N: nat, shoup: bool) {
    && p > 0 && off + N <= |ta| == |tb| == |a| == |b| == |s| == |sprime|
    && (forall j :: off <= j < off + N ==> tb[j] == MaskedWord(b[j], a[j], s[j], sprime[j], p, shoup))
    && forall j :: off <= j < off + N ==> ta[j] == Settled(a[j], p, shoup)
  }

  lemma MaskedRows(b: seq<uint64>, a: seq<uint64>, s: seq<uint64>, sprime: seq<uint64>,
                   tables: seq<NttTables>, N: nat, cm: nat, shoup: bool)
    requires Positive(tables) && |a| == |b| == |s| == |sprime| == |tables| * N && cm < |tables|
    ensures MaskedRow(SettledWords(a, tables, N, shoup), MaskedWords(b, a, s, sprime, tables, N, shoup), a, b, s,
                      sprime, tables[cm].p, cm * N, N, shoup)
  {
    hide MaskedWord, Settled;
    RowOf(tables, N, cm);
  }

  method AddMaskRow(a: array<uint64>, b: array<uint64>, s: seq<uint64>, sprime: seq<uint64>, p: uint64,
                    off: nat, N: nat, shoup: bool,
                    ghost ta: seq<uint64>, ghost tb: seq<uint64>, ghost X: seq<uint64>, ghost Y: seq<uint64>)
    requires a != b && off <= a.Length == b.Length == |X| == |Y| && MaskedRow(ta, tb, X, Y, s, sprime, p, off, N, shoup)
    requires a[..] == Blend(ta, X, off) && b[..] == Blend(tb, Y, off)
    modifies a, b
    ensures a[..] == Blend(ta, X, off + N) && b[..] == Blend(tb, Y, off + N)
  {
    hide MulAndAddShoup, Blend;
    for i := 0 to N
      invariant a[..] == Blend(ta, X, off + i) && b[..] == Blend(tb, Y, off + i)
    {
      var j := off + i;
      BlendStep(ta, X, j);
      BlendStep(tb, Y, j);
      b[j] := MulAndAddShoup(b[j], a[j], s[j], sprime[j], p);
      if shoup {
        a[j] := a[j] % p;
        b[j] := b[j] % p;
      }
      assert a[..] == Blend(ta, X, j)[j := ta[j]];
      assert b[..] == Blend(tb, Y, j)[j := tb[j]];
    }
  }

  /** The second loop of enc: b becomes b + a*s, and with Shoup replies both are reduced. */
  method AddMask(a: array<uint64>, b: array<uint64>, s: seq<uint64>, sprime: seq<uint64>,
                 tables: seq<NttTables>, N: nat, shoup: bool)
    requires Positive(tables) && a != b && a.Length == b.Length == |s| == |sprime| == |tables| * N
    modifies a, b
    ensures b[..] == MaskedWords(old(b[..]), old(a[..]), s, sprime, tables, N, shoup)
    ensures a[..] == SettledWords(old(a[..]), tables, N, shoup)
  {
    hide MaskedWords, SettledWords, MaskedRow, Blend;
    ghost var X, Y := a[..], b[..];
    ghost var ta, tb := SettledWords(X, tables, N, shoup), MaskedWords(Y, X, s, sprime, tables, N, shoup);
    BlendEnds(ta, X);
    BlendEnds(tb, Y);
    var off := 0;
    for cm := 0 to |tables|
      invariant off == cm * N <= b.Length && a[..] == Blend(ta, X, off) && b[..] == Blend(tb, Y, off)
    {
      MulMono(cm + 1, |tables|, N);
      MaskedRows(Y, X, s, sprime, tables, N, cm, shoup);
      AddMaskRow(a, b, s, sprime, tables[cm].p, off, N, shoup, ta, tb, X, Y);
      off := off + N;
    }
  }

  function PhasedWords(a: seq<uint64>, b: seq<uint64>, s: seq<uint64>, sprime: seq<uint64>, tables: seq<NttTables>,
                       N: nat)
    : (r: seq<uint64>)
    requires Positive(tables) && |a| == |b| == |s| == |sprime| == |tables| * N
    ensures |r| == |b|
  {
    seq(|b|, j requires 0 <= j < |b| => PhaseWord(a[j], b[j], s[j], sprime[j], ModulusAt(tables, N, j)))
  }

  ghost predicate PhasedRow(target: seq<uint64>, a: seq<uint64>, b: seq<uint64>, s: seq<uint64>, sprime: seq<uint64>,
                            p: uint64, off: nat, N: nat) {
    && p > 0 && off + N <= |target| == |a| == |b| == |s| == |sprime|
    && forall j :: off <= j < off + N ==> target[j] == PhaseWord(a[j], b[j], s[j], sprime[j], p)
  }

  lemma PhasedRows(a: seq<uint64>, b: seq<uint64>, s: seq<uint64>, sprime: seq<uint64>, tables: seq<NttTables>,
                   N: nat, cm: nat)
    requires Positive(tables) && |a| == |b| == |s| == |sprime| == |tables| * N && cm < |tables|
    ensures PhasedRow(PhasedWords(a, b, s, sprime, tables, N), a, b, s, sprime, tables[cm].p, cm * N, N)
  {
    hide PhaseWord;
    RowOf(tables, N, cm);
  }

  method PhaseRow(m: array<uint64>, a: seq<uint64>, b: seq<uint64>, s: seq<uint64>, sprime: seq<uint64>, p: uint64,
                  off: nat, N: nat, ghost target: seq<uint64>, ghost X: seq<uint64>)
    requires m.Length == |X| == |a| && PhasedRow(target, a, b, s, sprime, p, off, N) && m[..] == Blend(target, X, off)
    modifies m
    ensures m[..] == Blend(target, X, off + N)
  {
    hide MulAndAddShoup, SubMod, Blend;
    for i := 0 to N
      invariant m[..] == Blend(target, X, off + i)
    {
      var j := off + i;
      BlendStep(target, X, j);
      var temp := MulAndAddShoup(0, a[j], s[j], sprime[j], p);
      m[j] := SubMod(b[j], temp, p);
      assert m[..] == Blend(target, X, j)[j := target[j]];
    }
  }

  /** The first loop of dec. */
  method Phase(m: array<uint64>, a: seq<uint64>, b: seq<uint64>, s: seq<uint64>, sprime: seq<uint64>,
               tables: seq<NttTables>, N: nat)
    requires Positive(tables) && m.Length == |a| == |b| == |s| == |sprime| == |tables| * N
    modifies m
    ensures m[..] == PhasedWords(a, b, s, sprime, tables, N)
  {
    hide PhasedWords, PhasedRow, Blend;
    ghost var X, target := m[..], PhasedWords(a, b, s, sprime, tables, N);
    BlendEnds(target, X);
    var off := 0;
    for cm := 0 to |tables|
      invariant off == cm * N <= m.Length && m[..] == Blend(target, X, off)
    {
      MulMono(cm + 1, |tables|, N);
      PhasedRows(a, b, s, sprime, tables, N, cm);
      PhaseRow(m, a, b, s, sprime, tables[cm].p, off, N, target, X);
      off := off + N;
    }
  }

  function AccumulatedWords(r: seq<uint64>, x: seq<uint64>, y: seq<uint64>, yprime: seq<uint64>,
                            tables: seq<NttTables>, N: nat)
    : (s: seq<uint64>)
    requires Positive(tables) && |r| == |x| == |y| == |yprime| == |tables| * N
    ensures |s| == |r|
  {
    seq(|r|, j requires 0 <= j < |r| => MulAndAddShoup(r[j], x[j], y[j], yprime[j], ModulusAt(tables, N, j)))
  }

  ghost predicate AccumulatedRow(target: seq<uint64>, r: seq<uint64>, x: seq<uint64>, y: seq<uint64>,
                                 yprime: seq<uint64>, p: uint64, off: nat, N: nat) {
    && p > 0 && off + N <= |target| == |r| == |x| == |y| == |yprime|
    && forall j :: off <= j < off + N ==> target[j] == MulAndAddShoup(r[j], x[j], y[j], yprime[j], p)
  }

  lemma AccumulatedRows(r: seq<uint64>, x: seq<uint64>, y: seq<uint64>, yprime: seq<uint64>, tables: seq<NttTables>,
                        N: nat, cm: nat)
    requires Positive(tables) && |r| == |x| == |y| == |yprime| == |tables| * N && cm < |tables|
    ensures AccumulatedRow(AccumulatedWords(r, x, y, yprime, tables, N), r, x, y, yprime, tables[cm].p, cm * N, N)
  {
    hide MulAndAddShoup;
    RowOf(tables, N, cm);
  }

  method AccumulateRow(rop: array<uint64>, x: seq<uint64>, y: seq<uint64>, yprime: seq<uint64>, p: uint64,
                       off: nat, N: nat, ghost target: seq<uint64>, ghost X: seq<uint64>)
    requires rop.Length == |X| && AccumulatedRow(target, X, x, y, yprime, p, off, N) && rop[..] == Blend(target, X, off)
    modifies rop
    ensures rop[..] == Blend(target, X, off + N)
  {
    hide MulAndAddShoup, Blend;
    for i := 0 to N
      invariant rop[..] == Blend(target, X, off + i)
    {
      var j := off + i;
      BlendStep(target, X, j);
      rop[j] := MulAndAddShoup(rop[j], x[j], y[j], yprime[j], p);
      assert rop[..] == Blend(target, X, j)[j := target[j]];
    }
  }

  /** The Shoup version of mulandadd: both halves of the ciphertext rop accumulate op1 * op2. */
  method MulAndAdd(ropa: array<uint64>, ropb: array<uint64>, op1: seq<uint64>, op2a: seq<uint64>, op2b: seq<uint64>,
                   op2primea: seq<uint64>, op2primeb: seq<uint64>, tables: seq<NttTables>, N: nat)
    requires Positive(tables) && ropa != ropb && ropa.Length == ropb.Length == |op1| == |tables| * N
    requires |op2a| == |op2b| == |op2primea| == |op2primeb| == |op1|
    modifies ropa, ropb
    ensures ropa[..] == AccumulatedWords(old(ropa[..]), op1, op2a, op2primea, tables, N)
    ensures ropb[..] == AccumulatedWords(old(ropb[..]), op1, op2b, op2primeb, tables, N)
  {
    hide AccumulatedWords, AccumulatedRow, Blend;
    ghost var X, Y := ropa[..], ropb[..];
    ghost var ta := AccumulatedWords(X, op1, op2a, op2primea, tables, N);
    ghost var tb := AccumulatedWords(Y, op1, op2b, op2primeb, tables, N);
    BlendEnds(ta, X);
    BlendEnds(tb, Y);
    var off := 0;
    for cm := 0 to |tables|
      invariant off == cm * N <= ropa.Length && ropa[..] == Blend(ta, X, off) && ropb[..] == Blend(tb, Y, off)
    {
      MulMono(cm + 1, |tables|, N);
      AccumulatedRows(X, op1, op2a, op2primea, tables, N, cm);
      AccumulatedRows(Y, op1, op2b, op2primeb, tables, N, cm);
      AccumulateRow(ropa, op1, op2a, op2primea, tables[cm].p, off, N, ta, X);
      AccumulateRow(ropb, op1, op2b, op2primeb, tables[cm].p, off, N, tb, Y);
      off := off + N;
    }
  }

  // ------------------------------------------- accumulation with full reduction

  /** (x*y + r) mod p, computed in 128 bits. */
  function PlainWord(r: uint64, x: uint64, y: uint64, p: uint64): (s: uint64)
    requires p > 0
    ensures s < p && Cong(s, r + Times(x, y), p)
  {
    CongMod(Times(x, y) + r, p);
    (Times(x, y) + r) % p
  }

  function Times(x: int, y: int): int { x * y }

  function PlainWords(r: seq<uint64>, x: seq<uint64>, y: seq<uint64>, tables: seq<NttTables>, N: nat): (s: seq<uint64>)
    requires Positive(tables) && |r| == |x| == |y| == |tables| * N
    ensures |s| == |r|
  {
    seq(|r|, j requires 0 <= j < |r| => PlainWord(r[j], x[j], y[j], ModulusAt(tables, N, j)))
  }

  ghost predicate PlainRow(target: seq<uint64>, r: seq<uint64>, x: seq<uint64>, y: seq<uint64>, p: uint64, off: nat,
                           N: nat) {
    && p > 0 && off + N <= |target| == |r| == |x| == |y|
    && forall j :: off <= j < off + N ==> target[j] == PlainWord(r[j], x[j], y[j], p)
  }

  lemma PlainRows(r: seq<uint64>, x: seq<uint64>, y: seq<uint64>, tables: seq<NttTables>, N: nat, cm: nat)
    requires Positive(tables) && |r| == |x| == |y| == |tables| * N && cm < |tables|
    ensures PlainRow(PlainWords(r, x, y, tables, N), r, x, y, tables[cm].p, cm * N, N)
  {
    hide PlainWord;
    RowOf(tables, N, cm);
  }

  method PlainRowLoop(rop: array<uint64>, x: seq<uint64>, y: seq<uint64>, p: uint64, off: nat, N: nat,
                      ghost target: seq<uint64>, ghost X: seq<uint64>)
    requires rop.Length == |X| && PlainRow(target, X, x, y, p, off, N) && rop[..] == Blend(target, X, off)
    modifies rop
    ensures rop[..] == Blend(target, X, off + N)
  {
    hide PlainWord, Blend;
    for i := 0 to N
      invariant rop[..] == Blend(target, X, off + i)
    {
      var j := off + i;
      BlendStep(target, X, j);
      rop[j] := PlainWord(rop[j], x[j], y[j], p);
      assert rop[..] == Blend(target, X, j)[j := target[j]];
    }
  }

  /** mulandaddPolyNTT: what the other mulandadd does to each half of the ciphertext. */
  method MulAndAddPolyNTT(rop: array<uint64>, op1: seq<uint64>, op2: seq<uint64>, tables: seq<NttTables>, N: nat)
    requires Positive(tables) && rop.Length == |op1| == |op2| == |tables| * N
    modifies rop
    ensures rop[..] == PlainWords(old(rop[..]), op1, op2, tables, N)
  {
    hide PlainWords, PlainRow, Blend;
    ghost var X, target := rop[..], PlainWords(rop[..], op1, op2, tables, N);
    BlendEnds(target, X);
    var off := 0;
    for cm := 0 to |tables|
      invariant off == cm * N <= rop.Length && rop[..] == Blend(target, X, off)
    {
      MulMono(cm + 1, |tables|, N);
      PlainRows(X, op1, op2, tables, N, cm);
      PlainRowLoop(rop, op1, op2, tables[cm].p, off, N, target, X);
      off := off + N;
    }
  }
}
