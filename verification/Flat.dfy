/** Loops over all words of all moduli: word j belongs to modulus j / N. */
module Flat {
  import opened Arith
  import opened Words
  import opened NflTables

  lemma IndexFits(j: nat, n: nat, N: nat)
    requires j < n * N
    ensures N > 0 && j / N < n && j % N < N
  {
    if N > 0 {
      DivModEq(j, N);
      if j / N >= n { MulMono(n, j / N, N); }
    }
  }

  /** The modulus that word j belongs to. */
  function ModulusAt(tables: seq<NttTables>, N: nat, j: nat): (p: uint64)
    requires j < |tables| * N
    ensures exists cm :: 0 <= cm < |tables| && p == tables[cm].p
  {
    IndexFits(j, |tables|, N);
    tables[j / N].p
  }

  lemma WordOf(tables: seq<NttTables>, N: nat, cm: nat, i: nat)
    requires cm < |tables| && i < N
    ensures cm * N + i < cm * N + N <= |tables| * N
    ensures ModulusAt(tables, N, cm * N + i) == tables[cm].p
    ensures (cm * N + i) % N == i && (cm * N + i) / N == cm
  {
    MulMono(cm + 1, |tables|, N);
    DivModUnique(cm * N + i, cm, i, N);
  }

  /** The words of modulus cm. */
  lemma RowOf(tables: seq<NttTables>, N: nat, cm: nat)
    requires cm < |tables|
    ensures cm * N + N <= |tables| * N
    ensures forall j :: cm * N <= j < cm * N + N ==> ModulusAt(tables, N, j) == tables[cm].p && j / N == cm
  {
    MulMono(cm + 1, |tables|, N);
    forall j | cm * N <= j < cm * N + N ensures ModulusAt(tables, N, j) == tables[cm].p && j / N == cm {
      DivModUnique(j, cm, j - cm * N, N);
    }
  }

  ghost predicate Positive(tables: seq<NttTables>) {
    forall cm :: 0 <= cm < |tables| ==> 1 < tables[cm].p < W64 / 8
  }

  ghost predicate ReducedWords(x: seq<uint64>, tables: seq<NttTables>, N: nat) {
    |x| == |tables| * N && forall j: nat :: j < |x| ==> x[j] < ModulusAt(tables, N, j)
  }

  /** y' holds the Shoup quotients of the reduced words y. */
  ghost predicate ShoupWords(y: seq<uint64>, y': seq<uint64>, tables: seq<NttTables>, N: nat) {
    && |y| == |y'| == |tables| * N && ReducedWords(y, tables, N)
    && forall j: nat :: j < |y| ==> y'[j] == ShoupQuotient(y[j], ModulusAt(tables, N, j))
  }

  // --------------------------------------------------- word-by-word updates

  /** The first k words come from the target, the others are still those of X. */
  function Blend(target: seq<uint64>, X: seq<uint64>, k: nat): (r: seq<uint64>)
    requires k <= |target| == |X|
    ensures |r| == |X|
  {
    target[..k] + X[k..]
  }

  lemma BlendEnds(target: seq<uint64>, X: seq<uint64>)
    requires |target| == |X|
    ensures Blend(target, X, 0) == X && Blend(target, X, |X|) == target
  {
  }

  lemma BlendStep(target: seq<uint64>, X: seq<uint64>, k: nat)
    requires k < |target| == |X|
    ensures Blend(target, X, k)[k] == X[k]
    ensures Blend(target, X, k)[k := target[k]] == Blend(target, X, k + 1)
  {
  }

  function ProductWords(op1: seq<uint64>, op2: seq<uint64>, tables: seq<NttTables>, N: nat): (r: seq<uint64>)
    requires Positive(tables) && |op1| == |op2| == |tables| * N
    ensures |r| == |op1|
  {
    seq(|op1|, j requires 0 <= j < |op1| => MulMod(op1[j], op2[j], ModulusAt(tables, N, j)))
  }

  ghost predicate ProductRow(target: seq<uint64>, x: seq<uint64>, y: seq<uint64>, yprime: seq<uint64>, p: uint64,
                             off: nat, N: nat) {
    && p > 0 && off + N <= |target| == |x| == |y| == |yprime|
    && forall j :: off <= j < off + N ==> target[j] == MulModShoup(x[j], y[j], yprime[j], p)
  }

  lemma ProductRows(op1: seq<uint64>, op2: seq<uint64>, op2prime: seq<uint64>, tables: seq<NttTables>, N: nat, cm: nat)
    requires Positive(tables) && |op1| == |op2| && ShoupWords(op2, op2prime, tables, N) && cm < |tables|
    ensures ProductRow(ProductWords(op1, op2, tables, N), op1, op2, op2prime, tables[cm].p, cm * N, N)
  {
    hide ShoupQuotient, MulModShoup;
    RowOf(tables, N, cm);
    forall j | cm * N <= j < cm * N + N
      ensures ProductWords(op1, op2, tables, N)[j] == MulModShoup(op1[j], op2[j], op2prime[j], tables[cm].p)
    {
      MulModShoupExact(op1[j], op2[j], tables[cm].p);
    }
  }

  method ProductRowLoop(rop: array<uint64>, x: seq<uint64>, y: seq<uint64>, yprime: seq<uint64>, p: uint64,
                        off: nat, N: nat, ghost target: seq<uint64>, ghost X: seq<uint64>)
    requires rop.Length == |X| == |x| && ProductRow(target, x, y, yprime, p, off, N) && rop[..] == Blend(target, X, off)
    modifies rop
    ensures rop[..] == Blend(target, X, off + N)
  {
    hide MulModShoup, Blend;
    for i := 0 to N
      invariant rop[..] == Blend(target, X, off + i)
    {
      var j := off + i;
      BlendStep(target, X, j);
      rop[j] := MulModShoup(x[j], y[j], yprime[j], p);
      assert rop[..] == Blend(target, X, j)[j := target[j]];
    }
  }

  /** mulmodPolyNTTShoup: word by word products, fully reduced for any 64-bit op1. */
  method MulModPolyShoup(rop: array<uint64>, op1: seq<uint64>, op2: seq<uint64>, op2prime: seq<uint64>,
                         tables: seq<NttTables>, N: nat)
    requires Positive(tables) && rop.Length == |op1| == |op2| && ShoupWords(op2, op2prime, tables, N)
    modifies rop
    ensures rop[..] == ProductWords(op1, op2, tables, N)
  {
    hide ProductWords, ProductRow, Blend, ShoupQuotient, ModulusAt;
    ghost var X, target := rop[..], ProductWords(op1, op2, tables, N);
    BlendEnds(target, X);
    var off := 0;
    for cm := 0 to |tables|
      invariant off == cm * N <= rop.Length && rop[..] == Blend(target, X, off)
    {
      MulMono(cm + 1, |tables|, N);
      ProductRows(op1, op2, op2prime, tables, N, cm);
      ProductRowLoop(rop, op1, op2, op2prime, tables[cm].p, off, N, target, X);
      off := off + N;
    }
  }

  function QuotientWords(x: seq<uint64>, tables: seq<NttTables>, N: nat): (r: seq<uint64>)
    requires ReducedWords(x, tables, N)
    ensures |r| == |x|
  {
    seq(|x|, j requires 0 <= j < |x| => ShoupQuotient(x[j], ModulusAt(tables, N, j)))
  }

  ghost predicate QuotientRow(target: seq<uint64>, x: seq<uint64>, p: uint64, off: nat, N: nat) {
    && p > 0 && off + N <= |target| == |x|
    && forall j :: off <= j < off + N ==> x[j] < p && target[j] == ShoupQuotient(x[j], p)
  }

  lemma QuotientRows(x: seq<uint64>, tables: seq<NttTables>, N: nat, cm: nat)
    requires Positive(tables) && ReducedWords(x, tables, N) && cm < |tables|
    ensures QuotientRow(QuotientWords(x, tables, N), x, tables[cm].p, cm * N, N)
  {
    hide ShoupQuotient;
    RowOf(tables, N, cm);
  }

  method QuotientRowLoop(res: array<uint64>, x: seq<uint64>, p: uint64, off: nat, N: nat, ghost target: seq<uint64>,
                         ghost X: seq<uint64>)
    requires res.Length == |X| == |x| && QuotientRow(target, x, p, off, N) && res[..] == Blend(target, X, off)
    modifies res
    ensures res[..] == Blend(target, X, off + N)
  {
    hide ShoupQuotient, Blend;
    for i := 0 to N
      invariant res[..] == Blend(target, X, off + i)
    {
      var j := off + i;
      BlendStep(target, X, j);
      res[j] := ShoupQuotient(x[j], p);
      assert res[..] == Blend(target, X, j)[j := target[j]];
    }
  }

  /** allocandcomputeShouppoly. */
  method ShoupPoly(x: seq<uint64>, tables: seq<NttTables>, N: nat) returns (res: array<uint64>)
    requires Positive(tables) && ReducedWords(x, tables, N)
    ensures fresh(res) && ShoupWords(x, res[..], tables, N)
  {
    hide QuotientRow, Blend, ShoupQuotient, ModulusAt;
    res := new uint64[|x|](_ => 0);
    ghost var X, target := res[..], QuotientWords(x, tables, N);
    BlendEnds(target, X);
    var off := 0;
    for cm := 0 to |tables|
      invariant off == cm * N <= res.Length && res[..] == Blend(target, X, off)
    {
      MulMono(cm + 1, |tables|, N);
      QuotientRows(x, tables, N, cm);
      QuotientRowLoop(res, x, tables[cm].p, off, N, target, X);
      off := off + N;
    }
  }

  // ------------------------------------------------------- complete reduction

  function ModWords(a: seq<uint64>, tables: seq<NttTables>, N: nat): (r: seq<uint64>)
    requires Positive(tables) && |a| == |tables| * N
    ensures |r| == |a|
  {
    seq(|a|, j requires 0 <= j < |a| => a[j] % ModulusAt(tables, N, j))
  }

  ghost predicate ModRow(target: seq<uint64>, x: seq<uint64>, p: uint64, off: nat, N: nat) {
    p > 0 && off + N <= |target| == |x| && forall j :: off <= j < off + N ==> target[j] == x[j] % p
  }

  lemma ModRows(x: seq<uint64>, tables: seq<NttTables>, N: nat, cm: nat)
    requires Positive(tables) && |x| == |tables| * N && cm < |tables|
    ensures ModRow(ModWords(x, tables, N), x, tables[cm].p, cm * N, N)
  {
    RowOf(tables, N, cm);
  }

  lemma ModReduced(x: seq<uint64>, tables: seq<NttTables>, N: nat)
    requires Positive(tables) && |x| == |tables| * N
    ensures ReducedWords(ModWords(x, tables, N), tables, N)
  {
    hide ModulusAt;
    forall j: nat | j < |x| ensures ModWords(x, tables, N)[j] < ModulusAt(tables, N, j) {
      CongMod(x[j], ModulusAt(tables, N, j));
    }
  }

  method ModRowLoop(op: array<uint64>, p: uint64, off: nat, N: nat, ghost target: seq<uint64>, ghost X: seq<uint64>)
    requires op.Length == |X| && ModRow(target, X, p, off, N) && op[..] == Blend(target, X, off)
    modifies op
    ensures op[..] == Blend(target, X, off + N)
  {
    hide Blend;
    for i := 0 to N
      invariant op[..] == Blend(target, X, off + i)
    {
      var j := off + i;
      BlendStep(target, X, j);
      op[j] := op[j] % p;
      assert op[..] == Blend(target, X, j)[j := target[j]];
    }
  }

  /** Every word modulo its own modulus. */
  method ReduceWords(op: array<uint64>, tables: seq<NttTables>, N: nat)
    requires Positive(tables) && op.Length == |tables| * N
    modifies op
    ensures op[..] == ModWords(old(op[..]), tables, N)
  {
    hide ModWords, ModRow, Blend;
    ghost var X, target := op[..], ModWords(op[..], tables, N);
    BlendEnds(target, X);
    var off := 0;
    for cm := 0 to |tables|
      invariant off == cm * N <= op.Length && op[..] == Blend(target, X, off)
    {
      MulMono(cm + 1, |tables|, N);
      ModRows(X, tables, N, cm);
      ModRowLoop(op, tables[cm].p, off, N, target, X);
      off := off + N;
    }
  }
}
