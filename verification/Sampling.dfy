/** Random polynomials: how random words, which are inputs here, are brought below a bound. */
module Sampling {
  import opened Arith
  import opened BitOps
  import opened Words
  import opened NflTables
  import opened Flat

  /** ceil(log2(x)), exactly. */
  function CeilLog2(x: nat): (k: nat)
    requires x > 0
    ensures x <= Exp2(k) && (k > 0 ==> Exp2(k - 1) < x)
  {
    if x == 1 then 0 else 1 + CeilLog2((x + 1) / 2)
  }

  /** What is drawn from a random word: the word modulo the least power of two that is not below
      the bound, minus the bound if that is still too large. */
  predicate Drawn(r: int, rnd: nat, bound: nat) {
    && bound > 0
    && var v := rnd % Exp2(CeilLog2(bound)); r == if v < bound then v else v - bound
  }

  /** Mask to the bit length of the bound, then subtract the bound at most once. */
  function Sampled(rnd: uint64, bound: uint64): (r: uint64)
    requires 0 < bound
    ensures r < bound && Drawn(r, rnd, bound)
    ensures rnd < bound ==> r == rnd
  {
    var k := CeilLog2(bound);
    AndMask(rnd, k);
    DivModEq(rnd, Exp2(k));
    assert rnd < bound ==> rnd % Exp2(k) == rnd by { if rnd < bound { SmallMod(rnd, Exp2(k)); } }
    var v := And(rnd, Exp2(k) - 1);
    if v >= bound then v - bound else v
  }

  /** Words of residues below i (modulo N), and of residue i for the first cm moduli, are set. */
  ghost predicate NoiseUpTo(R: seq<uint64>, rnd: seq<uint64>, bound: uint64, N: nat, i: nat, cm: nat)
    requires bound > 0 && N > 0 && |rnd| == N
  {
    forall j: nat :: j < |R| && (j % N < i || (j % N == i && j / N < cm)) ==> R[j] == Sampled(rnd[j % N], bound)
  }

  lemma NoiseStep(R: seq<uint64>, rnd: seq<uint64>, bound: uint64, N: nat, i: nat, cm: nat)
    requires bound > 0 && |rnd| == N && i < N && cm * N + i < |R| && NoiseUpTo(R, rnd, bound, N, i, cm)
    ensures NoiseUpTo(R[cm * N + i := Sampled(rnd[i], bound)], rnd, bound, N, i, cm + 1)
  {
    hide Sampled, Drawn;
    DivModUnique(cm * N + i, cm, i, N);
    forall j: nat | j < |R| && j % N == i && j / N == cm ensures j == cm * N + i { DivModEq(j, N); }
  }

  lemma NoiseNext(R: seq<uint64>, rnd: seq<uint64>, bound: uint64, N: nat, i: nat, n: nat)
    requires bound > 0 && |rnd| == N && i < N && |R| == n * N && NoiseUpTo(R, rnd, bound, N, i, n)
    ensures NoiseUpTo(R, rnd, bound, N, i + 1, 0)
  {
    hide Sampled, Drawn;
    forall j: nat | j < |R| ensures j / N < n { IndexFits(j, n, N); }
  }

  /** Word j of every modulus is the noise drawn for coefficient j % N. */
  ghost predicate IsNoise(R: seq<uint64>, rnd: seq<uint64>, bound: uint64, N: nat) {
    bound > 0 && |rnd| == N > 0 && forall j: nat :: j < |R| ==> R[j] == Sampled(rnd[j % N], bound)
  }

  lemma NoiseEnd(R: seq<uint64>, rnd: seq<uint64>, bound: uint64, N: nat)
    requires bound > 0 && |rnd| == N > 0 && NoiseUpTo(R, rnd, bound, N, N, 0)
    ensures IsNoise(R, rnd, bound, N)
  {
    hide Sampled, Drawn;
    forall j: nat | j < |R| ensures j % N < N { DivModEq(j, N); }
  }

  /** The bounded mode of setBoundedRandomPoly: the same small integer for every modulus. */
  method SetBoundedRandomPoly(res: array<uint64>, rnd: seq<uint64>, bound: uint64, nbModuli: nat, N: nat)
    requires 0 < bound && |rnd| == N > 0 && res.Length == nbModuli * N
    modifies res
    ensures IsNoise(res[..], rnd, bound, N)
  {
    hide Sampled, Drawn, NoiseUpTo, IsNoise;
    assert NoiseUpTo(res[..], rnd, bound, N, 0, 0) by { NoiseStart(res[..], rnd, bound, N); }
    for i := 0 to N
      invariant NoiseUpTo(res[..], rnd, bound, N, i, 0)
    {
      for cm := 0 to nbModuli
        invariant NoiseUpTo(res[..], rnd, bound, N, i, cm)
      {
        MulMono(cm + 1, nbModuli, N);
        NoiseStep(res[..], rnd, bound, N, i, cm);
        ghost var before := res[..];
        res[N * cm + i] := Sampled(rnd[i], bound);
        assert res[..] == before[cm * N + i := Sampled(rnd[i], bound)];
      }
      NoiseNext(res[..], rnd, bound, N, i, nbModuli);
    }
    NoiseEnd(res[..], rnd, bound, N);
  }

  lemma NoiseStart(R: seq<uint64>, rnd: seq<uint64>, bound: uint64, N: nat)
    requires bound > 0 && |rnd| == N > 0
    ensures NoiseUpTo(R, rnd, bound, N, 0, 0)
  {
    forall j: nat | j < |R| ensures 0 <= j % N && 0 <= j / N { DivModEq(j, N); }
  }

  /** Every word is drawn from its own random word, for its own modulus. */
  ghost predicate DrawnWords(R: seq<uint64>, rnd: seq<uint64>, tables: seq<NttTables>, N: nat) {
    && |R| == |rnd| == |tables| * N
    && forall j: nat :: j < |R| ==> R[j] < ModulusAt(tables, N, j) && Drawn(R[j], rnd[j], ModulusAt(tables, N, j))
  }

  ghost predicate DrawnUpTo(R: seq<uint64>, rnd: seq<uint64>, tables: seq<NttTables>, N: nat, k: nat) {
    && |R| == |rnd| == |tables| * N && k <= |R|
    && forall j: nat :: j < k ==> R[j] < ModulusAt(tables, N, j) && Drawn(R[j], rnd[j], ModulusAt(tables, N, j))
  }

  lemma DrawnStep(R: seq<uint64>, rnd: seq<uint64>, tables: seq<NttTables>, N: nat, k: nat, v: uint64)
    requires DrawnUpTo(R, rnd, tables, N, k) && k < |R|
    requires v < ModulusAt(tables, N, k) && Drawn(v, rnd[k], ModulusAt(tables, N, k))
    ensures DrawnUpTo(R[k := v], rnd, tables, N, k + 1)
  {
    hide Drawn, ModulusAt;
  }

  /** The uniform mode: every word is drawn below its own modulus. */
  method SetUniformPoly(res: array<uint64>, rnd: seq<uint64>, tables: seq<NttTables>, N: nat)
    requires Positive(tables) && |rnd| == res.Length == |tables| * N
    modifies res
    ensures DrawnWords(res[..], rnd, tables, N) && ReducedWords(res[..], tables, N)
  {
    hide Sampled, Drawn, ModulusAt, DrawnUpTo;
    var off := 0;
    assert DrawnUpTo(res[..], rnd, tables, N, 0) by { DrawnStart(res[..], rnd, tables, N); }
    for cm := 0 to |tables|
      invariant off == cm * N && DrawnUpTo(res[..], rnd, tables, N, off)
    {
      for i := 0 to N
        invariant DrawnUpTo(res[..], rnd, tables, N, off + i)
      {
        WordOf(tables, N, cm, i);
        var v := Sampled(rnd[off + i], tables[cm].p);
        DrawnStep(res[..], rnd, tables, N, off + i, v);
        ghost var before := res[..];
        res[off + i] := v;
        assert res[..] == before[off + i := v];
      }
      off := off + N;
    }
    DrawnEnd(res[..], rnd, tables, N);
  }

  lemma DrawnStart(R: seq<uint64>, rnd: seq<uint64>, tables: seq<NttTables>, N: nat)
    requires |R| == |rnd| == |tables| * N
    ensures DrawnUpTo(R, rnd, tables, N, 0)
  {
  }

  lemma DrawnEnd(R: seq<uint64>, rnd: seq<uint64>, tables: seq<NttTables>, N: nat)
    requires DrawnUpTo(R, rnd, tables, N, |tables| * N)
    ensures DrawnWords(R, rnd, tables, N) && ReducedWords(R, tables, N)
  {
    hide Drawn, ModulusAt;
  }
}
