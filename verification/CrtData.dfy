/** From limbs to residues: the chunks that the splitter cut are reduced modulo every modulus and
    laid out polynomial by polynomial, one segment of N words per modulus. */
module CrtData {
  import opened Arith
  import opened Words
  import opened ByteStrings
  import opened Fields
  import opened NflTables
  import opened Flat
  import opened Splitter
  import BitOps

  // --------------------------------------------------------- chunks of B bits

  /** Chunk i of the string of bits. */
  function Chunk(V: nat, B: nat, i: nat): nat {
    Bits(V, i * B, B)
  }

  lemma ChunkField(B: nat, i: nat, j: nat)
    requires B > 0 && j < FieldCount(B, 56)
    ensures 0 <= i * FieldCount(B, 56)
    ensures FieldOff(B, 56, i * FieldCount(B, 56) + j) == i * B + 56 * j
    ensures (i * FieldCount(B, 56) + j) % FieldCount(B, 56) == j
  {
    var c := FieldCount(B, 56);
    MulMono(0, i, c);
    DivModUnique(i * c + j, i, j, c);
  }

  /** The first k limbs of chunk i, each at its place. */
  function LimbSum(limbs: seq<uint64>, i: nat, c: nat, k: nat): nat
    requires k <= c && i * c + c <= |limbs|
  {
    if k == 0 then 0 else LimbSum(limbs, i, c, k - 1) + limbs[i * c + (k - 1)] * Exp2(56 * (k - 1))
  }

  /** Limbs of a chunk add up to the chunk. */
  lemma {:induction false} LimbsOfChunk(V: nat, B: nat, limbs: seq<uint64>, i: nat, k: nat)
    requires B > 0 && limbs == Limbs56(V, B, |limbs|)
    requires k <= FieldCount(B, 56) && i * FieldCount(B, 56) + FieldCount(B, 56) <= |limbs|
    ensures 0 <= i * B
    ensures LimbSum(limbs, i, FieldCount(B, 56), k) == Bits(V, i * B, if k == FieldCount(B, 56) then B else 56 * k)
  {
    hide Bits, Exp2, FieldOff, FieldCount, Limbs56;
    var c := FieldCount(B, 56);
    MulMono(0, i, B);
    if k == 0 {
      NoBits(V, i * B);
    } else {
      LimbsOfChunk(V, B, limbs, i, k - 1);
      ChunkField(B, i, k - 1);
      LimbIs(V, B, limbs, i * c + (k - 1));
      FieldEnd(B, k - 1);
      BitsSplit(V, i * B, 56 * (k - 1), FieldSize(B, 56, k - 1));
    }
  }

  lemma FieldEnd(B: nat, s: nat)
    requires B > 0 && s < FieldCount(B, 56)
    ensures 56 * s + FieldSize(B, 56, s) == if s + 1 == FieldCount(B, 56) then B else 56 * (s + 1)
  {
  }

  lemma LimbIs(V: nat, B: nat, limbs: seq<uint64>, j: nat)
    requires B > 0 && limbs == Limbs56(V, B, |limbs|) && j < |limbs|
    ensures j % FieldCount(B, 56) < FieldCount(B, 56)
    ensures limbs[j] == Bits(V, FieldOff(B, 56, j), FieldSize(B, 56, j % FieldCount(B, 56)))
  {
    DivModEq(j, FieldCount(B, 56));
  }

  lemma NoBits(V: nat, off: nat)
    ensures Bits(V, off, 0) == 0
  {
    assert Exp2(0) == 1;
    DivModUnique(V / Exp2(off), V / Exp2(off), 0, 1);
  }

  // ------------------------------------------------------------ residue words

  /** The unreduced sum of k reduced products that internalLongIntegersToCRT accumulates. */
  function CrtWord(limbs: seq<uint64>, i: nat, c: nat, p: uint64, k: nat): (r: nat)
    requires k <= c && i * c + c <= |limbs| && p > 0
    ensures r <= k * (p - 1)
  {
    if k == 0 then 0
    else
      assert k * (p - 1) == (k - 1) * (p - 1) + (p - 1);
      CrtWord(limbs, i, c, p, k - 1) + CrtTerm(limbs[i * c + (k - 1)], k - 1, p)
  }

  function CrtTerm(limb: uint64, j: nat, p: uint64): (r: nat)
    requires p > 0
    ensures r <= p - 1
  {
    CongMod(limb * (Exp2(56 * j) % p), p);
    (limb * (Exp2(56 * j) % p)) % p
  }

  lemma TermCong(limb: uint64, j: nat, p: uint64)
    requires p > 0
    ensures Cong(CrtTerm(limb, j, p), limb * Exp2(56 * j), p)
  {
    var m := Exp2(56 * j);
    CongMod(m, p);
    CongScale(m % p, m, limb, p);
    CongMod(limb * (m % p), p);
  }

  lemma {:induction false} CrtWordCong(limbs: seq<uint64>, i: nat, c: nat, p: uint64, k: nat)
    requires k <= c && i * c + c <= |limbs| && p > 0
    ensures Cong(CrtWord(limbs, i, c, p, k), LimbSum(limbs, i, c, k), p)
  {
    if k > 0 {
      hide CrtTerm, Exp2, Cong;
      var limb := limbs[i * c + (k - 1)];
      CrtWordCong(limbs, i, c, p, k - 1);
      TermCong(limb, k - 1, p);
      CongAdd(CrtWord(limbs, i, c, p, k - 1), LimbSum(limbs, i, c, k - 1), CrtTerm(limb, k - 1, p),
              limb * Exp2(56 * (k - 1)), p);
    } else {
      assert Cong(0, 0, p);
    }
  }

  // --------------------------------------------------------------- the layout

  /** The coefficient and the modulus that word x of the output belongs to. */
  function CoefOf(x: nat, N: nat, nb: nat): nat
    requires N > 0 && nb > 0
  {
    CoefNonNegative(x, N, nb);
    ((x / N) / nb) * N + x % N
  }

  lemma CoefNonNegative(x: nat, N: nat, nb: nat)
    requires N > 0 && nb > 0
    ensures x / N >= 0 && (x / N) / nb >= 0 && ((x / N) / nb) * N >= 0 && x % N >= 0
  {
    BitOps.DivNonNegative(x, N);
    BitOps.DivNonNegative(x / N, nb);
    MulMono(0, (x / N) / nb, N);
    DivModEq(x, N);
  }

  function ModOf(x: nat, N: nat, nb: nat): (cm: nat)
    requires N > 0 && nb > 0
    ensures cm < nb
  {
    DivModEq(x / N, nb);
    (x / N) % nb
  }

  /** Where residue cm of coefficient i goes: after the polynomials before it, in segment cm. */
  function Place(i: nat, cm: nat, N: nat, nb: nat): nat
    requires N > 0 && nb > 0
  {
    Start(i, N, nb) + cm * N
  }

  /** Where the residues of coefficient i start. */
  function Start(i: nat, N: nat, nb: nat): nat
    requires N > 0 && nb > 0
  {
    (i / N) * (N * nb) + i % N
  }

  lemma PlaceOf(i: nat, cm: nat, N: nat, nb: nat)
    requires N > 0 && cm < nb
    ensures CoefOf(Place(i, cm, N, nb), N, nb) == i && ModOf(Place(i, cm, N, nb), N, nb) == cm
  {
    var q, k, x := i / N, i % N, Place(i, cm, N, nb);
    DivModEq(i, N);
    assert x == (q * nb + cm) * N + k by { Regroup(q, nb, cm, N); }
    DivModUnique(x, q * nb + cm, k, N);
    DivModUnique(q * nb + cm, q, cm, nb);
  }

  lemma Regroup(q: int, nb: int, cm: int, N: int)
    ensures (q * nb + cm) * N == q * (N * nb) + cm * N
  {
    Associate(q, nb, N);
  }

  /** Every word has exactly one coefficient and modulus. */
  lemma PlaceUnique(x: nat, N: nat, nb: nat)
    requires N > 0 && nb > 0
    ensures x == Place(CoefOf(x, N, nb), ModOf(x, N, nb), N, nb)
  {
    var y, k := x / N, x % N;
    var q, cm := y / nb, y % nb;
    DivModEq(x, N);
    DivModEq(y, nb);
    DivModUnique(CoefOf(x, N, nb), q, k, N);
    Regroup(q, nb, cm, N);
  }

  /** The output pointer moves by one, and past the other segments at the end of a polynomial. */
  lemma StartNext(i: nat, N: nat, nb: nat)
    requires N > 0 && nb > 0
    ensures Start(i + 1, N, nb) == Start(i, N, nb) + 1 + if (i + 1) % N == 0 then N * (nb - 1) else 0
  {
    DivModEq(i, N);
    NextField(i, N, i % N);
    if i % N + 1 == N {
      assert (i / N + 1) * (N * nb) == (i / N) * (N * nb) + N * nb;
      assert N * (nb - 1) == N * nb - N;
    }
  }

  // ---------------------------------------------------- the accumulation loops

  /** CrtWord, or zero beyond the limbs. */
  function SumAt(limbs: seq<uint64>, i: nat, c: nat, p: uint64, k: nat): nat
    requires p > 0
  {
    if k <= c && i * c + c <= |limbs| then CrtWord(limbs, i, c, p, k) else 0
  }

  /** How many limbs word x has received when coefficient i is at limb j and modulus cm. */
  function Stage(x: nat, N: nat, nb: nat, c: nat, i: nat, j: nat, cm: nat): nat
    requires N > 0 && nb > 0
  {
    if CoefOf(x, N, nb) < i then c
    else if CoefOf(x, N, nb) > i then 0
    else if ModOf(x, N, nb) < cm then j + 1 else j
  }

  ghost predicate Summed(out: seq<uint64>, limbs: seq<uint64>, c: nat, tables: seq<NttTables>, N: nat, i: nat, j: nat,
                         cm: nat)
    requires N > 0 && |tables| > 0 && Positive(tables)
  {
    forall x: nat :: x < |out| ==>
      out[x] == SumAt(limbs, CoefOf(x, N, |tables|), c, tables[ModOf(x, N, |tables|)].p,
                      Stage(x, N, |tables|, c, i, j, cm))
  }

  lemma SummedStart(out: seq<uint64>, limbs: seq<uint64>, c: nat, tables: seq<NttTables>, N: nat)
    requires N > 0 && |tables| > 0 && Positive(tables) && forall x :: 0 <= x < |out| ==> out[x] == 0
    ensures Summed(out, limbs, c, tables, N, 0, 0, 0)
  {
    hide CoefOf, ModOf;
  }

  lemma SummedStep(out: seq<uint64>, limbs: seq<uint64>, c: nat, tables: seq<NttTables>, N: nat, i: nat, j: nat,
                   cm: nat, x: nat)
    requires N > 0 && cm < |tables| && Positive(tables) && j < c && i * c + c <= |limbs| && c <= 8
    requires Summed(out, limbs, c, tables, N, i, j, cm) && x == Place(i, cm, N, |tables|) && x < |out|
    ensures out[x] + CrtTerm(limbs[i * c + j], j, tables[cm].p) < W64
    ensures Summed(out[x := out[x] + CrtTerm(limbs[i * c + j], j, tables[cm].p)], limbs, c, tables, N, i, j, cm + 1)
  {
    hide CoefOf, ModOf, Place, CrtTerm;
    PlaceOf(i, cm, N, |tables|);
    var p := tables[cm].p;
    assert out[x] == SumAt(limbs, i, c, p, j);
    assert CrtWord(limbs, i, c, p, j + 1) == CrtWord(limbs, i, c, p, j) + CrtTerm(limbs[i * c + j], j, p);
    MulMono(j + 1, 8, p - 1);
    forall x': nat | x' < |out| && x' != x ensures CoefOf(x', N, |tables|) != i || ModOf(x', N, |tables|) != cm {
      PlaceUnique(x', N, |tables|);
    }
  }

  lemma SummedNext(out: seq<uint64>, limbs: seq<uint64>, c: nat, tables: seq<NttTables>, N: nat, i: nat, j: nat)
    requires N > 0 && |tables| > 0 && Positive(tables) && Summed(out, limbs, c, tables, N, i, j, |tables|)
    ensures Summed(out, limbs, c, tables, N, i, j + 1, 0)
  {
    hide CoefOf, SumAt;
    forall x: nat | x < |out| ensures ModOf(x, N, |tables|) < |tables| { }
  }

  lemma SummedCoefficient(out: seq<uint64>, limbs: seq<uint64>, c: nat, tables: seq<NttTables>, N: nat, i: nat)
    requires N > 0 && |tables| > 0 && Positive(tables) && Summed(out, limbs, c, tables, N, i, c, 0)
    ensures Summed(out, limbs, c, tables, N, i + 1, 0, 0)
  {
    hide CoefOf, ModOf, SumAt;
  }

  /** 2^(56j) modulo every modulus. */
  method Multipliers(tables: seq<NttTables>, c: nat) returns (multiplier: seq<seq<uint64>>)
    requires Positive(tables) && c > 0
    ensures |multiplier| == |tables|
    ensures forall cm :: 0 <= cm < |tables| ==> IsMultipliers(multiplier[cm], c, tables[cm].p)
  {
    multiplier := [];
    for cm := 0 to |tables|
      invariant |multiplier| == cm
      invariant forall m :: 0 <= m < cm ==> IsMultipliers(multiplier[m], c, tables[m].p)
    {
      var row := MultiplierRow(c, tables[cm].p);
      multiplier := multiplier + [row];
    }
  }

  ghost predicate IsMultipliers(row: seq<uint64>, c: nat, p: uint64) {
    p > 0 && |row| == c && forall j :: 0 <= j < c ==> row[j] == Exp2(56 * j) % p
  }

  method MultiplierRow(c: nat, p: uint64) returns (row: seq<uint64>)
    requires c > 0 && 1 < p
    ensures IsMultipliers(row, c, p)
  {
    hide Exp2;
    assert Exp2(0) == 1 by { PowerZero(); }
    SmallMod(1, p);
    row := [1];
    for j := 1 to c
      invariant |row| == j && forall k :: 0 <= k < j ==> row[k] == Exp2(56 * k) % p
    {
      NextMultiplier(j, p);
      row := row + [MulMod(row[j - 1], 0x100_0000_0000_0000, p)];
    }
  }

  lemma PowerZero()
    ensures Exp2(0) == 1
  {
  }

  lemma NextMultiplier(j: nat, p: uint64)
    requires j >= 1 && p > 0
    ensures ((Exp2(56 * (j - 1)) % p) * 0x100_0000_0000_0000) % p == Exp2(56 * j) % p
  {
    hide Exp2;
    var m := Exp2(56 * (j - 1));
    Exp56();
    Exp2Add(56 * (j - 1), 56);
    CongMod(m, p);
    CongScale(m % p, m, 0x100_0000_0000_0000, p);
  }

  /** One limb is added to the residues of coefficient i, for all moduli. */
  method AddLimb(limbs: seq<uint64>, out: array<uint64>, c: nat, tables: seq<NttTables>, N: nat, i: nat, j: nat,
                 ptr: nat, multiplier: seq<seq<uint64>>)
    requires N > 0 && |tables| > 0 && Positive(tables) && j < c <= 8 && i * c + c <= |limbs|
    requires |multiplier| == |tables|
    requires forall cm :: 0 <= cm < |tables| ==> IsMultipliers(multiplier[cm], c, tables[cm].p)
    requires Summed(out[..], limbs, c, tables, N, i, j, 0)
    requires ptr == Start(i, N, |tables|) && ptr + |tables| * N < out.Length + N && ptr < out.Length
    modifies out
    ensures Summed(out[..], limbs, c, tables, N, i, j + 1, 0)
  {
    hide Summed, CrtTerm, Start, IsMultipliers;
    for cm := 0 to |tables|
      invariant Summed(out[..], limbs, c, tables, N, i, j, cm)
    {
      MulMono(cm, |tables| - 1, N);
      assert (|tables| - 1) * N == |tables| * N - N;
      ghost var before := out[..];
      SummedStep(before, limbs, c, tables, N, i, j, cm, ptr + cm * N);
      TermIs(limbs[i * c + j], multiplier[cm], j, c, tables[cm].p);
      out[ptr + cm * N] := out[ptr + cm * N] + MulMod(limbs[i * c + j], multiplier[cm][j], tables[cm].p);
      assert out[..] == before[ptr + cm * N := before[ptr + cm * N] + CrtTerm(limbs[i * c + j], j, tables[cm].p)];
    }
    SummedNext(out[..], limbs, c, tables, N, i, j);
  }

  lemma TermIs(limb: uint64, row: seq<uint64>, j: nat, c: nat, p: uint64)
    requires IsMultipliers(row, c, p) && j < c
    ensures |row| == c && MulMod(limb, row[j], p) == CrtTerm(limb, j, p)
  {
  }

  /** Room for the residues of every coefficient below n. */
  lemma StartRoom(i: nat, n: nat, polys: nat, N: nat, nb: nat, len: nat)
    requires N > 0 && nb > 0 && i < n <= polys * N && polys * (nb * N) <= len
    ensures Start(i, N, nb) + nb * N < len + N && Start(i, N, nb) < len
  {
    DivModEq(i, N);
    if i / N >= polys { MulMono(polys, i / N, N); }
    MulMono(i / N + 1, polys, nb * N);
    assert (i / N + 1) * (nb * N) == (i / N) * (nb * N) + nb * N;
    assert N * nb == nb * N;
    MulMono(1, nb, N);
  }

  /** internalLongIntegersToCRT: no sum of up to eight reduced products overflows. */
  method LongIntegersToCrt(limbs: seq<uint64>, out: array<uint64>, c: nat, total: nat, tables: seq<NttTables>, N: nat,
                           ghost polys: nat)
    requires N > 0 && |tables| > 0 && Positive(tables) && 0 < c <= 8 && total * c <= |limbs|
    requires total <= polys * N && polys * (|tables| * N) <= out.Length
    requires forall x :: 0 <= x < out.Length ==> out[x] == 0
    modifies out
    ensures Summed(out[..], limbs, c, tables, N, total, 0, 0)
  {
    hide Summed, Start, IsMultipliers;
    var multiplier := Multipliers(tables, c);
    SummedStart(out[..], limbs, c, tables, N);
    var ptr := 0;
    StartZero(N, |tables|);
    for i := 0 to total
      invariant ptr == Start(i, N, |tables|) && Summed(out[..], limbs, c, tables, N, i, 0, 0)
    {
      StartRoom(i, total, polys, N, |tables|, out.Length);
      MulMono(i + 1, total, c);
      assert (i + 1) * c == i * c + c;
      for j := 0 to c
        invariant Summed(out[..], limbs, c, tables, N, i, j, 0)
      {
        AddLimb(limbs, out, c, tables, N, i, j, ptr, multiplier);
      }
      SummedCoefficient(out[..], limbs, c, tables, N, i);
      StartNext(i, N, |tables|);
      ptr := ptr + 1;
      if (i + 1) % N == 0 { ptr := ptr + N * (|tables| - 1); }
    }
  }

  lemma StartZero(N: nat, nb: nat)
    requires N > 0 && nb > 0
    ensures Start(0, N, nb) == 0
  {
    SmallMod(0, N);
  }
}
