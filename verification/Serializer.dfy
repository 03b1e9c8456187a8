/** Packing of coefficients into a byte buffer: each one is or-ed into the 64-bit word at a
    byte pointer that follows the number of bits written. */
module Serializer {
  import opened Arith
  import opened BitOps
  import opened ByteStrings
  import opened Fields

  // ------------------------------------------------------- what packing means

  /** Bits in the first k fields. */
  function Offset(w: seq<nat>, k: nat): nat
    requires k <= |w|
  {
    if k == 0 then 0 else Offset(w, k - 1) + w[k - 1]
  }

  /** The first k values, each at the offset of its field. */
  function Packed(v: seq<nat>, w: seq<nat>, k: nat): nat
    requires k <= |v| && k <= |w|
  {
    if k == 0 then 0 else Packed(v, w, k - 1) + v[k - 1] * Exp2(Offset(w, k - 1))
  }

  /** Every value fits its field. */
  ghost predicate Fits(v: seq<nat>, w: seq<nat>) {
    |v| == |w| && forall i :: 0 <= i < |v| ==> v[i] < Exp2(w[i])
  }

  lemma {:induction false} PackedBound(v: seq<nat>, w: seq<nat>, k: nat)
    requires Fits(v, w) && k <= |v|
    ensures Packed(v, w, k) < Exp2(Offset(w, k))
  {
    hide Exp2, Offset, Packed;
    if k > 0 {
      PackedBound(v, w, k - 1);
      OffsetNext(w, k - 1);
      PackedNext(v, w, k - 1);
      AppendBound(Packed(v, w, k - 1), v[k - 1], Offset(w, k - 1), w[k - 1]);
    } else {
      PackedZero(v, w);
    }
  }

  lemma AppendBound(P: nat, x: nat, o: nat, t: nat)
    requires P < Exp2(o) && x < Exp2(t)
    ensures P + x * Exp2(o) < Exp2(o + t)
  {
    hide Exp2;
    Exp2Add(o, t);
    MulMono(x + 1, Exp2(t), Exp2(o));
  }

  lemma {:induction false} OffsetMonotone(w: seq<nat>, i: nat, k: nat)
    requires i <= k <= |w|
    ensures Offset(w, i) <= Offset(w, k)
  {
    if i < k { OffsetMonotone(w, i, k - 1); }
  }

  /** Each value is the range of bits of V that its field covers. */
  ghost predicate CutFrom(V: nat, v: seq<nat>, w: seq<nat>) {
    |v| == |w| && forall i :: 0 <= i < |v| ==> v[i] == Bits(V, Offset(w, i), w[i])
  }

  lemma CutAt(V: nat, v: seq<nat>, w: seq<nat>, i: nat)
    requires CutFrom(V, v, w) && i < |v|
    ensures |v| == |w| && v[i] == Bits(V, Offset(w, i), w[i])
  {
    hide Bits, Offset;
  }

  /** Cutting V into consecutive fields and packing them again gives the low bits of V. */
  lemma {:induction false} PackBits(V: nat, v: seq<nat>, w: seq<nat>, k: nat)
    requires CutFrom(V, v, w) && k <= |v| == |w|
    ensures Packed(v, w, k) == Bits(V, 0, Offset(w, k))
  {
    hide Bits, Exp2, CutFrom, Offset, Packed;
    if k == 0 {
      EmptyBits(V);
      PackedZero(v, w);
      OffsetZero(w);
    } else {
      PackBits(V, v, w, k - 1);
      OffsetNext(w, k - 1);
      PackedNext(v, w, k - 1);
      CutAt(V, v, w, k - 1);
      AppendBits(V, Offset(w, k - 1), w[k - 1]);
    }
  }

  lemma AppendBits(V: nat, o: nat, t: nat)
    ensures Bits(V, 0, o) + Bits(V, o, t) * Exp2(o) == Bits(V, 0, o + t)
  {
    BitsSplit(V, 0, o, t);
  }

  lemma OffsetNext(w: seq<nat>, i: nat)
    requires i < |w|
    ensures Offset(w, i + 1) == Offset(w, i) + w[i]
  {
  }

  lemma PackedNext(v: seq<nat>, w: seq<nat>, i: nat)
    requires i < |v| && i < |w|
    ensures Packed(v, w, i + 1) == Packed(v, w, i) + v[i] * Exp2(Offset(w, i))
  {
  }

  lemma EmptyBits(V: nat)
    ensures Bits(V, 0, 0) == 0
  {
    assert Exp2(0) == 1;
    DivModUnique(V / Exp2(0), V / Exp2(0), 0, 1);
  }

  // ------------------------------------------------------------- one or-ing

  /** Above the bits written so far, the buffer is zero. */
  lemma TopWord(s: seq<byte>, pos: nat, bw: nat)
    requires pos + 8 <= |s| && Value(s) < Exp2(8 * pos + bw)
    ensures ReadWord(s, pos) < Exp2(bw)
  {
    hide Exp2, Value;
    SliceValue(s, pos, 8);
    Exp2Add(8 * pos, bw);
    var r, b, E, F := ReadWord(s, pos), Value(s[pos + 8..]), Exp2(64), Exp2(8 * pos);
    assert r + b * E >= r by { MulMono(0, b, E); }
    if r >= Exp2(bw) {
      MulMono(Exp2(bw), r + b * E, F);
    }
  }

  lemma OrValue(s: seq<byte>, pos: nat, x: nat, bw: nat)
    requires pos + 8 <= |s| && Value(s) < Exp2(8 * pos + bw) && x * Exp2(bw) + Exp2(bw) <= Exp2(64)
    ensures Or(ReadWord(s, pos), x * Exp2(bw)) < Exp2(64)
    ensures Value(WriteWord(s, pos, Or(ReadWord(s, pos), x * Exp2(bw)))) == Value(s) + x * Exp2(8 * pos + bw)
  {
    hide Exp2, Value, Or, WriteWord, ReadWord;
    TopWord(s, pos, bw);
    var r := ReadWord(s, pos);
    OrDisjoint(r, x, bw);
    WriteValue(s, pos, Or(r, x * Exp2(bw)));
    Exp2Add(8 * pos, bw);
    Associate(x, Exp2(bw), Exp2(8 * pos));
  }

  /** *pointer64 |= x << bitswritten. */
  method OrWord(out: array<byte>, pos: nat, x: nat, bw: nat)
    requires pos + 8 <= out.Length && Value(out[..]) < Exp2(8 * pos + bw) && x * Exp2(bw) + Exp2(bw) <= Exp2(64)
    modifies out
    ensures Value(out[..]) == old(Value(out[..])) + x * Exp2(8 * pos + bw)
  {
    hide Exp2, Value, Or, ReadWord, Bytes;
    ghost var s := out[..];
    OrValue(s, pos, x, bw);
    var w := Or(ReadWord(out[..], pos), x * Exp2(bw));
    var bytes := Bytes(w, 8);
    forall k | 0 <= k < 8 { out[pos + k] := bytes[k]; }
    assert out[..] == WriteWord(s, pos, w);
  }

  /** One field more. */
  lemma PackedStep(v: seq<nat>, w: seq<nat>, i: nat, pos: nat, bw: nat)
    requires Fits(v, w) && i < |v| && 8 * pos + bw == Offset(w, i) && bw + w[i] <= 64
    ensures Packed(v, w, i) < Exp2(8 * pos + bw) && v[i] * Exp2(bw) + Exp2(bw) <= Exp2(64)
    ensures Packed(v, w, i + 1) == Packed(v, w, i) + v[i] * Exp2(8 * pos + bw)
  {
    hide Exp2;
    PackedBound(v, w, i);
    Exp2Add(w[i], bw);
    Exp2Monotone(w[i] + bw, 64);
    MulMono(v[i] + 1, Exp2(w[i]), Exp2(bw));
  }

  // -------------------------------------------------------------- 64-bit chunks

  function Widths(B: nat, n: nat): (w: seq<nat>)
    ensures |w| == n && forall i :: 0 <= i < n ==> w[i] == B
  {
    seq(n, _ => B)
  }

  lemma {:induction false} WidthsOffset(B: nat, n: nat, k: nat)
    requires k <= n
    ensures Offset(Widths(B, n), k) == k * B
  {
    if k > 0 { WidthsOffset(B, n, k - 1); assert k * B == (k - 1) * B + B; }
  }

  /** Every chunk fits above the bits that precede it in its first byte. */
  ghost predicate Progress(B: nat, n: nat) {
    forall k :: 0 <= k < n ==> FitsWord(B, k)
  }

  predicate FitsWord(B: nat, k: nat) {
    (k * B) % 8 + B <= 64
  }

  lemma PositionBits(total: nat, pos: nat, bw: nat)
    requires total == 8 * pos + bw && bw < 8
    ensures total % 8 == bw
  {
  }

  method SerializeData64(indata: seq<nat>, out: array<byte>, B: nat)
    requires Fits(indata, Widths(B, |indata|)) && Progress(B, |indata|)
    requires Value(out[..]) == 0 && (|indata| > 0 ==> ((|indata| - 1) * B) / 8 + 8 <= out.Length)
    modifies out
    ensures Value(out[..]) == Packed(indata, Widths(B, |indata|), |indata|)
  {
    hide Exp2, Value, Packed, Fits, FitsWord;
    var n := |indata|;
    ghost var w := Widths(B, n);
    PackedZero(indata, w);
    var i: nat, pos: nat, bw: nat := 0, 0, 0;
    while i < n
      invariant i <= n && Value(out[..]) == Packed(indata, w, i)
      invariant 8 * pos + bw == i * B && bw < 8
    {
      ghost var i0 := i;
      assert bw + B <= 64 by { assert FitsWord(B, i); FitsHere(B, i, pos, bw); }
      while bw + B <= 64
        invariant i0 <= i < n && (i == i0 ==> bw + B <= 64) && Value(out[..]) == Packed(indata, w, i)
        invariant 8 * pos + bw == i * B
        decreases n - i
      {
        WidthsOffset(B, n, i);
        PackedStep(indata, w, i, pos, bw);
        MulMono(i, n - 1, B);
        OrWord(out, pos, indata[i], bw);
        i := i + 1;
        bw := bw + B;
        assert i * B == (i - 1) * B + B;
        if i == n { break; }
      }
      pos := pos + bw / 8;
      bw := bw - 8 * (bw / 8);
    }
  }

  lemma PackedZero(v: seq<nat>, w: seq<nat>)
    ensures Packed(v, w, 0) == 0
  {
  }

  lemma FitsHere(B: nat, i: nat, pos: nat, bw: nat)
    requires FitsWord(B, i) && 8 * pos + bw == i * B && bw < 8
    ensures bw + B <= 64
  {
    PositionBits(i * B, pos, bw);
  }

  // -------------------------------------------------------------- 32-bit blocks

  function BlockWidths(B: nat, n: nat): (w: seq<nat>)
    requires B > 0
    ensures |w| == n && forall i :: 0 <= i < n ==> w[i] == FieldSize(B, 32, i % FieldCount(B, 32))
  {
    seq(n, i requires 0 <= i < n => FieldSize(B, 32, i % FieldCount(B, 32)))
  }

  method SerializeData32(indata: seq<nat>, out: array<byte>, B: nat)
    requires B > 0 && Fits(indata, BlockWidths(B, |indata|))
    requires Value(out[..]) == 0
    requires |indata| > 0 ==> Offset(BlockWidths(B, |indata|), |indata| - 1) / 8 + 8 <= out.Length
    modifies out
    ensures Value(out[..]) == Packed(indata, BlockWidths(B, |indata|), |indata|)
  {
    hide Exp2, Value, Packed, Fits, Offset, FieldSize;
    var n, c := |indata|, FieldCount(B, 32);
    var sizes := seq(c, s requires 0 <= s < c => FieldSize(B, 32, s));
    ghost var w := BlockWidths(B, n);
    PackedZero(indata, w);
    OffsetZero(w);
    var i: nat, pos: nat, bw: nat, sub: nat := 0, 0, 0, 0;
    SmallMod(0, c);
    while i < n
      invariant i <= n && Value(out[..]) == Packed(indata, w, i) && sub == i % c
      invariant 8 * pos + bw == Offset(w, i) && bw < 8
    {
      ghost var i0 := i;
      while bw + sizes[sub] <= 64
        invariant i0 <= i < n && (i == i0 ==> bw < 8) && Value(out[..]) == Packed(indata, w, i) && sub == i % c
        invariant 8 * pos + bw == Offset(w, i)
        decreases n - i
      {
        PackedStep(indata, w, i, pos, bw);
        OffsetMonotone(w, i, n - 1);
        OrWord(out, pos, indata[i], bw);
        OffsetNext(w, i);
        NextField(i, c, sub);
        i := i + 1;
        bw := bw + sizes[sub];
        sub := (sub + 1) % c;
        if i == n { break; }
      }
      pos := pos + bw / 8;
      bw := bw - 8 * (bw / 8);
    }
  }

  lemma OffsetZero(w: seq<nat>)
    ensures Offset(w, 0) == 0
  {
  }

  // ----------------------------------------------- which widths make progress

  /** The index after the inner loop that starts at index i with bw bits in the word. */
  function Filled(B: nat, n: nat, i: nat, bw: nat): (r: nat)
    requires i < n
    ensures i <= r <= n
    decreases n - i
  {
    if bw + B > 64 then i else if i + 1 == n then n else Filled(B, n, i + 1, bw + B)
  }

  /** Index and bits in the word after t rounds of the outer loop of serializeData64. */
  function Rounds(B: nat, n: nat, t: nat): (r: (nat, nat))
    ensures r.0 <= n
  {
    if t == 0 then (0, 0)
    else
      var (i, bw) := Rounds(B, n, t - 1);
      if i >= n then (i, bw) else RoundFrom(B, n, i, bw)
  }

  function RoundFrom(B: nat, n: nat, i: nat, bw: nat): (r: (nat, nat))
    requires i < n
    ensures r.0 <= n
  {
    var j := Filled(B, n, i, bw);
    MulMono(0, j - i, B);
    (j, (bw + (j - i) * B) % 8)
  }

  lemma {:induction false} RoundBits(B: nat, n: nat, t: nat)
    ensures Rounds(B, n, t).1 == (Rounds(B, n, t).0 * B) % 8
  {
    if t > 0 {
      RoundBits(B, n, t - 1);
      var (i, bw) := Rounds(B, n, t - 1);
      if i < n {
        BitsAfter(B, i, Filled(B, n, i, bw), bw);
      }
    }
  }

  lemma BitsAfter(B: nat, i: nat, j: nat, bw: nat)
    requires i <= j && bw == (i * B) % 8
    ensures (bw + (j - i) * B) % 8 == (j * B) % 8
  {
    CongMod(i * B, 8);
    CongAdd(bw, i * B, (j - i) * B, (j - i) * B, 8);
    assert i * B + (j - i) * B == j * B;
  }

  /** A chunk that does not fit is never written. */
  lemma {:induction false} FilledStops(B: nat, n: nat, i: nat, bw: nat, k: nat)
    requires i <= k < n && !FitsWord(B, k) && bw % 8 == (i * B) % 8
    ensures Filled(B, n, i, bw) <= k
    decreases n - i
  {
    if bw + B <= 64 {
      if i == k {
        DivModEq(bw, 8);
      } else {
        CongAdd(bw, i * B, B, B, 8);
        assert (i + 1) * B == i * B + B;
        FilledStops(B, n, i + 1, bw + B, k);
      }
    }
  }

  lemma {:induction false} Stalls(B: nat, n: nat, t: nat, k: nat)
    requires k < n && !FitsWord(B, k)
    ensures Rounds(B, n, t).0 <= k
  {
    if t > 0 {
      Stalls(B, n, t - 1, k);
      RoundBits(B, n, t - 1);
      var (i, bw) := Rounds(B, n, t - 1);
      CongMod(i * B, 8);
      FilledStops(B, n, i, bw, k);
    }
  }

  lemma {:induction false} Advances(B: nat, n: nat, t: nat)
    requires Progress(B, n) && t <= n
    ensures Rounds(B, n, t).0 >= t
  {
    if t > 0 {
      Advances(B, n, t - 1);
      RoundBits(B, n, t - 1);
      var (i, bw) := Rounds(B, n, t - 1);
      if i < n {
        assert FitsWord(B, i);
        assert Filled(B, n, i, bw) >= i + 1;
      }
    }
  }

  /** serializeData64 finishes exactly when every chunk fits: otherwise the outer loop repeats
      the same state forever. */
  lemma FinishesIff(B: nat, n: nat)
    ensures (exists t: nat :: Rounds(B, n, t).0 == n) <==> Progress(B, n)
  {
    if Progress(B, n) {
      Advances(B, n, n);
      assert Rounds(B, n, n).0 == n;
    } else {
      var k :| 0 <= k < n && !FitsWord(B, k);
      forall t: nat ensures Rounds(B, n, t).0 != n { Stalls(B, n, t, k); }
    }
  }

  /** The widths for which any number of chunks can be written. */
  lemma WidthsThatProgress(B: nat)
    ensures (forall n: nat :: Progress(B, n)) <==> (B <= 58 || B == 60 || B == 64)
  {
    if B <= 58 || B == 60 || B == 64 {
      forall n: nat ensures Progress(B, n) {
        forall k | 0 <= k < n ensures FitsWord(B, k) { ResidueOfMultiple(B, k); }
      }
    } else {
      assert !FitsWord(B, 0) || !FitsWord(B, 1) || !FitsWord(B, 2) by {
        if B == 59 { assert !FitsWord(59, 2); }
        if B == 61 { assert !FitsWord(61, 1); }
        if B == 62 { assert !FitsWord(62, 1); }
        if B == 63 { assert !FitsWord(63, 1); }
      }
      assert !Progress(B, 3);
    }
  }

  lemma ResidueOfMultiple(B: nat, k: nat)
    requires B <= 58 || B == 60 || B == 64
    ensures FitsWord(B, k)
  {
    MulMono(0, k, B);
    SmallResidues(k * B);
    if B == 58 {
      TwoDivides(k * 29);
      Associate(2, k, 29);
    } else if B == 60 {
      FourDivides(k * 15);
      Associate(4, k, 15);
    } else if B == 64 {
      EightDivides(k * 8);
      Associate(8, k, 8);
    }
  }

  lemma SmallResidues(x: nat)
    ensures x % 8 <= 7
  {
  }

  lemma TwoDivides(y: nat)
    ensures (2 * y) % 8 <= 6
  {
  }

  lemma FourDivides(y: nat)
    ensures (4 * y) % 8 <= 4
  {
  }

  lemma EightDivides(y: nat)
    ensures (8 * y) % 8 == 0
  {
  }
}
