/** Packing and cutting are inverse to each other, and the two serializers write the same bytes. */
module Repacking {
  import opened Arith
  import opened Words
  import opened ByteStrings
  import opened Fields
  import opened Splitter
  import opened Serializer
  import opened CrtData
  import opened Lwe

  // ------------------------------------------------------ cutting what was packed

  /** The fields of a packed integer are the values that went in. */
  lemma {:induction false} UnpackPacked(v: seq<nat>, w: seq<nat>, n: nat, i: nat)
    requires Fits(v, w) && i < n <= |v|
    ensures Bits(Packed(v, w, n), Offset(w, i), w[i]) == v[i]
  {
    hide Bits, Exp2, Offset, Packed;
    PackedNext(v, w, n - 1);
    PackedBound(v, w, n - 1);
    var U, o, x := Packed(v, w, n - 1), Offset(w, n - 1), v[n - 1];
    if i < n - 1 {
      UnpackPacked(v, w, n - 1, i);
      OffsetNext(w, i);
      OffsetMonotone(w, i + 1, n - 1);
      BitsLow(U, x, o, Offset(w, i), w[i]);
    } else {
      BitsHigh(U, x, o, 0, w[i]);
      BitsAll(x, w[i]);
    }
  }

  lemma CutPacked(v: seq<nat>, w: seq<nat>)
    requires Fits(v, w)
    ensures CutFrom(Packed(v, w, |v|), v, w)
  {
    hide Bits, Exp2, Offset, Packed;
    forall i | 0 <= i < |v| ensures v[i] == Bits(Packed(v, w, |v|), Offset(w, i), w[i]) {
      UnpackPacked(v, w, |v|, i);
    }
  }

  // ------------------------------------------------------------ 32-bit blocks

  /** The offsets of the serializer are those of the fields. */
  lemma {:induction false} BlockOffset(B: nat, n: nat, i: nat)
    requires B > 0 && i <= n
    ensures Offset(BlockWidths(B, n), i) == FieldOff(B, 32, i)
  {
    hide FieldOff, FieldSize, FieldCount;
    if i == 0 {
      FieldOffZero(B);
    } else {
      BlockOffset(B, n, i - 1);
      FieldNext(B, 32, i - 1);
    }
  }

  lemma FieldOffZero(B: nat)
    requires B > 0
    ensures FieldOff(B, 32, 0) == 0
  {
    SmallMod(0, FieldCount(B, 32));
  }

  lemma {:induction false} LimbBits(x: nat, k: nat, s: nat)
    requires s < k
    ensures Limbs(x, k)[s] == Bits(x, 32 * s, 32)
    decreases k
  {
    Exp32();
    if s == 0 {
      assert Exp2(0) == 1;
      assert x / 1 == x;
    } else {
      LimbBits(x / 0x1_0000_0000, k - 1, s - 1);
      Exp2Add(32, 32 * (s - 1));
      NestedDiv(x, 0x1_0000_0000, Exp2(32 * (s - 1)));
    }
  }

  lemma Exp32()
    ensures Exp2(32) == 0x1_0000_0000
  {
    hide Exp2;
    Exp8();
    Exp2Add(8, 8);
    Exp2Add(16, 16);
  }

  lemma {:induction false} AllLimbsAt(v: seq<nat>, k: nat, i: nat, s: nat)
    requires i < |v| && s < k
    ensures 0 <= i * k + s < |v| * k && AllLimbs(v, k)[i * k + s] == Limbs(v[i], k)[s]
  {
    var n := |v| - 1;
    MulMono(i + 1, |v|, k);
    assert (i + 1) * k == i * k + k;
    assert |v| * k == n * k + k;
    MulMono(0, i, k);
    if i < n {
      AllLimbsAt(v[..n], k, i, s);
    }
  }

  /** A block of a coefficient below 2^B has only the bits of its field. */
  lemma BlockBits(x: nat, B: nat, s: nat)
    requires B > 0 && s < FieldCount(B, 32) && x < Exp2(B)
    ensures Bits(x, 32 * s, 32) == Bits(x, 32 * s, FieldSize(B, 32, s))
  {
    hide Bits, Exp2;
    var z := FieldSize(B, 32, s);
    if z < 32 {
      BitsSplit(x, 32 * s, z, 32 - z);
      BitsAbove(x, 32 * s + z, 32 - z, B);
    }
  }

  lemma BlockField(B: nat, i: nat, s: nat)
    requires B > 0 && s < FieldCount(B, 32)
    ensures 0 <= i * FieldCount(B, 32) && FieldOff(B, 32, i * FieldCount(B, 32) + s) == i * B + 32 * s
    ensures (i * FieldCount(B, 32) + s) % FieldCount(B, 32) == s
    ensures 32 * s + FieldSize(B, 32, s) <= B
  {
    var c := FieldCount(B, 32);
    CountPositive(B, 32);
    MulMono(0, i, c);
    DivModUnique(i * c + s, i, s, c);
  }

  lemma BlockOfPacked(V: nat, v: seq<nat>, B: nat, j: nat)
    requires B > 0 && CutFrom(V, v, Widths(B, |v|)) && Fits(v, Widths(B, |v|)) && j < |v| * FieldCount(B, 32)
    ensures AllLimbs(v, FieldCount(B, 32))[j] == Bits(V, FieldOff(B, 32, j), FieldSize(B, 32, j % FieldCount(B, 32)))
  {
    hide Bits, Exp2, FieldOff, FieldSize, FieldCount, AllLimbs, Limbs, Offset, CutFrom;
    var c := FieldCount(B, 32);
    DivModEq(j, c);
    var i, s := j / c, j % c;
    if i >= |v| { MulMono(|v|, i, c); }
    BlockField(B, i, s);
    AllLimbsAt(v, c, i, s);
    LimbBits(v[i], c, s);
    BlockBits(v[i], B, s);
    CutAt(V, v, Widths(B, |v|), i);
    WidthsOffset(B, |v|, i);
    BitsOfBits(V, i * B, B, 32 * s, FieldSize(B, 32, s));
  }

  /** The 32-bit words of coefficients, packed block by block, are the packed coefficients. */
  lemma BlocksPack(v: seq<nat>, B: nat)
    requires B > 0 && Fits(v, Widths(B, |v|))
    ensures Fits(AllLimbs(v, FieldCount(B, 32)), BlockWidths(B, |v| * FieldCount(B, 32)))
    ensures Packed(AllLimbs(v, FieldCount(B, 32)), BlockWidths(B, |v| * FieldCount(B, 32)), |v| * FieldCount(B, 32))
      == Packed(v, Widths(B, |v|), |v|)
  {
    hide Bits, Exp2, FieldOff, FieldSize, FieldCount, AllLimbs, Offset, Packed;
    var c, n := FieldCount(B, 32), |v|;
    var V := Packed(v, Widths(B, n), n);
    CutPacked(v, Widths(B, n));
    var u := AllLimbs(v, c);
    var w := BlockWidths(B, |u|);
    forall j | 0 <= j < |u| ensures u[j] == Bits(V, Offset(w, j), w[j]) && u[j] < Exp2(w[j]) {
      BlockOfPacked(V, v, B, j);
      BlockOffset(B, |u|, j);
      BitsBound(V, Offset(w, j), w[j]);
    }
    PackBits(V, u, w, |u|);
    BlockOffset(B, |u|, |u|);
    FieldShift(B, 32, 0, n);
    FieldOffZero(B);
    PackedBound(v, Widths(B, n), n);
    WidthsOffset(B, n, n);
    BitsAll(V, n * B);
  }

  // --------------------------------------------------- splitting and serializing

  /** The splitter's chunks, packed again, are the bits they came from. */
  lemma ChunksPack(V: nat, B: nat, v: seq<nat>, from: nat)
    requires B > 0 && forall i :: 0 <= i < |v| ==> v[i] == Chunk(V, B, from + i)
    ensures Fits(v, Widths(B, |v|))
    ensures 0 <= from * B && 0 <= |v| * B
    ensures Packed(v, Widths(B, |v|), |v|) == Bits(V, from * B, |v| * B)
  {
    hide Bits, Exp2, Offset, Packed;
    var n := |v|;
    MulMono(0, from, B);
    MulMono(0, n, B);
    var U := Bits(V, from * B, n * B);
    forall i | 0 <= i < n ensures v[i] == Bits(U, Offset(Widths(B, n), i), B) && v[i] < Exp2(B) {
      WidthsOffset(B, n, i);
      MulMono(i + 1, n, B);
      MulMono(0, i, B);
      assert (i + 1) * B == i * B + B;
      assert (from + i) * B == from * B + i * B;
      BitsOfBits(V, from * B, n * B, i * B, B);
      BitsBound(V, (from + i) * B, B);
    }
    PackBits(U, v, Widths(B, n), n);
    WidthsOffset(B, n, n);
    BitsBound(V, from * B, n * B);
    BitsAll(U, n * B);
  }

  /** Pack/unpack round trip: the splitter's limbs of up to 56 bits, serialized again, give the
      bits of the input. */
  lemma SplitThenSerialize(V: nat, B: nat, n: nat)
    requires 0 < B <= 56
    ensures 0 <= n * B && Fits(Limbs56(V, B, n), Widths(B, n)) && Progress(B, n)
    ensures Packed(Limbs56(V, B, n), Widths(B, n), n) == Bits(V, 0, n * B)
  {
    hide Bits, Exp2, Packed, Fits, FitsWord, Limb;
    forall i | 0 <= i < n ensures Limb(V, B, i) == Chunk(V, B, 0 + i) { OneLimb(V, B, i); }
    ChunksPack(V, B, Limbs56(V, B, n), 0);
    WidthsThatProgress(B);
  }

  lemma OneLimb(V: nat, B: nat, i: nat)
    requires 0 < B <= 56
    ensures Limb(V, B, i) == Chunk(V, B, i)
  {
    hide Bits;
    assert FieldCount(B, 56) == 1;
    DivModUnique(i, i, 0, 1);
  }

  /** The same for wider chunks: limbs added up to chunks, chunks written as 32-bit words. */
  lemma SplitThenSerializeWide(V: nat, B: nat, limbs: seq<uint64>, v: seq<nat>)
    requires B > 0 && limbs == Limbs56(V, B, |limbs|) && |v| * FieldCount(B, 56) <= |limbs|
    requires forall i: nat :: i < |v| ==> i * FieldCount(B, 56) + FieldCount(B, 56) <= |limbs|
    requires forall i: nat :: i < |v| ==> v[i] == LimbSum(limbs, i, FieldCount(B, 56), FieldCount(B, 56))
    ensures 0 <= |v| * B && Fits(AllLimbs(v, FieldCount(B, 32)), BlockWidths(B, |v| * FieldCount(B, 32)))
    ensures Packed(AllLimbs(v, FieldCount(B, 32)), BlockWidths(B, |v| * FieldCount(B, 32)), |v| * FieldCount(B, 32))
      == Bits(V, 0, |v| * B)
  {
    hide Bits, Exp2, Packed, Fits, LimbSum, Limbs56, FieldCount, AllLimbs, BlockWidths;
    forall i: nat | i < |v| ensures v[i] == Chunk(V, B, 0 + i) {
      LimbsOfChunk(V, B, limbs, i, FieldCount(B, 56));
    }
    ChunksPack(V, B, v, 0);
    BlocksPack(v, B);
  }
}
