/** The bit splitter: many byte buffers, read as one long string of bits, are cut into limbs of
    at most 56 bits by a byte pointer that walks through each buffer. */
module Splitter {
  import opened Arith
  import opened Words
  import opened ByteStrings
  import opened Fields

  // ------------------------------------------------------------ the reference

  function Concat(bufs: seq<seq<byte>>): (s: seq<byte>) {
    if bufs == [] then [] else Concat(bufs[..|bufs| - 1]) + bufs[|bufs| - 1]
  }

  /** nB bytes in every buffer. */
  ghost predicate EqualSize(bufs: seq<seq<byte>>, nB: nat) {
    forall i :: 0 <= i < |bufs| ==> |bufs[i]| == nB
  }

  lemma {:induction false} ConcatLength(bufs: seq<seq<byte>>, nB: nat)
    requires EqualSize(bufs, nB)
    ensures |Concat(bufs)| == |bufs| * nB
  {
    if bufs != [] {
      ConcatLength(bufs[..|bufs| - 1], nB);
      assert |bufs| * nB == (|bufs| - 1) * nB + nB;
    }
  }

  lemma {:induction false} ConcatSlice(bufs: seq<seq<byte>>, nB: nat, h: nat)
    requires EqualSize(bufs, nB) && h < |bufs|
    ensures h * nB + nB <= |Concat(bufs)| && Concat(bufs)[h * nB..h * nB + nB] == bufs[h]
  {
    hide Concat;
    var n := |bufs| - 1;
    var front, last := bufs[..n], bufs[n];
    ConcatLast(bufs);
    ConcatLength(front, nB);
    if h < n {
      ConcatSlice(front, nB, h);
      SliceOfPrefix(Concat(front), last, h * nB, nB);
    } else {
      SliceOfSuffix(Concat(front), last);
    }
  }

  lemma ConcatLast(bufs: seq<seq<byte>>)
    requires bufs != []
    ensures Concat(bufs) == Concat(bufs[..|bufs| - 1]) + bufs[|bufs| - 1]
  {
  }

  lemma SliceOfSuffix(s: seq<byte>, t: seq<byte>)
    ensures (s + t)[|s|..|s| + |t|] == t
  {
  }

  lemma SliceOfPrefix(s: seq<byte>, t: seq<byte>, o: nat, len: nat)
    requires o + len <= |s|
    ensures (s + t)[o..o + len] == s[o..o + len]
  {
  }

  /** Limb j of the string of bits: at most 56 bits, the last limb of a chunk takes the rest. */
  function Limb(V: nat, B: nat, j: nat): (r: uint64)
    requires B > 0
    ensures r == Bits(V, FieldOff(B, 56, j), FieldSize(B, 56, j % FieldCount(B, 56)))
    ensures r < 0x100_0000_0000_0000
  {
    LimbRange(V, B, j);
    Bits(V, FieldOff(B, 56, j), FieldSize(B, 56, j % FieldCount(B, 56)))
  }

  lemma LimbRange(V: nat, B: nat, j: nat)
    requires B > 0
    ensures Bits(V, FieldOff(B, 56, j), FieldSize(B, 56, j % FieldCount(B, 56))) < 0x100_0000_0000_0000
  {
    hide Exp2, Bits, FieldSize, FieldOff;
    BitsBound(V, FieldOff(B, 56, j), FieldSize(B, 56, j % FieldCount(B, 56)));
    Exp2Monotone(FieldSize(B, 56, j % FieldCount(B, 56)), 56);
    Exp56();
  }

  lemma Exp56()
    ensures Exp2(56) == 0x100_0000_0000_0000
  {
    hide Exp2;
    Exp2Add(56, 8);
    Exp64();
    Exp8();
  }

  function Limbs56(V: nat, B: nat, n: nat): (r: seq<uint64>)
    requires B > 0
    ensures |r| == n && forall j :: 0 <= j < n ==> r[j] == Limb(V, B, j)
  {
    seq(n, j requires 0 <= j < n => Limb(V, B, j))
  }

  // ------------------------------------------- bits of the string and of a buffer

  lemma BitsInBuffer(bufs: seq<seq<byte>>, nB: nat, h: nat, P: nat, size: nat)
    requires EqualSize(bufs, nB) && h < |bufs| && P + size <= 8 * nB
    ensures Bits(Value(Concat(bufs)), 8 * (h * nB) + P, size) == Bits(Value(bufs[h]), P, size)
  {
    hide Exp2, Value, Bits, Concat, EqualSize;
    ConcatSlice(bufs, nB, h);
    BitsInSlice(Concat(bufs), h * nB, nB, P, size);
  }

  lemma BitsInSlice(s: seq<byte>, pos: nat, len: nat, P: nat, size: nat)
    requires pos + len <= |s| && P + size <= 8 * len
    ensures Bits(Value(s), 8 * pos + P, size) == Bits(Value(s[pos..pos + len]), P, size)
  {
    hide Exp2, Value, Bits;
    SliceValue(s, pos, len);
    var w, b := Value(s[pos..pos + len]), Value(s[pos + len..]);
    BitsHigh(Value(s[..pos]), w + b * Exp2(8 * len), 8 * pos, P, size);
    BitsLow(w, b, 8 * len, P, size);
  }

  /** A range that ends in the next buffer. */
  lemma BitsStraddle(bufs: seq<seq<byte>>, nB: nat, h: nat, rem: nat, size: nat)
    requires EqualSize(bufs, nB) && h + 1 < |bufs| && rem <= size && rem <= 8 * nB && size - rem <= 8 * nB
    ensures Bits(Value(Concat(bufs)), 8 * (h * nB) + (8 * nB - rem), size)
         == Bits(Value(bufs[h]), 8 * nB - rem, rem) + Exp2(rem) * Bits(Value(bufs[h + 1]), 0, size - rem)
  {
    hide Exp2, Value, Bits, Concat, EqualSize;
    var V, off := Value(Concat(bufs)), 8 * (h * nB) + (8 * nB - rem);
    BitsSplit(V, off, rem, size - rem);
    BitsInBuffer(bufs, nB, h, 8 * nB - rem, rem);
    BitsInBuffer(bufs, nB, h + 1, 0, size - rem);
    assert (h + 1) * nB == h * nB + nB;
  }

  /** A range that ends after the last buffer is padded with zeros. */
  lemma BitsAtEnd(bufs: seq<seq<byte>>, nB: nat, rem: nat, size: nat)
    requires EqualSize(bufs, nB) && |bufs| >= 1 && rem <= size && rem <= 8 * nB
    ensures Bits(Value(Concat(bufs)), 8 * ((|bufs| - 1) * nB) + (8 * nB - rem), size)
         == Bits(Value(bufs[|bufs| - 1]), 8 * nB - rem, rem)
  {
    hide Exp2, Value, Bits, Concat, EqualSize;
    var h := |bufs| - 1;
    var V, off := Value(Concat(bufs)), 8 * (h * nB) + (8 * nB - rem);
    BitsSplit(V, off, rem, size - rem);
    BitsInBuffer(bufs, nB, h, 8 * nB - rem, rem);
    ConcatLength(bufs, nB);
    ValueBound(Concat(bufs));
    assert (h + 1) * nB == h * nB + nB;
    BitsAbove(V, off + rem, size - rem, 8 * (|bufs| * nB));
  }
}
