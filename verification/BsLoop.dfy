/** bs_loop and bitsplitter: the pointer walk through the buffers, as it is coded. Positions are
    byte offsets into the current buffer; bitstoread wraps around like the 64-bit word it is. */
module BsLoop {
  import opened Arith
  import opened BitOps
  import opened Words
  import opened ByteStrings
  import opened Fields
  import opened Flat
  import opened Splitter

  // --------------------------------------------- how many limbs a buffer holds

  /** Starting with limb t, total limbs fit into the D bits that are left in this buffer, and
      rem bits of the next limb remain. */
  ghost predicate Holds(B: nat, t: nat, D: nat, total: nat, rem: nat)
    requires B > 0
  {
    && FieldOff(B, 56, t + total) + rem == FieldOff(B, 56, t) + D
    && rem < FieldSize(B, 56, (t + total) % FieldCount(B, 56))
  }

  /** The complete subchunks that fit into E bits, less than a chunk, from subchunk sub on. */
  method Supplemental(E: nat, B: nat, sub: nat, ghost t: nat) returns (supplemental: nat, cumulated: nat)
    requires B > 0 && E < B && sub == t % FieldCount(B, 56)
    ensures cumulated <= E && Holds(B, t, E, supplemental, E - cumulated)
  {
    hide FieldOff, FieldSize;
    var c := FieldCount(B, 56);
    supplemental, cumulated := 0, 0;
    var i := 0;
    while i < c
      invariant 0 <= i == supplemental <= c && cumulated <= E
      invariant FieldOff(B, 56, t + supplemental) == FieldOff(B, 56, t) + cumulated
    {
      SubchunkIndex(t, sub, i, c);
      FieldNext(B, 56, t + i);
      if cumulated + FieldSize(B, 56, (sub + i) % c) <= E {
        supplemental := supplemental + 1;
        cumulated := cumulated + FieldSize(B, 56, (sub + i) % c);
      } else {
        break;
      }
      i := i + 1;
    }
    if supplemental == c { WholeChunk(B, t); assert false; }
  }

  lemma WholeChunk(B: nat, t: nat)
    requires B > 0
    ensures FieldOff(B, 56, t + FieldCount(B, 56)) == FieldOff(B, 56, t) + B
  {
    FieldShift(B, 56, t, 1);
  }

  /** Whole chunks first, then the supplemental subchunks. */
  method CountSubchunks(D: nat, B: nat, sub: nat, ghost t: nat) returns (total: nat, rem: nat)
    requires B > 0 && sub == t % FieldCount(B, 56)
    ensures Holds(B, t, D, total, rem)
  {
    hide FieldOff, FieldSize, Holds, FieldCount;
    var nbChunks := D / B;
    DivModEq(D, B);
    var E := D - nbChunks * B;
    var supplemental, cumulated := Supplemental(E, B, sub, t);
    MulMono(0, nbChunks, FieldCount(B, 56));
    total := nbChunks * FieldCount(B, 56) + supplemental;
    rem := E - cumulated;
    HoldsMore(B, t, E, supplemental, rem, nbChunks);
  }

  lemma HoldsMore(B: nat, t: nat, E: nat, k: nat, rem: nat, m: nat)
    requires B > 0 && Holds(B, t, E, k, rem)
    ensures 0 <= m * FieldCount(B, 56) && 0 <= m * B && Holds(B, t, E + m * B, m * FieldCount(B, 56) + k, rem)
  {
    hide FieldOff, FieldSize;
    MulMono(0, m, B);
    FieldShift(B, 56, t + k, m);
    assert t + k + m * FieldCount(B, 56) == t + (m * FieldCount(B, 56) + k);
  }

  lemma SubchunkIndex(t: nat, sub: nat, i: nat, c: nat)
    requires c > 0 && sub == t % c
    ensures (sub + i) % c == (t + i) % c
  {
    CongMod(t, c);
    CongAdd(sub, t, i, i, c);
  }

  // -------------------------------------------------------- moving the pointer

  /** Where the pointer is: P bits of the buffer are consumed, br of them in the current word. */
  ghost predicate At(pos: nat, br: nat, bitstoread: uint64, P: nat, R: nat, bpb: nat) {
    && 8 * pos + br == P && br <= 64 && P <= bpb < W64 && R < 56 && 8 * pos <= bpb
    && bitstoread == Wrap(bpb - R - 8 * pos)
  }

  /** The pointer move after each group of limbs, for a next limb of size bits. */
  method MovePointer(pos0: nat, br0: nat, bitstoread0: uint64, size: nat, bpb: nat,
                     ghost P: nat, ghost R: nat, ghost rem: nat, ghost nB: nat)
    returns (pos: nat, br: nat, bitstoread: uint64)
    requires At(pos0, br0, bitstoread0, P, R, bpb) && 1 <= size <= 56 && 64 <= bpb == 8 * nB
    requires 8 * pos0 + 64 <= bpb
    ensures At(pos, br, bitstoread, P, R, bpb) && 8 * pos + br == P && br <= 64
    ensures P + size <= bpb ==> br + size <= 64 && 8 * pos + 64 <= bpb
    ensures rem < size && P + rem == bpb ==> br + rem <= 64
  {
    hide At, Wrap;
    pos, br, bitstoread := pos0, br0, bitstoread0;
    AtFacts(pos, br, bitstoread, P, R, bpb);
    if bitstoread > 128 {
      var shift := br / 8;
      AtShift(pos, br, bitstoread, P, R, bpb, shift);
      pos := pos + shift;
      bitstoread := bitstoread - 8 * shift;
      br := br - 8 * shift;
    } else {
      while 64 - br < size && bitstoread > 0
        invariant At(pos, br, bitstoread, P, R, bpb) && 8 * pos + br == P && br <= 64
        invariant 8 * pos + 64 <= bpb || 8 * pos < P + size - 64 + 8
        decreases br
      {
        AtStep(pos, br, bitstoread, P, R, bpb);
        pos := pos + 1;
        br := br - 8;
        bitstoread := Wrap(bitstoread - 8);
      }
      AtFacts(pos, br, bitstoread, P, R, bpb);
    }
  }

  lemma AtFacts(pos: nat, br: nat, bitstoread: uint64, P: nat, R: nat, bpb: nat)
    requires At(pos, br, bitstoread, P, R, bpb)
    ensures 8 * pos + br == P <= bpb && br <= 64 && R < 56
    ensures bitstoread == 0 ==> 8 * pos + R == bpb
    ensures 8 * pos + 64 <= bpb ==> bitstoread == bpb - R - 8 * pos
  {
  }

  lemma AtShift(pos: nat, br: nat, bitstoread: uint64, P: nat, R: nat, bpb: nat, shift: nat)
    requires At(pos, br, bitstoread, P, R, bpb) && 8 * pos + 64 <= bpb && 8 * shift <= br && bitstoread > 128
    ensures At(pos + shift, br - 8 * shift, bitstoread - 8 * shift, P, R, bpb)
  {
  }

  lemma AtStep(pos: nat, br: nat, bitstoread: uint64, P: nat, R: nat, bpb: nat)
    requires At(pos, br, bitstoread, P, R, bpb) && br >= 8
    ensures At(pos + 1, br - 8, Wrap(bitstoread - 8), P, R, bpb)
  {
  }

  // ------------------------------------------------------------ the limb loop

  lemma ReadLimb(bufs: seq<seq<byte>>, nB: nat, h: nat, pos: nat, br: nat, B: nat, j: nat)
    requires B > 0 && EqualSize(bufs, nB) && h < |bufs| && pos + 8 <= nB
    requires FieldOff(B, 56, j) == 8 * (h * nB) + 8 * pos + br
    requires br + FieldSize(B, 56, j % FieldCount(B, 56)) <= 64
    ensures And(Shr(ReadWord(bufs[h], pos), br), Ones(FieldSize(B, 56, j % FieldCount(B, 56))))
         == Limb(Value(Concat(bufs)), B, j)
  {
    hide Exp2, Value, Concat, And, FieldOff, FieldSize;
    var size := FieldSize(B, 56, j % FieldCount(B, 56));
    AndMask(Shr(ReadWord(bufs[h], pos), br), size);
    ReadBits(bufs[h], pos, br, size);
    BitsInBuffer(bufs, nB, h, 8 * pos + br, size);
  }

  /** Limb j starts at bit P of buffer h. */
  ghost predicate Starts(B: nat, j: nat, h: nat, nB: nat, P: int)
    requires B > 0
  {
    FieldOff(B, 56, j) == 8 * (h * nB) + P
  }

  /** *tmpdata = ((*pointer64) >> bitsread) & mask, for limb j. */
  method WriteLimb(bufs: seq<seq<byte>>, nB: nat, h: nat, pos: nat, br: nat, B: nat, sub: nat, out: array<uint64>,
                   j: nat, ghost target: seq<uint64>, ghost Z: seq<uint64>)
    requires B > 0 && EqualSize(bufs, nB) && h < |bufs| && pos + 8 <= nB && sub == j % FieldCount(B, 56)
    requires Starts(B, j, h, nB, 8 * pos + br) && br + FieldSize(B, 56, sub) <= 64 && j < out.Length == |Z|
    requires target == Limbs56(Value(Concat(bufs)), B, out.Length) && out[..] == Blend(target, Z, j)
    modifies out
    ensures out[..] == Blend(target, Z, j + 1)
  {
    hide FieldOff, FieldSize, Blend, Value, Concat, And, Exp2, ReadWord, Limb;
    ReadLimb(bufs, nB, h, pos, br, B, j);
    BlendStep(target, Z, j);
    ghost var before := out[..];
    out[j] := And(Shr(ReadWord(bufs[h], pos), br), Ones(FieldSize(B, 56, sub)));
    assert out[..] == before[j := target[j]];
  }

  /** The inner loop: limbs i, i+1, ... while they fit into the current word. */
  method LimbGroup(bufs: seq<seq<byte>>, nB: nat, B: nat, out: array<uint64>, t: nat, h: nat, i0: nat, total: nat,
                   pos: nat, br0: nat, sub0: nat, ghost R: nat, ghost P0: nat, ghost rem: nat,
                   ghost target: seq<uint64>, ghost Z: seq<uint64>)
    returns (i: nat, br: nat, sub: nat, ghost P: nat)
    requires B > 0 && EqualSize(bufs, nB) && h < |bufs| && pos + 8 <= nB
    requires i0 < total && t + total <= out.Length == |Z| && sub0 == (t + i0) % FieldCount(B, 56)
    requires target == Limbs56(Value(Concat(bufs)), B, out.Length) && out[..] == Blend(target, Z, t + i0)
    requires Starts(B, t + i0, h, nB, P0) && 8 * pos + br0 == P0 && br0 <= 64
    requires Starts(B, t, h, nB, R) && R <= 8 * nB && Holds(B, t, 8 * nB - R, total, rem)
    modifies out
    ensures i0 <= i <= total && sub == (t + i) % FieldCount(B, 56) && out[..] == Blend(target, Z, t + i)
    ensures Starts(B, t + i, h, nB, P) && 8 * pos + br == P <= 8 * nB && br <= 64
    ensures br0 + FieldSize(B, 56, sub0) <= 64 ==> i > i0
    ensures i == i0 ==> br == br0
    ensures i < total ==> P + FieldSize(B, 56, sub) <= 8 * nB
    ensures i == total ==> P + rem == 8 * nB && rem < FieldSize(B, 56, sub)
  {
    hide FieldOff, FieldSize, Blend, Value, Concat, Limb, Starts, Holds, Limbs56, FieldCount, EqualSize;
    i, br, sub, P := i0, br0, sub0, P0;
    var c := FieldCount(B, 56);
    while br + FieldSize(B, 56, sub) <= 64
      invariant i0 <= i < total && sub == (t + i) % c && out[..] == Blend(target, Z, t + i)
      invariant Starts(B, t + i, h, nB, P) && 8 * pos + br == P && br <= 64 && (i == i0 ==> br == br0)
      decreases total - i
    {
      WriteLimb(bufs, nB, h, pos, br, B, sub, out, t + i, target, Z);
      StartsNext(B, t + i, h, nB, P);
      NextField(t + i, c, sub);
      P := P + FieldSize(B, 56, sub);
      br := br + FieldSize(B, 56, sub);
      i := i + 1;
      sub := if sub + 1 == c then 0 else sub + 1;
      if i == total { break; }
    }
    LimbInside(B, t, i, total, rem, h, nB, R, P);
  }

  lemma StartsNext(B: nat, j: nat, h: nat, nB: nat, P: nat)
    requires B > 0 && Starts(B, j, h, nB, P)
    ensures Starts(B, j + 1, h, nB, P + FieldSize(B, 56, j % FieldCount(B, 56)))
  {
    hide FieldOff, FieldSize;
    FieldNext(B, 56, j);
  }

  /** The loop over the subchunks of one buffer. */
  method LimbLoop(bufs: seq<seq<byte>>, nB: nat, B: nat, out: array<uint64>, t: nat, h: nat, R: nat, sub0: nat,
                  total: nat, ghost target: seq<uint64>, ghost Z: seq<uint64>, ghost rem: nat)
    returns (pos: nat, br: nat, sub: nat, ghost P: nat)
    requires B > 0 && EqualSize(bufs, nB) && h < |bufs| && 8 <= nB && 8 * nB < W64 && R < 56
    requires sub0 == t % FieldCount(B, 56) && total >= 1 && t + total <= out.Length == |Z|
    requires target == Limbs56(Value(Concat(bufs)), B, out.Length) && out[..] == Blend(target, Z, t)
    requires Starts(B, t, h, nB, R) && R <= 8 * nB && Holds(B, t, 8 * nB - R, total, rem)
    modifies out
    ensures out[..] == Blend(target, Z, t + total) && sub == (t + total) % FieldCount(B, 56)
    ensures Starts(B, t + total, h, nB, P) && P + rem == 8 * nB && 8 * pos + br == P && br + rem <= 64
    ensures rem < FieldSize(B, 56, sub)
  {
    hide FieldOff, FieldSize, Blend, Value, Concat, Limb, Starts, Holds, Limbs56, FieldCount, EqualSize, At;
    var bpb := 8 * nB;
    var i: nat := 0;
    var bitstoread: uint64 := bpb - R;
    pos, br, sub, P := 0, R, sub0, R;
    AtStart(R, bpb);
    while i < total
      invariant i <= total && sub == (t + i) % FieldCount(B, 56) && out[..] == Blend(target, Z, t + i)
      invariant Starts(B, t + i, h, nB, P) && At(pos, br, bitstoread, P, R, bpb) && 8 * pos + br == P && br <= 64
      invariant i < total ==> 8 * pos + 64 <= bpb
      invariant i == total ==> br + rem <= 64 && P + rem == bpb && rem < FieldSize(B, 56, sub)
      decreases total - i, if br + FieldSize(B, 56, sub) <= 64 then 0 else 1
    {
      ghost var br0, P0 := br, P;
      i, br, sub, P := LimbGroup(bufs, nB, B, out, t, h, i, total, pos, br, sub, R, P, rem, target, Z);
      AtMove(pos, br0, bitstoread, P0, br, P, R, bpb);
      pos, br, bitstoread := MovePointer(pos, br, bitstoread, FieldSize(B, 56, sub), bpb, P, R, rem, nB);
    }
  }

  lemma AtStart(R: nat, bpb: nat)
    requires R < 56 <= bpb < W64
    ensures At(0, R, bpb - R, R, R, bpb)
  {
  }

  lemma AtMove(pos: nat, br: nat, bitstoread: uint64, P: nat, br': nat, P': nat, R: nat, bpb: nat)
    requires At(pos, br, bitstoread, P, R, bpb) && 8 * pos + br' == P' <= bpb && br' <= 64
    ensures At(pos, br', bitstoread, P', R, bpb)
  {
  }

  /** Where limb t + i ends, inside the buffer for a complete limb. */
  lemma LimbInside(B: nat, t: nat, i: nat, total: nat, rem: nat, h: nat, nB: nat, R: nat, P: nat)
    requires B > 0 && i <= total && R <= 8 * nB && Starts(B, t, h, nB, R) && Starts(B, t + i, h, nB, P)
    requires Holds(B, t, 8 * nB - R, total, rem)
    ensures P <= 8 * nB && (i < total ==> P + FieldSize(B, 56, (t + i) % FieldCount(B, 56)) <= 8 * nB)
    ensures i == total ==> P + rem == 8 * nB && rem < FieldSize(B, 56, (t + i) % FieldCount(B, 56))
  {
    hide FieldOff, FieldSize;
    FieldMonotone(B, 56, t + i, t + total);
    if i < total {
      FieldNext(B, 56, t + i);
      FieldMonotone(B, 56, t + i + 1, t + total);
    }
  }

  // ---------------------------------------------------- the limb at the border

  /** Shifting left and masking keeps the low bits of the next buffer. */
  lemma ShiftMask(w: nat, rem: nat, size: nat)
    requires rem <= size <= 64
    ensures And(Wrap(w * Exp2(rem)), Ones(size)) == Bits(w, 0, size - rem) * Exp2(rem)
  {
    hide Exp2, And, Bits, Wrap;
    AndMask(Wrap(w * Exp2(rem)), size);
    WrapMod(w * Exp2(rem), size);
    Exp2Add(rem, size - rem);
    ShiftMod(w, Exp2(rem), Exp2(size - rem));
    LowBitsOf(w, size - rem);
  }

  lemma WrapMod(X: nat, size: nat)
    requires size <= 64
    ensures Wrap(X) % Exp2(size) == X % Exp2(size)
  {
    hide Exp2;
    Exp64();
    Exp2Add(size, 64 - size);
    ModMod(X, Exp2(size), Exp2(64 - size));
  }

  lemma ShiftMod(w: nat, E: nat, F: nat)
    requires E > 0 && F > 0
    ensures E * F > 0 && (w * E) % (E * F) == (w % F) * E
  {
    SplitMod(w * E, E, F);
    DivModUnique(w * E, w, 0, E);
  }

  lemma LowBitsOf(w: nat, s: nat)
    ensures Bits(w, 0, s) == w % Exp2(s)
  {
    assert Exp2(0) == 1;
    assert w / 1 == w;
  }

  /** The low part of the border limb, read from the last word of the buffer. */
  lemma LowPart(buf: seq<byte>, pos: nat, br: nat, rem: nat)
    requires pos + 8 <= |buf| && br + rem <= 64
    ensures And(Shr(ReadWord(buf, pos), br), Ones(rem)) == Bits(Value(buf), 8 * pos + br, rem)
    ensures Bits(Value(buf), 8 * pos + br, rem) < Exp2(rem)
  {
    hide Exp2, And, Value, ReadWord;
    AndMask(Shr(ReadWord(buf, pos), br), rem);
    ReadBits(buf, pos, br, rem);
    BitsBound(Value(buf), 8 * pos + br, rem);
  }

  lemma BorderLimb(bufs: seq<seq<byte>>, nB: nat, h: nat, rem: nat, size: nat, B: nat, j: nat)
    requires B > 0 && EqualSize(bufs, nB) && h < |bufs| && 8 <= nB
    requires rem < size == FieldSize(B, 56, j % FieldCount(B, 56))
    requires rem <= 8 * nB && Starts(B, j, h, nB, 8 * nB - rem)
    ensures h + 1 == |bufs| ==> Limb(Value(Concat(bufs)), B, j) == Bits(Value(bufs[h]), 8 * nB - rem, rem)
    ensures h + 1 < |bufs| ==>
      Limb(Value(Concat(bufs)), B, j)
        == Bits(Value(bufs[h]), 8 * nB - rem, rem) + Exp2(rem) * Bits(Value(bufs[h + 1]), 0, size - rem)
  {
    hide Exp2, Value, Bits, Concat, FieldOff, FieldSize, EqualSize;
    if h + 1 < |bufs| { BitsStraddle(bufs, nB, h, rem, size); } else { BitsAtEnd(bufs, nB, rem, size); }
  }

  /** The part of the border limb that is in buffer h, as it is read. */
  function LowWord(buf: seq<byte>, pos: nat, br: nat, rem: nat): nat
    requires pos + 8 <= |buf|
  {
    And(Shr(ReadWord(buf, pos), br), Ones(rem))
  }

  /** The part that is in the next buffer, shifted to its place. */
  function HighWord(buf: seq<byte>, rem: nat, size: nat): nat
    requires 8 <= |buf|
  {
    And(Wrap(ReadWord(buf, 0) * Exp2(rem)), Ones(size))
  }

  lemma JoinedWords(buf: seq<byte>, next: seq<byte>, pos: nat, br: nat, rem: nat, size: nat)
    requires pos + 8 <= |buf| && 8 <= |next| && br + rem <= 64 && rem <= size <= 56
    ensures Or(LowWord(buf, pos, br, rem), HighWord(next, rem, size))
         == Bits(Value(buf), 8 * pos + br, rem) + Exp2(rem) * Bits(Value(next), 0, size - rem)
  {
    hide Exp2, And, Or, Value, ReadWord, Bits, Wrap, LowWord, HighWord;
    LowWordIs(buf, pos, br, rem);
    BitsBound(Value(buf), 8 * pos + br, rem);
    HighWordIs(next, rem, size);
    OrDisjoint(LowWord(buf, pos, br, rem), Bits(Value(next), 0, size - rem), rem);
  }

  lemma HighWordIs(buf: seq<byte>, rem: nat, size: nat)
    requires 8 <= |buf| && rem <= size <= 56
    ensures HighWord(buf, rem, size) == Bits(Value(buf), 0, size - rem) * Exp2(rem)
  {
    hide Exp2, And, Value, ReadWord, Bits, Wrap;
    ShiftMask(ReadWord(buf, 0), rem, size);
    ReadBits(buf, 0, 0, size - rem);
  }

  /** Moving back so that the partial limb ends with the word lands on the last word. */
  lemma LastWord(pos: nat, br: nat, rem: nat, nB: nat)
    requires 8 * pos + br + rem == 8 * nB && br + rem <= 64 && 8 <= nB
    ensures var shift := (64 - (br + rem)) / 8; pos - shift == nB - 8 && br + 8 * shift + rem == 64
  {
  }

  /** The last partial subchunk of a buffer, completed from the next one if there is one. */
  method Border(bufs: seq<seq<byte>>, nB: nat, B: nat, out: array<uint64>, j: nat, h: nat, pos0: nat, br0: nat,
                sub: nat, rem: nat, ghost target: seq<uint64>, ghost Z: seq<uint64>)
    requires B > 0 && EqualSize(bufs, nB) && h < |bufs| && 8 <= nB && sub == j % FieldCount(B, 56)
    requires 0 < rem < FieldSize(B, 56, sub) && 8 * pos0 + br0 + rem == 8 * nB && br0 + rem <= 64
    requires j < out.Length == |Z| && Starts(B, j, h, nB, 8 * nB - rem)
    requires target == Limbs56(Value(Concat(bufs)), B, out.Length) && out[..] == Blend(target, Z, j)
    modifies out
    ensures out[..] == Blend(target, Z, j + 1)
  {
    hide FieldOff, FieldSize, Blend, Value, Concat, Or, Exp2, Limb, Starts, Bits, LowWord, HighWord;
    var size := FieldSize(B, 56, sub);
    BorderLimb(bufs, nB, h, rem, size, B, j);
    BlendStep(target, Z, j);
    ghost var before := out[..];
    LastWord(pos0, br0, rem, nB);
    var shift := (64 - (br0 + rem)) / 8;
    var br := br0 + 8 * shift;
    var pos := pos0 - shift;
    LowWordIs(bufs[h], pos, br, rem);
    var w := LowWord(bufs[h], pos, br, rem);
    if h + 1 < |bufs| {
      JoinedWords(bufs[h], bufs[h + 1], pos, br, rem, size);
      w := Or(w, HighWord(bufs[h + 1], rem, size));
    }
    out[j] := w;
    assert out[..] == before[j := target[j]];
  }

  lemma LowWordIs(buf: seq<byte>, pos: nat, br: nat, rem: nat)
    requires pos + 8 <= |buf| && br + rem <= 64
    ensures LowWord(buf, pos, br, rem) == Bits(Value(buf), 8 * pos + br, rem)
  {
    LowPart(buf, pos, br, rem);
  }

  // ------------------------------------------------------------- one buffer

  function Largest(B: nat): nat { if B < 56 then B else 56 }

  lemma SizeLimit(B: nat, s: nat)
    requires B > 0 && s < FieldCount(B, 56)
    ensures FieldSize(B, 56, s) <= Largest(B)
  {
    CountPositive(B, 56);
  }

  /** Limb t is the first to start in buffer h, at bit R. */
  ghost predicate FirstIn(B: nat, t: nat, h: nat, nB: nat, R: nat)
    requires B > 0
  {
    Starts(B, t, h, nB, R) && (R == 0 || (t > 0 && R < FieldSize(B, 56, (t - 1) % FieldCount(B, 56))))
  }

  /** What one buffer needs: a word to read, and room for the first limb that starts in it, unless
      the buffer is that one word. */
  predicate Fitting(B: nat, t: nat, nB: nat, R: nat)
    requires B > 0
  {
    nB == 8 || (8 < nB && R + FieldSize(B, 56, t % FieldCount(B, 56)) <= 8 * nB)
  }

  /** Every one of n buffers is so. */
  ghost predicate Walkable(B: nat, nB: nat, n: nat)
    requires B > 0
  {
    8 <= nB && forall h: nat, t: nat, R: nat :: h < n && FirstIn(B, t, h, nB, R) ==> Fitting(B, t, nB, R)
  }

  /** Long enough whatever comes before: one word, or room for a limb after a border limb. */
  predicate LongEnough(nB: nat, B: nat) {
    nB == 8 || (8 <= nB && 8 * nB >= 2 * Largest(B) - 1)
  }

  lemma LongWalkable(B: nat, nB: nat, n: nat)
    requires B > 0 && LongEnough(nB, B)
    ensures Walkable(B, nB, n)
  {
    hide FieldSize, Starts, FieldCount;
    forall h: nat, t: nat, R: nat | h < n && FirstIn(B, t, h, nB, R) ensures Fitting(B, t, nB, R) {
      SizeLimit(B, t % FieldCount(B, 56)) by { SubBelow(t, B); }
      if R > 0 { SizeLimit(B, (t - 1) % FieldCount(B, 56)) by { SubBelow(t - 1, B); } }
    }
  }

  /** A single buffer, as the server imports each file, always meets it. */
  lemma SingleWalkable(B: nat, nB: nat, n: nat)
    requires B > 0 && nB >= 8 && n <= 1
    ensures Walkable(B, nB, n)
  {
    hide FieldSize, FieldOff, FieldCount;
    forall h: nat, t: nat, R: nat | h < n && FirstIn(B, t, h, nB, R) ensures Fitting(B, t, nB, R) {
      if R > 0 { FieldNext(B, 56, t - 1); }
      SubBelow(t, B);
    }
  }

  /** The condition is exact: where it fails, no limb ends in the buffer, and the read at its end
      is taken outside of it, because the pointer moves back by a number that wrapped around. */
  lemma FittingIff(B: nat, t: nat, nB: nat, R: nat, total: nat, rem: nat)
    requires B > 0 && 8 <= nB && R < 56 && R <= 8 * nB < W64 / 8 && Holds(B, t, 8 * nB - R, total, rem)
    ensures Fitting(B, t, nB, R) <==> total > 0 || Wrap(64 - (R + rem)) / 8 <= 0
    ensures !Fitting(B, t, nB, R) ==> total == 0 && rem > 0 && 0 - Wrap(64 - (R + rem)) / 8 < 0
  {
    hide FieldOff, FieldSize, FieldCount;
    if total == 0 {
      FirstDoesNotFit(B, t, 8 * nB - R, rem);
    } else {
      FieldNext(B, 56, t);
      FieldMonotone(B, 56, t + 1, t + total);
    }
  }

  /** bs_loop: the limbs that start in buffer h. done counts the limbs written. */
  method BsLoop(bufs: seq<seq<byte>>, nB: nat, B: nat, out: array<uint64>, t0: nat, h: nat, R0: nat, sub0: nat,
                ghost target: seq<uint64>, ghost Z: seq<uint64>)
    returns (t: nat, R: nat, sub: nat, ghost done: nat)
    requires B > 0 && EqualSize(bufs, nB) && h < |bufs| && Fitting(B, t0, nB, R0) && 8 * nB < W64
    requires sub0 == t0 % FieldCount(B, 56) && t0 <= out.Length == |Z|
    requires target == Limbs56(Value(Concat(bufs)), B, out.Length) && out[..] == Blend(target, Z, t0)
    requires FirstIn(B, t0, h, nB, R0) && 8 * (|bufs| * nB) <= FieldOff(B, 56, out.Length)
    modifies out
    ensures done <= out.Length && out[..] == Blend(target, Z, done)
    ensures h + 1 < |bufs| ==> t == done && sub == t % FieldCount(B, 56) && FirstIn(B, t, h + 1, nB, R)
    ensures h + 1 == |bufs| ==> FieldOff(B, 56, done) >= 8 * (|bufs| * nB)
  {
    hide FieldOff, FieldSize, Blend, Value, Concat, Limb, Starts, Holds, Limbs56, FieldCount, EqualSize;
    var bpb := 8 * nB;
    assert R0 < 56;
    var total, rem := CountSubchunks(bpb - R0, B, sub0, t0);
    Room(B, t0, h, nB, R0, total, rem, |bufs|, out.Length);
    var pos, br;
    ghost var P;
    if total == 0 {
      FirstDoesNotFit(B, t0, bpb - R0, rem);
      pos, br, sub, P := 0, R0, sub0, R0;
    } else {
      pos, br, sub, P := LimbLoop(bufs, nB, B, out, t0, h, R0, sub0, total, target, Z, rem);
    }
    t := t0 + total;
    if rem != 0 {
      Border(bufs, nB, B, out, t, h, pos, br, sub, rem, target, Z);
      done := t + 1;
      BorderNext(B, t, h, nB, rem, |bufs|);
      if h + 1 < |bufs| {
        R := FieldSize(B, 56, sub) - rem;
        NextField(t, FieldCount(B, 56), sub);
        sub := if sub + 1 == FieldCount(B, 56) then 0 else sub + 1;
        t := t + 1;
      } else {
        R := br;
      }
    } else {
      R, done := 0, t;
      BufferEnds(B, t, h, nB, |bufs|);
    }
  }

  lemma SubBelow(t: nat, B: nat)
    requires B > 0
    ensures t % FieldCount(B, 56) < FieldCount(B, 56)
  {
    DivModEq(t, FieldCount(B, 56));
  }

  lemma FirstDoesNotFit(B: nat, t: nat, D: nat, rem: nat)
    requires B > 0 && Holds(B, t, D, 0, rem)
    ensures rem == D && D < FieldSize(B, 56, t % FieldCount(B, 56))
  {
  }

  /** The array has room for every limb that starts before the end of the data. */
  lemma Room(B: nat, t: nat, h: nat, nB: nat, R: nat, total: nat, rem: nat, n: nat, len: nat)
    requires B > 0 && h < n && R <= 8 * nB && Starts(B, t, h, nB, R) && Holds(B, t, 8 * nB - R, total, rem)
    requires 8 * (n * nB) <= FieldOff(B, 56, len)
    ensures t + total <= len && (rem > 0 ==> t + total < len)
    ensures Starts(B, t + total, h, nB, 8 * nB - rem) && rem < FieldSize(B, 56, (t + total) % FieldCount(B, 56))
    ensures rem <= 8 * nB
  {
    hide FieldOff, FieldSize;
    BufferEnd(h, n, nB);
    if t + total > len { FieldMonotone(B, 56, len, t + total); }
    FieldMonotone(B, 56, t, t + total);
  }

  lemma BufferEnd(h: nat, n: nat, nB: nat)
    requires h < n
    ensures h * nB + nB <= n * nB
  {
    MulMono(h + 1, n, nB);
  }

  lemma BorderNext(B: nat, t: nat, h: nat, nB: nat, rem: nat, n: nat)
    requires B > 0 && h < n && rem < FieldSize(B, 56, t % FieldCount(B, 56)) && Starts(B, t, h, nB, 8 * nB - rem)
    ensures Starts(B, t + 1, h + 1, nB, FieldSize(B, 56, t % FieldCount(B, 56)) - rem)
    ensures h + 1 == n ==> FieldOff(B, 56, t + 1) >= 8 * (n * nB)
  {
    hide FieldOff, FieldSize;
    FieldNext(B, 56, t);
    assert (h + 1) * nB == h * nB + nB;
  }

  lemma BufferEnds(B: nat, t: nat, h: nat, nB: nat, n: nat)
    requires B > 0 && h < n && Starts(B, t, h, nB, 8 * nB)
    ensures Starts(B, t, h + 1, nB, 0)
    ensures h + 1 == n ==> FieldOff(B, 56, t) >= 8 * (n * nB)
  {
    assert (h + 1) * nB == h * nB + nB;
  }

  // ------------------------------------------------------------ all buffers

  lemma PastTheEnd(bufs: seq<seq<byte>>, nB: nat, B: nat, j: nat)
    requires B > 0 && EqualSize(bufs, nB) && FieldOff(B, 56, j) >= 8 * (|bufs| * nB)
    ensures Limb(Value(Concat(bufs)), B, j) == 0
  {
    hide Exp2, Value, Concat, Bits, FieldOff, FieldSize, EqualSize;
    ConcatLength(bufs, nB);
    ValueBound(Concat(bufs));
    BitsAbove(Value(Concat(bufs)), FieldOff(B, 56, j), FieldSize(B, 56, j % FieldCount(B, 56)), 8 * (|bufs| * nB));
  }

  lemma RestIsZero(bufs: seq<seq<byte>>, nB: nat, B: nat, target: seq<uint64>, Z: seq<uint64>, done: nat)
    requires B > 0 && EqualSize(bufs, nB) && done <= |Z| && target == Limbs56(Value(Concat(bufs)), B, |Z|)
    requires FieldOff(B, 56, done) >= 8 * (|bufs| * nB) && forall j :: 0 <= j < |Z| ==> Z[j] == 0
    ensures Blend(target, Z, done) == target
  {
    hide FieldOff, Limb, Value, Concat, EqualSize;
    forall j | done <= j < |Z| ensures target[j] == 0 {
      FieldMonotone(B, 56, done, j);
      PastTheEnd(bufs, nB, B, j);
    }
  }

  /** bitsplitter, up to bs_finish: every limb of the array is the corresponding range of bits
      of the concatenated buffers, zero beyond their end. */
  method BitSplitter(bufs: seq<seq<byte>>, nB: nat, B: nat, len: nat) returns (splitData: array<uint64>)
    requires B > 0 && EqualSize(bufs, nB) && Walkable(B, nB, |bufs|) && 8 * nB < W64
    requires 8 * (|bufs| * nB) <= FieldOff(B, 56, len)
    ensures fresh(splitData) && splitData[..] == Limbs56(Value(Concat(bufs)), B, len)
  {
    hide FieldOff, FieldSize, Fitting, Blend, Value, Concat, Limb, Starts, EqualSize, Limbs56;
    splitData := new uint64[len](_ => 0);
    ghost var Z, target := splitData[..], Limbs56(Value(Concat(bufs)), B, len);
    BlendEnds(target, Z);
    var t: nat, R: nat, sub: nat := 0, 0, 0;
    ghost var done: nat := 0;
    FirstLimb(B, nB);
    for h := 0 to |bufs|
      invariant done <= len && splitData[..] == Blend(target, Z, done)
      invariant h < |bufs| ==> t == done && sub == t % FieldCount(B, 56) && FirstIn(B, t, h, nB, R)
      invariant h == |bufs| ==> FieldOff(B, 56, done) >= 8 * (|bufs| * nB)
    {
      t, R, sub, done := BsLoop(bufs, nB, B, splitData, t, h, R, sub, target, Z);
    }
    RestIsZero(bufs, nB, B, target, Z, done);
  }

  lemma FirstLimb(B: nat, nB: nat)
    requires B > 0
    ensures Starts(B, 0, 0, nB, 0) && 0 % FieldCount(B, 56) == 0 && FieldOff(B, 56, 0) == 0
  {
    SmallMod(0, FieldCount(B, 56));
  }
}
