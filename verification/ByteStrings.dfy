/** Byte buffers as little-endian integers, 64-bit accesses at byte positions, and ranges of bits. */
module ByteStrings {
  import opened Arith

  type byte = x: int | 0 <= x < 256

  // ------------------------------------------------------------ ranges of bits

  /** size bits of V, from bit off on. */
  function Bits(V: nat, off: nat, size: nat): nat {
    (V / Exp2(off)) % Exp2(size)
  }

  lemma BitsBound(V: nat, off: nat, size: nat)
    ensures Bits(V, off, size) < Exp2(size)
  {
    DivModEq(V / Exp2(off), Exp2(size));
  }

  /** Division and remainder by products. */
  lemma SplitMod(x: nat, m: nat, n: nat)
    requires m > 0 && n > 0
    ensures m * n > 0 && x % (m * n) == x % m + m * ((x / m) % n)
  {
    var q, r := x / m, x % m;
    var u, v := q / n, q % n;
    DivModEq(x, m);
    DivModEq(q, n);
    SplitEquation(x, q, r, u, v, m, n);
    MulMono(v + 1, n, m);
    MulMono(1, m, n);
    MulMono(0, v, m);
    DivModUnique(x, u, r + m * v, m * n);
  }

  lemma SplitEquation(x: int, q: int, r: int, u: int, v: int, m: int, n: int)
    requires x == q * m + r && q == u * n + v
    ensures x == u * (m * n) + (r + m * v)
  {
    assert (u * n + v) * m == (u * n) * m + v * m;
    Associate(u, n, m);
  }

  /** The low bits first, then the bits above them. */
  lemma BitsSplit(V: nat, off: nat, s: nat, t: nat)
    ensures Bits(V, off, s + t) == Bits(V, off, s) + Exp2(s) * Bits(V, off + s, t)
  {
    hide Exp2;
    var x := V / Exp2(off);
    Exp2Add(s, t);
    Exp2Add(off, s);
    SplitMod(x, Exp2(s), Exp2(t));
    NestedDiv(V, Exp2(off), Exp2(s));
  }

  lemma BitsAll(V: nat, size: nat)
    requires V < Exp2(size)
    ensures Bits(V, 0, size) == V
  {
    assert Exp2(0) == 1;
    assert V / 1 == V;
    SmallMod(V, Exp2(size));
  }

  lemma BitsAbove(V: nat, off: nat, size: nat, k: nat)
    requires V < Exp2(k) && k <= off
    ensures Bits(V, off, size) == 0
  {
    Exp2Monotone(k, off);
    SmallMod(V, Exp2(off));
    SmallMod(0, Exp2(size));
  }

  /** A range of bits is a remainder divided. */
  lemma BitsOfMod(V: nat, off: nat, size: nat)
    ensures (V % Exp2(off + size)) / Exp2(off) == Bits(V, off, size)
  {
    hide Exp2;
    var m, n := Exp2(off), Exp2(size);
    Exp2Add(off, size);
    SplitMod(V, m, n);
    DivModEq(V, m);
    DivModUnique(V % (m * n), (V / m) % n, V % m, m);
  }

  lemma ModMod(V: nat, m: nat, n: nat)
    requires m > 0 && n > 0
    ensures m * n > 0 && (V % (m * n)) % m == V % m
  {
    SplitMod(V, m, n);
    DivModEq(V, m);
    DivModUnique(V % (m * n), (V / m) % n, V % m, m);
  }

  /** Ranges below bit k only depend on the low k bits. */
  lemma BitsLow(U: nat, W: nat, k: nat, off: nat, size: nat)
    requires U < Exp2(k) && off + size <= k
    ensures Bits(U + W * Exp2(k), off, size) == Bits(U, off, size)
  {
    hide Exp2;
    var V := U + W * Exp2(k);
    var e := k - (off + size);
    Exp2Add(off + size, e);
    DivModUnique(V, W, U, Exp2(k));
    ModMod(V, Exp2(off + size), Exp2(e));
    ModMod(U, Exp2(off + size), Exp2(e));
    SmallMod(U, Exp2(k));
    BitsOfMod(V, off, size);
    BitsOfMod(U, off, size);
  }

  /** Ranges from bit k on only depend on what is above. */
  lemma BitsHigh(U: nat, W: nat, k: nat, off: nat, size: nat)
    requires U < Exp2(k)
    ensures Bits(U + W * Exp2(k), k + off, size) == Bits(W, off, size)
  {
    hide Exp2;
    Exp2Add(k, off);
    DivModUnique(U + W * Exp2(k), W, U, Exp2(k));
    NestedDiv(U + W * Exp2(k), Exp2(k), Exp2(off));
  }

  /** Bits of a range of bits. */
  lemma BitsOfBits(V: nat, off: nat, len: nat, from: nat, size: nat)
    requires from + size <= len
    ensures Bits(Bits(V, off, len), from, size) == Bits(V, off + from, size)
  {
    hide Exp2;
    var x := V / Exp2(off);
    Exp2Add(from + size, len - (from + size));
    ModMod(x, Exp2(from + size), Exp2(len - (from + size)));
    BitsOfMod(x, from, size);
    BitsOfMod(x % Exp2(len), from, size);
    Exp2Add(off, from);
    NestedDiv(V, Exp2(off), Exp2(from));
  }

  // ------------------------------------------------------------ byte buffers

  /** The little-endian integer that the bytes spell. */
  function Value(s: seq<byte>): nat {
    if s == [] then 0 else s[0] + 256 * Value(s[1..])
  }

  lemma {:induction false} ValueBound(s: seq<byte>)
    ensures Value(s) < Exp2(8 * |s|)
  {
    if s != [] {
      ValueBound(s[1..]);
      NextByte(|s[1..]|);
    }
  }

  lemma Exp8()
    ensures Exp2(8) == 256
  {
    assert Exp2(4) == 16;
    Exp2Add(4, 4);
  }

  lemma {:induction false} ValueConcat(s: seq<byte>, t: seq<byte>)
    ensures Value(s + t) == Value(s) + Value(t) * Exp2(8 * |s|)
  {
    if s == [] {
      assert s + t == t;
      assert Exp2(0) == 1;
    } else {
      hide Exp2;
      var r := s[1..];
      ValueConcat(r, t);
      assert (s + t)[1..] == r + t;
      NextByte(|r|);
      ByteStep(s[0], Value(r), Value(t), Exp2(8 * |r|));
    }
  }

  lemma NextByte(n: nat)
    ensures Exp2(8 * (n + 1)) == 256 * Exp2(8 * n)
  {
    hide Exp2;
    Exp2Add(8, 8 * n);
    Exp8();
  }

  lemma ByteStep(b: int, r: int, t: int, E: int)
    ensures b + 256 * (r + t * E) == (b + 256 * r) + t * (256 * E)
  {
    Associate(256, t, E);
  }

  lemma {:induction false} ValueZeros(s: seq<byte>)
    requires forall i :: 0 <= i < |s| ==> s[i] == 0
    ensures Value(s) == 0
  {
    if s != [] { ValueZeros(s[1..]); }
  }

  /** The n low bytes of w. */
  function Bytes(w: nat, n: nat): (s: seq<byte>)
    ensures |s| == n
    decreases n
  {
    if n == 0 then [] else [w % 256] + Bytes(w / 256, n - 1)
  }

  lemma {:induction false} ValueBytes(w: nat, n: nat)
    requires w < Exp2(8 * n)
    ensures Value(Bytes(w, n)) == w
  {
    if n == 0 {
      assert Exp2(0) == 1;
    } else {
      NextByte(n - 1);
      assert w / 256 < Exp2(8 * (n - 1));
      ValueBytes(w / 256, n - 1);
      assert Bytes(w, n)[1..] == Bytes(w / 256, n - 1);
    }
  }

  /** The 64-bit word at byte position pos. */
  function ReadWord(s: seq<byte>, pos: nat): nat
    requires pos + 8 <= |s|
  {
    Value(s[pos..pos + 8])
  }

  lemma SliceValue(s: seq<byte>, pos: nat, len: nat)
    requires pos + len <= |s|
    ensures Value(s)
      == Value(s[..pos]) + (Value(s[pos..pos + len]) + Value(s[pos + len..]) * Exp2(8 * len)) * Exp2(8 * pos)
    ensures Value(s[..pos]) < Exp2(8 * pos) && Value(s[pos..pos + len]) < Exp2(8 * len)
  {
    hide Exp2, Value;
    var a, w, b := s[..pos], s[pos..pos + len], s[pos + len..];
    ThreeParts(s, pos, len);
    ValueConcat(a, w + b);
    ValueConcat(w, b);
    ValueBound(a);
    ValueBound(w);
  }

  lemma ThreeParts(s: seq<byte>, pos: nat, len: nat)
    requires pos + len <= |s|
    ensures s == s[..pos] + (s[pos..pos + len] + s[pos + len..])
  {
  }

  /** A shifted and masked 64-bit read is a range of bits of the buffer. */
  lemma ReadBits(s: seq<byte>, pos: nat, br: nat, size: nat)
    requires pos + 8 <= |s| && br + size <= 64
    ensures Bits(ReadWord(s, pos), br, size) == Bits(Value(s), 8 * pos + br, size)
  {
    hide Exp2, Value, Bits;
    SliceValue(s, pos, 8);
    var w, b := Value(s[pos..pos + 8]), Value(s[pos + 8..]);
    BitsHigh(Value(s[..pos]), w + b * Exp2(64), 8 * pos, br, size);
    BitsLow(w, b, 64, br, size);
  }

  /** Writing a 64-bit word changes the integer by the difference, at that place. */
  function WriteWord(s: seq<byte>, pos: nat, w: nat): (r: seq<byte>)
    requires pos + 8 <= |s|
    ensures |r| == |s|
  {
    s[..pos] + Bytes(w, 8) + s[pos + 8..]
  }

  lemma WriteValue(s: seq<byte>, pos: nat, w: nat)
    requires pos + 8 <= |s| && w < Exp2(64)
    ensures Value(WriteWord(s, pos, w)) == Value(s) + (w - ReadWord(s, pos)) * Exp2(8 * pos)
  {
    hide Exp2, Value, Bytes;
    hide WriteWord;
    var r := WriteWord(s, pos, w);
    WriteShape(s, pos, w);
    SliceValue(s, pos, 8);
    SliceValue(r, pos, 8);
    ValueBytes(w, 8);
    WordDifference(Value(s[..pos]), ReadWord(s, pos), w, Value(s[pos + 8..]) * Exp2(64), Exp2(8 * pos));
  }

  lemma WriteShape(s: seq<byte>, pos: nat, w: nat)
    requires pos + 8 <= |s|
    ensures var r := WriteWord(s, pos, w);
      r[..pos] == s[..pos] && r[pos + 8..] == s[pos + 8..] && r[pos..pos + 8] == Bytes(w, 8)
  {
    hide Bytes;
  }

  lemma WordDifference(a: int, v: int, w: int, b: int, F: int)
    ensures a + (w + b) * F == a + (v + b) * F + (w - v) * F
  {
  }
}
