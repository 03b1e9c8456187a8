/** The inner loops over the N words of one modulus: every word of the result depends on the
    words at the same place in the operands. */
module Pointwise {
  import opened Words
  import opened NflTables

  /** Y is X with the words of off..off+N replaced by those of news. */
  ghost predicate Replaced(X: seq<uint64>, Y: seq<uint64>, off: nat, news: seq<int>)
    requires off + |news| <= |X|
  {
    |Y| == |X| && Y[..off] == X[..off] && Y[off + |news|..] == X[off + |news|..] && Y[off..off + |news|] == news
  }

  /** mulmodPolyNTT, for one modulus: complete reductions, any operands. */
  method MulPlainSegment(rop: array<uint64>, op1: array<uint64>, op2: array<uint64>, off: nat, N: nat, p: uint64)
    requires rop != op1 && rop != op2 && p > 0
    requires off + N <= rop.Length && off + N <= op1.Length && off + N <= op2.Length
    modifies rop
    ensures Replaced(old(rop[..]), rop[..], off, ScaledMod(op1[off..off + N], op2[off..off + N], p))
  {
    hide ScaledMod;
    ghost var x, y := op1[off..off + N], op2[off..off + N];
    for i := 0 to N
      invariant op1[off..off + N] == x && op2[off..off + N] == y
      invariant rop[..off] == old(rop[..off]) && rop[off + i..] == old(rop[off + i..])
      invariant rop[off..off + i] == ScaledMod(x, y, p)[..i]
    {
      assert x[i] == op1[off + i] && y[i] == op2[off + i];
      rop[off + i] := MulMod(op1[off + i], op2[off + i], p);
      ScaledModAt(x, y, p, i);
      assert rop[off..off + (i + 1)] == rop[off..off + i] + [rop[off + i]];
      assert rop[off + i + 1..] == old(rop[off + i..])[1..];
    }
  }
}
