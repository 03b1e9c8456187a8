/** configureNTT: how the tables of one modulus are derived from the library's constants. */
module NflConfigure {
  import opened Arith
  import opened NttSpec
  import opened Words
  import opened Ntt
  import opened Negacyclic
  import opened NflParams
  import opened NflTables

  // ---------------------------------------------------------- the root phi

  lemma SquaringStep(r: int, e: nat, phi: int, p: int)
    requires p > 0 && Cong(phi, Pow(r, e), p)
    ensures Cong((phi * phi) % p, Pow(r, 2 * e), p)
  {
    PowAdd(r, e, e);
    CongMul(phi, Pow(r, e), phi, Pow(r, e), p);
    CongMod(phi * phi, p);
  }

  /** Squaring the recorded root 13 - L times gives its power 8192 / N, a root of X^N + 1. */
  method RootOfDegree(m: ModulusParams, L: nat) returns (phi: uint64)
    requires L <= MAX_LOG_DEGREE && GoodModulus(m)
    ensures IsRootOfDegree(phi, m, L) && NegRoot(phi, L, m.p)
  {
    hide Pow;
    phi := m.root;
    assert Cong(phi, Pow(m.root, Exp2(0)), m.p) by { FirstPower(m.root, m.p); }
    for i := 0 to 13 - L
      invariant Cong(phi, Pow(m.root, Exp2(i)), m.p) && phi < m.p
    {
      SquaringStep(m.root, Exp2(i), phi, m.p);
      phi := MulMod(phi, phi, m.p);
    }
    ReducedRoot(phi, m, L);
    CongPow(phi, Pow(m.root, Exp2(13 - L)), Exp2(L), m.p);
    PowMul(m.root, Exp2(13 - L), Exp2(L));
    Exp2Add(13 - L, L);
    assert Exp2(13) == 8192;
  }

  lemma ReducedRoot(phi: uint64, m: ModulusParams, L: nat)
    requires L <= MAX_LOG_DEGREE && phi < m.p && Cong(phi, Pow(m.root, Exp2(13 - L)), m.p)
    ensures IsRootOfDegree(phi, m, L)
  {
    hide Pow;
    ShiftExp2(13, L);
    assert Exp2(13) == 8192;
    SmallMod(phi, m.p);
  }

  // ------------------------------------------------------- tables of powers

  /** first * g^i for i below n, reduced, with quotients; also the next power. */
  method PowerTable(first: uint64, g: uint64, n: nat, p: uint64)
    returns (tab: seq<uint64>, quot: seq<uint64>, next: uint64)
    requires 1 < p && first < p
    ensures Factors(tab, quot, n, p)
    ensures forall i :: 0 <= i < n ==> Cong(tab[i], first * Pow(g, i), p)
    ensures Cong(next, first * Pow(g, n), p) && next < p
  {
    tab, quot, next := [], [], first;
    for i := 0 to n
      invariant next < p && Cong(next, first * Pow(g, i), p)
      invariant Factors(tab, quot, i, p)
      invariant forall k :: 0 <= k < i ==> Cong(tab[k], first * Pow(g, k), p)
    {
      tab := tab + [next];
      quot := quot + [ShoupQuotient(next, p)];
      CongScale(next, first * Pow(g, i), g, p);
      Associate(g, first, Pow(g, i));
      CongMod(next * g, p);
      next := MulMod(next, g, p);
    }
  }

  lemma InversePhi(phi: int, temp: int, last: int, invphi: int, L: nat, p: int)
    requires p > 1 && NegRoot(phi, L, p)
    requires Cong(temp, Pow(phi, Exp2(L)), p) && Cong(last, Pow(phi, Exp2(L) - 1), p)
    requires Cong(invphi, temp * last, p)
    ensures Cong(phi * invphi, 1, p)
  {
    var N := Exp2(L);
    CongMul(temp, -1, last, Pow(phi, N - 1), p);
    CongScale(invphi, -1 * Pow(phi, N - 1), phi, p);
    assert phi * Pow(phi, N - 1) == Pow(phi, N);
    Associate(phi, -1, Pow(phi, N - 1));
    CongScale(Pow(phi, N), -1, -1, p);
  }

  /** The inverse of the degree, derived from that of the largest degree. */
  lemma InverseDegree(m: ModulusParams, L: nat, inv: int)
    requires L <= MAX_LOG_DEGREE && GoodModulus(m)
    requires Cong(inv, m.invMaxDegree * (8192 / Exp2(L)), m.p)
    ensures Cong(inv * Exp2(L), 1, m.p)
  {
    ShiftExp2(13, L);
    assert Exp2(13) == 8192;
    var q := Exp2(13 - L);
    CongScale(inv, m.invMaxDegree * q, Exp2(L), m.p);
    Associate(m.invMaxDegree, q, Exp2(L));
  }

  lemma UntwistEntry(tab: int, inv: int, invphi: int, phi: int, i: nat, L: nat, p: int)
    requires p > 0 && Cong(tab, inv * Pow(invphi, i), p) && Cong(inv * Exp2(L), 1, p) && Cong(phi * invphi, 1, p)
    ensures Cong(tab * (Exp2(L) * Pow(phi, i)), 1, p)
  {
    var u, v, n := Pow(invphi, i), Pow(phi, i), Exp2(L);
    PowerPair(phi, invphi, i, p);
    CongScale(tab, inv * u, n * v, p);
    MulSwap(inv, u, n, v);
    CongMul(inv * n, 1, u * v, 1, p);
  }

  lemma InverseOmega(phi: int, invphi: int, invomega: int, p: int)
    requires p > 0 && Cong(phi * invphi, 1, p) && Cong(invomega, invphi * invphi, p)
    ensures Cong((phi * phi) * invomega, 1, p)
  {
    SquareInverse(phi, invphi, p);
    CongScale(invomega, invphi * invphi, phi * phi, p);
  }

  /** The rows of powers of w, as immutable tables. */
  method RowsOfPowers(w: uint64, N: nat, p: uint64, ghost L: nat) returns (tab: seq<uint64>, quot: seq<uint64>)
    requires N == Exp2(L) && 1 < p
    ensures Tables(tab, quot, w, L, p)
  {
    var wtab, wtabshoup := new uint64[N](_ => 0), new uint64[N](_ => 0);
    PrepWtab(wtab, wtabshoup, w, N, p, L);
    tab, quot := wtab[..], wtabshoup[..];
  }

  /** The powers of phi, and the inverse of phi obtained from the last of them. */
  method TwistTables(m: ModulusParams, N: nat, logN: nat)
    returns (phi: uint64, phis: seq<uint64>, shoupphis: seq<uint64>, invphi: uint64)
    requires logN <= MAX_LOG_DEGREE && N == Exp2(logN) && 1 < m.p < W64 / 8 && GoodModulus(m)
    ensures IsRootOfDegree(phi, m, logN) && NegRoot(phi, logN, m.p)
    ensures Factors(phis, shoupphis, N, m.p) && Twists(phis, phi, m.p)
    ensures Cong(phi * invphi, 1, m.p)
  {
    hide Pow, Factors, NegRoot, IsRootOfDegree, GoodModulus, Cong, MulMod;
    var p := m.p;
    phi := RootOfDegree(m, logN);
    var temp;
    phis, shoupphis, temp := PowerTable(1, phi, N, p);
    FactorsLength(phis, shoupphis, N, p);
    invphi := MulMod(temp, phis[N - 1], p);
    MulModCong(temp, phis[N - 1], p);
    InversePhi(phi, temp, phis[N - 1], invphi, logN, p);
  }

  /** The powers of the inverse of phi, scaled by the inverse of the degree. */
  method UntwistTables(m: ModulusParams, N: nat, phi: uint64, invphi: uint64, ghost L: nat)
    returns (invs: seq<uint64>, shoupinvs: seq<uint64>)
    requires L <= MAX_LOG_DEGREE && N == Exp2(L) && 1 < m.p < W64 / 8 && GoodModulus(m)
    requires Cong(phi * invphi, 1, m.p)
    ensures Factors(invs, shoupinvs, N, m.p) && |invs| == N && Untwists(invs, phi, L, m.p)
  {
    hide Pow, Factors, GoodModulus, Cong, MulMod;
    var p := m.p;
    assert 0 <= 8192 / N < W64 by { ShiftExp2(13, L); Exp2Monotone(13 - L, 13); assert Exp2(13) == 8192; }
    var inv := MulMod(m.invMaxDegree, 8192 / N, p);
    MulModCong(m.invMaxDegree, 8192 / N, p);
    InverseDegree(m, L, inv);
    var unused;
    invs, shoupinvs, unused := PowerTable(inv, invphi, N, p);
    FactorsLength(invs, shoupinvs, N, p);
    forall i | 0 <= i < N ensures Cong(invs[i] * (Exp2(L) * Pow(phi, i)), 1, p) {
      UntwistEntry(invs[i], inv, invphi, phi, i, L, p);
    }
  }

  /** All tables of one modulus, for degree N = 2^logN. */
  method BuildTables(m: ModulusParams, N: nat, logN: nat) returns (t: NttTables)
    requires logN <= MAX_LOG_DEGREE && N == Exp2(logN) && GoodModulus(m)
    ensures t.p == m.p && IsRootOfDegree(t.phi, m, logN) && Configured(t, logN)
  {
    hide IsRootOfDegree, Pow, Tables, Factors, NegRoot, GoodModulus, Untwists, Twists, Cong, MulMod;
    var p := m.p;
    assert 1 < p < W64 / 8 by { ModulusRange(m); }
    var phi, phis, shoupphis, invphi := TwistTables(m, N, logN);
    var invs, shoupinvs := UntwistTables(m, N, phi, invphi, logN);
    var omega := MulMod(phi, phi, p);
    MulModCong(phi, phi, p);
    var invomega := MulMod(invphi, invphi, p);
    MulModCong(invphi, invphi, p);
    InverseOmega(phi, invphi, invomega, p);
    var omegas, shoupomegas := RowsOfPowers(omega, N, p, logN);
    var invomegas, shoupinvomegas := RowsOfPowers(invomega, N, p, logN);
    t := NttTables(p, phi, omega, invomega, phis, shoupphis, omegas, shoupomegas,
                   invomegas, shoupinvomegas, invs, shoupinvs);
  }

  lemma ModulusRange(m: ModulusParams)
    requires GoodModulus(m)
    ensures 1 < m.p < W64 / 8
  {
  }

  // ------------------------------------------------------- reversal indexes

  /** One more bit of the reversed number. */
  lemma {:induction false} RevAppend(i: nat, t: nat)
    ensures Rev(i, t + 1) == 2 * Rev(i, t) + (i / Exp2(t)) % 2
  {
    if t > 0 {
      RevAppend(i / 2, t - 1);
      HalfShift(i, t);
    }
  }

  lemma HalfShift(i: nat, t: nat)
    requires t > 0
    ensures (i / 2) / Exp2(t - 1) == i / Exp2(t)
    ensures (i / Exp2(t - 1)) / 2 == i / Exp2(t)
  {
    NestedDiv(i, 2, Exp2(t - 1));
    NestedDiv(i, Exp2(t - 1), 2);
  }

  /** The index whose low bits are those of i in reverse order, bit by bit. */
  method ReverseIndex(i: nat, N: nat, ghost L: nat) returns (r: nat)
    requires N == Exp2(L)
    ensures r == Rev(i, L)
  {
    var ii := i;
    r := 0;
    var h := 1;
    ghost var t := 0;
    while h < N
      invariant t <= L && h == Exp2(t) && ii == i / Exp2(t) && r == Rev(i, t)
      decreases L - t
    {
      if t >= L { Exp2Monotone(L, t); }
      RevAppend(i, t);
      HalfShift(i, t + 1);
      r := 2 * r + ii % 2;
      ii := ii / 2;
      h := 2 * h;
      t := t + 1;
    }
    if t < L { Exp2Monotone(t + 1, L); }
  }

  /** The permutation indexes of inv_ntt: bit reversal, inverted by search. */
  method ReversalIndexes(N: nat, ghost L: nat) returns (inv_indexes: seq<nat>)
    requires N == Exp2(L)
    ensures IsBitReversal(inv_indexes, L)
  {
    var tmp: seq<nat> := [];
    for i := 0 to N
      invariant |tmp| == i && forall k :: 0 <= k < i ==> tmp[k] == Rev(k, L)
    {
      var r := ReverseIndex(i, N, L);
      tmp := tmp + [r];
    }
    inv_indexes := [];
    for i := 0 to N
      invariant |inv_indexes| == i && forall k :: 0 <= k < i ==> inv_indexes[k] == Rev(k, L)
    {
      var j := 0;
      RevInvolution(i, L);
      while tmp[j] != i
        invariant j <= Rev(i, L)
        decreases N - j
      {
        j := j + 1;
      }
      RevInvolution(j, L);
      inv_indexes := inv_indexes + [j];
    }
  }
}
