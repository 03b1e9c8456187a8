/** The cryptosystem object: parameters and keys, encryption, decryption, and the replies that
    the server computes from queries. */
module NflLwe {
  import opened Arith
  import opened Words
  import opened NttWords
  import opened Ntt
  import opened Negacyclic
  import opened NflParams
  import opened NflTables
  import opened Crt
  import opened NflLib
  import opened Flat
  import opened Sampling
  import opened LweSpec
  import opened LweWords
  import opened Lwe
  import opened Selection

  class NflLwe {
    const nfl: NflLib
    var secretKey: seq<uint64>
    var secretKeyShoup: seq<uint64>
    var noiseUB: uint64
    var absBits: nat
    var Abit_mod: seq<uint64>
    var Abit_mod_shoup: seq<uint64>
    /** The integer amplifier that Abit_mod lists modulo each modulus. */
    ghost var T: nat

    ghost predicate Configured()
      reads this, nfl
    {
      && nfl.Valid() && |nfl.tables| >= 1
      && ShoupWords(secretKey, secretKeyShoup, nfl.tables, nfl.polyDegree)
      && 1 <= noiseUB < W64 / 2 && absBits <= 60 * |nfl.tables|
    }

    /** The amplifier is a multiple of 2^A and at most 2^A. */
    ghost predicate Valid()
      reads this, nfl
    {
      && Configured()
      && Amplifiers(AmplifierWords(Abit_mod, Abit_mod_shoup, T), nfl.tables)
      && Cong(T, 0, Exp2(absBits)) && T <= Exp2(absBits)
    }

    constructor ()
      ensures fresh(nfl)
    {
      nfl := new NflLib();
      secretKey, secretKeyShoup, Abit_mod, Abit_mod_shoup := [], [], [], [];
      noiseUB, absBits, T := 1, 0, 0;
    }

    lemma TablesPositive()
      requires nfl.Valid()
      ensures Positive(nfl.tables)
    {
      hide NflTables.Configured;
      forall cm | 0 <= cm < |nfl.tables| ensures 1 < nfl.tables[cm].p < W64 / 8 {
        ConfiguredModulus(nfl.tables[cm], nfl.L);
      }
    }

    /** setNewParameters: tables for the moduli, a uniform key that is already in the
        transformed domain, and its Shoup quotients. */
    method SetNewParameters(degree: nat, modulusBitsize: nat, securityBits: nat, abs: nat,
                            rnd: seq<uint64>) returns (ok: bool)
      requires exists l: nat :: l <= MAX_LOG_DEGREE && degree == Exp2(l)
      requires 1 <= modulusBitsize / 60 <= MAX_NB_MODULI
      requires |rnd| == (modulusBitsize / 60) * degree && abs <= 60 * (modulusBitsize / 60)
      requires 1 <= 5 * securityBits / 2 < W64 / 2
      modifies this, nfl
      ensures ok <==> modulusBitsize % 60 == 0
      ensures ok ==> Valid() && nfl.polyDegree == degree && ModuliOf(nfl.tables) == FirstModuli(modulusBitsize / 60)
      ensures ok ==> absBits == abs && noiseUB == 5 * securityBits / 2
      ensures ok ==> DrawnWords(secretKey, rnd, nfl.tables, degree)
    {
      hide Drawn, DrawnWords, NflTables.Configured, Coprime, Params, LiftingIntegers, IsBitReversal, Product,
        ModulusAt, ShoupQuotient;
      noiseUB := 5 * securityBits / 2;
      absBits := abs;
      ok := nfl.SetNewParameters(degree, modulusBitsize);
      if ok {
        assert |nfl.tables| == |ModuliOf(nfl.tables)|;
        TablesPositive();
        var key := new uint64[|rnd|](_ => 0);
        SetUniformPoly(key, rnd, nfl.tables, degree);
        secretKey := key[..];
        var quot := ShoupPoly(secretKey, nfl.tables, degree);
        secretKeyShoup := quot[..];
        RecomputeNoiseAmplifiers();
      }
    }

    /** recomputeNoiseAmplifiers as it is written: the power of two is overwritten by the
        modulus before it is used, and every amplifier comes out as zero. */
    method RecomputeNoiseAmplifiers()
      requires Configured()
      modifies this`Abit_mod, this`Abit_mod_shoup, this`T
      ensures Valid() && T == 0
    {
      hide NflTables.Configured, Coprime, LiftingIntegers, IsBitReversal, Product, ShoupWords, ShoupQuotient,
        Amplifier, Exp2;
      var n := |nfl.tables|;
      TablesPositive();
      Abit_mod, Abit_mod_shoup, T := seq(n, _ => 0), seq(n, _ => 0), 0;
      var z1: int := 0;
      var z2: int := 0;
      for cm := 0 to n
        invariant Configured() && z1 == 0 == T && |Abit_mod| == |Abit_mod_shoup| == n
        invariant forall c :: 0 <= c < n ==> Abit_mod[c] == 0 && Abit_mod_shoup[c] == 0
      {
        var p := nfl.tables[cm].p;
        z2 := Exp2(absBits);
        z2 := p;
        SmallMod(0, p);
        z1 := z1 % z2;
        Abit_mod := Abit_mod[cm := z1];
        QuotientOfZero(p);
        Abit_mod_shoup := Abit_mod_shoup[cm := ShoupQuotient(Abit_mod[cm], p)];
      }
      forall c | 0 <= c < n ensures Amplifier(Abit_mod[c], Abit_mod_shoup[c], T, nfl.tables[c].p) {
        ZeroAmplifier(nfl.tables[c].p);
      }
    }

    /** enc: the result hides T times the noise plus the message, for every modulus at once, under a
        mask that is drawn from its own random words. The words of b are reduced in the build for
        Shoup replies only. */
    method Enc(m: seq<uint64>, rndNoise: seq<uint64>, rndMask: seq<uint64>, shoup: bool, ghost mz: seq<int>)
      returns (a: array<uint64>, b: array<uint64>)
      requires Valid() && |rndNoise| == nfl.polyDegree && |rndMask| == |nfl.tables| * nfl.polyDegree
      requires MessageWords(m, mz, nfl.tables, nfl.polyDegree)
      ensures fresh(a) && fresh(b) && a != b
      ensures shoup ==>
        ReducedWords(a[..], nfl.tables, nfl.polyDegree) && ReducedWords(b[..], nfl.tables, nfl.polyDegree)
      ensures DrawnWords(a[..], rndMask, nfl.tables, nfl.polyDegree)
      ensures HidesAll(a[..], b[..], secretKey, Noisy(T, NoisePoly(rndNoise, 2 * noiseUB - 1), mz),
                       nfl.tables, nfl.polyDegree, nfl.L)
    {
      hide Drawn, DrawnWords, NflLib.Valid, NflTables.Configured, IsNoise, AmplifiedWords, MaskedWords,
        SettledWords, SegmentTransformed, SegmentHides, ShoupWords, Amplifiers, ReducedWords, Noisy, NoisePoly,
        Cong, ResiduesOf;
      var N, tables, n := nfl.polyDegree, nfl.tables, |nfl.tables|;
      TablesPositive();
      a := new uint64[n * N](_ => 0);
      b := new uint64[n * N](_ => 0);
      SetBoundedRandomPoly(b, rndNoise, 2 * noiseUB - 1, n, N);
      ghost var E := b[..];
      ghost var amp := AmplifierWords(Abit_mod, Abit_mod_shoup, T);
      AmplifierLengths(amp, tables);
      ShoupLengths(secretKey, secretKeyShoup, tables, N);
      Amplify(b, m, Abit_mod, Abit_mod_shoup, tables, N);
      ghost var X := b[..];
      nfl.NttAndPowPhi(b);
      ghost var Y := b[..];
      SetUniformPoly(a, rndMask, tables, N);
      ghost var A := a[..];
      AddMask(a, b, secretKey, secretKeyShoup, tables, N, shoup);
      SettledDrawn(A, tables, N, shoup);
      if shoup { MaskedReduced(Y, A, secretKey, secretKeyShoup, tables, N); }
      AmplifiedAll(E, m, amp, rndNoise, 2 * noiseUB - 1, mz, tables, N);
      ghost var c := Noisy(T, NoisePoly(rndNoise, 2 * noiseUB - 1), mz);
      forall cm: nat | cm < n ensures SegmentHides(a[..], b[..], secretKey, c, tables[cm], cm, N, nfl.L) {
        EncryptedSegment(X, Y, A, secretKey, secretKeyShoup, c, tables, cm, N, nfl.L, shoup);
      }
    }

    /** What the amplifiers are meant to be: 2^A modulo each modulus. */
    method IntendedNoiseAmplifiers()
      requires Configured()
      modifies this`Abit_mod, this`Abit_mod_shoup, this`T
      ensures Valid() && T == Exp2(absBits)
    {
      hide NflLib.Valid, ShoupWords, Exp2, Amplifiers;
      TablesPositive();
      Abit_mod, Abit_mod_shoup := PowerAmplifiers(nfl.tables, Exp2(absBits));
      T := Exp2(absBits);
      PowerOfItself(absBits);
    }

    /** setandgetAbsBitPerCiphertext: the largest number of bits per coefficient that sums of n
        products can absorb. The logarithms of the source are replaced by the inequality. A
        negative number leaves no room for data, and counts as zero bits wherever it is read. */
    method SetAndGetAbsBits(n: nat) returns (a: int)
      requires Configured() && n >= 1
      modifies this
      ensures Valid() && T == 0 && absBits == (if a < 0 then 0 else a)
      ensures noiseUB == old(noiseUB) && secretKey == old(secretKey)
      ensures Largest(a, n, noiseUB, nfl.polyDegree, 60 * |nfl.tables|)
      ensures a >= 0 ==> Absorbs(absBits, n, noiseUB, nfl.polyDegree, 60 * |nfl.tables|)
    {
      hide NflLib.Valid, ShoupWords, Exp2, Within, Absorbs;
      DegreePositive();
      MulMono(1, n, noiseUB);
      MulMono(1, n * noiseUB, nfl.polyDegree);
      a := LargestAbsorption(NoiseWeight(n, noiseUB, nfl.polyDegree), 60 * |nfl.tables|);
      if a >= 0 { WithinAbsorbs(a, n, noiseUB, nfl.polyDegree, 60 * |nfl.tables|); }
      absBits := if a < 0 then 0 else a;
      RecomputeNoiseAmplifiers();
    }

    lemma DegreePositive()
      requires nfl.Valid()
      ensures nfl.polyDegree >= 1
    {
      hide NflTables.Configured, Coprime, LiftingIntegers, IsBitReversal, Product;
    }

    /** encrypt: a query element. The message is the constant polynomial ui. */
    method EncryptUint(ui: uint64, rndNoise: seq<uint64>, rndMask: seq<uint64>, shoup: bool)
      returns (a: array<uint64>, b: array<uint64>)
      requires Valid() && ui < 0x1_0000_0000
      requires |rndNoise| == nfl.polyDegree && |rndMask| == |nfl.tables| * nfl.polyDegree
      ensures fresh(a) && fresh(b) && a != b
      ensures shoup ==>
        ReducedWords(a[..], nfl.tables, nfl.polyDegree) && ReducedWords(b[..], nfl.tables, nfl.polyDegree)
      ensures DrawnWords(a[..], rndMask, nfl.tables, nfl.polyDegree)
      ensures absBits * nfl.polyDegree >= 0
      ensures HidesAll(a[..], b[..], secretKey,
        Noisy(T, NoisePoly(rndNoise, 2 * noiseUB - 1), Constant(ui % Exp2(absBits * nfl.polyDegree), nfl.polyDegree)),
        nfl.tables, nfl.polyDegree, nfl.L)
    {
      hide NflTables.Configured, Coprime, LiftingIntegers, IsBitReversal, Product, ShoupWords, Exp2, HidesAll,
        DrawnWords, ReducedWords, Noisy, NoisePoly, Amplifiers, MessageWords;
      var N, n := nfl.polyDegree, |nfl.tables|;
      MulMono(0, absBits, N);
      var size := absBits * N;
      ModBelow(ui, Exp2(size));
      var u := ui;
      if ui > 0 && CeilLog2(ui) >= size { u := ui % Exp2(size); } else { FitsBits(ui, size); }
      TablesPositive();
      var m: seq<uint64> := seq(n * N, j requires 0 <= j < n * N => IndexFits(j, n, N); if j % N == 0 then u else 0);
      ConstantWords(m, u, nfl.tables, N);
      a, b := Enc(m, rndNoise, rndMask, shoup, Constant(u, N));
    }

    lemma ModuliRange()
      requires nfl.Valid() && Positive(nfl.tables)
      ensures 0 < nfl.moduliProduct <= Exp2(61 * |nfl.tables|)
      ensures |nfl.tables| == 1 ==> nfl.moduliProduct == nfl.tables[0].p
    {
      hide NflTables.Configured, Exp2, Coprime, LiftingIntegers;
      ProductBelow(ModuliOf(nfl.tables), |nfl.tables|);
      if |nfl.tables| == 1 { assert Product(ModuliOf(nfl.tables), 0) == 1; }
    }

    /** dec: whatever decodable polynomial the ciphertext hides, its coefficients come out modulo
        2^A, as long as b - a*s is in range. What comes out of other words is stated too, apart for one
        modulus and for several. */
    method Dec(m: array<uint64>, a: seq<uint64>, b: seq<uint64>) returns (out: seq<nat>, ghost v: seq<nat>)
      requires Valid() && m.Length == |a| == |b| == |nfl.tables| * nfl.polyDegree
      modifies m
      ensures |v| == nfl.polyDegree && (forall i :: 0 <= i < |v| ==> v[i] < Exp2(absBits))
      ensures out == DecodedWords(v, |nfl.tables|, absBits)
      ensures PhaseInRange(a, b, secretKey, secretKeyShoup, nfl.tables, nfl.polyDegree, nfl.L) ==> forall c ::
        HidesAll(a, b, secretKey, c, nfl.tables, nfl.polyDegree, nfl.L) && Decodable(c, nfl.moduliProduct) ==>
        v == Decoded(c, absBits)
      ensures |nfl.tables| == 1 ==>
        DecodesSingle(v, a, b, secretKey, secretKeyShoup, nfl.tables, nfl.polyDegree, nfl.L, absBits)
      ensures |nfl.tables| > 1 ==>
        DecodesLifted(v, a, b, secretKey, secretKeyShoup, nfl.tables, nfl.polyDegree, nfl.L, absBits, nfl.moduliProduct)
    {
      hide NflLib.Valid, NflTables.Configured, PhasedWords, SegmentInverted, SegmentRecovered, HidesAll, ShoupWords,
        PhaseInRange, Amplifiers, Cong, Decodable, DecodeWord, Decoded, Exp2, Lifts, AllLimbs, IsResidue,
        PhasedSegments, DecodedFrom, SingleDecoded, DecodesLifted;
      var N, tables, n := nfl.polyDegree, nfl.tables, |nfl.tables|;
      TablesPositive();
      ShoupLengths(secretKey, secretKeyShoup, tables, N);
      Phase(m, a, b, secretKey, secretKeyShoup, tables, N);
      ghost var V := m[..];
      nfl.InvNttAndPowInvPhi(m);
      ghost var Z := m[..];
      ModuliRange();
      var P := nfl.moduliProduct;
      if n > 1 {
        var z := nfl.Poly2Mpz(m);
        out := DecodeLifted(z, P, n, absBits);
        v := DecodedFrom(z, P, Exp2(61 * n), absBits);
        forall i | 0 <= i < |v| ensures v[i] == DecodeWord(z[i], P, Exp2(61 * n), absBits) < Exp2(absBits) {
          DecodedFromBelow(z, P, Exp2(61 * n), absBits, i);
        }
        LiftedResult(z, Z, a, b, secretKey, secretKeyShoup, tables, N, nfl.L, absBits, P);
        if PhaseInRange(a, b, secretKey, secretKeyShoup, tables, N, nfl.L) {
          RangeRecovers(a, b, secretKey, secretKeyShoup, V, Z, tables, N, nfl.L);
          forall c | HidesAll(a, b, secretKey, c, tables, N, nfl.L) && Decodable(c, P)
            ensures v == Decoded(c, absBits)
          {
            HiddenResidues(a, b, secretKey, c, V, Z, tables, N, nfl.L);
            LiftedResidues(z, Z, c, tables, N, P);
            Exp2Divides(absBits, 61 * n);
            DecodedAll(c, z, v, P, Exp2(61 * n), absBits);
          }
        }
      } else {
        SingleModulus(V, Z, tables, N, nfl.L);
        DecodeSingle(m, tables[0].p, absBits);
        out := m[..];
        v := out;
        SingleResult(v, V, Z, tables, N, nfl.L, absBits);
        if PhaseInRange(a, b, secretKey, secretKeyShoup, tables, N, nfl.L) {
          RangeRecovers(a, b, secretKey, secretKeyShoup, V, Z, tables, N, nfl.L);
          forall c | HidesAll(a, b, secretKey, c, tables, N, nfl.L) && Decodable(c, P)
            ensures v == Decoded(c, absBits)
          {
            HiddenResidues(a, b, secretKey, c, V, Z, tables, N, nfl.L);
            Exp61();
            Exp2Divides(absBits, 61);
            DecodedAll(c, Z, out, P, W64 / 8, absBits);
          }
        }
      }
    }
  }

  /** a is at most half the logarithm of 2^(s-1) / K, also when that is negative. */
  ghost predicate Within(a: int, K: nat, s: nat) {
    s >= 1 && if a >= 0 then (Exp2(a) * Exp2(a)) * K <= Exp2(s - 1) else K <= Exp2(s - 1) * Exp2(-2 * a)
  }

  /** The largest such number, for the noise of n products of degree N. */
  ghost predicate Largest(a: int, n: nat, Berr: nat, N: nat, s: nat) {
    Within(a, NoiseWeight(n, Berr, N), s) && !Within(a + 1, NoiseWeight(n, Berr, N), s)
  }

  function NoiseWeight(n: nat, Berr: nat, N: nat): nat {
    MulMono(0, n, Berr);
    MulMono(0, n * Berr, N);
    n * Berr * N
  }

  lemma WithinAbsorbs(a: nat, n: nat, Berr: nat, N: nat, s: nat)
    ensures Within(a, NoiseWeight(n, Berr, N), s) <==> Absorbs(a, n, Berr, N, s)
  {
  }

  method LargestAbsorption(K: nat, s: nat) returns (a: int)
    requires s >= 1 && K >= 1
    ensures Within(a, K, s) && !Within(a + 1, K, s) && a < s
  {
    hide Exp2;
    a := 0;
    AtZero(K, s);
    if K <= Exp2(s - 1) {
      while (Exp2(a + 1) * Exp2(a + 1)) * K <= Exp2(s - 1)
        invariant a >= 0 && Within(a, K, s)
        decreases s - a
      {
        a := a + 1;
        AbsorbedBits(a, K, s);
      }
      AbsorbedBits(a, K, s);
    } else {
      a := -1;
      while K > Exp2(s - 1) * Exp2(-2 * a)
        invariant a < 0 && !Within(a + 1, K, s)
        decreases K + a
      {
        PowerLarge(-2 * a);
        MulMono(1, Exp2(s - 1), Exp2(-2 * a));
        a := a - 1;
      }
    }
  }

  lemma AtZero(K: nat, s: nat)
    requires s >= 1
    ensures Within(0, K, s) <==> K <= Exp2(s - 1)
  {
    assert Exp2(0) == 1;
  }

  /** No bit at all fits whenever the noise does. */
  lemma NegativeWithin(a: int, K: nat, s: nat)
    requires a <= 0 && s >= 1 && K <= Exp2(s - 1)
    ensures Within(a, K, s)
  {
    AtZero(K, s);
    if a < 0 { MulMono(1, Exp2(-2 * a), Exp2(s - 1)); }
  }

  lemma {:induction false} PowerLarge(n: nat)
    ensures Exp2(n) > n
  {
    if n > 0 { PowerLarge(n - 1); }
  }

  /** x modulo each modulus, with the quotients. */
  method PowerAmplifiers(tables: seq<NttTables>, x: nat) returns (t: seq<uint64>, tprime: seq<uint64>)
    requires Positive(tables)
    ensures Amplifiers(AmplifierWords(t, tprime, x), tables)
  {
    hide Amplifier, ShoupQuotient;
    t, tprime := [], [];
    for cm := 0 to |tables|
      invariant |t| == |tprime| == cm
      invariant forall c :: 0 <= c < cm ==> Amplifier(t[c], tprime[c], x, tables[c].p)
    {
      var p := tables[cm].p;
      ReducedAmplifier(x, p);
      t, tprime := t + [x % p], tprime + [ShoupQuotient(x % p, p)];
    }
  }

  lemma ReducedAmplifier(x: nat, p: uint64)
    requires p > 0
    ensures 0 <= x % p < p && Amplifier(x % p, ShoupQuotient(x % p, p), x, p)
  {
    CongMod(x, p);
  }

  lemma PowerOfItself(A: nat)
    ensures Cong(Exp2(A), 0, Exp2(A)) && Exp2(A) <= Exp2(A)
  {
    CongByMultiple(Exp2(A), 0, 1, Exp2(A));
  }

  lemma AbsorbedBits(a: nat, K: nat, s: nat)
    requires s >= 1 && K >= 1 && (Exp2(a) * Exp2(a)) * K <= Exp2(s - 1)
    ensures a < s
  {
    hide Exp2;
    var x := Exp2(a);
    MulMono(1, K, x * x);
    MulMono(1, x, x);
    if a >= s {
      Exp2Monotone(s, a);
      assert Exp2(s) == 2 * Exp2(s - 1) by { DoublePower(s); }
    }
  }

  lemma DoublePower(s: nat)
    requires s >= 1
    ensures Exp2(s) == 2 * Exp2(s - 1)
  {
  }

  /** Below half of 2^size the check of encrypt does not reduce, and need not. */
  lemma FitsBits(ui: nat, size: nat)
    requires ui == 0 || CeilLog2(ui) < size
    ensures ui % Exp2(size) == ui
  {
    if ui > 0 {
      Exp2Monotone(CeilLog2(ui) + 1, size);
      DoublePower(CeilLog2(ui) + 1);
    }
    SmallMod(ui, Exp2(size));
  }

  lemma ConstantWords(m: seq<uint64>, u: uint64, tables: seq<NttTables>, N: nat)
    requires Positive(tables) && N > 0 && |m| == |tables| * N && u < 0x1_0000_0000
    requires forall j: nat :: j < |m| ==> m[j] == if j % N == 0 then u else 0
    ensures MessageWords(m, Constant(u, N), tables, N)
  {
    hide ModulusAt;
    forall j: nat | j < |m| ensures MessageWord(m[j], Constant(u, N)[j % N], ModulusAt(tables, N, j)) {
      IndexFits(j, |tables|, N);
    }
  }

  lemma QuotientOfZero(p: uint64)
    requires p > 0
    ensures ShoupQuotient(0, p) == 0
  {
    SmallMod(0, p);
  }

  lemma ZeroAmplifier(p: uint64)
    requires p > 0
    ensures Amplifier(0, 0, 0, p)
  {
    QuotientOfZero(p);
  }

  lemma AmplifierLengths(amp: AmplifierWords, tables: seq<NttTables>)
    requires Amplifiers(amp, tables)
    ensures |amp.t| == |amp.tprime| == |tables|
  {
  }

  lemma ShoupLengths(y: seq<uint64>, yprime: seq<uint64>, tables: seq<NttTables>, N: nat)
    requires ShoupWords(y, yprime, tables, N)
    ensures |y| == |yprime| == |tables| * N
  {
  }

  lemma MaskedReduced(b: seq<uint64>, a: seq<uint64>, s: seq<uint64>, sprime: seq<uint64>, tables: seq<NttTables>,
                      N: nat)
    requires Positive(tables) && |a| == |b| == |s| == |sprime| == |tables| * N
    ensures ReducedWords(MaskedWords(b, a, s, sprime, tables, N, true), tables, N)
    ensures ReducedWords(SettledWords(a, tables, N, true), tables, N)
  {
    hide MulAndAddShoup;
  }

  /** Reduced words are settled as they are. */
  lemma SettledDrawn(a: seq<uint64>, tables: seq<NttTables>, N: nat, shoup: bool)
    requires Positive(tables) && ReducedWords(a, tables, N)
    ensures SettledWords(a, tables, N, shoup) == a
  {
    hide ModulusAt;
    forall j: nat | j < |a| ensures Settled(a[j], ModulusAt(tables, N, j), shoup) == a[j] {
      SmallMod(a[j], ModulusAt(tables, N, j));
    }
  }

  // -------------------------------------------------------- steps of decryption

  /** The result of dec for one modulus, from the words of the ciphertext and of the key. */
  ghost predicate DecodesSingle(v: seq<nat>, a: seq<uint64>, b: seq<uint64>, s: seq<uint64>, sprime: seq<uint64>,
                                tables: seq<NttTables>, N: nat, L: nat, A: nat) {
    && |tables| == 1 && Positive(tables) && |a| == |b| == |s| == |sprime| == |tables| * N
    && SingleDecoded(v, PhasedWords(a, b, s, sprime, tables, N), tables[0], L, A)
  }

  /** The same for several moduli: the inverse transforms of b - a*s are lifted and then decoded. */
  ghost predicate DecodesLifted(v: seq<nat>, a: seq<uint64>, b: seq<uint64>, s: seq<uint64>, sprime: seq<uint64>,
                                tables: seq<NttTables>, N: nat, L: nat, A: nat, P: int) {
    && Positive(tables) && |a| == |b| == |s| == |sprime| == |tables| * N && P <= Exp2(61 * |tables|)
    && exists z: seq<int>, Z: seq<uint64> ::
         && Lifts(z, Z, tables, N, P) && Inverted(PhasedWords(a, b, s, sprime, tables, N), Z, tables, N, L)
         && Below(z, P) && v == DecodedFrom(z, P, Exp2(61 * |tables|), A)
  }

  ghost predicate Inverted(V: seq<uint64>, Z: seq<uint64>, tables: seq<NttTables>, N: nat, L: nat) {
    forall cm: nat :: cm < |tables| ==> SegmentInverted(V, Z, tables[cm], cm, N, L)
  }

  lemma LiftedResult(z: seq<int>, Z: seq<uint64>, a: seq<uint64>, b: seq<uint64>, s: seq<uint64>, sprime: seq<uint64>,
                     tables: seq<NttTables>, N: nat, L: nat, A: nat, P: int)
    requires Positive(tables) && |a| == |b| == |s| == |sprime| == |tables| * N && P <= Exp2(61 * |tables|)
    requires Lifts(z, Z, tables, N, P) && Below(z, P)
    requires forall cm: nat :: cm < |tables| ==>
      SegmentInverted(PhasedWords(a, b, s, sprime, tables, N), Z, tables[cm], cm, N, L)
    ensures DecodesLifted(DecodedFrom(z, P, Exp2(61 * |tables|), A), a, b, s, sprime, tables, N, L, A, P)
  {
    hide Lifts, PhasedWords, SegmentInverted, DecodedFrom, Exp2, Below;
    assert Inverted(PhasedWords(a, b, s, sprime, tables, N), Z, tables, N, L);
  }

  lemma RangeRecovers(a: seq<uint64>, b: seq<uint64>, s: seq<uint64>, sprime: seq<uint64>, V: seq<uint64>,
                      Z: seq<uint64>, tables: seq<NttTables>, N: nat, L: nat)
    requires ShoupWords(s, sprime, tables, N) && PhaseInRange(a, b, s, sprime, tables, N, L)
    requires V == PhasedWords(a, b, s, sprime, tables, N)
    requires forall cm: nat :: cm < |tables| ==> SegmentInverted(V, Z, tables[cm], cm, N, L)
    ensures PhasedSegments(a, b, s, V, tables, N)
    ensures forall cm: nat :: cm < |tables| ==> SegmentRecovered(V, Z, tables[cm], cm, N, L)
  {
    hide PhasedWords, SegmentSteady, SegmentRecovered, RecoveredWords, ShoupWords, NoOverflow, CongSeq;
    forall cm: nat | cm < |tables|
      ensures PhasedPart(a, b, s, V, tables[cm], cm, N) && SegmentRecovered(V, Z, tables[cm], cm, N, L)
    {
      PhasedSegment(a, b, s, sprime, V, tables, cm, N);
      assert SegmentInverted(V, Z, tables[cm], cm, N, L);
    }
  }

  ghost predicate PhasedSegments(a: seq<uint64>, b: seq<uint64>, s: seq<uint64>, V: seq<uint64>,
                                 tables: seq<NttTables>, N: nat) {
    && |V| == |a| == |b| == |s| == |tables| * N
    && forall cm: nat :: cm < |tables| ==> PhasedPart(a, b, s, V, tables[cm], cm, N)
  }

  ghost predicate PhasedPart(a: seq<uint64>, b: seq<uint64>, s: seq<uint64>, V: seq<uint64>, t: NttTables, cm: nat,
                             N: nat) {
    && t.p > 0 && cm * N + N <= |V| == |a| == |b| == |s|
    && CongSeq(Segment(V, cm, N), PhaseWords(Segment(a, cm, N), Segment(b, cm, N), Segment(s, cm, N)), t.p)
  }

  lemma HiddenResidues(a: seq<uint64>, b: seq<uint64>, s: seq<uint64>, c: seq<int>, V: seq<uint64>, Z: seq<uint64>,
                       tables: seq<NttTables>, N: nat, L: nat)
    requires |tables| >= 1 && HidesAll(a, b, s, c, tables, N, L) && PhasedSegments(a, b, s, V, tables, N)
    requires forall cm: nat :: cm < |tables| ==> SegmentRecovered(V, Z, tables[cm], cm, N, L)
    ensures |c| == N && forall i: nat :: i < N ==> IsResidue(Z, tables, i, N, c[i])
    ensures |tables| == 1 ==> |Z| == N && tables[0].p > 0 && forall i :: 0 <= i < N ==> Z[i] == c[i] % tables[0].p
  {
    hide SegmentHides, SegmentRecovered;
    HiddenPart(a, b, s, c, V, Z, tables, 0, N, L);
    forall i: nat, cm: nat | i < N && cm < |tables|
      ensures tables[cm].p > 0 && InSegment(cm, N, i, Z) && Cong(Z[cm * N + i], c[i], tables[cm].p)
    {
      HiddenPart(a, b, s, c, V, Z, tables, cm, N, L);
      assert Segment(Z, cm, N)[i] == Z[cm * N + i];
      CongMod(c[i], tables[cm].p);
    }
    if |tables| == 1 { assert Z == Segment(Z, 0, N); }
  }

  lemma HiddenPart(a: seq<uint64>, b: seq<uint64>, s: seq<uint64>, c: seq<int>, V: seq<uint64>, Z: seq<uint64>,
                   tables: seq<NttTables>, cm: nat, N: nat, L: nat)
    requires cm < |tables| && HidesAll(a, b, s, c, tables, N, L) && PhasedSegments(a, b, s, V, tables, N)
    requires SegmentRecovered(V, Z, tables[cm], cm, N, L)
    ensures |c| == N && |Z| == |tables| * N && cm * N + N <= |Z| && tables[cm].p > 0
    ensures forall i :: 0 <= i < N ==> Segment(Z, cm, N)[i] == c[i] % tables[cm].p
  {
    hide SegmentHides, Recovers, CongSeq;
    assert SegmentHides(a, b, s, c, tables[cm], cm, N, L) && PhasedPart(a, b, s, V, tables[cm], cm, N);
    RecoveredSegment(a, b, s, c, V, Z, tables[cm], cm, N, L);
  }

  lemma LiftedResidues(z: seq<int>, Z: seq<uint64>, c: seq<int>, tables: seq<NttTables>, N: nat, P: int)
    requires Lifts(z, Z, tables, N, P) && |c| == N && forall i: nat :: i < N ==> IsResidue(Z, tables, i, N, c[i])
    ensures |z| == N && P > 0 && forall i :: 0 <= i < N ==> z[i] == c[i] % P
  {
    hide IsResidue;
    forall i: nat | i < N ensures z[i] == c[i] % P { assert IsResidue(Z, tables, i, N, c[i]); }
  }

  lemma SingleModulus(V: seq<uint64>, Z: seq<uint64>, tables: seq<NttTables>, N: nat, L: nat)
    requires |tables| == 1 && |Z| == N && SegmentInverted(V, Z, tables[0], 0, N, L)
    ensures Below(Z, tables[0].p) && |V| == N == Exp2(L) == |tables[0].invpolyTimesInvphis|
    ensures 0 < tables[0].p < W64 / 4 && Z == RecoveredWords(V, tables[0], L)
  {
    hide WordInverse;
    assert Z == Segment(Z, 0, N) && V == Segment(V, 0, N);
    var p := tables[0].p;
    var y: seq<int>, tab: seq<int> := WordInverse(V, L, tables[0].invomega, p), tables[0].invpolyTimesInvphis;
    forall i | 0 <= i < N ensures 0 <= Z[i] < p {
      ScaledModAt(y, tab, p, i);
      CongMod(y[i] * tab[i], p);
    }
  }

  lemma SingleResult(v: seq<nat>, V: seq<uint64>, Z: seq<uint64>, tables: seq<NttTables>, N: nat, L: nat, A: nat)
    requires |tables| == 1 && |Z| == N == |v| && SegmentInverted(V, Z, tables[0], 0, N, L) && tables[0].p < W64 / 8
    requires Below(Z, tables[0].p) && forall i :: 0 <= i < N ==> v[i] == DecodeWord(Z[i], tables[0].p, W64 / 8, A)
    ensures SingleDecoded(v, V, tables[0], L, A)
  {
    hide DecodeWord, RecoveredWords;
    SingleModulus(V, Z, tables, N, L);
  }
}
