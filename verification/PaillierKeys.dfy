/** The public key object: powers of the modulus, computed when they are first asked for. Whether
    a power is there is decided by its lowest 64-bit limb alone. */
module PaillierKeys {
  import opened Arith
  import opened Words

  const MAX_S: nat := 7

  function Capped(s: nat): nat { if s > MAX_S then MAX_S else s }

  lemma PowNat(n: nat, s: nat)
    ensures Pow(n, s) >= 0
  {
    if n > 0 { PowPositive(n, s); } else if s > 0 { assert Pow(0, s) == 0 * Pow(0, s - 1); }
  }

  /** n^s, as a natural number. */
  function Power(n: nat, s: nat): (r: nat)
    ensures r == Pow(n, s)
  {
    PowNat(n, s);
    Pow(n, s)
  }

  class PubKey {
    var nj: seq<nat>
    var g: nat

    /** Entries are either as initialised or right, and so is the generator. */
    ghost predicate Valid(n: nat)
      reads this
    {
      && |nj| == MAX_S + 1 && nj[0] == 1 && nj[1] == n
      && (forall s :: 2 <= s <= MAX_S ==> nj[s] == 1 || nj[s] == Power(n, s))
      && (g == 1 || g == n + 1)
    }

    constructor ()
      ensures nj == seq(MAX_S + 1, _ => 1) && g == 1
    {
      nj, g := seq(MAX_S + 1, _ => 1), 1;
    }

    /** keygen writes the modulus into nj[1] of a fresh key. */
    method SetModulus(p: nat, q: nat)
      requires nj == seq(MAX_S + 1, _ => 1) && g == 1
      modifies this`nj
      ensures Valid(p * q) && g == 1
    {
      nj := nj[1 := p * q];
    }

    method InitNj(i: nat, ghost n: nat)
      requires Valid(n) && i <= MAX_S
      modifies this`nj
      ensures Valid(n) && nj[i] == Power(n, i)
      ensures forall s :: 0 <= s <= MAX_S && s != i ==> nj[s] == old(nj)[s]
    {
      SmallPowers(n);
      nj := nj[i := Power(nj[1], i)];
    }

    method GetNj(s: nat, ghost n: nat) returns (r: nat)
      requires Valid(n)
      modifies this`nj
      ensures Valid(n) && r == Power(n, Capped(s))
    {
      SmallPowers(n);
      var i := Capped(s);
      if nj[i] % W64 == 1 { InitNj(i, n); }
      r := nj[i];
    }

    method CompleteKey(s: nat, ghost n: nat)
      requires Valid(n)
      modifies this
      ensures Valid(n) && g == n + 1
      ensures forall i :: 2 <= i <= Capped(s) ==> nj[i] == Power(n, i)
    {
      if g % W64 == 1 { g := nj[1] + 1; }
      var i := 2;
      while i <= Capped(s)
        invariant 2 <= i && Valid(n) && g == n + 1
        invariant forall k :: 2 <= k < i && k <= Capped(s) ==> nj[k] == Power(n, k)
        decreases Capped(s) + 1 - i
      {
        InitNj(i, n);
        i := i + 1;
      }
    }
  }

  lemma SmallPowers(n: nat)
    ensures Power(n, 0) == 1 && Power(n, 1) == n
  {
    assert Pow(n, 1) == n * Pow(n, 0);
  }

  datatype Call = Get(s: nat) | Complete(s: nat)

  /** Any sequence of calls on one key: every lookup returns the power it was asked for. */
  method Replay(key: PubKey, calls: seq<Call>, ghost n: nat) returns (results: seq<nat>)
    requires key.Valid(n)
    modifies key
    ensures key.Valid(n) && |results| == |calls|
    ensures forall i :: 0 <= i < |calls| && calls[i].Get? ==> results[i] == Power(n, Capped(calls[i].s))
    ensures (exists i :: 0 <= i < |calls| && calls[i].Complete?) ==> key.g == n + 1
  {
    results := [];
    for i := 0 to |calls|
      invariant key.Valid(n) && |results| == i
      invariant forall k :: 0 <= k < i && calls[k].Get? ==> results[k] == Power(n, Capped(calls[k].s))
      invariant (exists k :: 0 <= k < i && calls[k].Complete?) ==> key.g == n + 1
    {
      match calls[i] {
        case Get(s) =>
          var r := key.GetNj(s, n);
          results := results + [r];
        case Complete(s) =>
          key.CompleteKey(s, n);
          results := results + [0];
      }
    }
  }
}
