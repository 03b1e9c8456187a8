/** Bitwise operations on natural numbers, and what they mean for disjoint bit ranges. */
module BitOps {
  import opened Arith

  function And(a: nat, b: nat): nat
    decreases a
  {
    if a == 0 || b == 0 then 0
    else (if a % 2 == 1 && b % 2 == 1 then 1 else 0) + 2 * And(a / 2, b / 2)
  }

  function Or(a: nat, b: nat): nat
    decreases a + b
  {
    if a == 0 then b
    else if b == 0 then a
    else (if a % 2 == 1 || b % 2 == 1 then 1 else 0) + 2 * Or(a / 2, b / 2)
  }

  /** Shift right by k bits. */
  function Shr(x: nat, k: nat): nat {
    DivNonNegative(x, Exp2(k));
    x / Exp2(k)
  }

  lemma DivNonNegative(x: nat, m: nat)
    requires m > 0
    ensures x / m >= 0
  {
    DivModEq(x, m);
    if x / m < 0 { MulMono(x / m, -1, m); }
  }

  /** k ones. */
  function Ones(k: nat): nat { Exp2(k) - 1 }

  lemma HalfMod(x: nat, k: nat)
    ensures x % Exp2(k + 1) == 2 * ((x / 2) % Exp2(k)) + x % 2
  {
    var q, r := (x / 2) / Exp2(k), (x / 2) % Exp2(k);
    DivModEq(x / 2, Exp2(k));
    assert x == 2 * (x / 2) + x % 2;
    Associate(2, q, Exp2(k));
    Associate(q, 2, Exp2(k));
    assert x == q * Exp2(k + 1) + (2 * r + x % 2);
    DivModUnique(x, q, 2 * r + x % 2, Exp2(k + 1));
  }

  /** Masking keeps the low k bits. */
  lemma {:induction false} AndMask(x: nat, k: nat)
    ensures And(x, Exp2(k) - 1) == x % Exp2(k)
  {
    if k == 0 {
      DivModUnique(x, x, 0, 1);
    } else if x == 0 {
      SmallMod(0, Exp2(k));
    } else {
      hide And, Exp2;
      AndMask(x / 2, k - 1);
      HalfMod(x, k - 1);
      MaskHalf(k);
      AndOdd(x, Exp2(k) - 1);
    }
  }

  lemma AndOdd(a: nat, b: nat)
    requires b % 2 == 1
    ensures And(a, b) == a % 2 + 2 * And(a / 2, b / 2)
  {
  }

  lemma MaskHalf(k: nat)
    requires k > 0
    ensures (Exp2(k) - 1) / 2 == Exp2(k - 1) - 1 && (Exp2(k) - 1) % 2 == 1
  {
  }

  /** Or-ing bits above position k to a number below 2^k adds them. */
  lemma {:induction false} OrDisjoint(a: nat, b: nat, k: nat)
    requires a < Exp2(k)
    ensures Or(a, b * Exp2(k)) == a + b * Exp2(k)
  {
    if k > 0 && a > 0 && b > 0 {
      var c := b * Exp2(k - 1);
      Associate(b, 2, Exp2(k - 1));
      assert b * Exp2(k) == 2 * c;
      MulMono(1, b, Exp2(k - 1));
      OrDisjoint(a / 2, b, k - 1);
    } else if b == 0 {
      assert b * Exp2(k) == 0;
    }
  }
}
