/** Coefficients of B bits cut into fields of at most u bits: u bits each, except the last field
    of every coefficient, which takes what is left. */
module Fields {
  import opened Arith

  /** Fields per coefficient. */
  function FieldCount(B: nat, u: nat): (c: nat)
    requires B > 0 && u > 0
    ensures c > 0
  {
    CountPositive(B, u);
    (B + u - 1) / u
  }

  lemma CountPositive(B: nat, u: nat)
    requires B > 0 && u > 0
    ensures (B + u - 1) / u > 0
    ensures ((B + u - 1) / u - 1) * u < B <= ((B + u - 1) / u) * u
  {
    var x := B + u - 1;
    DivModEq(x, u);
    var c := x / u;
    assert (c - 1) * u == c * u - u;
    if c <= 0 { MulMono(c, 0, u); }
  }

  /** Width of field s of a coefficient. */
  function FieldSize(B: nat, u: nat, s: nat): (r: nat)
    requires B > 0 && u > 0 && s < FieldCount(B, u)
    ensures 1 <= r <= u
  {
    CountPositive(B, u);
    if s < FieldCount(B, u) - 1 then u else B - u * (FieldCount(B, u) - 1)
  }

  /** Position of field j, counted over all coefficients. */
  function FieldOff(B: nat, u: nat, j: nat): nat
    requires B > 0 && u > 0
  {
    var c := FieldCount(B, u);
    (j / c) * B + u * (j % c)
  }

  lemma NextField(i: nat, c: nat, s: nat)
    requires c > 0 && s == i % c
    ensures (s + 1) % c == (i + 1) % c && (if s + 1 == c then 0 else s + 1) == (i + 1) % c
    ensures (i + 1) / c == if s + 1 == c then i / c + 1 else i / c
  {
    DivModEq(i, c);
    if s + 1 < c {
      DivModUnique(i + 1, i / c, s + 1, c);
      SmallMod(s + 1, c);
    } else {
      assert i + 1 == (i / c + 1) * c + 0;
      DivModUnique(i + 1, i / c + 1, 0, c);
      DivModUnique(c, 1, 0, c);
    }
  }

  /** Fields are adjacent. */
  lemma FieldNext(B: nat, u: nat, j: nat)
    requires B > 0 && u > 0
    ensures j % FieldCount(B, u) < FieldCount(B, u)
    ensures FieldOff(B, u, j + 1) == FieldOff(B, u, j) + FieldSize(B, u, j % FieldCount(B, u))
  {
    var c := FieldCount(B, u);
    DivModEq(j, c);
    NextField(j, c, j % c);
    assert (j / c + 1) * B == (j / c) * B + B;
    assert u * (j % c + 1) == u * (j % c) + u;
  }

  /** A whole number of coefficients further on. */
  lemma FieldShift(B: nat, u: nat, j: nat, m: nat)
    requires B > 0 && u > 0
    ensures 0 <= m * FieldCount(B, u)
    ensures FieldOff(B, u, j + m * FieldCount(B, u)) == FieldOff(B, u, j) + m * B
    ensures (j + m * FieldCount(B, u)) % FieldCount(B, u) == j % FieldCount(B, u)
  {
    var c := FieldCount(B, u);
    DivModEq(j, c);
    MulMono(0, m, c);
    assert (j / c + m) * c == (j / c) * c + m * c;
    DivModUnique(j + m * c, j / c + m, j % c, c);
    assert (j / c + m) * B == (j / c) * B + m * B;
  }

  lemma {:induction false} FieldMonotone(B: nat, u: nat, i: nat, j: nat)
    requires B > 0 && u > 0 && i <= j
    ensures FieldOff(B, u, i) + (j - i) <= FieldOff(B, u, j)
    decreases j
  {
    hide FieldOff, FieldSize;
    if i < j {
      FieldMonotone(B, u, i, j - 1);
      FieldNext(B, u, j - 1);
    }
  }
}
