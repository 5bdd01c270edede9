/**
 Division with remainder.
 */
module Arith {
  lemma MulMonotone(x: int, y: int, a: nat)
    requires x <= y
    ensures x * a <= y * a
  {
    assert y * a - x * a == (y - x) * a;
    MulNonNegative(y - x, a);
  }

  lemma MulNonNegative(x: nat, a: nat)
    ensures x * a >= 0
  {
  }

  /** There is only one quotient and one remainder. */
  lemma DivModUnique(y: nat, a: nat, q: nat, r: nat)
    requires r < a && y == q * a + r
    ensures y / a == q && y % a == r
  {
    var q', r' := y / a, y % a;
    assert y == q' * a + r';
    assert (q + 1) * a == q * a + a && (q' + 1) * a == q' * a + a;
    if q' > q {
      MulMonotone(q + 1, q', a);
    } else if q' < q {
      MulMonotone(q' + 1, q, a);
    }
  }

  lemma MultipleMod(q: nat, a: nat)
    requires a > 0
    ensures q * a % a == 0 && q * a / a == q
  {
    DivModUnique(q * a, a, q, 0);
  }

  /** Where a block starts. */
  function Pos(size: nat, b: nat): nat {
    b * size
  }

  /** TDB_ALIGN: the next multiple of `a`. */
  function Align(x: nat, a: nat): nat
    requires a > 0
  {
    (x + a - 1) / a * a
  }

  lemma AlignIs(x: nat, a: nat)
    requires a > 0
    ensures x <= Align(x, a) < x + a && Align(x, a) % a == 0
  {
    MultipleMod((x + a - 1) / a, a);
  }

  lemma AlignOnly(x: nat, a: nat, y: nat)
    requires a > 0 && x <= y < x + a && y % a == 0
    ensures y == Align(x, a)
  {
    var q := y / a;
    assert y == q * a;
    DivModUnique(x + a - 1, a, q, x + a - 1 - y);
  }

  lemma WholePages(x: nat, a: nat)
    requires a > 0 && a % 4 == 0
    ensures Align(x, a) % 4 == 0 && Align(x, a) >= x
  {
    hide Align;
    AlignIs(x, a);
    var r, c := Align(x, a), a / 4;
    assert r == r / a * a && a == 4 * c;
    assert r / a * (4 * c) == 4 * (r / a * c);
  }
}
