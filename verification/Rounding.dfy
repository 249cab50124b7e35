/** Rounding a quotient of two natural numbers to the nearest integer, ties to even. */
module Rounding {
  import opened Powers

  /** The nearest integer to x / y; on a tie the even one. */
  function RoundHalfEven(x: nat, y: nat): (q: nat)
    requires y > 0
  {
    var q, r := x / y, x % y;
    if 2 * r > y || (2 * r == y && q % 2 == 1) then q + 1 else q
  }

  /** q is a nearest integer to x / y, and the even one when two are equally near. */
  ghost predicate IsRounded(x: nat, y: nat, q: nat) {
    && 2 * (x - q * y) <= y
    && 2 * (q * y - x) <= y
    && (2 * (x - q * y) == y || 2 * (q * y - x) == y ==> q % 2 == 0)
  }

  lemma DivMod(x: nat, y: nat)
    requires y > 0
    ensures x == (x / y) * y + x % y && 0 <= x % y < y
  {
  }

  lemma DivModUnique(x: nat, y: nat, q: nat, r: nat)
    requires x == q * y + r && r < y
    ensures x / y == q && x % y == r
  {
    DivMod(x, y);
    var d := x / y - q;
    assert d * y == r - x % y;
    if d >= 1 { MulMono(1, d, y); }
    if d <= -1 { MulMono(d, -1, y); }
  }

  /** The computed value is a rounded quotient, and it is the only one. */
  lemma RoundHalfEvenExact(x: nat, y: nat, q: nat)
    requires y > 0
    ensures q == RoundHalfEven(x, y) <==> IsRounded(x, y, q)
  {
    DivMod(x, y);
    var q0, r := x / y, x % y;
    var d := q - q0;
    assert q * y == q0 * y + d * y;
    if d >= 2 { MulMono(2, d, y); }
    if d <= -1 { MulMono(d, -1, y); }
  }

  lemma RoundScaled(k: nat, x: nat, y: nat)
    requires k > 0 && y > 0
    ensures k * y > 0
    ensures RoundHalfEven(k * x, k * y) == RoundHalfEven(x, y)
  {
    MulMono(1, k, y);
    DivMod(x, y);
    var q, r := x / y, x % y;
    calc {
      k * x;
      k * (q * y + r);
      k * (q * y) + k * r;
      { MulAssoc(k, q, y); MulAssoc(q, k, y); }
      q * (k * y) + k * r;
    }
    MulStrict(r, y, k);
    DivModUnique(k * x, k * y, q, k * r);
    assert k * (2 * r) == 2 * (k * r);
    if 2 * r > y {
      MulStrict(y, 2 * r, k);
    } else if 2 * r < y {
      MulStrict(2 * r, y, k);
    }
  }

  /** Equal fractions round to the same integer. */
  lemma RoundEqualFractions(x: nat, y: nat, x': nat, y': nat)
    requires y > 0 && y' > 0 && x * y' == x' * y
    ensures RoundHalfEven(x, y) == RoundHalfEven(x', y')
  {
    RoundScaled(y', x, y);
    RoundScaled(y, x', y');
    assert y' * x == y * x' && y' * y == y * y';
  }

  lemma RoundExactMultiple(z: nat, y: nat)
    requires y > 0
    ensures RoundHalfEven(z * y, y) == z
  {
    DivModUnique(z * y, y, z, 0);
  }

  /** The rounded quotient is within half of the exact one. */
  lemma RoundWithinHalf(x: nat, y: nat, c: int)
    requires y > 0
    ensures RoundHalfEven(x, y) >= c ==> 2 * x >= (2 * c - 1) * y
    ensures RoundHalfEven(x, y) <= c ==> 2 * x <= (2 * c + 1) * y
  {
    var v := RoundHalfEven(x, y);
    RoundHalfEvenExact(x, y, v);
    var w := v * y;
    assert (2 * v - 1) * y == 2 * w - y && (2 * v + 1) * y == 2 * w + y;
    if v >= c { MulMono(2 * c - 1, 2 * v - 1, y); }
    if v <= c { MulMono(2 * v + 1, 2 * c + 1, y); }
  }
}
