/** The number that the conversion has to return: round (m * 2^e * 10^n), and the integer fractions it equals. */
module ScaledValue {
  import opened Powers
  import opened Rounding

  /** A floating-point argument: mantissa * 2^exponent if it is finite. */
  datatype Number = NaN | Infinite(negative: bool) | Finite(negative: bool, mantissa: nat, exponent: int)

  function Pos(x: int): nat {
    if x > 0 then x else 0
  }

  function Neg(x: int): nat {
    if x < 0 then -x else 0
  }

  function Numerator(m: nat, e: int, n: int): nat {
    m * Pow(2, Pos(e)) * Pow(10, Pos(n))
  }

  function Denominator(e: int, n: int): (d: nat)
    ensures d > 0
  {
    MulStrict(0, Pow(2, Neg(e)), Pow(10, Neg(n)));
    Pow(2, Neg(e)) * Pow(10, Neg(n))
  }

  /** m * 2^e * 10^n, rounded half to even. */
  function ScaledRound(m: nat, e: int, n: int): nat {
    RoundHalfEven(Numerator(m, e, n), Denominator(e, n))
  }

  lemma TenIsTwoTimesFive(k: nat)
    ensures Pow(10, k) == Pow(2, k) * Pow(5, k)
  {
    PowOfProduct(2, 5, k);
  }

  lemma CrossArithmetic(m: int, a: int, b: int, c: int, p: int, d: int, f: int, g: int, q: int)
    requires (a * b) * c == (d * f) * g
    ensures (m * a * (b * p)) * (q * c) == (m * p * d) * (f * (g * q))
  {
    assert (m * a * (b * p)) * (q * c) == (m * p * q) * ((a * b) * c);
    assert (m * p * d) * (f * (g * q)) == (m * p * q) * ((d * f) * g);
  }

  /** Powers of five and two alone give the same fraction: 2^e * 10^n = 2^(e + n) * 5^n. */
  lemma FivesAndTwos(m: nat, e: int, n: int)
    ensures
      var s := e + n;
      && Pow(5, Neg(n)) * Pow(2, Neg(s)) > 0
      && ScaledRound(m, e, n) == RoundHalfEven(m * Pow(5, Pos(n)) * Pow(2, Pos(s)), Pow(5, Neg(n)) * Pow(2, Neg(s)))
  {
    var s := e + n;
    MulStrict(0, Pow(5, Neg(n)), Pow(2, Neg(s)));
    TenIsTwoTimesFive(Pos(n));
    TenIsTwoTimesFive(Neg(n));
    PowAdd(2, Pos(e), Pos(n));
    PowAdd(2, Pos(e) + Pos(n), Neg(s));
    PowAdd(2, Pos(s), Neg(e));
    PowAdd(2, Pos(s) + Neg(e), Neg(n));
    assert Pos(e) + Pos(n) + Neg(s) == Pos(s) + Neg(e) + Neg(n);
    CrossArithmetic(m, Pow(2, Pos(e)), Pow(2, Pos(n)), Pow(2, Neg(s)), Pow(5, Pos(n)),
                    Pow(2, Pos(s)), Pow(2, Neg(e)), Pow(2, Neg(n)), Pow(5, Neg(n)));
    RoundEqualFractions(Numerator(m, e, n), Denominator(e, n),
                        m * Pow(5, Pos(n)) * Pow(2, Pos(s)), Pow(5, Neg(n)) * Pow(2, Neg(s)));
  }

  lemma FactorArithmetic(m: int, p: int, q: int, a: int, b: int)
    ensures m * (p * q) * (a * b) == (m * p * a) * (b * q)
  {
  }

  /** A common power of ten may be factored out when both exponents are positive: nothing is rounded then. */
  lemma FactorOutTens(m: nat, e: int, n: int, x: nat)
    requires 0 <= x <= n && x <= e + n
    ensures ScaledRound(m, e, n) == (m * Pow(5, n - x) * Pow(2, e + n - x)) * Pow(10, x)
  {
    FivesAndTwos(m, e, n);
    var s := e + n;
    PowAdd(5, n - x, x);
    PowAdd(2, s - x, x);
    TenIsTwoTimesFive(x);
    var z := m * Pow(5, n) * Pow(2, s);
    FactorArithmetic(m, Pow(5, n - x), Pow(5, x), Pow(2, s - x), Pow(2, x));
    assert Pow(5, Neg(n)) * Pow(2, Neg(s)) == 1;
    RoundExactMultiple(z, 1);
  }
}
