/**
 Rounding to p + 1 significant digits, and the search that finds the digits and the exponent from a guess of the exponent.
 Everything here is about the numbers; the text is produced elsewhere.
 */
module SignificantDigits {
  import opened Powers
  import opened Rounding
  import opened ScaledValue

  /** The number of decimal digits, at least one. */
  function DigitCount(v: nat): nat {
    if v < 10 then 1 else 1 + DigitCount(v / 10)
  }

  lemma {:induction false} DigitCountBound(v: nat, k: nat)
    requires k >= 1
    ensures DigitCount(v) <= k <==> v < Pow(10, k)
  {
    if v < 10 {
      PowMono(10, 1, k);
      assert Pow(10, 1) == 10;
    } else if k == 1 {
      assert Pow(10, 1) == 10;
    } else {
      DigitCountBound(v / 10, k - 1);
    }
  }

  lemma DigitCountIs(v: nat, k: nat)
    requires k >= 1 && Pow(10, k - 1) <= v < Pow(10, k)
    ensures DigitCount(v) == k
  {
    DigitCountBound(v, k);
    if k > 1 {
      DigitCountBound(v, k - 1);
    }
  }

  // ---------- Comparing x * 10^k with half integers, where x = m * 2^e ----------

  /** x * 10^k >= h / 2 */
  ghost predicate Ge(m: nat, e: int, k: int, h: int) {
    2 * Numerator(m, e, k) >= h * Denominator(e, k)
  }

  /** x * 10^k <= h / 2 */
  ghost predicate Le(m: nat, e: int, k: int, h: int) {
    2 * Numerator(m, e, k) <= h * Denominator(e, k)
  }

  lemma TenTimes(a: int, b: int)
    ensures a * (10 * b) == 10 * (a * b)
  {
  }

  lemma NextPower(m: nat, e: int, k: int)
    ensures
      || (Numerator(m, e, k + 1) == 10 * Numerator(m, e, k) && Denominator(e, k + 1) == Denominator(e, k))
      || (Numerator(m, e, k + 1) == Numerator(m, e, k) && Denominator(e, k) == 10 * Denominator(e, k + 1))
  {
    if k >= 0 {
      assert Pow(10, Pos(k + 1)) == 10 * Pow(10, Pos(k));
      TenTimes(m * Pow(2, Pos(e)), Pow(10, Pos(k)));
    } else {
      assert Pow(10, Neg(k)) == 10 * Pow(10, Neg(k + 1));
      TenTimes(Pow(2, Neg(e)), Pow(10, Neg(k + 1)));
    }
  }

  /** Multiplying x by ten multiplies what it is compared with by ten. */
  lemma TenfoldComparison(m: nat, e: int, k: int, h: int)
    ensures Ge(m, e, k, h) <==> Ge(m, e, k + 1, 10 * h)
    ensures Le(m, e, k, h) <==> Le(m, e, k + 1, 10 * h)
  {
    NextPower(m, e, k);
    TenTimes(h, Denominator(e, k + 1));
    TenTimes(h, Denominator(e, k));
    assert (10 * h) * Denominator(e, k + 1) == 10 * (h * Denominator(e, k + 1));
  }

  lemma Monotone(m: nat, e: int, k: int, h: int, h': int)
    requires h < h'
    ensures Ge(m, e, k, h') ==> Ge(m, e, k, h) && !Le(m, e, k, h)
    ensures Le(m, e, k, h) ==> Le(m, e, k, h') && !Ge(m, e, k, h')
  {
    MulStrict(h, h', Denominator(e, k));
  }

  /** How the rounded value bounds the exact one, and conversely. */
  lemma RoundedBounds(m: nat, e: int, k: int, c: int)
    ensures ScaledRound(m, e, k) >= c ==> Ge(m, e, k, 2 * c - 1)
    ensures ScaledRound(m, e, k) <= c ==> Le(m, e, k, 2 * c + 1)
  {
    RoundWithinHalf(Numerator(m, e, k), Denominator(e, k), c);
  }

  lemma RoundedAtLeast(m: nat, e: int, k: int, c: int)
    requires !Le(m, e, k, 2 * c - 1)
    ensures ScaledRound(m, e, k) >= c
  {
    RoundedBounds(m, e, k, c - 1);
  }

  lemma RoundedAtMost(m: nat, e: int, k: int, c: int)
    requires !Ge(m, e, k, 2 * c + 1)
    ensures ScaledRound(m, e, k) <= c
  {
    RoundedBounds(m, e, k, c + 1);
  }

  // ---------- The exponent and the digits that the standard asks for ----------

  /** 10^exponent <= x < 10^(exponent + 1) */
  ghost predicate IsFloorLog(m: nat, e: int, exponent: int) {
    Ge(m, e, -exponent, 2) && !Ge(m, e, -exponent, 20)
  }

  datatype Outcome = Found(digits: nat, exponent: int) | Aborted

  /** x rounded to p + 1 significant digits; rounding up to the next power of ten raises the exponent. */
  ghost function Canonical(m: nat, e: int, p: nat, x0: int): Outcome {
    var d := ScaledRound(m, e, p - x0);
    if d == Pow(10, p + 1) then Found(Pow(10, p), x0 + 1) else Found(d, x0)
  }

  // ---------- What the source does with a guess ----------

  /**
   A 10...0 may stand for a number whose digits are 9...9x with an exponent smaller by one.
   There are p + 1 digits to be found; q is p as an int, which is what the scaling goes by.
   */
  ghost function Settle(m: nat, e: int, q: int, p: nat, exponent: int): Outcome {
    var d := ScaledRound(m, e, q - exponent);
    var d2 := ScaledRound(m, e, q - exponent + 1);
    if d == Pow(10, p) && DigitCount(d2) == p + 1 then Found(d2, exponent - 1) else Found(d, exponent)
  }

  /** At most one adjustment of the exponent by the number of digits found. */
  ghost function Search(m: nat, e: int, q: int, p: nat, guess: int, adjusted: bool): Outcome
    decreases !adjusted
  {
    var n := DigitCount(ScaledRound(m, e, q - guess));
    if n == p + 1 then Settle(m, e, q, p, guess)
    else if n < p || n > p + 2 || adjusted then Aborted
    else Search(m, e, q, p, if n == p then guess - 1 else guess + 1, true)
  }

  /** Some multiples of ten and their neighbours. */
  lemma {:induction false} FloorLogScaled(m: nat, e: int, x0: int, j: nat)
    requires IsFloorLog(m, e, x0)
    ensures Ge(m, e, j - x0, 2 * Pow(10, j)) && !Ge(m, e, j - x0, 20 * Pow(10, j))
  {
    if j == 0 {
    } else {
      FloorLogScaled(m, e, x0, j - 1);
      TenfoldComparison(m, e, j - 1 - x0, 2 * Pow(10, j - 1));
      TenfoldComparison(m, e, j - 1 - x0, 20 * Pow(10, j - 1));
      assert 2 * Pow(10, j) == 10 * (2 * Pow(10, j - 1));
    }
  }

  /** With the right exponent there are p + 1 digits, or the number is rounded up to the next power of ten. */
  lemma RightExponent(m: nat, e: int, p: nat, x0: int)
    requires IsFloorLog(m, e, x0)
    ensures Pow(10, p) <= ScaledRound(m, e, p - x0) <= Pow(10, p + 1)
    ensures ScaledRound(m, e, p - x0 + 1) >= Pow(10, p + 1)
  {
    var t, k := Pow(10, p), p - x0;
    FloorLogScaled(m, e, x0, p);
    assert Pow(10, p + 1) == 10 * t;
    Monotone(m, e, k, 2 * t - 1, 2 * t);
    RoundedAtLeast(m, e, k, t);
    Monotone(m, e, k, 20 * t, 20 * t + 1);
    RoundedAtMost(m, e, k, 10 * t);
    TenfoldComparison(m, e, k, 2 * t);
    Monotone(m, e, k + 1, 20 * t - 1, 20 * t);
    RoundedAtLeast(m, e, k + 1, 10 * t);
  }

  /** From the right exponent, the search ends at once unless the number is rounded up to the next power of ten. */
  lemma SettleRight(m: nat, e: int, p: nat, x0: int, adjusted: bool)
    requires IsFloorLog(m, e, x0)
    requires ScaledRound(m, e, p - x0) < Pow(10, p + 1)
    ensures Search(m, e, p, p, x0, adjusted) == Canonical(m, e, p, x0)
  {
    RightExponent(m, e, p, x0);
    DigitCountIs(ScaledRound(m, e, p - x0), p + 1);
    DigitCountBound(ScaledRound(m, e, p - x0 + 1), p + 1);
  }

  /** If it is rounded up, one place fewer gives the power of ten, and the search ends with the next exponent. */
  lemma SettleRoundedUp(m: nat, e: int, p: nat, x0: int, adjusted: bool)
    requires IsFloorLog(m, e, x0)
    requires ScaledRound(m, e, p - x0) == Pow(10, p + 1)
    ensures ScaledRound(m, e, p - x0 - 1) == Pow(10, p)
    ensures Search(m, e, p, p, x0 + 1, adjusted) == Canonical(m, e, p, x0)
  {
    var t, k := Pow(10, p), p - x0;
    assert Pow(10, p + 1) == 10 * t;
    RoundedBounds(m, e, k, 10 * t);
    Monotone(m, e, k, 20 * t - 10, 20 * t - 1);
    TenfoldComparison(m, e, k - 1, 2 * t - 1);
    RoundedAtLeast(m, e, k - 1, t);
    FloorLogScaled(m, e, x0, p);
    TenfoldComparison(m, e, k - 1, 2 * t);
    Monotone(m, e, k - 1, 2 * t, 2 * t + 1);
    RoundedAtMost(m, e, k - 1, t);
    PowStrict(10, p, p + 1);
    DigitCountIs(t, p + 1);
    DigitCountBound(ScaledRound(m, e, k), p + 1);
  }

  // ---------- The three possible guesses ----------

  lemma GuessRight(m: nat, e: int, p: nat, x0: int)
    requires IsFloorLog(m, e, x0)
    ensures Search(m, e, p, p, x0, false) == Canonical(m, e, p, x0)
  {
    RightExponent(m, e, p, x0);
    if ScaledRound(m, e, p - x0) < Pow(10, p + 1) {
      SettleRight(m, e, p, x0, false);
    } else {
      SettleRoundedUp(m, e, p, x0, true);
      PowStrict(10, p + 1, p + 2);
      DigitCountIs(Pow(10, p + 1), p + 2);
    }
  }

  /** x is at least half a unit of the last place below the next power of ten: then it is rounded up to it. */
  ghost predicate RoundsUp(m: nat, e: int, p: nat, x0: int) {
    Ge(m, e, p - x0, 2 * Pow(10, p + 1) - 1)
  }

  lemma TieIsEven(x: nat, y: nat, v: int)
    requires y > 0 && v == RoundHalfEven(x, y) && 2 * x == (2 * v + 1) * y
    ensures v % 2 == 0
  {
    RoundHalfEvenExact(x, y, v);
    assert (2 * v + 1) * y == 2 * (v * y) + y;
  }

  lemma RoundsUpExactly(m: nat, e: int, p: nat, x0: int)
    requires IsFloorLog(m, e, x0)
    ensures RoundsUp(m, e, p, x0) <==> ScaledRound(m, e, p - x0) == Pow(10, p + 1)
  {
    var t, k := Pow(10, p), p - x0;
    var v := ScaledRound(m, e, k);
    assert Pow(10, p + 1) == 10 * t;
    RightExponent(m, e, p, x0);
    RoundedBounds(m, e, k, 10 * t);
    if RoundsUp(m, e, p, x0) && v < 10 * t {
      RoundedBounds(m, e, k, v);
      if 2 * v + 1 < 20 * t - 1 {
        Monotone(m, e, k, 2 * v + 1, 20 * t - 1);
      }
      TieIsEven(Numerator(m, e, k), Denominator(e, k), v);
    }
  }

  /** If x is below a power of ten by half a unit of a place, one place further it still is. */
  lemma StaysBelow(m: nat, e: int, k: int, t: int)
    requires ScaledRound(m, e, k) < t
    ensures ScaledRound(m, e, k + 1) < 10 * t
  {
    RoundedBounds(m, e, k, t - 1);
    TenfoldComparison(m, e, k, 2 * t - 1);
    Monotone(m, e, k + 1, 20 * t - 10, 20 * t - 1);
    RoundedAtMost(m, e, k + 1, 10 * t - 1);
  }

  /** A guess one too low is corrected, unless x is rounded up to the next power of ten: then the search gives up. */
  lemma GuessLow(m: nat, e: int, p: nat, x0: int)
    requires IsFloorLog(m, e, x0)
    ensures !RoundsUp(m, e, p, x0) ==> Search(m, e, p, p, x0 - 1, false) == Canonical(m, e, p, x0)
    ensures RoundsUp(m, e, p, x0) ==> Search(m, e, p, p, x0 - 1, false) == Aborted
  {
    var t, k := Pow(10, p), p - x0;
    var y := ScaledRound(m, e, k + 1);
    assert Pow(10, p + 1) == 10 * t && Pow(10, p + 2) == 100 * t;
    RightExponent(m, e, p, x0);
    RoundsUpExactly(m, e, p, x0);
    DigitCountBound(y, p + 1);
    DigitCountBound(y, p + 2);
    DigitCountBound(ScaledRound(m, e, k), p + 1);
    if !RoundsUp(m, e, p, x0) {
      StaysBelow(m, e, k, 10 * t);
      SettleRight(m, e, p, x0, true);
    }
  }

  lemma OneTooHighRoundedUp(m: nat, e: int, p: nat, x0: int)
    requires IsFloorLog(m, e, x0) && ScaledRound(m, e, p - x0 - 1) == Pow(10, p)
    ensures Search(m, e, p, p, x0 + 1, false) == Canonical(m, e, p, x0)
  {
    RightExponent(m, e, p, x0);
    PowStrict(10, p, p + 1);
    DigitCountIs(Pow(10, p), p + 1);
    DigitCountBound(ScaledRound(m, e, p - x0), p + 1);
    if ScaledRound(m, e, p - x0) < Pow(10, p + 1) {
      DigitCountIs(ScaledRound(m, e, p - x0), p + 1);
    }
  }

  lemma OneTooHigh(m: nat, e: int, p: nat, x0: int)
    requires p > 0 && IsFloorLog(m, e, x0) && ScaledRound(m, e, p - x0 - 1) < Pow(10, p)
    ensures Search(m, e, p, p, x0 + 1, false) == Canonical(m, e, p, x0)
  {
    RightExponent(m, e, p - 1, x0);
    DigitCountIs(ScaledRound(m, e, p - x0 - 1), p);
    StaysBelow(m, e, p - x0 - 1, Pow(10, p));
    SettleRight(m, e, p, x0, true);
  }

  lemma ZeroDigit(m: nat, e: int, x0: int)
    requires ScaledRound(m, e, -x0 - 1) < 1
    ensures Le(m, e, -x0 - 1, 1)
    ensures Search(m, e, 0, 0, x0 + 1, false) == Found(0, x0 + 1)
  {
    RoundedBounds(m, e, -x0 - 1, 0);
    assert Pow(10, 0) == 1;
  }

  lemma HalfRoundsToZero(m: nat, e: int, k: int)
    requires Le(m, e, k, 1)
    ensures ScaledRound(m, e, k) == 0
  {
    RoundedBounds(m, e, k, 1);
    Monotone(m, e, k, 1, 3);
    RoundedAtMost(m, e, k, 1);
    if ScaledRound(m, e, k) == 1 {
      RoundHalfEvenExact(Numerator(m, e, k), Denominator(e, k), 1);
    }
  }

  /** A guess one too high is corrected, unless x is rounded to the digit zero: then that is returned. */
  lemma GuessHigh(m: nat, e: int, p: nat, x0: int)
    requires IsFloorLog(m, e, x0)
    ensures !(p == 0 && Le(m, e, -x0 - 1, 1)) ==> Search(m, e, p, p, x0 + 1, false) == Canonical(m, e, p, x0)
    ensures p == 0 && Le(m, e, -x0 - 1, 1) ==> Search(m, e, p, p, x0 + 1, false) == Found(0, x0 + 1)
  {
    var t, k := Pow(10, p), p - x0;
    var y := ScaledRound(m, e, k - 1);
    assert Pow(10, p + 1) == 10 * t;
    FloorLogScaled(m, e, x0, p);
    TenfoldComparison(m, e, k - 1, 2 * t);
    Monotone(m, e, k - 1, 2 * t, 2 * t + 1);
    RoundedAtMost(m, e, k - 1, t);
    RightExponent(m, e, p, x0);
    if y == t {
      OneTooHighRoundedUp(m, e, p, x0);
    } else if p > 0 {
      OneTooHigh(m, e, p, x0);
    } else {
      ZeroDigit(m, e, x0);
    }
    if p == 0 && Le(m, e, -x0 - 1, 1) {
      Monotone(m, e, k - 1, 1, 2);
      HalfRoundsToZero(m, e, k - 1);
    }
  }

  // ---------- The theorems ----------

  /**
   For every number and precision, and every guess that is off by at most one, the search returns the canonical digits
   and exponent exactly when the guess is not too low for a number that is rounded up to a power of ten,
   and not too high for a number that is at most half of 10^guess while only one digit is asked for.
   */
  lemma SearchIsCanonical(m: nat, e: int, p: nat, x0: int, guess: int)
    requires IsFloorLog(m, e, x0) && x0 - 1 <= guess <= x0 + 1
    ensures Search(m, e, p, p, guess, false) == Canonical(m, e, p, x0)
       <==> !(guess < x0 && RoundsUp(m, e, p, x0)) && !(guess > x0 && p == 0 && Le(m, e, -guess, 1))
  {
    RightExponent(m, e, p, x0);
    GuessRight(m, e, p, x0);
    GuessLow(m, e, p, x0);
    GuessHigh(m, e, p, x0);
    assert Pow(10, p) > 0;
  }

  /** The accuracy expected of a guess, with room to spare: x > 1/2 * 10^guess and x < 3/2 * 10^(guess + 1). */
  ghost predicate AccurateGuess(m: nat, e: int, guess: int) {
    !Le(m, e, -guess, 1) && !Ge(m, e, -guess, 30)
  }

  /** A guess with a relative error of a millionth at either end is accurate. */
  lemma MillionthIsAccurate(m: nat, e: int, guess: int)
    requires 1_000_000 * Numerator(m, e, -guess) >= 999_999 * Denominator(e, -guess)
    requires 1_000_000 * Numerator(m, e, -guess) < 10_000_010 * Denominator(e, -guess)
    ensures AccurateGuess(m, e, guess)
  {
  }

  lemma {:induction false} Climb(m: nat, e: int, k: int, k': int)
    requires k < k' && !Le(m, e, k, 1)
    ensures Ge(m, e, k', 10)
    decreases k' - k
  {
    TenfoldComparison(m, e, k' - 1, 1);
    if k == k' - 1 {
    } else {
      Climb(m, e, k, k' - 1);
      Monotone(m, e, k' - 1, 1, 10);
    }
  }

  lemma AccurateIsClose(m: nat, e: int, x0: int, guess: int)
    requires IsFloorLog(m, e, x0) && AccurateGuess(m, e, guess)
    ensures x0 - 1 <= guess <= x0 + 1
  {
    if guess > x0 + 1 {
      Climb(m, e, -guess, -x0 - 1);
      TenfoldComparison(m, e, -x0 - 1, 2);
      Monotone(m, e, -x0 - 1, 2, 10);
    }
    if guess < x0 - 1 {
      FloorLogScaled(m, e, x0, x0 - guess);
      PowMono(10, 2, x0 - guess);
      assert Pow(10, 2) == 100;
      Monotone(m, e, -guess, 30, 2 * Pow(10, x0 - guess));
    }
  }

  lemma {:induction false} NotAboveThreeHalves(m: nat, e: int, x0: int, j: nat)
    requires !Ge(m, e, -x0, 3)
    ensures !Ge(m, e, j - x0, 3 * Pow(10, j))
  {
    if j > 0 {
      NotAboveThreeHalves(m, e, x0, j - 1);
      TenfoldComparison(m, e, j - 1 - x0, 3 * Pow(10, j - 1));
      assert 3 * Pow(10, j) == 10 * (3 * Pow(10, j - 1));
    } else {
      assert Pow(10, 0) == 1;
    }
  }

  /** Every accurate guess gives the same, canonical, digits and exponent. */
  lemma AccurateGuessSuffices(m: nat, e: int, p: nat, x0: int, guess: int)
    requires IsFloorLog(m, e, x0) && AccurateGuess(m, e, guess)
    ensures Search(m, e, p, p, guess, false) == Canonical(m, e, p, x0)
  {
    AccurateIsClose(m, e, x0, guess);
    if guess < x0 {
      TenfoldComparison(m, e, -x0, 3);
      NotAboveThreeHalves(m, e, x0, p);
      Monotone(m, e, p - x0, 3 * Pow(10, p), 2 * Pow(10, p + 1) - 1);
    }
    SearchIsCanonical(m, e, p, x0, guess);
  }

  /** What the canonical pair is: p + 1 digits without a leading zero, which denote x rounded to that many digits. */
  lemma CanonicalMeaning(m: nat, e: int, p: nat, x0: int)
    requires IsFloorLog(m, e, x0)
    ensures
      var c := Canonical(m, e, p, x0);
      && c.Found? && Pow(10, p) <= c.digits < Pow(10, p + 1)
      && x0 <= c.exponent <= x0 + 1
      && IsRounded(Numerator(m, e, p - x0), Denominator(e, p - x0), c.digits * Pow(10, c.exponent - x0))
  {
    RightExponent(m, e, p, x0);
    PowStrict(10, p, p + 1);
    assert Pow(10, 0) == 1 && Pow(10, 1) == 10;
    RoundHalfEvenExact(Numerator(m, e, p - x0), Denominator(e, p - x0), ScaledRound(m, e, p - x0));
  }

  lemma TenthIsSmaller(n: nat, d: nat, n': nat, d': nat)
    requires d > 0 && d' > 0 && n >= 10 * d
    requires (n == 10 * n' && d == d') || (n == n' && d' == 10 * d)
    ensures n' / d' < n / d
  {
    DivMod(n, d);
    DivMod(n', d');
    var q, q' := n / d, n' / d';
    assert 10 * (q' * d) <= n;
    if q' >= q {
      MulMono(q, q', d);
      MulMono(10, q', d);
    }
  }

  lemma Descend(m: nat, e: int, k: int) returns (x0: int)
    requires Ge(m, e, k, 2)
    ensures IsFloorLog(m, e, x0)
    decreases Numerator(m, e, k) / Denominator(e, k)
  {
    if Ge(m, e, k, 20) {
      TenfoldComparison(m, e, k - 1, 2);
      NextPower(m, e, k - 1);
      TenthIsSmaller(Numerator(m, e, k), Denominator(e, k), Numerator(m, e, k - 1), Denominator(e, k - 1));
      x0 := Descend(m, e, k - 1);
    } else {
      x0 := -k;
    }
  }

  /** Every positive number has a decimal exponent. */
  lemma FloorLogExists(m: nat, e: int) returns (x0: int)
    requires m > 0
    ensures IsFloorLog(m, e, x0)
  {
    var k := Neg(e);
    PowBaseMono(2, 10, k);
    assert Pow(10, 0) == 1 && Pow(2, 0) == 1;
    MulMono(1, m, Pow(2, Pos(e)));
    MulMono(1, m * Pow(2, Pos(e)), Pow(10, k));
    assert Ge(m, e, k, 2);
    x0 := Descend(m, e, k);
  }

  /** Without accuracy the search can fail: 9.5 to one digit is 1e+01, but the guess -1 makes it abort. */
  lemma LowGuessAborts()
    ensures IsFloorLog(19, -1, 0) && RoundsUp(19, -1, 0, 0)
    ensures Search(19, -1, 0, 0, -1, false) == Aborted
  {
    assert Pow(10, 0) == 1 && Pow(2, 0) == 1 && Pow(2, 1) == 2 && Pow(10, 1) == 10;
    GuessLow(19, -1, 0, 0);
  }

  /** And 4 to one digit with the guess 1 gives the digit 0. */
  lemma HighGuessGivesZero()
    ensures IsFloorLog(4, 0, 0) && Le(4, 0, -1, 1)
    ensures Search(4, 0, 0, 0, 1, false) == Found(0, 1)
  {
    assert Pow(10, 0) == 1 && Pow(2, 0) == 1 && Pow(10, 1) == 10;
    GuessHigh(4, 0, 0, 0);
  }
}
