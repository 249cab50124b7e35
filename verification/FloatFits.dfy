/** How long the text of a number can be, given an accurate guess of its exponent, and how much room is set aside for it. */
module FloatFits {
  import opened Powers
  import opened Integers
  import opened Xsize
  import opened FormatSyntax
  import opened ScaledValue
  import opened SignificantDigits
  import opened Layout

  // ---------- Digits of %f ----------

  lemma {:induction false} AboveStays(m: nat, e: int, k: int, h: int, j: nat)
    requires !Ge(m, e, k, h)
    ensures !Ge(m, e, k + j, h * Pow(10, j))
  {
    if j > 0 {
      AboveStays(m, e, k, h, j - 1);
      TenfoldComparison(m, e, k + j - 1, h * Pow(10, j - 1));
      TenTimes(h, Pow(10, j - 1));
    } else {
      assert h * Pow(10, 0) == h;
    }
  }

  lemma {:induction false} BelowStays(m: nat, e: int, k: int, k': int)
    requires k' <= k && !Ge(m, e, k, 30)
    ensures !Ge(m, e, k', 30)
    decreases k - k'
  {
    if k' == k {
    } else {
      TenfoldComparison(m, e, k - 1, 30);
      SignificantDigits.Monotone(m, e, k, 30, 300);
      BelowStays(m, e, k - 1, k');
    }
  }

  /** x * 10^q has at most guess + 2 digits more than q, or one more for a negative guess; and it has at least one. */
  lemma ScaledDigits(m: nat, e: int, q: int, guess: int)
    requires !Ge(m, e, -guess, 30)
    ensures
      var n, most := DigitCount(ScaledRound(m, e, q)), q + if guess >= 0 then guess + 2 else 1;
      n <= 1 || n <= most
  {
    hide DigitCount, ScaledRound, Ge;
    var v := ScaledRound(m, e, q);
    if q + guess >= 0 {
      var t := Pow(10, q + guess);
      AboveStays(m, e, -guess, 30, q + guess);
      SignificantDigits.Monotone(m, e, q, 30 * t, 30 * t + 1);
      RoundedAtMost(m, e, q, 15 * t);
      assert Pow(10, q + guess + 2) == 100 * t;
      DigitCountBound(v, q + guess + 2);
    } else {
      BelowStays(m, e, -guess, q + 1);
      TenfoldComparison(m, e, q, 3);
      RoundedAtMost(m, e, q, 1);
      assert Pow(10, 1) == 10;
      DigitCountBound(v, 1);
    }
  }

  lemma {:induction false} DigitStringLength(v: nat)
    ensures |DigitString(v)| == DigitCount(v)
  {
    if v < 10 {
    } else {
      DigitStringLength(v / 10);
    }
  }

  // ---------- The texts ----------

  const EXPONENT_LIMIT := 10_000_000

  lemma ExponentTextLength(x: int)
    requires -EXPONENT_LIMIT < x < EXPONENT_LIMIT
    ensures |ExponentText(x)| <= 8
  {
    var magnitude := if x < 0 then -x else x;
    DigitStringLength(magnitude);
    assert Pow(10, 1) == 10 && Pow(10, 7) == EXPONENT_LIMIT;
    DigitCountBound(magnitude, 1);
    DigitCountBound(magnitude, 7);
  }

  lemma FixedLength(s: string, p: nat, alt: bool, point: char)
    ensures |FixedText(s, p, alt, point)| <= 1 + p + if |s| > p then |s| - p else 1
  {
  }

  lemma ScientificLength(s: string, x: int, alt: bool, letter: char, point: char)
    requires s != "" && -EXPONENT_LIMIT < x < EXPONENT_LIMIT
    ensures |ScientificText(s, x, alt, letter, point)| <= |s| + 10
  {
    hide ExponentText;
    ExponentTextLength(x);
  }

  lemma GeneralLength(s: string, x: int, alt: bool, letter: char, point: char)
    requires s != "" && -EXPONENT_LIMIT < x < EXPONENT_LIMIT
    ensures |GeneralText(s, x, alt, letter, point)| <= |s| + 10
  {
    hide ExponentText, TrailingZeros;
    ExponentTextLength(x);
  }

  // ---------- The buffer ----------

  /** tmp_length: room for the digits, 12 cells for sign, point and exponent, the width, and a NUL. */
  function TmpLength(dig: Size, precision: Size, width: Size, fixed: bool, guess: Option<int>): Size {
    var length := if dig < precision then precision else dig;
    var digits := if fixed && guess.Some? && guess.value >= 0 then (guess.value + precision) % (SIZE_MAX + 1) else 0;
    Xsum(Xmax(Xsum(Xmax(length, digits), 12), width), 1)
  }

  /** The length, or SIZE_MAX if it is larger; the number of digits of %f wraps around. */
  lemma TmpLengthIs(dig: Size, precision: Size, width: Size, fixed: bool, guess: Option<int>)
    ensures
      var wrapped := if fixed && guess.Some? && guess.value >= 0 then (guess.value + precision) % 0x1_0000_0000_0000_0000 else 0;
      TmpLength(dig, precision, width, fixed, guess) == Saturate(Max(Max(Max(dig, precision), wrapped) + 12, width) + 1)
  {
    hide Xsum;
    var wrapped := if fixed && guess.Some? && guess.value >= 0 then (guess.value + precision) % 0x1_0000_0000_0000_0000 else 0;
    SaturatedSum(Max(Max(dig, precision), wrapped), 12);
    SaturatedSum(Max(Max(Max(dig, precision), wrapped) + 12, width), 1);
  }

  /** A length that does not overflow has room for the digits; a sum that wraps around is not relied on. */
  lemma TmpLengthIsEnough(dig: Size, precision: Size, width: Size, fixed: bool, guess: Option<int>)
    requires !SizeOverflow(TmpLength(dig, precision, width, fixed, guess))
    ensures
      var t := TmpLength(dig, precision, width, fixed, guess);
      && t > width && t >= precision + 13 && t >= dig + 13
      && (fixed && guess.Some? && guess.value >= 0 && guess.value + precision <= SIZE_MAX ==>
            t >= guess.value + precision + 13)
  {
  }
}
