/** The conversion of a floating-point number by %f, %e or %g, from its exact value to the padded text. */
module FloatFormat {
  import opened Powers
  import opened Rounding
  import opened Digits
  import opened Integers
  import opened Xsize
  import opened Bignum
  import opened ScaledValue
  import opened Scale10
  import opened FormatSyntax
  import opened SignificantDigits
  import opened ExponentSearch
  import opened Layout
  import opened NumberText
  import opened Texts
  import opened FloatFits

  predicate IsFixed(c: char) {
    c == 'f' || c == 'F'
  }

  predicate IsScientific(c: char) {
    c == 'e' || c == 'E'
  }

  predicate IsGeneral(c: char) {
    c == 'g' || c == 'G'
  }

  predicate IsFloat(c: char) {
    IsFixed(c) || IsScientific(c) || IsGeneral(c)
  }

  predicate IsUpper(c: char) {
    'A' <= c <= 'Z'
  }

  // ---------- What is written ----------

  function SignText(negative: bool, flags: set<Flag>): string {
    if negative then "-" else if ShowSign in flags then "+" else if Space in flags then " " else ""
  }

  /** The precision of %g is at least one. */
  function GeneralPrecision(p: nat): nat {
    if p == 0 then 1 else p
  }

  function ExponentLetter(c: char): char {
    if IsUpper(c) then 'E' else 'e'
  }

  /** The digits asked for after the first one, by %e and %g. */
  function Places(c: char, p: nat): nat {
    if IsGeneral(c) then GeneralPrecision(p) - 1 else p
  }

  /** What %e and %g lay out: digits, lowest first, and an exponent. Zero has as many zeros as digits are asked for. */
  ghost function DigitsAndExponent(m: nat, e: int, p: nat, guess: int): Option<(string, int)> {
    if m == 0 then Some((Zeros(p + 1), 0))
    else
      match Search(m, e, IntOf(p), p, guess, false)
      case Aborted => None
      case Found(d, x) => Some((DigitString(d), x))
  }

  /** The text of a finite number without its sign; nothing if the search for the exponent gives up. */
  ghost function FiniteText(c: char, alt: bool, p: nat, m: nat, e: int, guess: int, point: char): Option<string>
    requires IsFloat(c)
  {
    if IsFixed(c) then Some(FixedText(DigitString(ScaledRound(m, e, IntOf(p))), p, alt, point))
    else
      match DigitsAndExponent(m, e, Places(c, p), guess)
      case None => None
      case Some((s, x)) =>
        assert s != "";
        if IsGeneral(c) then Some(GeneralText(s, x, alt, ExponentLetter(c), point))
        else Some(ScientificText(s, x, alt, ExponentLetter(c), point))
  }

  // ---------- What is asked of the guess ----------

  /** No sum or difference of ints overflows. */
  predicate IntsFit(c: char, p: nat, m: nat, e: int, guess: int) {
    if IsFixed(c) then IsInt(IntOf(p)) && IsInt(e + IntOf(p))
    else m > 0 ==> InRange(e, IntOf(Places(c, p)), guess)
  }

  /** The guess is accurate, and as small as an exponent can be; zero needs no guess. */
  ghost predicate GoodGuess(m: nat, e: int, guess: int) {
    m > 0 ==> AccurateGuess(m, e, guess) && -EXPONENT_LIMIT + 2 < guess < EXPONENT_LIMIT - 2
  }

  /** The search counts digits up to the precision, but scales by the precision as an int: for more than INT_MAX it gives up. */
  predicate GivesUp(c: char, p: nat, m: nat) {
    !IsFixed(c) && m > 0 && !IsInt(Places(c, p))
  }

  /** With a good guess the search finds the canonical digits, and an exponent that is not too large. */
  lemma SearchSucceeds(m: nat, e: int, p: nat, guess: int)
    requires m > 0 && GoodGuess(m, e, guess) && IsInt(p)
    ensures Search(m, e, IntOf(p), p, guess, false).Found?
    ensures
      var Found(d, x) := Search(m, e, IntOf(p), p, guess, false);
      -EXPONENT_LIMIT < x < EXPONENT_LIMIT && Pow(10, p) <= d < Pow(10, p + 1) && |DigitString(d)| == p + 1
  {
    hide ScaledRound, Search, Canonical;
    IntOfIsSmall(p);
    var x0 := FloorLogExists(m, e);
    AccurateGuessSuffices(m, e, p, x0, guess);
    AccurateIsClose(m, e, x0, guess);
    CanonicalMeaning(m, e, p, x0);
    var d := Search(m, e, p, p, guess, false).digits;
    DigitStringLength(d);
    DigitCountIs(d, p + 1);
  }

  lemma SearchGivesUp(m: nat, e: int, p: nat, guess: int)
    requires m > 0 && GoodGuess(m, e, guess) && !IsInt(p)
    ensures Search(m, e, IntOf(p), p, guess, false) == Aborted
  {
    hide ScaledRound, DigitCount, Settle, IntOf;
    IntOfIsSmall(p);
    ScaledDigits(m, e, IntOf(p) - guess, guess);
  }

  lemma PairExists(m: nat, e: int, p: nat, guess: int)
    requires GoodGuess(m, e, guess)
    ensures DigitsAndExponent(m, e, p, guess).Some? <==> m == 0 || IsInt(p)
    ensures
      m == 0 || IsInt(p) ==>
        var (s, x) := DigitsAndExponent(m, e, p, guess).value;
        |s| == p + 1 && -EXPONENT_LIMIT < x < EXPONENT_LIMIT
  {
    hide Search, DigitString, Zeros, GoodGuess, IntOf;
    if m > 0 {
      if IsInt(p) {
        SearchSucceeds(m, e, p, guess);
      } else {
        SearchGivesUp(m, e, p, guess);
      }
    }
  }

  /** With a good guess there is a text, except where the search gives up. */
  lemma TextExists(c: char, alt: bool, p: nat, m: nat, e: int, guess: int, point: char)
    requires IsFloat(c) && GoodGuess(m, e, guess)
    ensures FiniteText(c, alt, p, m, e, guess, point).Some? <==> !GivesUp(c, p, m)
  {
    hide DigitsAndExponent, GoodGuess, FixedText, ScientificText, GeneralText, DigitString, ScaledRound, IntOf;
    PairExists(m, e, Places(c, p), guess);
  }

  lemma ZeroHasOneDigit(e: int, q: int)
    ensures ScaledRound(0, e, q) == 0 && DigitString(0) == "0"
  {
    assert Numerator(0, e, q) == 0;
  }

  /** The room that the text of a finite number takes, in terms of what is known when the buffer is allocated. */
  function Room(c: char, p: nat, m: nat, guess: int): nat {
    if IsFixed(c) then 1 + p + (if m > 0 && guess >= 0 && IsInt(p) then guess + 2 else 1)
    else if IsGeneral(c) then GeneralPrecision(p) + 10
    else p + 11
  }

  lemma FixedFits(alt: bool, p: nat, m: nat, e: int, guess: int, point: char)
    requires GoodGuess(m, e, guess)
    ensures |FixedText(DigitString(ScaledRound(m, e, IntOf(p))), p, alt, point)| <= Room('f', p, m, guess)
  {
    hide DigitString, ScaledRound, FixedText, DigitCount, IntOf;
    var v := ScaledRound(m, e, IntOf(p));
    IntOfIsSmall(p);
    DigitStringLength(v);
    FixedLength(DigitString(v), p, alt, point);
    if m > 0 {
      ScaledDigits(m, e, IntOf(p), guess);
    } else {
      ZeroHasOneDigit(e, IntOf(p));
    }
  }

  /** A text is not longer than the room. */
  lemma TextFits(c: char, alt: bool, p: nat, m: nat, e: int, guess: int, point: char)
    requires IsFloat(c) && GoodGuess(m, e, guess) && !GivesUp(c, p, m)
    ensures FiniteText(c, alt, p, m, e, guess, point).Some?
    ensures |FiniteText(c, alt, p, m, e, guess, point).value| <= Room(c, p, m, guess)
  {
    hide DigitString, ScaledRound, FixedText, ScientificText, GeneralText, DigitsAndExponent, DigitCount, IntOf, GoodGuess;
    if IsFixed(c) {
      FixedFits(alt, p, m, e, guess, point);
    } else {
      PairExists(m, e, Places(c, p), guess);
      var (s, x) := DigitsAndExponent(m, e, Places(c, p), guess).value;
      ScientificLength(s, x, alt, ExponentLetter(c), point);
      GeneralLength(s, x, alt, ExponentLetter(c), point);
    }
  }

  // ---------- The theorems about the texts ----------

  lemma {:induction false} TenfoldGrowth(m: nat, e: int, k: int, k': int, h: int)
    requires k < k' && h > 0 && Ge(m, e, k, h)
    ensures Ge(m, e, k', 10 * h)
    decreases k' - k
  {
    TenfoldComparison(m, e, k' - 1, h);
    if k == k' - 1 {
    } else {
      TenfoldGrowth(m, e, k, k' - 1, h);
      SignificantDigits.Monotone(m, e, k' - 1, h, 10 * h);
    }
  }

  /** A larger power of ten gives a larger number, unless even the larger one is rounded to zero. */
  lemma MoreDigitsDiffer(m: nat, e: int, q: int, p: int)
    requires q < p && Ge(m, e, p, 2)
    ensures ScaledRound(m, e, q) != ScaledRound(m, e, p)
  {
    hide ScaledRound;
    var v := ScaledRound(m, e, p);
    SignificantDigits.Monotone(m, e, p, 1, 2);
    RoundedAtLeast(m, e, p, 1);
    if ScaledRound(m, e, q) == v {
      RoundedBounds(m, e, q, v);
      RoundedBounds(m, e, p, v);
      TenfoldGrowth(m, e, q, p, 2 * v - 1);
      SignificantDigits.Monotone(m, e, p, 2 * v + 1, 10 * (2 * v - 1));
    }
  }

  lemma EnoughPlaces(m: nat, e: int, p: nat)
    requires m > 0 && -e <= p
    ensures Ge(m, e, p, 2)
  {
    PowBaseMono(2, 10, Neg(e));
    PowMono(10, Neg(e), p);
    assert Pow(10, 0) == 1;
    MulMono(1, m, Pow(2, Pos(e)));
    MulMono(1, m * Pow(2, Pos(e)), Pow(10, p));
  }

  /**
   %f: read back, the text has exactly p digits after the point, and it is x * 10^p, rounded half to even, over 10^p,
   exactly if the precision can be held by an int, or x is zero.
   */
  lemma FixedIsRounded(c: char, alt: bool, p: nat, m: nat, e: int, guess: int, point: char)
    requires IsFixed(c) && IsPoint(point) && IsInt(e)
    ensures
      var t := FiniteText(c, alt, p, m, e, guess, point);
      && t.Some? && ReadBack(t.value, point).Some?
      && var Reading(v, scale) := ReadBack(t.value, point).value;
      && scale == 0 - p
      && v == ScaledRound(m, e, IntOf(p))
      && (IsRounded(Numerator(m, e, p), Denominator(e, p), v) <==> IsInt(p) || m == 0)
  {
    hide FixedText, ReadBack, DigitString, Denotes, IsRounded, IntOf;
    var v := ScaledRound(m, e, IntOf(p));
    DigitStringDenotes(v);
    FixedReadsBack(DigitString(v), v, p, alt, point);
    RoundHalfEvenExact(Numerator(m, e, p), Denominator(e, p), v);
    IntOfIsSmall(p);
    if m == 0 {
      ZeroHasOneDigit(e, IntOf(p));
      ZeroHasOneDigit(e, p);
    } else if !IsInt(p) {
      EnoughPlaces(m, e, p);
      MoreDigitsDiffer(m, e, IntOf(p), p);
    }
  }

  /** With a precision of 2^32, the number 1 is shown as 10^-(2^32). */
  lemma HugePrecision(alt: bool, guess: int, point: char)
    requires IsPoint(point)
    ensures
      var t := FiniteText('f', alt, 0x1_0000_0000, 1, 0, guess, point);
      t.Some? && ReadBack(t.value, point) == Some(Reading(1, -0x1_0000_0000))
  {
    hide FixedText, ReadBack, DigitString, Denotes;
    assert IntOf(0x1_0000_0000) == 0;
    assert Pow(2, 0) == 1 && Pow(10, 0) == 1;
    assert ScaledRound(1, 0, 0) == 1;
    DigitStringDenotes(1);
    FixedReadsBack(DigitString(1), 1, 0x1_0000_0000, alt, point);
    FixedIsRounded('f', alt, 0x1_0000_0000, 1, 0, guess, point);
  }

  /** number * 10^scale is x, rounded half to even to p + 1 significant digits. */
  ghost predicate IsSignificant(m: nat, e: int, p: nat, digits: nat, exponent: int) {
    && Pow(10, p) <= digits < Pow(10, p + 1)
    && exists x0: int ::
         && IsFloorLog(m, e, x0) && x0 <= exponent <= x0 + 1
         && IsRounded(Numerator(m, e, p - x0), Denominator(e, p - x0), digits * Pow(10, exponent - x0))
  }

  /** The digits and the exponent that are laid out: those of x, or zeros if x is zero. */
  ghost predicate PairMeans(m: nat, e: int, p: nat, digits: nat, exponent: int) {
    if m == 0 then digits == 0 && exponent == 0 else IsSignificant(m, e, p, digits, exponent)
  }

  lemma ZerosMeanZero(n: nat)
    ensures AllDigits(Zeros(n)) && DecVal(Zeros(n)) == 0
  {
    hide DecVal;
    DecValZeros(Zeros(n));
  }

  lemma PairIsSignificant(m: nat, e: int, p: nat, guess: int)
    requires GoodGuess(m, e, guess) && (m == 0 || IsInt(p))
    ensures
      && DigitsAndExponent(m, e, p, guess).Some?
      && var (s, x) := DigitsAndExponent(m, e, p, guess).value;
      |s| == p + 1 && AllDigits(s) && PairMeans(m, e, p, DecVal(s), x)
  {
    hide Search, Canonical, IsRounded, Pow, IntOf;
    if m == 0 {
      ZerosMeanZero(p + 1);
    } else {
      IntOfIsSmall(p);
      SearchSucceeds(m, e, p, guess);
      var Found(d, x) := Search(m, e, p, p, guess, false);
      DigitStringDenotes(d);
      var x0 := FloorLogExists(m, e);
      AccurateGuessSuffices(m, e, p, x0, guess);
      CanonicalMeaning(m, e, p, x0);
    }
  }

  /**
   %e: read back, the text is x rounded to p + 1 significant digits, whatever good guess was made, or zero with exponent 0.
   The letter of the exponent is that of the conversion.
   There is a text exactly if x is zero or the precision can be held by an int.
   */
  lemma ScientificIsSignificant(c: char, alt: bool, p: nat, m: nat, e: int, guess: int, point: char)
    requires IsScientific(c) && IsPoint(point) && GoodGuess(m, e, guess)
    ensures
      var t := FiniteText(c, alt, p, m, e, guess, point);
      && (t.Some? <==> m == 0 || IsInt(p))
      && (t.Some? ==>
            && ReadBack(t.value, point).Some?
            && c in t.value
            && var Reading(d, scale) := ReadBack(t.value, point).value;
            PairMeans(m, e, p, d, scale + p))
  {
    hide DigitsAndExponent, ScientificText, ReadBack, PairMeans, GoodGuess;
    PairExists(m, e, p, guess);
    if m == 0 || IsInt(p) {
      PairIsSignificant(m, e, p, guess);
      var (s, x) := DigitsAndExponent(m, e, p, guess).value;
      ScientificReadsBack(s, x, alt, ExponentLetter(c), point);
      ScientificLetter(s, x, alt, ExponentLetter(c), point);
    }
  }

  /**
   What %g shows: x rounded to the digits asked for, less some trailing zeros. With the # flag none is dropped;
   without it none is left after the point.
   */
  ghost predicate Shows(m: nat, e: int, precision: nat, alt: bool, r: Reading, digits: nat, exponent: int, dropped: nat) {
    && precision > 0 && PairMeans(m, e, precision - 1, digits, exponent)
    && r.number * Pow(10, dropped) == digits && r.scale == exponent - (precision - 1) + dropped
    && (alt ==> dropped == 0)
    && (!alt && dropped < GeneralPlaces(precision, exponent) ==> r.number % 10 != 0)
  }

  /** %g: an exponent is shown exactly when it is less than -4 or not less than the precision. */
  lemma GeneralIsSignificant(c: char, alt: bool, p: nat, m: nat, e: int, guess: int, point: char)
    returns (exponent: int, digits: nat, dropped: nat)
    requires IsGeneral(c) && IsPoint(point) && GoodGuess(m, e, guess)
    ensures
      var precision := if p == 0 then 1 else p;
      var t := FiniteText(c, alt, p, m, e, guess, point);
      && (t.Some? <==> m == 0 || IsInt(precision - 1))
      && (t.Some? ==>
            && ReadBack(t.value, point).Some?
            && Shows(m, e, precision, alt, ReadBack(t.value, point).value, digits, exponent, dropped)
            && ((if c == 'g' then 'e' else 'E') in t.value <==> exponent < -4 || exponent >= precision))
  {
    hide DigitsAndExponent, GeneralText, ReadBack, PairMeans, Pow, Dropped, GeneralNumber, GoodGuess;
    var n := GeneralPrecision(p) - 1;
    exponent, digits, dropped := 0, 0, 0;
    PairExists(m, e, n, guess);
    if m == 0 || IsInt(n) {
      PairIsSignificant(m, e, n, guess);
      var (s, x) := DigitsAndExponent(m, e, n, guess).value;
      exponent := x;
      GeneralReadsBack(s, exponent, alt, ExponentLetter(c), point);
      GeneralStyle(s, exponent, alt, ExponentLetter(c), point);
      digits, dropped := DecVal(s), Dropped(s, exponent, alt);
    }
  }

  lemma OneDigit(s: string)
    requires AllDigits(s) && |s| == 1
    ensures DecVal(s) == DigitOf(s[0])
  {
    assert s[1..] == "";
  }

  lemma LeadingDigit(m: nat, e: int, p: nat, guess: int)
    requires GoodGuess(m, e, guess) && (m == 0 || IsInt(p))
    ensures
      && DigitsAndExponent(m, e, p, guess).Some?
      && var (s, x) := DigitsAndExponent(m, e, p, guess).value;
      s != "" && AllDigits(s) && |s| == p + 1 && (x >= 0 || s[|s| - 1] != '0')
  {
    hide Search, Canonical, Pow, IntOf, DecVal, Zeros;
    PairIsSignificant(m, e, p, guess);
    if m > 0 {
      SearchSucceeds(m, e, p, guess);
      var d := Search(m, e, IntOf(p), p, guess, false).digits;
      DigitStringDenotes(d);
      if |DigitString(d)| == 1 {
        OneDigit(DigitString(d));
      }
    }
  }

  /** The # flag always gives a decimal point; without it a point is always followed by a digit. */
  lemma PointFollowsFlag(c: char, alt: bool, p: nat, m: nat, e: int, guess: int, point: char)
    requires IsFloat(c) && IsPoint(point) && GoodGuess(m, e, guess) && !GivesUp(c, p, m)
    ensures
      var t := FiniteText(c, alt, p, m, e, guess, point);
      && t.Some?
      && (if alt then point in t.value else PointHasDigit(t.value, point))
      && (!IsGeneral(c) ==> (point in t.value <==> alt || p > 0))
  {
    hide DigitsAndExponent, FixedText, GeneralText, ScientificText, DigitString, ScaledRound, IntOf, GoodGuess, PointHasDigit;
    if IsFixed(c) {
      DigitStringDenotes(ScaledRound(m, e, IntOf(p)));
      FixedPoint(DigitString(ScaledRound(m, e, IntOf(p))), p, alt, point);
    } else {
      LeadingDigit(m, e, Places(c, p), guess);
      var (s, x) := DigitsAndExponent(m, e, Places(c, p), guess).value;
      ScientificPoint(s, x, alt, ExponentLetter(c), point);
      GeneralPoint(s, x, alt, ExponentLetter(c), point);
    }
  }

  /** Every good guess gives the same text. */
  lemma GuessDoesNotMatter(c: char, alt: bool, p: nat, m: nat, e: int, guess: int, guess': int, point: char)
    requires IsFloat(c) && GoodGuess(m, e, guess) && GoodGuess(m, e, guess')
    ensures FiniteText(c, alt, p, m, e, guess, point) == FiniteText(c, alt, p, m, e, guess', point)
  {
    hide Search, AccurateGuess, GeneralText, ScientificText, DigitString, Zeros, IntOf;
    if m > 0 {
      var n := Places(c, p);
      IntOfIsSmall(n);
      if IsInt(n) {
        var x0 := FloorLogExists(m, e);
        AccurateGuessSuffices(m, e, n, x0, guess);
        AccurateGuessSuffices(m, e, n, x0, guess');
      } else {
        SearchGivesUp(m, e, n, guess);
        SearchGivesUp(m, e, n, guess');
      }
    }
  }

  // ---------- The whole text ----------

  /** The default precision. */
  function EffectivePrecision(precision: Option<Size>): Size {
    if precision.Some? then precision.value else 6
  }

  function NonFiniteText(x: Number, upper: bool): string
    requires !x.Finite?
  {
    if x.NaN? then if upper then "NAN" else "nan" else if upper then "INF" else "inf"
  }

  /** Sign and number, padded: zeros go between them; a number that is not finite is never padded with zeros. */
  ghost function FloatText(c: char, flags: set<Flag>, width: nat, p: nat, x: Number, guess: int, point: char): string
    requires IsFloat(c)
    requires x.Finite? ==> FiniteText(c, Alt in flags, p, x.mantissa, x.exponent, guess, point).Some?
  {
    match x
    case NaN => Padded(NonFiniteText(x, IsUpper(c)), None, flags, width)
    case Infinite(negative) => Padded(SignText(negative, flags) + NonFiniteText(x, IsUpper(c)), None, flags, width)
    case Finite(negative, m, e) =>
      var sign := SignText(negative, flags);
      Padded(sign + FiniteText(c, Alt in flags, p, m, e, guess, point).value, Some(|sign|), flags, width)
  }

  /** What stands in the field beside the padding. */
  ghost predicate IsBody(body: string, c: char, alt: bool, p: nat, x: Number, guess: int, point: char)
    requires IsFloat(c)
  {
    match x
    case NaN => body == if c in ['F', 'E', 'G'] then "NAN" else "nan"
    case Infinite(_) => body == if c in ['F', 'E', 'G'] then "INF" else "inf"
    case Finite(_, m, e) => Some(body) == FiniteText(c, alt, p, m, e, guess, point)
  }

  /**
   The field consists of blanks, a sign, zeros, the number and blanks: '-' exactly for a negative number, '+' exactly for another one
   with the + flag, a blank exactly for another one with the space flag alone; and as much padding as is missing to the width,
   after the number with the - flag, as zeros with the 0 flag, unless the number is not finite, and before it otherwise.
   */
  lemma NumberIsLaidOut(c: char, flags: set<Flag>, width: nat, p: nat, x: Number, guess: int, point: char)
    returns (before: nat, sign: string, inside: nat, body: string, after: nat)
    requires IsFloat(c)
    requires x.Finite? ==> FiniteText(c, Alt in flags, p, x.mantissa, x.exponent, guess, point).Some?
    ensures IsShape(FloatText(c, flags, width, p, x, guess, point), sign, body, before, inside, after)
    ensures IsBody(body, c, Alt in flags, p, x, guess, point)
    ensures
      sign ==
      if x.NaN? then "" else if x.negative then "-" else if ShowSign in flags then "+" else if Space in flags then " " else ""
    ensures before + inside + after == Max(width, |sign| + |body|) - |sign| - |body|
    ensures after > 0 ==> Left in flags
    ensures inside > 0 ==> Left !in flags && Zero in flags && x.Finite?
    ensures before > 0 ==> Left !in flags && (Zero !in flags || !x.Finite?)
  {
    hide FiniteText, Padded, IsShape;
    sign := if x.NaN? then "" else SignText(x.negative, flags);
    body := if x.Finite? then FiniteText(c, Alt in flags, p, x.mantissa, x.exponent, guess, point).value
            else NonFiniteText(x, IsUpper(c));
    assert x.NaN? ==> sign + body == body;
    before, inside, after := PaddingShape(sign, body, x.Finite?, flags, width);
  }

  lemma TextIsRead(c: char, alt: bool, p: nat, m: nat, e: int, guess: int, point: char)
    requires IsFloat(c) && IsPoint(point) && FiniteText(c, alt, p, m, e, guess, point).Some?
    ensures ReadBack(FiniteText(c, alt, p, m, e, guess, point).value, point).Some?
  {
    hide ReadBack, FixedText, ScientificText, GeneralText, DigitString, ScaledRound, Search, DecVal, IntOf;
    if IsFixed(c) {
      var v := ScaledRound(m, e, IntOf(p));
      DigitStringDenotes(v);
      FixedReadsBack(DigitString(v), v, p, alt, point);
    } else {
      var (s, x) := DigitsAndExponent(m, e, Places(c, p), guess).value;
      if m == 0 {
        ZerosMeanZero(Places(c, p) + 1);
      } else {
        DigitStringDenotes(Search(m, e, IntOf(Places(c, p)), Places(c, p), guess, false).digits);
      }
      ScientificReadsBack(s, x, alt, ExponentLetter(c), point);
      GeneralReadsBack(s, x, alt, ExponentLetter(c), point);
    }
  }

  /** Read with its sign, and through all padding, the field of a finite number is the number with the sign that it has. */
  lemma SignIsRead(c: char, flags: set<Flag>, width: nat, p: nat, x: Number, guess: int, point: char)
    requires IsFloat(c) && IsPoint(point) && point != ' '
    requires x.Finite? && FiniteText(c, Alt in flags, p, x.mantissa, x.exponent, guess, point).Some?
    ensures
      var body := FiniteText(c, Alt in flags, p, x.mantissa, x.exponent, guess, point).value;
      && ReadBack(body, point).Some?
      && ReadSigned(FloatText(c, flags, width, p, x, guess, point), point) ==
         Some((if x.negative then '-' else if ShowSign in flags then '+' else ' ', ReadBack(body, point).value))
  {
    hide FiniteText, FloatText, ReadBack, ReadSigned;
    TextIsRead(c, Alt in flags, p, x.mantissa, x.exponent, guess, point);
    var before, sign, inside, body, after := NumberIsLaidOut(c, flags, width, p, x, guess, point);
    SignedReads(before, sign, inside, body, after, point);
    assert Fill('0', inside) == Zeros(inside);
  }

  /** Without a precision, %f shows six digits after the point, and %e as many. */
  lemma SixByDefault(c: char, alt: bool, m: nat, e: int, guess: int, point: char)
    requires (IsFixed(c) || IsScientific(c)) && IsPoint(point) && IsInt(e) && GoodGuess(m, e, guess)
    ensures
      var t := FiniteText(c, alt, EffectivePrecision(None), m, e, guess, point);
      && t.Some? && ReadBack(t.value, point).Some?
      && var Reading(v, scale) := ReadBack(t.value, point).value;
      if IsFixed(c) then scale == -6 && IsRounded(Numerator(m, e, 6), Denominator(e, 6), v) else PairMeans(m, e, 6, v, scale + 6)
  {
    hide FiniteText, ReadBack, IsRounded, PairMeans, GoodGuess;
    if IsFixed(c) {
      FixedIsRounded(c, alt, 6, m, e, guess, point);
    } else {
      ScientificIsSignificant(c, alt, 6, m, e, guess, point);
    }
  }

  // ---------- Writing the text ----------

  lemma DigitsAre(s: string, v: nat)
    requires Denotes(s, v)
    ensures s == DigitString(v)
  {
    DigitStringDenotes(v);
    Unique(s, DigitString(v), v);
  }

  /** The bignum and the exponent that a finite number is decoded into. */
  ghost predicate Decoded(x: Number, e: int, m: Mpn)
    reads m.limbs
  {
    x.Finite? && x.exponent == e && m.Valid() && m.Value() == x.mantissa
  }

  method PutFixedNumber(c: char, alt: bool, p: nat, x: Number, m: Mpn, ghost guess: int, point: char, tmp: array<char>, at: nat)
    returns (end: nat)
    requires x.Finite? && Decoded(x, x.exponent, m) && IsFixed(c) && IntsFit(c, p, x.mantissa, x.exponent, guess)
    requires FiniteText(c, alt, p, x.mantissa, x.exponent, guess, point).Some?
    requires at + |FiniteText(c, alt, p, x.mantissa, x.exponent, guess, point).value| <= tmp.Length
    modifies tmp
    ensures
      var text := FiniteText(c, alt, p, x.mantissa, x.exponent, guess, point).value;
      end == at + |text| && tmp[..end] == old(tmp[..at]) + text
  {
    hide FixedText, ScaledRound, Denotes, DigitString;
    var digits, ndigits := ScaleRoundDecimal(x.exponent, m, IntOf(p));
    ghost var s := digits[..ndigits];
    DigitsAre(s, ScaledRound(x.mantissa, x.exponent, IntOf(p)));
    end := PutFixed(digits, s, ndigits, p, alt, point, tmp, at);
  }

  lemma ZerosReversed(n: nat)
    ensures Reverse(Zeros(n + 1)[0..n]) == Zeros(n) && TrailingZeros(Zeros(n + 1)) == n + 1
  {
    var s := Zeros(n + 1);
    assert forall i :: 0 <= i < |s| ==> s[i] == '0';
  }

  /** The texts of zero. */
  lemma ZeroTexts(n: nat, alt: bool, letter: char, point: char)
    ensures Zeros(n + 1) != ""
    ensures ScientificText(Zeros(n + 1), 0, alt, letter, point) ==
            "0" + PointPart(alt || n > 0, Zeros(n), point) + ([letter] + ExponentText(0))
    ensures GeneralText(Zeros(n + 1), 0, alt, letter, point) == "0" + PointPart(alt, Zeros(n), point)
  {
    hide ExponentText;
    var s := Zeros(n + 1);
    ZerosReversed(n);
    assert Reverse(s[n..|s|]) == "0";
    assert [s[n]] == "0";
    assert !alt ==> Dropped(s, 0, alt) == n;
  }

  method PutZero(shown: bool, zeros: nat, point: char, tmp: array<char>, at: nat) returns (end: nat)
    requires at + |"0" + PointPart(shown, Zeros(zeros), point)| <= tmp.Length
    modifies tmp
    ensures end == at + |"0" + PointPart(shown, Zeros(zeros), point)|
    ensures tmp[..end] == old(tmp[..at]) + ("0" + PointPart(shown, Zeros(zeros), point))
  {
    end := PutChar('0', tmp, at);
    if shown {
      end := PutChar(point, tmp, end);
      end := PutFill('0', zeros, tmp, end);
    }
  }

  method PutScientificNumber(c: char, alt: bool, p: nat, x: Number, m: Mpn, guess: int, point: char, tmp: array<char>, at: nat)
    returns (aborted: bool, end: nat)
    requires x.Finite? && Decoded(x, x.exponent, m) && IsScientific(c) && IntsFit(c, p, x.mantissa, x.exponent, guess)
    requires
      var text := FiniteText(c, alt, p, x.mantissa, x.exponent, guess, point);
      text.Some? ==> at + |text.value| <= tmp.Length
    requires at <= tmp.Length
    modifies tmp
    ensures
      match FiniteText(c, alt, p, x.mantissa, x.exponent, guess, point)
      case None => aborted
      case Some(text) => !aborted && end == at + |text| && tmp[..end] == old(tmp[..at]) + text
  {
    hide Search, DigitString, Denotes, ScientificText, GeneralText, FixedText, PointPart, Zeros, ExponentText;
    aborted, end := false, at;
    if x.mantissa == 0 {
      ZeroTexts(p, alt, c, point);
      end := PutZero(alt || p > 0, p, point, tmp, at);
      end := PutExponent(c, 0, tmp, end);
    } else {
      var digits, ndigits, exponent;
      aborted, digits, ndigits, exponent := DetermineDigits(x.exponent, m, p, guess);
      if !aborted {
        ghost var s := digits[..ndigits];
        DigitsAre(s, Search(x.mantissa, x.exponent, IntOf(p), p, guess, false).digits);
        end := PutScientific(digits, s, ndigits, exponent, alt, c, point, tmp, at);
      }
    }
  }

  method PutGeneralNumber(c: char, alt: bool, p: nat, x: Number, m: Mpn, guess: int, point: char, tmp: array<char>, at: nat)
    returns (aborted: bool, end: nat)
    requires x.Finite? && Decoded(x, x.exponent, m) && IsGeneral(c) && IntsFit(c, p, x.mantissa, x.exponent, guess)
    requires
      var text := FiniteText(c, alt, p, x.mantissa, x.exponent, guess, point);
      text.Some? ==> at + |text.value| <= tmp.Length
    requires at <= tmp.Length
    modifies tmp
    ensures
      match FiniteText(c, alt, p, x.mantissa, x.exponent, guess, point)
      case None => aborted
      case Some(text) => !aborted && end == at + |text| && tmp[..end] == old(tmp[..at]) + text
  {
    hide Search, DigitString, Denotes, ScientificText, GeneralText, FixedText, PointPart, Zeros, ExponentText;
    aborted, end := false, at;
    var precision := if p == 0 then 1 else p;
    if x.mantissa == 0 {
      ZeroTexts(precision - 1, alt, ExponentLetter(c), point);
      end := PutZero(alt, precision - 1, point, tmp, at);
    } else {
      var digits, ndigits, exponent;
      aborted, digits, ndigits, exponent := DetermineDigits(x.exponent, m, precision - 1, guess);
      if !aborted {
        ghost var s := digits[..ndigits];
        DigitsAre(s, Search(x.mantissa, x.exponent, IntOf(precision - 1), precision - 1, guess, false).digits);
        end := PutGeneral(digits, s, ndigits, exponent, alt, ExponentLetter(c), point, tmp, at);
      }
    }
  }

  // ---------- The whole conversion ----------

  /** The exponent that counts for the length of the buffer: that of a finite number other than zero. */
  function LengthGuess(x: Number, guess: int): Option<int> {
    if x.Finite? && x.mantissa > 0 then Some(guess) else None
  }

  /** What the caller provides for a finite number: its bignum, and a good guess of its exponent. */
  ghost predicate Convertible(c: char, p: nat, x: Number, m: Mpn, guess: int)
    reads m.limbs
  {
    x.Finite? ==>
      && Decoded(x, x.exponent, m)
      && IntsFit(c, p, x.mantissa, x.exponent, guess) && GoodGuess(x.mantissa, x.exponent, guess)
  }

  /** The temporary buffer; on the stack if it is small. */
  method ReserveTmp(dig: Size, p: Size, width: Size, fixed: bool, guess: Option<int>) returns (ok: bool, tmp: array<char>)
    ensures ok == !SizeOverflow(TmpLength(dig, p, width, fixed, guess))
    ensures ok ==> fresh(tmp) && tmp.Length >= TmpLength(dig, p, width, fixed, guess)
  {
    hide Xsum;
    var tmpLength: Size := dig;
    if tmpLength < p {
      tmpLength := p;
    }
    if fixed && guess.Some? {
      if guess.value >= 0 && tmpLength < (guess.value + p) % (SIZE_MAX + 1) {
        tmpLength := (guess.value + p) % (SIZE_MAX + 1);
      }
    }
    tmpLength := Xsum(tmpLength, 12);
    if tmpLength < width {
      tmpLength := width;
    }
    tmpLength := Xsum(tmpLength, 1);
    if tmpLength <= 700 {
      tmp := new char[700];
    } else {
      var memorySize := Xtimes(tmpLength, 1);
      if SizeOverflow(memorySize) {
        ok, tmp := false, new char[0];
        return;
      }
      tmp := new char[tmpLength];
    }
    ok := true;
  }

  method PutNonFinite(x: Number, upper: bool, tmp: array<char>, at: nat) returns (p: nat)
    requires !x.Finite? && at + 3 <= tmp.Length
    modifies tmp
    ensures p == at + 3 && tmp[..p] == old(tmp[..at]) + NonFiniteText(x, upper)
  {
    var text := NonFiniteText(x, upper);
    assert |text| == 3;
    p := PutText(text, 0, |text|, tmp, at);
    assert text[0..|text|] == text;
  }

  method PutSign(negative: bool, flags: set<Flag>, tmp: array<char>) returns (p: nat)
    requires tmp.Length > 0
    modifies tmp
    ensures p <= 1 && p == |SignText(negative, flags)| && tmp[..p] == SignText(negative, flags)
  {
    p := 0;
    if negative {
      p := PutChar('-', tmp, p);
    } else if ShowSign in flags {
      p := PutChar('+', tmp, p);
    } else if Space in flags {
      p := PutChar(' ', tmp, p);
    }
  }

  lemma FixedNeverGivesUp(c: char, p: nat, m: nat)
    requires IsFixed(c)
    ensures !GivesUp(c, p, m)
  {
  }

  method PutFinite(c: char, alt: bool, p: nat, x: Number, m: Mpn, guess: int, point: char, tmp: array<char>, at: nat)
    returns (aborted: bool, end: nat)
    requires IsFloat(c) && x.Finite? && Convertible(c, p, x, m, guess)
    requires at + Room(c, p, x.mantissa, guess) <= tmp.Length
    modifies tmp
    ensures aborted == GivesUp(c, p, x.mantissa)
    ensures
      var text := FiniteText(c, alt, p, x.mantissa, x.exponent, guess, point);
      !aborted ==>
        && text.Some? && |text.value| <= Room(c, p, x.mantissa, guess)
        && end == at + |text.value| && tmp[..end] == old(tmp[..at]) + text.value
  {
    hide FiniteText, GoodGuess, IntsFit, GivesUp;
    TextExists(c, alt, p, x.mantissa, x.exponent, guess, point);
    if FiniteText(c, alt, p, x.mantissa, x.exponent, guess, point).Some? {
      TextFits(c, alt, p, x.mantissa, x.exponent, guess, point);
    }
    aborted := false;
    if IsFixed(c) {
      FixedNeverGivesUp(c, p, x.mantissa);
      end := PutFixedNumber(c, alt, p, x, m, guess, point, tmp, at);
    } else if IsScientific(c) {
      aborted, end := PutScientificNumber(c, alt, p, x, m, guess, point, tmp, at);
    } else {
      aborted, end := PutGeneralNumber(c, alt, p, x, m, guess, point, tmp, at);
    }
  }

  /** How a conversion ends: with a text, without memory, or at one of the calls of abort. */
  datatype Ending = Done | NoMemory | Abort

  /**
   Converts a number. With a good guess of the exponent, abort is reached only for %e and %g with a precision that an int
   cannot hold; otherwise the text, padding included, is shorter than the buffer. Memory is short exactly if the length of the
   buffer overflows.
   */
  method FormatFloat(c: char, flags: set<Flag>, width: Size, precision: Option<Size>, dig: Size,
                     x: Number, m: Mpn, guess: int, point: char)
    returns (ending: Ending, tmp: array<char>, count: nat)
    requires IsFloat(c) && dig > 0 && Convertible(c, EffectivePrecision(precision), x, m, guess)
    ensures
      var p := EffectivePrecision(precision);
      var tmpLength := TmpLength(dig, p, width, IsFixed(c), LengthGuess(x, guess));
      && (ending.NoMemory? <==> SizeOverflow(tmpLength))
      && (ending.Abort? ==> x.Finite? && GivesUp(c, p, x.mantissa))
      && (ending.Done? ==>
            && (x.Finite? ==>
                  && !GivesUp(c, p, x.mantissa)
                  && FiniteText(c, Alt in flags, p, x.mantissa, x.exponent, guess, point).Some?)
            && fresh(tmp) && count < tmpLength <= tmp.Length
            && tmp[..count] == FloatText(c, flags, width, p, x, guess, point))
  {
    hide FiniteText, TmpLength, AccurateGuess, Padded, SignText, NonFiniteText, GivesUp;
    var p: Size := if precision.Some? then precision.value else 6;
    count := 0;
    var ok;
    ok, tmp := ReserveTmp(dig, p, width, IsFixed(c), LengthGuess(x, guess));
    if !ok {
      ending := NoMemory;
      return;
    }
    TmpLengthIsEnough(dig, p, width, IsFixed(c), LengthGuess(x, guess));
    var padAt := None;
    match x {
      case NaN =>
        count := PutNonFinite(x, IsUpper(c), tmp, 0);
        assert tmp[..count] == NonFiniteText(x, IsUpper(c));
      case Infinite(negative) =>
        count := PutSign(negative, flags, tmp);
        count := PutNonFinite(x, IsUpper(c), tmp, count);
      case Finite(negative, _, _) =>
        count := PutSign(negative, flags, tmp);
        padAt := Some(count);
        var aborted;
        aborted, count := PutFinite(c, Alt in flags, p, x, m, guess, point, tmp, count);
        if aborted {
          ending := Abort;
          return;
        }
    }
    count := PadInPlace(tmp, count, padAt, flags, width);
    ending := Done;
  }
}
