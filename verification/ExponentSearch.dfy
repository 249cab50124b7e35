/** The loop that finds the digits and the exponent of a number from a guess of the exponent. */
module ExponentSearch {
  import opened Powers
  import opened Digits
  import opened Integers
  import opened Bignum
  import opened ScaledValue
  import opened Scale10
  import opened SignificantDigits
  import opened FormatSyntax

  /** strlen (digits) */
  lemma LengthIsDigitCount(s: string, v: nat)
    requires Denotes(s, v)
    ensures |s| == DigitCount(v)
  {
    LengthOf(s, v, |s|);
    DigitCountBound(v, |s|);
    if |s| > 1 {
      DigitCountBound(v, |s| - 1);
    }
  }

  /** The digits of a power of ten. */
  lemma {:induction false} PowerOfTenDenotes(s: string, p: nat)
    requires |s| == p + 1 && s[p] == '1' && forall i :: 0 <= i < p ==> s[i] == '0'
    ensures Denotes(s, Pow(10, p))
  {
    if p == 0 {
      assert s[1..] == "";
    } else {
      PowerOfTenDenotes(s[1..], p - 1);
    }
  }

  lemma {:induction false} PowerOfTenDigits(s: string, t: string, p: nat)
    requires Denotes(s, Pow(10, p)) && |t| == p + 1 && t[p] == '1' && forall i :: 0 <= i < p ==> t[i] == '0'
    ensures s == t
  {
    PowerOfTenDenotes(t, p);
    Unique(s, t, Pow(10, p));
  }

  /** is_borderline: exactly precision zeros and a single one. */
  method IsBorderline(digits: array<char>, ndigits: nat, precision: nat) returns (r: bool)
    requires ndigits <= digits.Length && AllDigits(digits[..ndigits]) && NoLeadingZero(digits[..ndigits])
    ensures r <==> DecVal(digits[..ndigits]) == Pow(10, precision)
  {
    ghost var s := digits[..ndigits];
    ghost var t := seq(precision + 1, i => if i < precision then '0' else '1');
    if DecVal(s) == Pow(10, precision) {
      PowerOfTenDigits(s, t, precision);
    }
    var i := 0;
    while i < precision
      invariant i <= precision && i <= ndigits
      invariant forall j :: 0 <= j < i ==> s[j] == '0'
    {
      if CharAt(digits[..ndigits], i) != '0' {
        return false;
      }
      i := i + 1;
    }
    if CharAt(digits[..ndigits], i) != '1' {
      return false;
    }
    i := i + 1;
    r := CharAt(digits[..ndigits], i) == '\0';
    if i < ndigits {
      assert s[i] != '\0';
    } else {
      PowerOfTenDenotes(s, precision);
    }
  }

  /** What the search leaves behind: digits, lowest first, and an exponent; or nothing, where the source aborts. */
  ghost predicate Finds(outcome: Outcome, aborted: bool, digits: string, exponent: int) {
    match outcome
    case Aborted => aborted
    case Found(d, x) => !aborted && Denotes(digits, d) && exponent == x
  }

  /** The same number one place further may have no more digits. */
  method SettleDigits(e: int, m: Mpn, p: nat, exponent: int, digits: array<char>, ndigits: nat)
    returns (digits': array<char>, ndigits': nat, exponent': int)
    requires m.Valid() && ndigits <= digits.Length
    requires Denotes(digits[..ndigits], ScaledRound(m.Value(), e, IntOf(p) - exponent))
    requires IsInt(IntOf(p) - exponent + 1) && IsInt(e + IntOf(p) - exponent + 1)
    ensures ndigits' <= digits'.Length && (digits' == digits || fresh(digits'))
    ensures Finds(Settle(m.Value(), e, IntOf(p), p, exponent), false, digits'[..ndigits'], exponent')
  {
    hide IntOf;
    digits', ndigits', exponent' := digits, ndigits, exponent;
    var borderline := IsBorderline(digits, ndigits, p);
    if borderline {
      var digits2, ndigits2 := ScaleRoundDecimal(e, m, IntOf(p) - exponent + 1);
      LengthIsDigitCount(digits2[..ndigits2], ScaledRound(m.Value(), e, IntOf(p) - exponent + 1));
      if ndigits2 == p + 1 {
        digits', ndigits', exponent' := digits2, ndigits2, exponent - 1;
      }
    }
  }

  /** All exponents of ten that the search may try fit in an int; q is the precision as an int. */
  predicate InRange(e: int, q: int, guess: int) {
    && IsInt(q - guess - 1) && IsInt(q - guess + 2)
    && IsInt(e + q - guess - 1) && IsInt(e + q - guess + 2)
  }

  lemma {:induction false} SearchLength(m: nat, e: int, q: int, p: nat, guess: int, adjusted: bool)
    requires Search(m, e, q, p, guess, adjusted).Found?
    ensures DigitCount(Search(m, e, q, p, guess, adjusted).digits) == p + 1
    decreases !adjusted
  {
    hide ScaledRound, DigitCount;
    var n := DigitCount(ScaledRound(m, e, q - guess));
    if n != p + 1 {
      SearchLength(m, e, q, p, if n == p then guess - 1 else guess + 1, true);
    }
  }

  lemma SettledLength(m: nat, e: int, q: int, p: nat, guess: int, digits: string, exponent: int)
    requires Finds(Search(m, e, q, p, guess, false), false, digits, exponent)
    ensures |digits| == p + 1
  {
    var d := Search(m, e, q, p, guess, false).digits;
    LengthIsDigitCount(digits, d);
    SearchLength(m, e, q, p, guess, false);
  }

  /** The loop for %e; %g asks for one digit less. */
  method DetermineDigits(e: int, m: Mpn, p: nat, guess: int)
    returns (aborted: bool, digits: array<char>, ndigits: nat, exponent: int)
    requires m.Valid() && InRange(e, IntOf(p), guess)
    ensures ndigits <= digits.Length && fresh(digits)
    ensures Finds(Search(m.Value(), e, IntOf(p), p, guess, false), aborted, digits[..ndigits], exponent)
    ensures !aborted ==> ndigits == p + 1
  {
    hide Denotes, ScaledRound, Settle, IntOf;
    exponent := guess;
    var adjusted := false;
    while true
      invariant Search(m.Value(), e, IntOf(p), p, exponent, adjusted) == Search(m.Value(), e, IntOf(p), p, guess, false)
      invariant exponent == guess || (adjusted && guess - 1 <= exponent <= guess + 1)
      decreases !adjusted
    {
      digits, ndigits := ScaleRoundDecimal(e, m, IntOf(p) - exponent);
      LengthIsDigitCount(digits[..ndigits], ScaledRound(m.Value(), e, IntOf(p) - exponent));
      if ndigits == p + 1 {
        break;
      }
      if ndigits < p || ndigits > p + 2 {
        return true, digits, ndigits, exponent;
      }
      if adjusted {
        return true, digits, ndigits, exponent;
      }
      if ndigits == p {
        exponent := exponent - 1;
      } else {
        exponent := exponent + 1;
      }
      adjusted := true;
    }
    digits, ndigits, exponent := SettleDigits(e, m, p, exponent, digits, ndigits);
    aborted := false;
    SettledLength(m.Value(), e, IntOf(p), p, guess, digits[..ndigits], exponent);
  }
}
