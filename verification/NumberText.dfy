/** Writing the text of a number into the temporary buffer, and padding it there. */
module NumberText {
  import opened FormatSyntax
  import opened Texts
  import opened Integers
  import opened Layout

  // ---------- Pieces ----------

  method PutChar(c: char, tmp: array<char>, at: nat) returns (p: nat)
    requires at < tmp.Length
    modifies tmp
    ensures p == at + 1 && tmp[..p] == old(tmp[..at]) + [c]
  {
    tmp[at] := c;
    p := at + 1;
  }

  method PutFill(c: char, n: nat, tmp: array<char>, at: nat) returns (p: nat)
    requires at + n <= tmp.Length
    modifies tmp
    ensures p == at + n && tmp[..p] == old(tmp[..at]) + Fill(c, n)
    ensures tmp[p..] == old(tmp[at + n..])
  {
    p := at;
    ghost var before := tmp[..at];
    for i := 0 to n
      invariant p == at + i && tmp[..p] == before + Fill(c, i)
      invariant tmp[p..] == old(tmp[at + i..])
    {
      tmp[p] := c;
      p := p + 1;
      assert Fill(c, i + 1) == Fill(c, i) + [c];
    }
  }

  /** The digits from index hi - 1 down to index lo. */
  method PutDigits(digits: array<char>, ghost s: string, lo: nat, hi: nat, tmp: array<char>, at: nat) returns (p: nat)
    requires lo <= hi <= |s| <= digits.Length && s == digits[..|s|] && digits != tmp
    requires at + (hi - lo) <= tmp.Length
    modifies tmp
    ensures p == at + (hi - lo) && tmp[..p] == old(tmp[..at]) + Reverse(s[lo..hi])
  {
    p := at;
    ghost var before := tmp[..at];
    var ndigits := hi;
    while ndigits > lo
      invariant lo <= ndigits <= hi && p == at + (hi - ndigits)
      invariant tmp[..p] == before + Reverse(s[ndigits..hi])
    {
      ndigits := ndigits - 1;
      tmp[p] := digits[ndigits];
      p := p + 1;
      assert Reverse(s[ndigits..hi]) == Reverse(s[ndigits + 1..hi]) + [s[ndigits]];
    }
  }

  lemma Regroup(a: string, b: string, c: string, d: string)
    ensures a + b + c + d == a + (b + (c + d)) && a + b + c + d == a + (b + c + d)
  {
  }

  /** If it is shown: the point, some zeros, and digits. */
  method PutPointPart(shown: bool, point: char, zeros: nat, digits: array<char>, ghost s: string, lo: nat, hi: nat,
                      tmp: array<char>, at: nat)
    returns (p: nat)
    requires lo <= hi <= |s| <= digits.Length && s == digits[..|s|] && digits != tmp
    requires at + |PointPart(shown, Zeros(zeros) + Reverse(s[lo..hi]), point)| <= tmp.Length
    modifies tmp
    ensures p == at + |PointPart(shown, Zeros(zeros) + Reverse(s[lo..hi]), point)|
    ensures tmp[..p] == old(tmp[..at]) + PointPart(shown, Zeros(zeros) + Reverse(s[lo..hi]), point)
  {
    p := at;
    ghost var before := tmp[..at];
    if shown {
      p := PutChar(point, tmp, p);
      p := PutFill('0', zeros, tmp, p);
      p := PutDigits(digits, s, lo, hi, tmp, p);
      Regroup(before, [point], Zeros(zeros), Reverse(s[lo..hi]));
    }
  }

  // ---------- %f, %e and %g ----------

  method PutFixed(digits: array<char>, ghost s: string, ndigits: nat, precision: nat, alt: bool, point: char,
                  tmp: array<char>, at: nat)
    returns (p: nat)
    requires ndigits == |s| <= digits.Length && s == digits[..|s|] && digits != tmp
    requires at + |FixedText(s, precision, alt, point)| <= tmp.Length
    modifies tmp
    ensures p == at + |FixedText(s, precision, alt, point)|
    ensures tmp[..p] == old(tmp[..at]) + FixedText(s, precision, alt, point)
  {
    hide PointPart, Zeros, Reverse;
    ghost var before := tmp[..at];
    if ndigits > precision {
      p := PutDigits(digits, s, precision, ndigits, tmp, at);
    } else {
      p := PutChar('0', tmp, at);
    }
    var k := Min(ndigits, precision);
    p := PutPointPart(alt || precision > 0, point, precision - k, digits, s, 0, k, tmp, p);
    assert before + FixedInteger(s, precision) + PointPart(alt || precision > 0, FixedFraction(s, precision), point)
        == before + FixedText(s, precision, alt, point);
  }

  /** sprintf (p, "%+.2d", exponent) and the letter before it. */
  method PutExponent(letter: char, exponent: int, tmp: array<char>, at: nat) returns (p: nat)
    requires at + 1 + |ExponentText(exponent)| <= tmp.Length
    modifies tmp
    ensures p == at + 1 + |ExponentText(exponent)| && tmp[..p] == old(tmp[..at]) + ([letter] + ExponentText(exponent))
  {
    hide ExponentText;
    p := PutChar(letter, tmp, at);
    var text := ExponentText(exponent);
    p := PutText(text, 0, |text|, tmp, p);
    assert text[0..|text|] == text;
  }

  lemma NoZeros(t: string)
    ensures Zeros(0) + t == t
  {
  }

  method PutScientific(digits: array<char>, ghost s: string, ndigits: nat, exponent: int, alt: bool, letter: char, point: char,
                       tmp: array<char>, at: nat)
    returns (p: nat)
    requires 1 <= ndigits == |s| <= digits.Length && s == digits[..|s|] && digits != tmp
    requires at + |ScientificText(s, exponent, alt, letter, point)| <= tmp.Length
    modifies tmp
    ensures p == at + |ScientificText(s, exponent, alt, letter, point)|
    ensures tmp[..p] == old(tmp[..at]) + ScientificText(s, exponent, alt, letter, point)
  {
    hide PointPart, Zeros, Reverse, ExponentText;
    ghost var before := tmp[..at];
    var n := ndigits - 1;
    NoZeros(Reverse(s[0..n]));
    p := PutChar(digits[n], tmp, at);
    p := PutPointPart(alt || n > 0, point, 0, digits, s, 0, n, tmp, p);
    p := PutExponent(letter, exponent, tmp, p);
    Regroup(before, [s[n]], PointPart(alt || n > 0, Reverse(s[0..n]), point), [letter] + ExponentText(exponent));
  }

  /** The loop that counts the zeros to be dropped. */
  method CountZeros(digits: array<char>, ghost s: string, ndigits: nat) returns (nzeroes: nat)
    requires ndigits == |s| <= digits.Length && s == digits[..|s|]
    ensures nzeroes == TrailingZeros(s)
  {
    nzeroes := 0;
    while nzeroes < ndigits && digits[nzeroes] == '0'
      invariant nzeroes <= ndigits
      invariant nzeroes + TrailingZeros(s[nzeroes..]) == TrailingZeros(s)
    {
      assert s[nzeroes..][1..] == s[nzeroes + 1..];
      nzeroes := nzeroes + 1;
    }
  }

  lemma LargeText(s: string, x: int, alt: bool, letter: char, point: char)
    requires 0 <= x < |s|
    ensures
      var n, d := GeneralPlaces(|s|, x), Dropped(s, x, alt);
      GeneralText(s, x, alt, letter, point) == Reverse(s[n..|s|]) + PointPart(alt || n > d, Reverse(s[d..n]), point)
  {
  }

  lemma SmallText(s: string, x: int, alt: bool, letter: char, point: char)
    requires -4 <= x < 0 && s != ""
    ensures
      GeneralText(s, x, alt, letter, point) ==
      "0" + PointPart(true, Zeros(-x - 1) + Reverse(s[Dropped(s, x, alt)..|s|]), point)
  {
  }

  /** Fixed-point notation for %g. */
  method PutGeneralFixed(digits: array<char>, ghost s: string, ndigits: nat, exponent: int, nzeroes: nat, alt: bool, letter: char,
                         point: char, tmp: array<char>, at: nat)
    returns (p: nat)
    requires 1 <= ndigits == |s| <= digits.Length && s == digits[..|s|] && digits != tmp
    requires -4 <= exponent < ndigits && nzeroes == if alt then 0 else TrailingZeros(s)
    requires at + |GeneralText(s, exponent, alt, letter, point)| <= tmp.Length
    modifies tmp
    ensures p == at + |GeneralText(s, exponent, alt, letter, point)|
    ensures tmp[..p] == old(tmp[..at]) + GeneralText(s, exponent, alt, letter, point)
  {
    hide PointPart, Zeros, Reverse, TrailingZeros, GeneralText;
    ghost var before := tmp[..at];
    if exponent >= 0 {
      LargeText(s, exponent, alt, letter, point);
      var n := ndigits - (exponent + 1);
      var d := Min(nzeroes, n);
      NoZeros(Reverse(s[d..n]));
      p := PutDigits(digits, s, n, ndigits, tmp, at);
      p := PutPointPart(alt || n > nzeroes, point, 0, digits, s, d, n, tmp, p);
    } else {
      SmallText(s, exponent, alt, letter, point);
      p := PutChar('0', tmp, at);
      p := PutPointPart(true, point, -exponent - 1, digits, s, nzeroes, ndigits, tmp, p);
    }
  }

  method PutGeneral(digits: array<char>, ghost s: string, ndigits: nat, exponent: int, alt: bool, letter: char, point: char,
                    tmp: array<char>, at: nat)
    returns (p: nat)
    requires 1 <= ndigits == |s| <= digits.Length && s == digits[..|s|] && digits != tmp
    requires at + |GeneralText(s, exponent, alt, letter, point)| <= tmp.Length
    modifies tmp
    ensures p == at + |GeneralText(s, exponent, alt, letter, point)|
    ensures tmp[..p] == old(tmp[..at]) + GeneralText(s, exponent, alt, letter, point)
  {
    hide PointPart, Zeros, Reverse, ExponentText, TrailingZeros;
    ghost var before := tmp[..at];
    var nzeroes := 0;
    if !alt {
      nzeroes := CountZeros(digits, s, ndigits);
    }
    if -4 <= exponent < ndigits {
      p := PutGeneralFixed(digits, s, ndigits, exponent, nzeroes, alt, letter, point, tmp, at);
    } else {
      var n := ndigits - 1;
      var d := Min(nzeroes, n);
      NoZeros(Reverse(s[d..n]));
      p := PutChar(digits[n], tmp, at);
      p := PutPointPart(alt || n > nzeroes, point, 0, digits, s, d, n, tmp, p);
      p := PutExponent(letter, exponent, tmp, p);
      Regroup(before, [s[n]], PointPart(alt || n > nzeroes, Reverse(s[d..n]), point), [letter] + ExponentText(exponent));
    }
  }

  // ---------- Padding ----------

  /**
   The text, padded to a width: spaces after it with the - flag; zeros at the given place, if there is one, with the 0 flag;
   spaces before it otherwise.
   */
  function Padded(t: string, padAt: Option<nat>, flags: set<Flag>, width: nat): (r: string)
    requires padAt.Some? ==> padAt.value <= |t|
    ensures |r| == if |t| < width then width else |t|
  {
    if |t| >= width then t
    else if Left in flags then t + Fill(' ', width - |t|)
    else if Zero in flags && padAt.Some? then t[..padAt.value] + Zeros(width - |t|) + t[padAt.value..]
    else Fill(' ', width - |t|) + t
  }

  /**
   Padding fills exactly what is missing to the width: after the body with the - flag; otherwise between sign and body,
   if zeros are asked for and the body is a number; otherwise before both.
   */
  lemma PaddingShape(sign: string, body: string, isNumber: bool, flags: set<Flag>, width: nat)
    returns (before: nat, inside: nat, after: nat)
    ensures IsShape(Padded(sign + body, if isNumber then Some(|sign|) else None, flags, width), sign, body, before, inside, after)
    ensures before + inside + after == Max(width, |sign| + |body|) - |sign| - |body|
    ensures after > 0 ==> Left in flags
    ensures inside > 0 ==> Left !in flags && Zero in flags && isNumber
    ensures before > 0 ==> Left !in flags && (Zero !in flags || !isNumber)
  {
    var pad := Max(width, |sign| + |body|) - |sign| - |body|;
    before, inside, after := 0, 0, 0;
    if Left in flags {
      after := pad;
    } else if Zero in flags && isNumber {
      inside := pad;
    } else {
      before := pad;
    }
    assert (sign + body)[..|sign|] == sign && (sign + body)[|sign|..] == body;
    assert Fill(' ', 0) == "" && Fill('0', 0) == "";
  }

  /** Moves the text from an index on to the right, last character first: the two places may overlap. */
  method MoveRight(tmp: array<char>, from: nat, count: nat, pad: nat)
    requires from <= count && count + pad <= tmp.Length
    modifies tmp
    ensures tmp[..from] == old(tmp[..from]) && tmp[from + pad..count + pad] == old(tmp[from..count])
  {
    ghost var was := tmp[..count];
    var p := count;
    while p > from
      invariant from <= p <= count
      invariant tmp[..p] == was[..p] && tmp[p + pad..count + pad] == was[p..]
    {
      p := p - 1;
      tmp[p + pad] := tmp[p];
    }
  }

  /** Makes room for padding in front of the text from an index on, and fills it. */
  method OpenGap(tmp: array<char>, from: nat, count: nat, pad: nat, c: char)
    requires from <= count && count + pad <= tmp.Length
    modifies tmp
    ensures tmp[..count + pad] == old(tmp[..from]) + Fill(c, pad) + old(tmp[from..count])
  {
    MoveRight(tmp, from, count, pad);
    ghost var moved := tmp[from + pad..];
    var p := PutFill(c, pad, tmp, from);
    assert tmp[..count + pad] == tmp[..p] + moved[..count - from];
  }

  method PadInPlace(tmp: array<char>, count: nat, padAt: Option<nat>, flags: set<Flag>, width: nat) returns (n: nat)
    requires count <= tmp.Length && width <= tmp.Length && (padAt.Some? ==> padAt.value <= count)
    modifies tmp
    ensures n == (if count < width then width else count) && n <= tmp.Length
    ensures tmp[..n] == Padded(old(tmp[..count]), padAt, flags, width)
  {
    n := count;
    if count < width {
      var pad := width - count;
      if Left in flags {
        n := PutFill(' ', pad, tmp, count);
      } else if Zero in flags && padAt.Some? {
        OpenGap(tmp, padAt.value, count, pad, '0');
        n := width;
      } else {
        OpenGap(tmp, 0, count, pad, ' ');
        n := width;
      }
    }
  }

  /** Padding with zeros leaves the sign in front and does not change the number after it. */
  lemma ZeroPaddingKeepsNumber(sign: string, body: string, flags: set<Flag>, width: nat, point: char)
    requires IsPoint(point) && ReadBack(body, point).Some? && Zero in flags && Left !in flags
    ensures
      var t := Padded(sign + body, Some(|sign|), flags, width);
      && |t| == (if |sign + body| < width then width else |sign + body|)
      && t[..|sign|] == sign && ReadBack(t[|sign|..], point) == ReadBack(body, point)
  {
    hide ReadBack, Zeros;
    var t := Padded(sign + body, Some(|sign|), flags, width);
    assert (sign + body)[..|sign|] == sign && (sign + body)[|sign|..] == body;
    if |sign + body| < width {
      var k := width - |sign + body|;
      ZerosBefore(k, body, point);
      assert t[|sign|..] == Zeros(k) + body;
    }
  }
}
