/** How the digits of a number are laid out for %f, %e and %g, and what the texts mean when they are read. */
module Layout {
  import opened Powers
  import opened Digits
  import opened Integers
  import opened FormatSyntax

  // ---------- Digits ----------

  function Reverse(s: string): (r: string)
    ensures |r| == |s| && forall i :: 0 <= i < |s| ==> r[i] == s[|s| - 1 - i]
  {
    seq(|s|, i requires 0 <= i < |s| => s[|s| - 1 - i])
  }

  function Fill(c: char, n: nat): (r: string)
    ensures |r| == n && forall i :: 0 <= i < n ==> r[i] == c
  {
    seq(n, _ => c)
  }

  function Zeros(n: nat): (r: string)
    ensures |r| == n && forall i :: 0 <= i < n ==> r[i] == '0'
  {
    Fill('0', n)
  }

  /** The digits of a number, lowest first. */
  function DigitString(v: nat): string {
    if v < 10 then [DigitChar(v)] else [DigitChar(v % 10)] + DigitString(v / 10)
  }

  lemma LowDigitAdded(d: nat, u: string, v: nat)
    requires d < 10 && v > 0 && Denotes(u, v)
    ensures Denotes([DigitChar(d)] + u, d + 10 * v)
  {
    var s := [DigitChar(d)] + u;
    assert s[1..] == u;
    assert s[|s| - 1] == u[|u| - 1];
    if |u| == 1 {
      assert u == [u[0]];
      DecValSingle(u[0]);
    }
  }

  lemma OneDigitDenotes(v: nat)
    requires v < 10
    ensures Denotes([DigitChar(v)], v)
  {
    DecValSingle(DigitChar(v));
  }

  lemma {:induction false} DigitStringDenotes(v: nat)
    ensures Denotes(DigitString(v), v)
  {
    hide Denotes;
    if v < 10 {
      OneDigitDenotes(v);
    } else {
      DigitStringDenotes(v / 10);
      LowDigitAdded(v % 10, DigitString(v / 10), v / 10);
    }
  }

  /** Reading highest digit first and lowest digit first is the same. */
  lemma {:induction false} NumberOfReverse(s: string)
    requires AllDigits(s)
    ensures AllDigits(Reverse(s)) && NumberOf(Reverse(s)) == DecVal(s)
  {
    if s == "" {
    } else {
      NumberOfReverse(s[1..]);
      var r := Reverse(s);
      assert r[..|r| - 1] == Reverse(s[1..]);
    }
  }

  lemma {:induction false} ZerosAreZero(n: nat)
    ensures AllDigits(Zeros(n)) && NumberOf(Zeros(n)) == 0
  {
    if n == 0 {
    } else {
      ZerosAreZero(n - 1);
      assert Zeros(n)[..n - 1] == Zeros(n - 1);
    }
  }

  lemma {:induction false} LeadingZerosVanish(n: nat, t: string)
    requires AllDigits(t)
    ensures AllDigits(Zeros(n) + t) && NumberOf(Zeros(n) + t) == NumberOf(t)
  {
    if t == "" {
      assert Zeros(n) + t == Zeros(n);
      ZerosAreZero(n);
    } else {
      var u := Zeros(n) + t;
      LeadingZerosVanish(n, t[..|t| - 1]);
      assert u[..|u| - 1] == Zeros(n) + t[..|t| - 1];
    }
  }

  /** How many zeros a number ends with, given its digits lowest first. */
  function TrailingZeros(s: string): (n: nat)
    ensures n <= |s| && (forall i :: 0 <= i < n ==> s[i] == '0') && (n < |s| ==> s[n] != '0')
  {
    if s != "" && s[0] == '0' then 1 + TrailingZeros(s[1..]) else 0
  }

  // ---------- The texts ----------

  function PointPart(shown: bool, fraction: string, point: char): string {
    if shown then [point] + fraction else ""
  }

  function FixedInteger(s: string, p: nat): string {
    if |s| > p then Reverse(s[p..|s|]) else "0"
  }

  function FixedFraction(s: string, p: nat): string {
    Zeros(p - Min(|s|, p)) + Reverse(s[0..Min(|s|, p)])
  }

  /** %f: the digits of x * 10^p, with the last p of them after the point. */
  function FixedText(s: string, p: nat, alt: bool, point: char): string {
    FixedInteger(s, p) + PointPart(alt || p > 0, FixedFraction(s, p), point)
  }

  /** A sign and at least two digits. */
  function ExponentText(x: int): string {
    var magnitude := if x < 0 then -x else x;
    [if x < 0 then '-' else '+'] + (Zeros(if magnitude < 10 then 1 else 0) + Reverse(DigitString(magnitude)))
  }

  /** %e: one digit before the point. */
  function ScientificText(s: string, x: int, alt: bool, letter: char, point: char): string
    requires s != ""
  {
    var p := |s| - 1;
    [s[p]] + PointPart(alt || p > 0, Reverse(s[0..p]), point) + ([letter] + ExponentText(x))
  }

  /** The number of digits after the point in %g, before trailing zeros are dropped. */
  function GeneralPlaces(n: nat, x: int): nat
    requires n > 0
  {
    if 0 <= x < n then n - 1 - x else if -4 <= x < 0 then n else n - 1
  }

  /** How many trailing zeros %g drops: none with the # flag, and none before the point. */
  function Dropped(s: string, x: int, alt: bool): nat
    requires s != ""
  {
    if alt then 0 else Min(TrailingZeros(s), GeneralPlaces(|s|, x))
  }

  function UsesExponent(s: string, x: int): bool {
    x < -4 || x >= |s|
  }

  /** %g */
  function GeneralText(s: string, x: int, alt: bool, letter: char, point: char): string
    requires s != ""
  {
    var places, dropped := GeneralPlaces(|s|, x), Dropped(s, x, alt);
    var shown := alt || places > dropped;
    if UsesExponent(s, x) then
      [s[places]] + PointPart(shown, Reverse(s[dropped..places]), point) + ([letter] + ExponentText(x))
    else if x >= 0 then Reverse(s[places..|s|]) + PointPart(shown, Reverse(s[dropped..places]), point)
    else "0" + PointPart(true, Zeros(-x - 1) + Reverse(s[dropped..places]), point)
  }

  /** A sign and a body, with so many blanks before them, zeros between them, and blanks after them. */
  ghost predicate IsShape(t: string, sign: string, body: string, before: nat, inside: nat, after: nat) {
    t == Fill(' ', before) + sign + Fill('0', inside) + body + Fill(' ', after)
  }

  // ---------- Reading a decimal number ----------

  /** number * 10^scale */
  datatype Reading = Reading(number: nat, scale: int)

  predicate IsExponentLetter(c: char) {
    c == 'e' || c == 'E'
  }

  /** An exponent may be absent; otherwise it has a letter, a sign, and digits to the end of the text. */
  function ReadExponent(tail: string): Option<int> {
    if tail == "" then Some(0)
    else if |tail| > 2 && IsExponentLetter(tail[0]) && tail[1] in ['+', '-'] && AllDigits(tail[2..]) then
      Some(NumberOf(tail[2..]) * if tail[1] == '-' then -1 else 1)
    else None
  }

  /** Digits, perhaps a point and more digits, perhaps an exponent. */
  function ReadBack(text: string, point: char): Option<Reading> {
    var n := DigitRun(text);
    var hasPoint := n < |text| && text[n] == point;
    var places := if hasPoint then DigitRun(text[n + 1..]) else 0;
    var end := if hasPoint then n + 1 + places else n;
    if n == 0 then None
    else
      match ReadExponent(text[end..])
      case None => None
      case Some(x) =>
        var fraction := if hasPoint then text[n + 1..end] else "";
        Some(Reading(NumberOf(text[..n] + fraction), x - places))
  }

  /** A decimal point is told from everything else in a number. */
  predicate IsPoint(point: char) {
    !IsDigit(point) && !IsExponentLetter(point) && point != '+' && point != '-'
  }

  predicate IsTail(tail: string) {
    tail != "" ==> IsExponentLetter(tail[0])
  }

  lemma FourPieces(a: string, b: string, c: string, d: string)
    ensures
      var t := a + (b + (c + d));
      && t[..|a|] == a && t[|a| + |b|..] == c + d && t[|a| + |b|..|a| + |b| + |c|] == c
      && t[|a| + |b| + |c|..] == d && t[|a|..] == b + (c + d)
  {
    var t := a + (b + (c + d));
    assert t[|a|..] == b + (c + d);
    assert t[|a| + |b|..] == c + d;
  }

  lemma ReadWithPoint(integer: string, fraction: string, tail: string, point: char)
    requires integer != "" && AllDigits(integer) && AllDigits(fraction)
    requires IsPoint(point) && IsTail(tail) && ReadExponent(tail).Some?
    ensures AllDigits(integer + fraction)
    ensures
      ReadBack(integer + ([point] + (fraction + tail)), point) ==
      Some(Reading(NumberOf(integer + fraction), ReadExponent(tail).value - |fraction|))
  {
    hide NumberOf, ReadExponent, DigitRun;
    var text := integer + ([point] + (fraction + tail));
    var n := |integer|;
    DigitsThen(integer, [point] + (fraction + tail));
    DigitsThen(fraction, tail);
    FourPieces(integer, [point], fraction, tail);
    assert text[n] == point;
  }

  lemma ReadWithoutPoint(integer: string, tail: string, point: char)
    requires integer != "" && AllDigits(integer)
    requires IsPoint(point) && IsTail(tail) && ReadExponent(tail).Some?
    ensures ReadBack(integer + tail, point) == Some(Reading(NumberOf(integer), ReadExponent(tail).value))
  {
    hide NumberOf, ReadExponent, DigitRun;
    DigitsThen(integer, tail);
    assert (integer + tail)[..|integer|] == integer && (integer + tail)[|integer|..] == tail;
    assert integer + "" == integer;
  }

  lemma ReadParts(integer: string, shown: bool, fraction: string, tail: string, point: char)
    requires integer != "" && AllDigits(integer) && AllDigits(fraction) && (!shown ==> fraction == "")
    requires IsPoint(point) && IsTail(tail) && ReadExponent(tail).Some?
    ensures AllDigits(integer + fraction)
    ensures
      ReadBack(integer + PointPart(shown, fraction, point) + tail, point) ==
      Some(Reading(NumberOf(integer + fraction), ReadExponent(tail).value - |fraction|))
  {
    hide NumberOf, ReadExponent, ReadBack;
    var text := integer + PointPart(shown, fraction, point) + tail;
    if shown {
      ReadWithPoint(integer, fraction, tail, point);
      assert text == integer + ([point] + (fraction + tail));
    } else {
      ReadWithoutPoint(integer, tail, point);
      assert text == integer + tail;
      assert integer + fraction == integer;
    }
  }

  lemma ReadPartsAs(integer: string, shown: bool, fraction: string, tail: string, point: char, number: nat, x: int)
    requires integer != "" && AllDigits(integer) && AllDigits(fraction) && (!shown ==> fraction == "")
    requires IsPoint(point) && IsTail(tail) && ReadExponent(tail) == Some(x)
    requires AllDigits(integer + fraction) && NumberOf(integer + fraction) == number
    ensures ReadBack(integer + PointPart(shown, fraction, point) + tail, point) == Some(Reading(number, x - |fraction|))
  {
    hide NumberOf, ReadExponent, ReadBack;
    ReadParts(integer, shown, fraction, tail, point);
  }

  lemma TwoDigits(d: string, v: nat)
    requires Denotes(d, v)
    ensures
      var t := Zeros(if v < 10 then 1 else 0) + Reverse(d);
      && AllDigits(t) && NumberOf(t) == v && |t| >= 2 && (|t| > 2 ==> t[0] != '0')
  {
    hide DecVal, NumberOf;
    var z := if v < 10 then 1 else 0;
    NumberOfReverse(d);
    LeadingZerosVanish(z, Reverse(d));
    assert Pow(10, 1) == 10;
    LengthOf(d, v, 1);
    assert z == 0 ==> (Zeros(z) + Reverse(d))[0] == d[|d| - 1];
  }

  /** The exponent is read back. Its text has a sign and at least two digits, and no more digits than necessary. */
  lemma ExponentRead(letter: char, x: int)
    requires IsExponentLetter(letter)
    ensures ReadExponent([letter] + ExponentText(x)) == Some(x)
    ensures
      var t := ExponentText(x);
      && |t| >= 3 && t[0] == (if x < 0 then '-' else '+') && AllDigits(t[1..])
      && (|t| > 3 ==> t[1] != '0')
  {
    hide NumberOf, DigitString, Reverse, Zeros, Denotes;
    var magnitude := if x < 0 then -x else x;
    DigitStringDenotes(magnitude);
    TwoDigits(DigitString(magnitude), magnitude);
    var t := ExponentText(x);
    var u := Zeros(if magnitude < 10 then 1 else 0) + Reverse(DigitString(magnitude));
    assert t[1..] == u;
    assert ([letter] + t)[2..] == u;
  }

  // ---------- The texts read back ----------

  lemma ReverseJoin(s: string, a: nat, b: nat)
    requires a <= b <= |s|
    ensures Reverse(s[b..]) + Reverse(s[a..b]) == Reverse(s[a..])
  {
    var l, r, w := Reverse(s[b..]), Reverse(s[a..b]), Reverse(s[a..]);
    forall i | 0 <= i < |w|
      ensures (l + r)[i] == w[i]
    {
      if i >= |l| {
        assert (l + r)[i] == r[i - |l|];
      }
    }
  }

  lemma SliceDigits(s: string, a: nat, b: nat)
    requires a <= b <= |s| && AllDigits(s)
    ensures AllDigits(s[a..b]) && AllDigits(Reverse(s[a..b])) && AllDigits(s[a..]) && AllDigits(Reverse(s[a..]))
  {
  }

  /** Read back, the text of %f is x * 10^p rounded to an integer, over 10^p; it has exactly p digits after the point. */
  lemma FixedReadsBack(s: string, v: nat, p: nat, alt: bool, point: char)
    requires Denotes(s, v) && IsPoint(point)
    ensures ReadBack(FixedText(s, p, alt, point), point) == Some(Reading(v, 0 - p))
    ensures |FixedFraction(s, p)| == p && FixedInteger(s, p) != ""
    ensures |FixedInteger(s, p)| > 1 ==> FixedInteger(s, p)[0] != '0'
  {
    hide ReadBack, NumberOf, DecVal;
    var i, f, k := FixedInteger(s, p), FixedFraction(s, p), Min(|s|, p);
    SliceDigits(s, 0, k);
    SliceDigits(s, k, |s|);
    NumberOfReverse(s);
    assert s[0..] == s && s[p - (p - k)..|s|] == s[k..];
    if |s| > p {
      ReverseJoin(s, 0, p);
      assert i + f == Reverse(s);
    } else {
      assert s[0..k] == s;
      LeadingZerosVanish(1 + (p - |s|), Reverse(s));
      assert i + f == Zeros(1 + (p - |s|)) + Reverse(s);
    }
    ReadParts(i, alt || p > 0, f, "", point);
    assert FixedText(s, p, alt, point) + "" == FixedText(s, p, alt, point);
  }

  /** The digits before and after the point of a number in exponential notation, read together. */
  lemma DigitsJoined(s: string, d: nat)
    requires s != "" && AllDigits(s) && d <= |s| - 1
    ensures
      var i, f := [s[|s| - 1]], Reverse(s[d..|s| - 1]);
      && AllDigits(i) && AllDigits(f) && AllDigits(s[d..]) && |f| == |s| - 1 - d
      && AllDigits(i + f) && NumberOf(i + f) == DecVal(s[d..])
  {
    hide NumberOf, DecVal;
    var p := |s| - 1;
    SliceDigits(s, d, p);
    NumberOfReverse(s[d..]);
    ReverseJoin(s, d, p);
    assert Reverse(s[p..]) == [s[p]];
  }

  /** Exponential notation, with the digits from d on. */
  lemma NotationReads(s: string, d: nat, x: int, shown: bool, letter: char, point: char, number: nat, scale: int)
    requires s != "" && AllDigits(s) && d <= |s| - 1 && (shown || d == |s| - 1)
    requires IsPoint(point) && IsExponentLetter(letter)
    requires AllDigits(s[d..]) && number == DecVal(s[d..]) && scale == x - (|s| - 1 - d)
    ensures
      ReadBack([s[|s| - 1]] + PointPart(shown, Reverse(s[d..|s| - 1]), point) + ([letter] + ExponentText(x)), point)
      == Some(Reading(number, scale))
  {
    hide ReadBack, ReadExponent, ExponentText, PointPart, NumberOf, DecVal, AllDigits, IsPoint, Reverse;
    DigitsJoined(s, d);
    ExponentRead(letter, x);
    ReadPartsAs([s[|s| - 1]], shown, Reverse(s[d..|s| - 1]), [letter] + ExponentText(x), point, number, x);
  }

  /** Read back, the text of %e is the number of its digits, scaled by the exponent; there is one digit before the point. */
  lemma ScientificReadsBack(s: string, x: int, alt: bool, letter: char, point: char)
    requires s != "" && AllDigits(s) && IsPoint(point) && IsExponentLetter(letter)
    ensures ReadBack(ScientificText(s, x, alt, letter, point), point) == Some(Reading(DecVal(s), x - (|s| - 1)))
  {
    hide ReadBack, ExponentText, PointPart, Reverse, IsPoint;
    assert s[0..] == s;
    var v, y := DecVal(s), x - (|s| - 1);
    var shown := alt || |s| - 1 > 0;
    NotationReads(s, 0, x, shown, letter, point, v, y);
    assert Reading(v, y) == Reading(DecVal(s), x - (|s| - 1));
  }

  lemma ScientificLetter(s: string, x: int, alt: bool, letter: char, point: char)
    requires s != ""
    ensures letter in ScientificText(s, x, alt, letter, point)
  {
    hide ExponentText, Reverse;
    assert ([letter] + ExponentText(x))[0] == letter;
  }

  lemma DroppedZeros(s: string, k: nat)
    requires AllDigits(s) && k <= TrailingZeros(s)
    ensures AllDigits(s[k..]) && DecVal(s[k..]) * Pow(10, k) == DecVal(s)
  {
    assert s == s[..k] + s[k..];
    DecValZeros(s[..k]);
    DecValConcat(s[..k], s[k..]);
  }

  /** The number that the text of %g shows: its digits without the dropped zeros. */
  ghost function GeneralNumber(s: string, x: int, alt: bool): nat
    requires s != "" && AllDigits(s)
  {
    SliceDigits(s, Dropped(s, x, alt), |s|);
    DecVal(s[Dropped(s, x, alt)..])
  }

  lemma GeneralExponentReads(s: string, x: int, alt: bool, letter: char, point: char)
    requires s != "" && AllDigits(s) && IsPoint(point) && IsExponentLetter(letter) && UsesExponent(s, x)
    ensures
      ReadBack(GeneralText(s, x, alt, letter, point), point) ==
      Some(Reading(GeneralNumber(s, x, alt), x - (|s| - 1) + Dropped(s, x, alt)))
  {
    hide ReadBack, ExponentText, PointPart, DecVal, Reverse, IsPoint, TrailingZeros;
    var d := Dropped(s, x, alt);
    NotationReads(s, d, x, alt || |s| - 1 > d, letter, point, GeneralNumber(s, x, alt), x - (|s| - 1) + d);
  }

  lemma GeneralFixedReads(s: string, x: int, alt: bool, letter: char, point: char)
    requires s != "" && AllDigits(s) && IsPoint(point) && 0 <= x < |s|
    ensures
      ReadBack(GeneralText(s, x, alt, letter, point), point) ==
      Some(Reading(GeneralNumber(s, x, alt), x - (|s| - 1) + Dropped(s, x, alt)))
  {
    hide ReadBack, NumberOf, DecVal, TrailingZeros;
    var n, d := GeneralPlaces(|s|, x), Dropped(s, x, alt);
    SliceDigits(s, d, n);
    SliceDigits(s, n, |s|);
    SliceDigits(s, d, |s|);
    NumberOfReverse(s[d..]);
    ReverseJoin(s, d, n);
    assert s[n..|s|] == s[n..];
    ReadParts(Reverse(s[n..]), alt || n > d, Reverse(s[d..n]), "", point);
    var t := GeneralText(s, x, alt, letter, point);
    assert t + "" == t;
  }

  lemma GeneralSmallReads(s: string, x: int, alt: bool, letter: char, point: char)
    requires s != "" && AllDigits(s) && IsPoint(point) && -4 <= x < 0
    ensures
      ReadBack(GeneralText(s, x, alt, letter, point), point) ==
      Some(Reading(GeneralNumber(s, x, alt), x - (|s| - 1) + Dropped(s, x, alt)))
  {
    hide ReadBack, NumberOf, DecVal, TrailingZeros;
    var d := Dropped(s, x, alt);
    SliceDigits(s, d, |s|);
    NumberOfReverse(s[d..]);
    assert s[d..|s|] == s[d..];
    var f := Zeros(-x - 1) + Reverse(s[d..]);
    LeadingZerosVanish(-x - 1, Reverse(s[d..]));
    LeadingZerosVanish(-x, Reverse(s[d..]));
    assert "0" + f == Zeros(-x) + Reverse(s[d..]);
    ReadParts("0", true, f, "", point);
    var t := GeneralText(s, x, alt, letter, point);
    assert t + "" == t;
  }

  lemma LastShown(s: string, x: int, alt: bool)
    requires s != "" && AllDigits(s) && !alt && Dropped(s, x, alt) < GeneralPlaces(|s|, x)
    ensures GeneralNumber(s, x, alt) % 10 != 0
  {
    var t := s[Dropped(s, x, alt)..];
    assert t[0] != '0' && DecVal(t) == DigitOf(t[0]) + 10 * DecVal(t[1..]);
  }

  lemma DroppedWeighs(s: string, x: int, alt: bool)
    requires s != "" && AllDigits(s)
    ensures GeneralNumber(s, x, alt) * Pow(10, Dropped(s, x, alt)) == DecVal(s)
  {
    hide DecVal, Pow;
    DroppedZeros(s, Dropped(s, x, alt));
  }

  /**
   Read back, the text of %g is the number of its digits, scaled by the exponent: only trailing zeros are dropped.
   Without the # flag none is left after the point; with it all digits are shown.
   */
  lemma GeneralReadsBack(s: string, x: int, alt: bool, letter: char, point: char)
    requires s != "" && AllDigits(s) && IsPoint(point) && IsExponentLetter(letter)
    ensures
      var d := Dropped(s, x, alt);
      && ReadBack(GeneralText(s, x, alt, letter, point), point) == Some(Reading(GeneralNumber(s, x, alt), x - (|s| - 1) + d))
      && GeneralNumber(s, x, alt) * Pow(10, d) == DecVal(s)
      && (!alt && d < GeneralPlaces(|s|, x) ==> GeneralNumber(s, x, alt) % 10 != 0)
      && (alt ==> d == 0)
  {
    hide ReadBack, NumberOf, DecVal, GeneralText, Pow, TrailingZeros, GeneralNumber;
    if UsesExponent(s, x) {
      GeneralExponentReads(s, x, alt, letter, point);
    } else if x >= 0 {
      GeneralFixedReads(s, x, alt, letter, point);
    } else {
      GeneralSmallReads(s, x, alt, letter, point);
    }
    DroppedWeighs(s, x, alt);
    if !alt && Dropped(s, x, alt) < GeneralPlaces(|s|, x) {
      LastShown(s, x, alt);
    }
  }

  lemma DroppedAfterPoint(s: string, x: int, alt: bool)
    requires s != ""
    ensures Dropped(s, x, alt) <= GeneralPlaces(|s|, x) <= |s|
  {
  }

  lemma NoLetter(t: string, letter: char)
    requires AllDigits(t) && IsExponentLetter(letter)
    ensures letter !in t
  {
  }

  /** %g shows an exponent exactly when it is less than -4, or not less than the precision. */
  lemma GeneralStyle(s: string, x: int, alt: bool, letter: char, point: char)
    requires s != "" && AllDigits(s) && IsPoint(point) && IsExponentLetter(letter)
    ensures letter in GeneralText(s, x, alt, letter, point) <==> x < -4 || x >= |s|
  {
    hide Reverse, TrailingZeros, ExponentText, Dropped, GeneralPlaces, Zeros;
    var places, d := GeneralPlaces(|s|, x), Dropped(s, x, alt);
    DroppedAfterPoint(s, x, alt);
    if !UsesExponent(s, x) {
      SliceDigits(s, d, places);
      SliceDigits(s, places, |s|);
      NoLetter(Reverse(s[d..places]), letter);
      NoLetter(Reverse(s[places..|s|]), letter);
    }
  }

  // ---------- The decimal point ----------

  /** Every point in the text is followed by a digit. */
  predicate PointHasDigit(t: string, point: char) {
    forall i :: 0 <= i < |t| && t[i] == point ==> i + 1 < |t| && IsDigit(t[i + 1])
  }

  lemma PointOfParts(integer: string, shown: bool, fraction: string, tail: string, point: char)
    requires AllDigits(integer) && AllDigits(fraction) && IsPoint(point) && point !in tail
    ensures
      var t := integer + PointPart(shown, fraction, point) + tail;
      && (point in t <==> shown)
      && (fraction != "" || !shown ==> PointHasDigit(t, point))
  {
    var t := integer + PointPart(shown, fraction, point) + tail;
    if shown {
      assert t[|integer|] == point;
      if fraction != "" {
        assert t[|integer| + 1] == fraction[0];
      }
    }
  }

  lemma NoPointInExponent(letter: char, x: int, point: char)
    requires IsExponentLetter(letter) && IsPoint(point)
    ensures point !in [letter] + ExponentText(x)
  {
    hide ExponentText;
    ExponentRead(letter, x);
    var t := ExponentText(x);
    assert t == [t[0]] + t[1..];
  }

  /** %f shows the point exactly with the # flag or with digits after it. */
  lemma FixedPoint(s: string, p: nat, alt: bool, point: char)
    requires AllDigits(s) && IsPoint(point)
    ensures
      var t := FixedText(s, p, alt, point);
      (point in t <==> alt || p > 0) && (!alt ==> PointHasDigit(t, point))
  {
    hide PointHasDigit;
    var k := Min(|s|, p);
    SliceDigits(s, 0, k);
    SliceDigits(s, k, |s|);
    ZerosAreZero(p - k);
    var t := FixedText(s, p, alt, point);
    assert t + "" == t;
    PointOfParts(FixedInteger(s, p), alt || p > 0, FixedFraction(s, p), "", point);
  }

  /** So does %e. */
  lemma ScientificPoint(s: string, x: int, alt: bool, letter: char, point: char)
    requires s != "" && AllDigits(s) && IsExponentLetter(letter) && IsPoint(point)
    ensures
      var t := ScientificText(s, x, alt, letter, point);
      (point in t <==> alt || |s| > 1) && (!alt ==> PointHasDigit(t, point))
  {
    hide PointHasDigit, ExponentText;
    var p := |s| - 1;
    SliceDigits(s, 0, p);
    NoPointInExponent(letter, x, point);
    PointOfParts([s[p]], alt || p > 0, Reverse(s[0..p]), [letter] + ExponentText(x), point);
  }

  /** %g shows it exactly with the # flag or with digits left after it. */
  lemma GeneralPoint(s: string, x: int, alt: bool, letter: char, point: char)
    requires s != "" && AllDigits(s) && IsExponentLetter(letter) && IsPoint(point)
    requires x >= 0 || s[|s| - 1] != '0'
    ensures
      var t := GeneralText(s, x, alt, letter, point);
      && (point in t <==> alt || GeneralPlaces(|s|, x) > Dropped(s, x, alt))
      && (!alt ==> PointHasDigit(t, point))
  {
    hide PointHasDigit, ExponentText, TrailingZeros;
    var n, d := GeneralPlaces(|s|, x), Dropped(s, x, alt);
    SliceDigits(s, d, n);
    SliceDigits(s, n, |s|);
    var t, shown := GeneralText(s, x, alt, letter, point), alt || n > d;
    if UsesExponent(s, x) {
      NoPointInExponent(letter, x, point);
      PointOfParts([s[n]], shown, Reverse(s[d..n]), [letter] + ExponentText(x), point);
    } else {
      assert t + "" == t;
      if x >= 0 {
        PointOfParts(Reverse(s[n..|s|]), shown, Reverse(s[d..n]), "", point);
      } else {
        ZerosAreZero(-x - 1);
        PointOfParts("0", true, Zeros(-x - 1) + Reverse(s[d..n]), "", point);
      }
    }
  }

  // ---------- Zeros in front ----------

  lemma ExponentStarts(tail: string)
    requires ReadExponent(tail).Some?
    ensures IsTail(tail)
  {
  }

  lemma CutAtPoint(text: string, n: nat, places: nat, point: char)
    requires n < |text| && text[n] == point && places <= |text| - n - 1
    ensures
      var after := text[n + 1..];
      && text[n + 1 + places..] == after[places..]
      && text == text[..n] + PointPart(true, after[..places], point) + after[places..]
  {
    var after := text[n + 1..];
    assert text == text[..n] + [point] + after && after == after[..places] + after[places..];
  }

  lemma NoPointPart(point: char)
    ensures PointPart(false, "", point) == ""
  {
  }

  /** A text that can be read consists of these parts. */
  lemma PartsOf(text: string, point: char) returns (integer: string, shown: bool, fraction: string, tail: string)
    requires ReadBack(text, point).Some?
    ensures integer != "" && AllDigits(integer) && AllDigits(fraction) && (!shown ==> fraction == "")
    ensures IsTail(tail) && ReadExponent(tail).Some?
    ensures text == integer + PointPart(shown, fraction, point) + tail
  {
    hide NumberOf, DigitRun, ReadExponent, PointPart;
    var n := DigitRun(text);
    integer, shown, fraction := text[..n], n < |text| && text[n] == point, "";
    if shown {
      var after := text[n + 1..];
      var places := DigitRun(after);
      fraction, tail := after[..places], after[places..];
      CutAtPoint(text, n, places, point);
    } else {
      tail := text[n..];
      NoPointPart(point);
    }
    ExponentStarts(tail);
  }

  /** Zeros in front of a number do not change what it is read as. */
  lemma ZerosBefore(k: nat, text: string, point: char)
    requires IsPoint(point) && ReadBack(text, point).Some?
    ensures ReadBack(Zeros(k) + text, point) == ReadBack(text, point)
  {
    hide ReadExponent, NumberOf, ReadBack, PointPart, Zeros;
    var integer, shown, fraction, tail := PartsOf(text, point);
    ReadParts(integer, shown, fraction, tail, point);
    LeadingZerosVanish(k, integer);
    ReadParts(Zeros(k) + integer, shown, fraction, tail, point);
    LeadingZerosVanish(k, integer + fraction);
    assert Zeros(k) + integer + fraction == Zeros(k) + (integer + fraction);
    assert Zeros(k) + integer + PointPart(shown, fraction, point) + tail == Zeros(k) + text;
  }

  // ---------- A number with its sign ----------

  /** The text without the blanks at its ends. */
  function Trimmed(t: string): string {
    if t != "" && t[0] == ' ' then Trimmed(t[1..])
    else if t != "" && t[|t| - 1] == ' ' then Trimmed(t[..|t| - 1])
    else t
  }

  /** Reads a number in a field: blanks, perhaps a sign, a number, blanks. If there is no sign, a blank stands for it. */
  function ReadSigned(text: string, point: char): Option<(char, Reading)> {
    var t := Trimmed(text);
    var signed := t != "" && t[0] in ['-', '+'];
    match ReadBack(if signed then t[1..] else t, point)
    case None => None
    case Some(r) => Some((if signed then t[0] else ' ', r))
  }

  lemma {:induction false} BlanksTrimmed(before: nat, t: string, after: nat)
    requires t != "" && t[0] != ' ' && t[|t| - 1] != ' '
    ensures Trimmed(Fill(' ', before) + t + Fill(' ', after)) == t
    decreases before, after
  {
    var u := Fill(' ', before) + t + Fill(' ', after);
    if before > 0 {
      BlanksTrimmed(before - 1, t, after);
      assert u[1..] == Fill(' ', before - 1) + t + Fill(' ', after);
    } else if after > 0 {
      BlanksTrimmed(before, t, after - 1);
      assert u[0] == t[0];
      assert u[..|u| - 1] == Fill(' ', before) + t + Fill(' ', after - 1);
    } else {
      assert u == t;
    }
  }

  lemma LastOfTail(tail: string)
    requires ReadExponent(tail).Some? && tail != ""
    ensures IsDigit(tail[|tail| - 1])
  {
    assert tail[|tail| - 1] == tail[2..][|tail| - 3];
  }

  /** A number starts with a digit, and ends with a digit or the point. */
  lemma EndsOfNumber(text: string, point: char)
    requires ReadBack(text, point).Some?
    ensures text != "" && IsDigit(text[0]) && (IsDigit(text[|text| - 1]) || text[|text| - 1] == point)
  {
    hide ReadBack, ReadExponent;
    var integer, shown, fraction, tail := PartsOf(text, point);
    assert text[0] == integer[0];
    if tail != "" {
      LastOfTail(tail);
      assert text[|text| - 1] == tail[|tail| - 1];
    } else if shown {
      assert text == integer + ([point] + fraction);
    } else {
      assert text == integer;
    }
  }

  lemma BlanksJoin(n: nat, k: nat)
    requires k <= 1
    ensures Fill(' ', n + k) == Fill(' ', n) + if k == 1 then " " else ""
  {
  }

  /** A number is read with its sign through blanks around it, and zeros between it and its sign. */
  lemma SignedReads(before: nat, sign: string, inside: nat, body: string, after: nat, point: char)
    requires sign in ["", " ", "-", "+"] && IsPoint(point) && point != ' ' && ReadBack(body, point).Some?
    ensures
      ReadSigned(Fill(' ', before) + sign + Zeros(inside) + body + Fill(' ', after), point) ==
      Some((if sign in ["", " "] then ' ' else sign[0], ReadBack(body, point).value))
  {
    hide ReadBack, Trimmed, Zeros, Fill;
    var u := Zeros(inside) + body;
    ZerosBefore(inside, body, point);
    EndsOfNumber(u, point);
    var blank := if sign == " " then 1 else 0;
    var core := if sign == " " then u else sign + u;
    BlanksTrimmed(before + blank, core, after);
    assert core[|core| - 1] == u[|u| - 1];
    BlanksJoin(before, blank);
    var text := Fill(' ', before) + sign + Zeros(inside) + body + Fill(' ', after);
    assert text == Fill(' ', before + blank) + core + Fill(' ', after);
    if sign in ["-", "+"] {
      assert core[0] == sign[0] && core[1..] == u;
    } else {
      assert core == u;
    }
  }

  /** What the reader makes of one text. */
  lemma ReadingExample()
    ensures ReadSigned(" -1.25e+03", '.') == Some(('-', Reading(125, 1)))
  {
    hide ReadSigned, ReadBack;
    assert "125"[..2] == "12" && "12"[..1] == "1" && "1"[..0] == "";
    assert NumberOf("125") == 125;
    assert "03"[..1] == "0" && "0"[..0] == "" && "e+03"[2..] == "03";
    assert ReadExponent("e+03") == Some(3);
    ReadWithPoint("1", "25", "e+03", '.');
    assert "1" + (['.'] + ("25" + "e+03")) == "1.25e+03" && "1" + "25" == "125";
    SignedReads(1, "-", 0, "1.25e+03", 0, '.');
    assert Fill(' ', 1) + "-" + Zeros(0) + "1.25e+03" + Fill(' ', 0) == " -1.25e+03";
  }
}
