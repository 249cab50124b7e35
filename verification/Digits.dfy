/** Decimal digit strings, lowest digit first, as the conversion produces them. */
module Digits {
  import opened Powers

  predicate IsDigit(c: char) {
    '0' <= c <= '9'
  }

  function DigitOf(c: char): (d: nat)
    requires IsDigit(c)
    ensures d < 10
  {
    c as int - '0' as int
  }

  function DigitChar(d: nat): (c: char)
    requires d < 10
    ensures IsDigit(c) && DigitOf(c) == d
  {
    '0' + d as char
  }

  /** The digits are the ten characters that everybody expects. */
  lemma DigitsMean(d: nat)
    requires d < 10
    ensures DigitChar(d) == "0123456789"[d]
  {
    match d case 0 => case 1 => case 2 => case 3 => case 4 => case 5 => case 6 => case 7 => case 8 => case _ =>
  }

  predicate AllDigits(s: seq<char>) {
    forall i :: 0 <= i < |s| ==> IsDigit(s[i])
  }

  /** The number a string of digits denotes, lowest digit first. */
  function DecVal(s: seq<char>): nat
    requires AllDigits(s)
  {
    if |s| == 0 then 0 else DigitOf(s[0]) + 10 * DecVal(s[1..])
  }

  /** The number a text of digits denotes, highest digit first. */
  function NumberOf(s: string): nat
    requires AllDigits(s)
  {
    if s == "" then 0 else 10 * NumberOf(s[..|s| - 1]) + DigitOf(s[|s| - 1])
  }

  /** No leading zero, except in the string of zero itself. */
  predicate NoLeadingZero(s: seq<char>) {
    |s| >= 1 && (|s| > 1 ==> s[|s| - 1] != '0')
  }

  /** s is the decimal representation of v. */
  ghost predicate Denotes(s: seq<char>, v: nat) {
    AllDigits(s) && NoLeadingZero(s) && DecVal(s) == v
  }

  lemma {:induction false} DecValConcat(s: seq<char>, t: seq<char>)
    requires AllDigits(s) && AllDigits(t)
    ensures AllDigits(s + t)
    ensures DecVal(s + t) == DecVal(s) + Pow(10, |s|) * DecVal(t)
  {
    if |s| == 0 {
      assert s + t == t;
    } else {
      DecValConcat(s[1..], t);
      assert (s + t)[1..] == s[1..] + t;
      MulAssoc(10, Pow(10, |s| - 1), DecVal(t));
    }
  }

  lemma {:induction false} DecValBound(s: seq<char>)
    requires AllDigits(s)
    ensures DecVal(s) < Pow(10, |s|)
  {
    if |s| == 0 {
    } else {
      DecValBound(s[1..]);
    }
  }

  lemma {:induction false} DecValZeros(s: seq<char>)
    requires forall i :: 0 <= i < |s| ==> s[i] == '0'
    ensures AllDigits(s) && DecVal(s) == 0
  {
    if |s| == 0 {
    } else {
      DecValZeros(s[1..]);
    }
  }

  lemma DecValSingle(c: char)
    requires IsDigit(c)
    ensures AllDigits([c]) && DecVal([c]) == DigitOf(c)
  {
    assert [c][1..] == [];
  }

  lemma DecValLast(s: seq<char>)
    requires AllDigits(s) && |s| > 0
    ensures DecVal(s) == DecVal(s[..|s| - 1]) + Pow(10, |s| - 1) * DigitOf(s[|s| - 1])
  {
    hide DecVal, Pow;
    var n := |s| - 1;
    assert s == s[..n] + [s[n]];
    DecValConcat(s[..n], [s[n]]);
    DecValSingle(s[n]);
  }

  /** The number of digits of a representation is known from the size of the number, and conversely. */
  lemma LengthOf(s: seq<char>, v: nat, k: nat)
    requires Denotes(s, v) && k >= 1
    ensures |s| <= k <==> v < Pow(10, k)
    ensures |s| > 1 ==> v >= Pow(10, |s| - 1)
  {
    DecValBound(s);
    DecValLast(s);
    if |s| > 1 {
      MulMono(1, DigitOf(s[|s| - 1]), Pow(10, |s| - 1));
    }
    if |s| <= k {
      PowMono(10, |s|, k);
    } else {
      PowMono(10, k, |s| - 1);
    }
  }

  lemma {:induction false} SameDigits(s: seq<char>, t: seq<char>)
    requires AllDigits(s) && AllDigits(t) && |s| == |t| && DecVal(s) == DecVal(t)
    ensures s == t
  {
    if |s| == 0 {
    } else {
      SameDigits(s[1..], t[1..]);
      assert s == [s[0]] + s[1..] && t == [t[0]] + t[1..];
    }
  }

  /** A number has one decimal representation. */
  lemma {:induction false} Unique(s: seq<char>, t: seq<char>, v: nat)
    requires Denotes(s, v) && Denotes(t, v)
    ensures s == t
  {
    LengthOf(s, v, |t|);
    LengthOf(s, v, |s|);
    LengthOf(t, v, |s|);
    LengthOf(t, v, |t|);
    SameDigits(s, t);
  }
}
