/** Conversion of a bignum to decimal by repeated division by 10^9, in place. */
module Decimal {
  import opened Powers
  import opened Logarithms
  import opened Bignum
  import opened Division
  import opened Digits

  const BILLION: Limb := 1_000_000_000

  /** The number of nine-digit blocks reserved for a bignum of len limbs: 32 * 0.03345 blocks a limb, and one more. */
  function Blocks(len: nat): nat {
    len * 10704 / 10000 + 1
  }

  /** The blocks reserved hold every number of len limbs. */
  lemma BlocksSuffice(s: seq<Limb>)
    ensures Val(s) < Pow(10, 9 * Blocks(|s|))
  {
    var len := |s|;
    ValBound(s);
    BPowIsPow2(len);
    Pow2BelowPow10();
    if len > 0 {
      CompareByRoot(2, 485, 10, 146, 32 * len, 9 * Blocks(len));
    }
  }

  // ---------- The digits of one block ----------

  lemma DigitSplit(p: nat, x: nat)
    ensures p * (x % 10) + (10 * p) * (x / 10) == p * x
  {
    assert x == x % 10 + 10 * (x / 10);
    MulAssoc(p, 10, x / 10);
  }

  /** Stores the remainder as nine digits. */
  method StoreNineDigits(c: array<char>, d: nat, block: nat)
    requires d + 9 <= c.Length && block < BILLION
    modifies c
    ensures c[..d] == old(c[..d])
    ensures AllDigits(c[d..d + 9]) && DecVal(c[d..d + 9]) == block
  {
    var remainder := block;
    ghost var was := c[..d];
    assert Pow(10, 0) == 1 && Pow(10, 9) == BILLION;
    for i := 0 to 9
      invariant c[..d] == was
      invariant AllDigits(c[d..d + i])
      invariant DecVal(c[d..d + i]) + Pow(10, i) * remainder == block
    {
      ghost var below := c[d..d + i];
      var digit := DigitChar(remainder % 10);
      c[d + i] := digit;
      assert c[d..d + i + 1] == below + [digit];
      DecValConcat(below, [digit]);
      assert DecVal([digit][1..]) == 0;
      DigitSplit(Pow(10, i), remainder);
      remainder := remainder / 10;
    }
    if remainder >= 1 { MulMono(1, remainder, BILLION); }
  }

  // ---------- The conversion loop ----------

  /**
   d digits are written, the bignum still to be converted has len limbs, and at most `left` blocks are still needed.
   A bignum with a zero limb on top may need them all before its length is used up.
   */
  ghost predicate Converting(whole: nat, digits: seq<char>, limbs: seq<Limb>, left: nat) {
    && AllDigits(digits)
    && whole == DecVal(digits) + Pow(10, |digits|) * Val(limbs)
    && Val(limbs) < Pow(10, 9 * left)
    && (Normalised(limbs) || left >= Blocks(|limbs|))
  }

  /** A bignum that still has limbs still has a block reserved. */
  lemma BlockLeft(whole: nat, digits: seq<char>, limbs: seq<Limb>, left: nat)
    requires Converting(whole, digits, limbs, left) && |limbs| > 0
    ensures left > 0
  {
    if Normalised(limbs) {
      NormalisedBound(limbs);
    }
  }

  lemma BlockArithmetic(low: int, block: int, p: int, v: int, x: int)
    requires x == v * BILLION + block
    ensures low + p * x == (low + p * block) + (p * BILLION) * v
  {
    assert p * x == p * (v * BILLION) + p * block;
    MulAssoc(p, v, BILLION);
    MulAssoc(p, BILLION, v);
  }

  lemma TenTo9(k: nat)
    ensures Pow(10, k + 9) == Pow(10, k) * BILLION
  {
    PowAdd(10, k, 9);
    assert Pow(10, 9) == BILLION;
  }

  lemma BlockWritten(whole: nat, digits: seq<char>, block: seq<char>, x: nat, v: nat, remainder: nat)
    requires |block| == 9 && AllDigits(digits) && AllDigits(block) && DecVal(block) == remainder
    requires x == v * BILLION + remainder
    requires whole == DecVal(digits) + Pow(10, |digits|) * x
    ensures AllDigits(digits + block)
    ensures whole == DecVal(digits + block) + Pow(10, |digits + block|) * v
  {
    DecValConcat(digits, block);
    TenTo9(|digits|);
    BlockArithmetic(DecVal(digits), remainder, Pow(10, |digits|), v, x);
  }

  /** Dividing a normalised bignum by 10^9 clears at most its top limb. */
  lemma AtMostOneLimbCleared(limbs: seq<Limb>, quotient: seq<Limb>, remainder: nat)
    requires |quotient| == |limbs| > 0 && Normalised(limbs) && remainder < BILLION
    requires Val(quotient) * BILLION + remainder == Val(limbs)
    ensures Normalised(quotient) || Normalised(quotient[..|quotient| - 1])
  {
    var n := |limbs|;
    NormalisedBound(limbs);
    if n >= 2 {
      assert BPow(n - 1) == BETA * BPow(n - 2);
      assert Val(quotient) >= BPow(n - 2);
    }
    OneZeroLimb(quotient);
  }

  /** Dividing a bignum with a zero limb on top leaves that limb zero. */
  lemma ZeroStaysOnTop(limbs: seq<Limb>, quotient: seq<Limb>, remainder: nat)
    requires |quotient| == |limbs| > 0 && limbs[|limbs| - 1] == 0
    requires Val(quotient) * BILLION + remainder == Val(limbs)
    ensures quotient[|quotient| - 1] == 0
  {
    var n := |limbs|;
    ValDropZero(limbs, n);
    assert limbs[..n] == limbs;
    ValBound(limbs[..n - 1]);
    if quotient[n - 1] != 0 {
      NormalisedBound(quotient);
    }
  }

  lemma TopDropped(quotient: seq<Limb>, rest: seq<Limb>)
    requires |quotient| > 0
    requires rest == if quotient[|quotient| - 1] == 0 then quotient[..|quotient| - 1] else quotient
    ensures Val(rest) == Val(quotient)
  {
    hide Val;
    var n := |quotient|;
    if quotient[n - 1] == 0 {
      ValDropZero(quotient, n);
      assert quotient[..n] == quotient;
    }
  }

  /** What a pass does to the limbs: shorter or smaller, and normalised if they were. */
  lemma LimbsAfterPass(limbs: seq<Limb>, quotient: seq<Limb>, rest: seq<Limb>, remainder: nat)
    requires |quotient| == |limbs| > 0 && remainder < BILLION
    requires Val(quotient) * BILLION + remainder == Val(limbs)
    requires rest == if quotient[|quotient| - 1] == 0 then quotient[..|quotient| - 1] else quotient
    ensures Val(rest) == Val(quotient)
    ensures Normalised(limbs) ==> Normalised(rest)
    ensures !Normalised(limbs) ==> |rest| == |limbs| - 1
    ensures Val(rest) + |rest| < Val(limbs) + |limbs|
  {
    hide Val, BPow;
    var n := |limbs|;
    TopDropped(quotient, rest);
    if Normalised(limbs) {
      AtMostOneLimbCleared(limbs, quotient, remainder);
      NormalisedBound(limbs);
    } else {
      ZeroStaysOnTop(limbs, quotient, remainder);
    }
  }

  lemma BoundAfterPass(v: nat, remainder: nat, left: nat)
    requires v * BILLION + remainder < Pow(10, 9 * left) && left > 0
    ensures v < Pow(10, 9 * (left - 1))
  {
    TenTo9(9 * (left - 1));
  }

  lemma PassDone(whole: nat, digits: seq<char>, limbs: seq<Limb>, quotient: seq<Limb>, rest: seq<Limb>,
                 block: seq<char>, remainder: nat, left: nat)
    requires Converting(whole, digits, limbs, left) && left > 0 && remainder < BILLION
    requires |block| == 9 && AllDigits(block) && DecVal(block) == remainder
    requires |quotient| == |limbs| > 0 && Val(quotient) * BILLION + remainder == Val(limbs)
    requires rest == if quotient[|quotient| - 1] == 0 then quotient[..|quotient| - 1] else quotient
    ensures Converting(whole, digits + block, rest, left - 1)
    ensures Val(rest) + |rest| < Val(limbs) + |limbs|
  {
    LimbsAfterPass(limbs, quotient, rest, remainder);
    BlockWritten(whole, digits, block, Val(limbs), Val(quotient), remainder);
    BoundAfterPass(Val(quotient), remainder, left);
  }

  /** The loop that divides by 10^9, in place. */
  method DivideByBillion(a: Mpn) returns (remainder: Limb)
    requires a.Valid()
    modifies a.limbs
    ensures remainder < BILLION && a.Value() * BILLION + remainder == old(a.Value())
  {
    ghost var limbs := a.Limbs();
    remainder := DivideByLimb(a.limbs, a.off, a, BILLION);
    assert limbs[0..] == limbs && a.Limbs() == a.limbs[..][a.off..a.off + a.nlimbs];
  }

  /** Divides the limbs by 10^9 in place, stores the remainder as nine digits, and shortens the bignum by a limb if it can. */
  method ConvertBlock(a: Mpn, c: array<char>, d: nat, ghost whole: nat, ghost left: nat) returns (rest: Mpn)
    requires a.Valid() && a.nlimbs > 0 && d + 9 * left <= c.Length
    requires Converting(whole, c[..d], a.Limbs(), left)
    modifies a.limbs, c
    ensures left > 0 && rest.Valid() && rest.limbs == a.limbs && rest.off == a.off
    ensures Converting(whole, c[..d + 9], rest.Limbs(), left - 1)
    ensures rest.Value() + rest.nlimbs < old(a.Value()) + a.nlimbs
  {
    hide Converting;
    ghost var digits, limbs := c[..d], a.Limbs();
    BlockLeft(whole, digits, limbs, left);
    var remainder := DivideByBillion(a);
    ghost var quotient := a.Limbs();
    StoreNineDigits(c, d, remainder);
    rest := a;
    if a.limbs[a.off + a.nlimbs - 1] == 0 {
      rest := a.(nlimbs := a.nlimbs - 1);
    }
    assert rest.Limbs() == if quotient[|quotient| - 1] == 0 then quotient[..|quotient| - 1] else quotient;
    PassDone(whole, digits, limbs, quotient, rest.Limbs(), c[d..d + 9], remainder, left);
    assert c[..d + 9] == digits + c[d..d + 9];
  }

  lemma DecValDropZero(s: seq<char>, n: nat)
    requires AllDigits(s) && 0 < n <= |s| && s[n - 1] == '0'
    ensures DecVal(s[..n - 1]) == DecVal(s[..n])
  {
    DecValLast(s[..n]);
    assert s[..n][..n - 1] == s[..n - 1];
  }

  /** Drops leading zeros, keeping at least one digit. */
  method DropLeadingZeroDigits(c: array<char>, d: nat) returns (d': nat)
    requires d <= c.Length && c.Length > 0 && AllDigits(c[..d])
    modifies c
    ensures 0 < d' <= c.Length && d' <= d + 1
    ensures Denotes(c[..d'], old(DecVal(c[..d])))
  {
    d' := d;
    ghost var was := c[..d];
    assert was[..d] == was;
    while d' > 0 && c[d' - 1] == '0'
      invariant 0 <= d' <= d && was == c[..d]
      invariant DecVal(was[..d']) == DecVal(was)
    {
      DecValDropZero(was, d');
      d' := d' - 1;
    }
    assert c[..d'] == was[..d'];
    if d' == 0 {
      c[0] := '0';
      d' := 1;
      assert c[..1] == ['0'];
      DecValZeros(c[..1]);
    }
  }

  lemma StartConverting(zeros: seq<char>, limbs: seq<Limb>)
    requires forall i :: 0 <= i < |zeros| ==> zeros[i] == '0'
    ensures Converting(Val(limbs) * Pow(10, |zeros|), zeros, limbs, Blocks(|limbs|))
  {
    DecValZeros(zeros);
    BlocksSuffice(limbs);
  }

  lemma EndConverting(whole: nat, digits: seq<char>, limbs: seq<Limb>, left: nat)
    requires Converting(whole, digits, limbs, left) && |limbs| == 0
    ensures AllDigits(digits) && DecVal(digits) == whole
  {
  }

  /** The digits leave a cell over exactly if the number is a tenth of what the blocks hold. */
  lemma CellLeft(s: string, v: nat, extraZeroes: nat, blocks: nat)
    requires blocks > 0 && Denotes(s, v * Pow(10, extraZeroes))
    ensures |s| < 9 * blocks + extraZeroes <==> v < Pow(10, 9 * blocks - 1)
  {
    var p, q := Pow(10, 9 * blocks - 1), Pow(10, extraZeroes);
    LengthOf(s, v * q, 9 * blocks + extraZeroes - 1);
    PowAdd(10, 9 * blocks - 1, extraZeroes);
    if v < p {
      MulStrict(v, p, q);
    } else {
      MulMono(p, v, q);
    }
  }

  lemma PowerOfTenFits(n: nat, k: nat)
    requires n > 0 && n * 476 <= 205 * k
    ensures Pow(10, n) <= Pow(2, n + k)
  {
    Pow5BelowPow2();
    CompareByRoot(5, 205, 2, 476, n, k);
    PowOfProduct(2, 5, n);
    PowAdd(2, n, k);
    MulMono(Pow(5, n), Pow(2, k), Pow(2, n));
  }

  /** Fourteen limbs may need all the cells that are reserved for them: then none is left for a NUL. */
  lemma EveryCellUsed(limbs: seq<Limb>)
    requires |limbs| == 14 && forall k :: 0 <= k < |limbs| ==> limbs[k] == BETA - 1
    ensures Blocks(|limbs|) == 15 && Val(limbs) >= Pow(10, 9 * Blocks(|limbs|) - 1)
  {
    hide Val, BPow, Pow;
    var n := 9 * Blocks(|limbs|) - 1;
    AllOnes(limbs);
    BPowIsPow2(|limbs|);
    PowerOfTenFits(n, 313);
    PowStrict(2, n + 313, 32 * |limbs|);
  }

  method WriteZeros(c: array<char>, n: nat)
    requires n <= c.Length
    modifies c
    ensures forall i :: 0 <= i < n ==> c[i] == '0'
  {
    var d := 0;
    while d < n
      invariant d <= n
      invariant forall i :: 0 <= i < d ==> c[i] == '0'
    {
      c[d] := '0';
      d := d + 1;
    }
  }

  /** The passes, until no limb is left. */
  method ConvertBlocks(a: Mpn, c: array<char>, start: nat, ghost whole: nat) returns (d: nat)
    requires a.Valid() && start + 9 * Blocks(a.nlimbs) == c.Length
    requires Converting(whole, c[..start], a.Limbs(), Blocks(a.nlimbs))
    modifies a.limbs, c
    ensures start <= d <= c.Length && AllDigits(c[..d]) && DecVal(c[..d]) == whole
  {
    hide Converting;
    d := start;
    var rest := a;
    ghost var left := Blocks(a.nlimbs);
    while rest.nlimbs > 0
      invariant rest.Valid() && rest.limbs == a.limbs && start <= d && d + 9 * left == c.Length
      invariant Converting(whole, c[..d], rest.Limbs(), left)
      decreases rest.Value() + rest.nlimbs
    {
      rest := ConvertBlock(rest, c, d, whole, left);
      d := d + 9;
      left := left - 1;
    }
    EndConverting(whole, c[..d], rest.Limbs(), left);
  }

  /**
   The decimal digits of a * 10^extraZeroes, lowest first, and their number; the limbs of a are destroyed.
   The array has as many cells as the source reserves. There is one left for a NUL exactly if a is less than a tenth
   of what fits into the blocks.
   */
  method ConvertToDecimal(a: Mpn, extraZeroes: nat) returns (c: array<char>, count: nat)
    requires a.Valid()
    modifies a.limbs
    ensures fresh(c) && c.Length == 9 * Blocks(a.nlimbs) + extraZeroes && count <= c.Length
    ensures Denotes(c[..count], old(a.Value()) * Pow(10, extraZeroes))
    ensures count < c.Length <==> old(a.Value()) < Pow(10, 9 * Blocks(a.nlimbs) - 1)
  {
    hide Converting;
    c := new char[9 * Blocks(a.nlimbs) + extraZeroes];
    ghost var v := a.Value();
    WriteZeros(c, extraZeroes);
    StartConverting(c[..extraZeroes], a.Limbs());
    var d := ConvertBlocks(a, c, extraZeroes, v * Pow(10, extraZeroes));
    count := DropLeadingZeroDigits(c, d);
    CellLeft(c[..count], v, extraZeroes, Blocks(a.nlimbs));
  }
}
