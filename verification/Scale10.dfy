/**
 The decimal digits of m * 2^e * 10^n, rounded half to even: 5^|n| is built and shifted in one scratch array, and m is
 multiplied or divided by it.
 */
module Scale10 {
  import opened Integers
  import opened Powers
  import opened Rounding
  import opened Logarithms
  import opened Bignum
  import opened Division
  import opened Digits
  import opened Decimal
  import opened ScaledValue

  const SMALL_POW5: seq<Limb> :=
    [1, 5, 25, 125, 625, 3125, 15625, 78125, 390625, 1953125, 9765625, 48828125, 244140625, 1220703125]

  /** The limbs that 5^absN needs at most. */
  function Pow5Limbs(absN: nat): nat {
    absN * 2322 / 32000 + 1
  }

  /** The size of the scratch array: room for 5^absN, for whole limbs of a shift by absS, and one limb more. */
  function ScratchSize(absN: nat, absS: nat): nat {
    Pow5Limbs(absN) + absS / LIMB_BITS + 1
  }

  lemma {:induction false} SmallPow5(i: nat)
    requires i <= 13
    ensures SMALL_POW5[i] == Pow(5, i)
  {
    if i == 0 {
    } else {
      SmallPow5(i - 1);
      assert Pow(5, i) == 5 * Pow(5, i - 1);
    }
  }

  /** A power of five that needs len + 1 limbs has len + 1 limbs reserved. */
  lemma Pow5Length(k: nat, absN: nat, len: nat)
    requires k <= absN && BPow(len) <= Pow(5, k)
    ensures len < Pow5Limbs(absN)
  {
    if len > absN * 2322 / 32000 {
      BPowIsPow2(len);
      PowMono(5, k, absN);
      if absN > 0 {
        Pow5BelowPow2();
        CompareByRoot(5, 205, 2, 476, absN, 32 * len);
      } else {
        PowStrict(2, 0, 32 * len);
      }
      assert false;
    }
  }

  /** One multiplication by a small power of five, with the limb that may have to go on top. */
  method MultiplyBySmallPow5(pow5: array<Limb>, len: nat, i: nat, ghost k: nat, ghost absN: nat) returns (len': nat)
    requires i <= 13 && k + i <= absN
    requires 0 < len <= Pow5Limbs(absN) <= pow5.Length && Val(pow5[..len]) == Pow(5, k)
    modifies pow5
    ensures 0 < len' <= Pow5Limbs(absN) && Val(pow5[..len']) == Pow(5, k + i)
  {
    SmallPow5(i);
    var carry := ScaleInPlace(pow5, len, SMALL_POW5[i]);
    PowAdd(5, i, k);
    assert Val(pow5[..len]) + carry * BPow(len) == Pow(5, k + i);
    len' := len;
    if carry > 0 {
      MulMono(1, carry, BPow(len));
      Pow5Length(k + i, absN, len);
      ghost var low := pow5[..len];
      var top: Limb := carry;
      pow5[len] := top;
      len' := len + 1;
      assert pow5[..len'] == low + [top];
      ValSnoc(low, top);
    }
  }

  /** 5^absN, in an array with room for a shift by absS. */
  method PowerOfFive(absN: nat, absS: nat) returns (pow5: array<Limb>, len: nat)
    ensures fresh(pow5) && pow5.Length == ScratchSize(absN, absS)
    ensures 0 < len <= Pow5Limbs(absN) && Val(pow5[..len]) == Pow(5, absN)
  {
    pow5 := new Limb[ScratchSize(absN, absS)];
    pow5[0] := 1;
    len := 1;
    assert pow5[..1] == [1];
    ValSingle(1);
    if absN > 0 {
      var n13 := 0;
      while n13 <= absN
        invariant 0 <= n13 <= absN + 13
        invariant 0 < len <= Pow5Limbs(absN) && Val(pow5[..len]) == Pow(5, Min(n13, absN))
      {
        var i := if n13 + 13 <= absN then 13 else absN - n13;
        len := MultiplyBySmallPow5(pow5, len, i, n13, absN);
        n13 := n13 + 13;
      }
    }
  }

  /** Clears limbs, one at a time. */
  method ClearLimbs(a: array<Limb>, off: nat, n: nat)
    requires off + n <= a.Length
    modifies a
    ensures a[..off] == old(a[..off]) && a[off + n..] == old(a[off + n..])
    ensures Val(a[off..off + n]) == 0
  {
    for i := 0 to n
      invariant a[..off] == old(a[..off]) && a[off + n..] == old(a[off + n..])
      invariant forall k :: off <= k < off + i ==> a[k] == 0
    {
      a[off + i] := 0;
    }
    ValZeros(a[off..off + n]);
  }

  /** What leaves the top of a shift becomes one more limb, unless it is zero. */
  lemma LimbOnTop(low: seq<Limb>, top: Limb, v: nat, x: nat)
    requires Val(low) + top * BPow(|low|) == x * v
    ensures Val(low + [top]) == v * x
    ensures top == 0 ==> Val(low) == v * x
  {
    hide Val, BPow;
    ValSnoc(low, top);
    assert x * v == v * x;
  }

  /** Zero limbs below multiply by a power of two. */
  lemma ZeroLimbsBelow(zeros: seq<Limb>, high: seq<Limb>)
    requires Val(zeros) == 0
    ensures Val(zeros + high) == Val(high) * Pow(2, 32 * |zeros|)
  {
    var k, h := |zeros|, Val(high);
    BPowIsPow2(k);
    assert BPow(k) * h == h * Pow(2, 32 * k);
    ValConcat(zeros, high);
  }

  lemma LimbsAndBits(v: nat, sLimbs: nat, sBits: nat)
    ensures (v * Pow(2, sBits)) * Pow(2, 32 * sLimbs) == v * Pow(2, 32 * sLimbs + sBits)
  {
    PowAdd(2, 32 * sLimbs, sBits);
    MulAssoc(v, Pow(2, sBits), Pow(2, 32 * sLimbs));
  }

  /** A C cast to 32 bits of what leaves the top of a shift by less than 32 bits. */
  lemma FitsInLimb(accu: nat, sBits: nat)
    requires sBits < LIMB_BITS && accu < Pow(2, sBits)
    ensures accu < BETA && Pow(2, sBits) < BETA
  {
    PowStrict(2, sBits, 32);
    Pow2Of32();
  }

  /** Multiplies by 2^sBits, in place. */
  method ShiftBitsInPlace(a: array<Limb>, len: nat, sBits: nat) returns (len': nat)
    requires sBits < LIMB_BITS && len < a.Length
    modifies a
    ensures len <= len' <= len + 1 && Val(a[..len']) == old(Val(a[..len])) * Pow(2, sBits)
  {
    ghost var v := Val(a[..len]);
    assert a[0..len] == a[..len];
    var accu := ShiftLeft(a, 0, a, 0, len, sBits);
    FitsInLimb(accu, sBits);
    ghost var low := a[0..len];
    var top: Limb := accu;
    LimbOnTop(low, top, v, Pow(2, sBits));
    len' := len;
    if accu > 0 {
      a[len] := top;
      len' := len + 1;
      assert a[..len'] == low + [top];
    } else {
      assert a[..len'] == low;
    }
  }

  /** Moves the limbs up, from the top one down, and clears the limbs below. */
  method ShiftLimbsInPlace(a: array<Limb>, len: nat, sLimbs: nat)
    requires len + sLimbs <= a.Length && sLimbs > 0
    modifies a
    ensures Val(a[..len + sLimbs]) == old(Val(a[..len])) * Pow(2, 32 * sLimbs)
  {
    ghost var was := a[..len];
    for count := len downto 0
      invariant forall i :: 0 <= i < count ==> a[i] == was[i]
      invariant forall i :: sLimbs + count <= i < sLimbs + len ==> a[i] == was[i - sLimbs]
    {
      a[sLimbs + count] := a[count];
    }
    ghost var moved := a[sLimbs..sLimbs + len];
    assert moved == was;
    ghost var rest := a[sLimbs..];
    assert rest[..len] == moved;
    ClearLimbs(a, 0, sLimbs);
    assert a[0 + sLimbs..] == rest;
    assert a[..len + sLimbs] == a[0..0 + sLimbs] + rest[..len];
    ZeroLimbsBelow(a[0..0 + sLimbs], was);
  }

  /** Multiplies by 2^(32 * sLimbs + sBits), in place. */
  method ShiftInPlace(a: array<Limb>, len: nat, sLimbs: nat, sBits: nat) returns (len': nat)
    requires sBits < LIMB_BITS && len + sLimbs + 1 <= a.Length
    modifies a
    ensures len' <= len + sLimbs + 1 && Val(a[..len']) == old(Val(a[..len])) * Pow(2, 32 * sLimbs + sBits)
  {
    len' := len;
    ghost var v := Val(a[..len]);
    if sBits > 0 {
      len' := ShiftBitsInPlace(a, len, sBits);
    } else {
      assert Pow(2, 0) == 1;
    }
    LimbsAndBits(v, sLimbs, sBits);
    if sLimbs > 0 {
      ShiftLimbsInPlace(a, len', sLimbs);
      len' := len' + sLimbs;
    } else {
      assert Pow(2, 0) == 1;
    }
  }

  /** 2^absS, placed behind the first len limbs of the scratch array. */
  method PowerOfTwoBehind(a: array<Limb>, len: nat, sLimbs: nat, sBits: nat) returns (den: Mpn)
    requires sBits < LIMB_BITS && len + sLimbs + 1 <= a.Length
    modifies a
    ensures den.Valid() && den.limbs == a && den.off == len
    ensures den.Value() == Pow(2, 32 * sLimbs + sBits)
    ensures a[..len] == old(a[..len])
  {
    ClearLimbs(a, len, sLimbs);
    ghost var zeros := a[len..len + sLimbs];
    PowStrict(2, sBits, 32);
    Pow2Of32();
    var top: Limb := Pow(2, sBits);
    a[len + sLimbs] := top;
    den := Mpn(a, len, sLimbs + 1);
    assert den.Limbs() == zeros + [top];
    ZeroLimbsBelow(zeros, [top]);
    ValSingle(top);
    PowAdd(2, sBits, 32 * sLimbs);
  }

  /** The shifted limbs of m, above whatever is below them. */
  method ShiftedLimbs(m: Mpn, a: array<Limb>, off: nat, sBits: nat) returns (len: nat)
    requires m.Valid() && sBits < LIMB_BITS && a != m.limbs && off + m.nlimbs + 1 <= a.Length
    modifies a
    ensures len <= m.nlimbs + 1 && a[..off] == old(a[..off])
    ensures Val(a[off..off + len]) == m.Value() * Pow(2, sBits)
  {
    len := m.nlimbs;
    if sBits > 0 {
      var accu := ShiftLeft(m.limbs, m.off, a, off, len, sBits);
      FitsInLimb(accu, sBits);
      ghost var low := a[off..off + len];
      var top: Limb := accu;
      LimbOnTop(low, top, m.Value(), Pow(2, sBits));
      if accu > 0 {
        a[off + len] := top;
        len := len + 1;
        assert a[off..off + len] == low + [top];
      }
    } else {
      CopyLimbs(m.limbs, m.off, a, off, len);
      assert Pow(2, 0) == 1;
    }
  }

  /** m * 2^(32 * sLimbs + sBits), in an array of its own. */
  method ShiftedCopy(m: Mpn, sLimbs: nat, sBits: nat) returns (num: Mpn)
    requires m.Valid() && sBits < LIMB_BITS
    ensures num.Valid() && fresh(num.limbs)
    ensures num.Value() == m.Value() * Pow(2, 32 * sLimbs + sBits)
  {
    var a := new Limb[m.nlimbs + sLimbs + 1];
    ClearLimbs(a, 0, sLimbs);
    ghost var zeros := a[0..0 + sLimbs];
    var len := ShiftedLimbs(m, a, sLimbs, sBits);
    num := Mpn(a, 0, sLimbs + len);
    assert zeros == a[..sLimbs];
    assert num.Limbs() == zeros + a[sLimbs..sLimbs + len];
    ZeroLimbsBelow(zeros, a[sLimbs..sLimbs + len]);
    LimbsAndBits(m.Value(), sLimbs, sBits);
  }

  /** The power of five and the power of two on the same side: both multiply m, or both divide it. */
  method ApplyTogether(m: Mpn, pow5: array<Limb>, len: nat, up: bool, sLimbs: nat, sBits: nat, ghost f: nat, ghost t: nat)
    returns (z: Mpn)
    requires m.Valid() && m.limbs != pow5 && sBits < LIMB_BITS && len + sLimbs + 1 <= pow5.Length
    requires Val(pow5[..len]) == f > 0 && t == Pow(2, 32 * sLimbs + sBits)
    modifies pow5
    ensures z.Valid() && fresh(z.limbs) && Normalised(z.Limbs())
    ensures f * t > 0
    ensures z.Value() == if up then m.Value() * f * t else RoundHalfEven(m.Value(), f * t)
  {
    hide RoundHalfEven;
    MulStrict(0, f, t);
    var shifted := ShiftInPlace(pow5, len, sLimbs, sBits);
    var factor := Mpn(pow5, 0, shifted);
    assert factor.Limbs() == pow5[..shifted];
    if up {
      z := Multiply(m, factor);
      MulAssoc(m.Value(), f, t);
    } else {
      z := Divide(m, factor);
    }
  }

  /** The power of five and the power of two on different sides. */
  method ApplyApart(m: Mpn, pow5: array<Limb>, len: nat, up: bool, sLimbs: nat, sBits: nat, ghost f: nat, ghost t: nat)
    returns (z: Mpn)
    requires m.Valid() && m.limbs != pow5 && sBits < LIMB_BITS && len + sLimbs + 1 <= pow5.Length
    requires Val(pow5[..len]) == f > 0 && t == Pow(2, 32 * sLimbs + sBits)
    modifies pow5
    ensures z.Valid() && fresh(z.limbs) && Normalised(z.Limbs())
    ensures z.Value() == if up then RoundHalfEven(m.Value() * f, t) else RoundHalfEven(m.Value() * t, f)
  {
    hide RoundHalfEven;
    var factor := Mpn(pow5, 0, len);
    assert factor.Limbs() == pow5[..len];
    if up {
      var num := Multiply(m, factor);
      var den := PowerOfTwoBehind(pow5, len, sLimbs, sBits);
      z := Divide(num, den);
    } else {
      var num := ShiftedCopy(m, sLimbs, sBits);
      z := Divide(num, factor);
    }
  }

  /** The four cases of signs, in terms of the positive and the negative parts of the exponents. */
  lemma FourCases(v: nat, n: int, s: int, z: nat)
    requires
      var f, t := Pow(5, if n >= 0 then n else -n), Pow(2, if s >= 0 then s else -s);
      && f * t > 0
      && z == if n >= 0 then if s >= 0 then v * f * t else RoundHalfEven(v * f, t)
              else if s <= 0 then RoundHalfEven(v, f * t) else RoundHalfEven(v * t, f)
    ensures Pow(5, Neg(n)) * Pow(2, Neg(s)) > 0
    ensures z == RoundHalfEven(v * Pow(5, Pos(n)) * Pow(2, Pos(s)), Pow(5, Neg(n)) * Pow(2, Neg(s)))
  {
    hide RoundHalfEven;
    MulStrict(0, Pow(5, Neg(n)), Pow(2, Neg(s)));
    assert Pow(5, 0) == 1 && Pow(2, 0) == 1;
    if n >= 0 && s >= 0 {
      RoundExactMultiple(z, 1);
    }
  }

  /**
   The integer z of which the result has extraZeroes more zeros at the end: m times or divided by the power of five,
   shifted by |s| in whichever way the signs of n and s ask for.
   */
  method MultiplyOrDivide(m: Mpn, n: CInt, s: CInt) returns (z: Mpn)
    requires m.Valid()
    ensures z.Valid() && fresh(z.limbs) && Normalised(z.Limbs())
    ensures Pow(5, Neg(n)) * Pow(2, Neg(s)) > 0
    ensures z.Value() == RoundHalfEven(m.Value() * Pow(5, Pos(n)) * Pow(2, Pos(s)), Pow(5, Neg(n)) * Pow(2, Neg(s)))
  {
    hide RoundHalfEven;
    var absN: nat := if n >= 0 then n else -n;
    var absS: nat := if s >= 0 then s else -s;
    ghost var f, t := Pow(5, absN), Pow(2, absS);
    MulStrict(0, f, t);
    var pow5, len := PowerOfFive(absN, absS);
    var sLimbs, sBits := absS / LIMB_BITS, absS % LIMB_BITS;
    if if n >= 0 then s >= 0 else s <= 0 {
      z := ApplyTogether(m, pow5, len, n >= 0, sLimbs, sBits, f, t);
    } else {
      z := ApplyApart(m, pow5, len, n >= 0, sLimbs, sBits, f, t);
    }
    FourCases(m.Value(), n, s, z.Value());
  }

  /** The scaled value, with x factors of ten taken out; none are taken out where something is rounded. */
  lemma TensTakenOut(v: nat, e: int, n: int, x: nat)
    requires x == 0 || (x <= n && x <= e + n)
    ensures
      var n', s := n - x, e + n - x;
      && Pow(5, Neg(n')) * Pow(2, Neg(s)) > 0
      && ScaledRound(v, e, n) ==
         RoundHalfEven(v * Pow(5, Pos(n')) * Pow(2, Pos(s)), Pow(5, Neg(n')) * Pow(2, Neg(s))) * Pow(10, x)
  {
    hide RoundHalfEven, ScaledRound;
    assert Pow(5, 0) == 1 && Pow(2, 0) == 1 && Pow(10, 0) == 1;
    if x == 0 {
      FivesAndTwos(v, e, n);
    } else {
      FactorOutTens(v, e, n, x);
      RoundExactMultiple(v * Pow(5, n - x) * Pow(2, e + n - x), 1);
    }
  }

  /**
   The decimal digits, lowest first, of m * 2^e * 10^n rounded half to even. The sum e + n must not overflow an int.
   */
  method ScaleRoundDecimal(e: int, m: Mpn, n: CInt) returns (c: array<char>, count: nat)
    requires m.Valid() && IsInt(e + n)
    ensures fresh(c) && count <= c.Length
    ensures Denotes(c[..count], ScaledRound(m.Value(), e, n))
  {
    hide RoundHalfEven, ScaledRound, Pow, Denotes;
    var s: CInt := e + n;
    var n': CInt := n;
    var extraZeroes: nat := 0;
    if s > 0 && n > 0 {
      extraZeroes := if s < n then s else n;
      s := s - extraZeroes;
      n' := n' - extraZeroes;
    }
    TensTakenOut(m.Value(), e, n, extraZeroes);
    var z := MultiplyOrDivide(m, n', s);
    c, count := ConvertToDecimal(z, extraZeroes);
  }
}
