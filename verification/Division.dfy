/**
 The quotient of two bignums, rounded half to even. Remainder and quotient share one array:
 the quotient digit of weight j is stored in the limb that the remainder no longer needs.
 */
module Division {
  import opened Powers
  import opened Rounding
  import opened Bignum
  import opened DivisionStep
  import opened QuotientRounding

  // ---------- Divisor of one limb ----------

  /** The limbs from i up are divided; those below are as they were. */
  ghost predicate LimbsDivided(was: seq<Limb>, now: seq<Limb>, s: seq<Limb>, off: nat, i: nat, den: Limb, remainder: Limb) {
    && i <= |s| && off + |s| <= |was| == |now| && remainder < den
    && now[..off + i] == was[..off + i] && now[off + |s|..] == was[off + |s|..]
    && Val(now[off + i..off + |s|]) * den + remainder == Val(s[i..])
  }

  lemma LimbStep(above: nat, quot: int, den: int, remainder: int, rem: int, limb: int)
    requires remainder * BETA + limb == quot * den + rem
    ensures (quot + BETA * above) * den + rem == limb + BETA * (above * den + remainder)
  {
    assert (quot + BETA * above) * den == quot * den + BETA * (above * den) by { MulAssoc(BETA, above, den); }
  }

  lemma LimbDivided(was: seq<Limb>, now: seq<Limb>, after: seq<Limb>, s: seq<Limb>,
                    off: nat, i: nat, den: Limb, remainder: Limb, quot: Limb, rem: Limb)
    requires i < |s| && LimbsDivided(was, now, s, off, i + 1, den, remainder)
    requires remainder * BETA + s[i] == quot * den + rem && rem < den
    requires after == now[off + i := quot]
    ensures LimbsDivided(was, after, s, off, i, den, rem)
  {
    var above := now[off + i + 1..off + |s|];
    LimbStep(Val(above), quot, den, remainder, rem, s[i]);
    assert s[i..][1..] == s[i + 1..];
    assert after[off + i..off + |s|][1..] == above;
    assert after[..off + i] == now[..off + i + 1][..off + i] == was[..off + i + 1][..off + i] == was[..off + i];
  }

  /**
   Divides a by den from the top limb down, into dst[dstOff..]; the remainder is returned.
   The division may be in place.
   */
  method DivideByLimb(dst: array<Limb>, dstOff: nat, a: Mpn, den: Limb) returns (remainder: Limb)
    requires a.Valid() && dstOff + a.nlimbs <= dst.Length && den > 0
    requires dst != a.limbs || dstOff == a.off
    modifies dst
    ensures LimbsDivided(old(dst[..]), dst[..], old(a.Limbs()), dstOff, 0, den, remainder)
  {
    remainder := 0;
    ghost var was, s := dst[..], a.Limbs();
    for i := a.nlimbs downto 0
      invariant LimbsDivided(was, dst[..], s, dstOff, i, den, remainder)
      invariant dst == a.limbs ==> s == was[a.off..a.off + a.nlimbs]
    {
      ghost var now := dst[..];
      assert now[dstOff + i] == now[..dstOff + i + 1][dstOff + i] == was[dstOff + i];
      assert a.limbs[a.off + i] == s[i];
      var num: TwoLimb := remainder * BETA + a.limbs[a.off + i];
      var quot, rem := DivideTwoLimbs(num, den);
      dst[dstOff + i] := quot;
      LimbDivided(was, now, dst[..], s, dstOff, i, den, remainder, quot, rem);
      remainder := rem;
    }
  }

  // ---------- Divisor of several limbs ----------

  /** The whole that was divided so far, when the digits of weight j and above are known. */
  ghost predicate DividedFrom(whole: nat, room: seq<Limb>, j: nat, n: nat, m: nat, b: nat) {
    && j + n <= m + 1 <= |room|
    && whole == Val(room[..j + n]) + BPow(j) * (b * Val(room[j + n..m + 1]))
    && Val(room[j..j + n]) < b
  }

  lemma DigitArithmetic(l: int, p: int, t: int, t': int, q: int, above: int, b: int)
    requires t == t' + q * b
    ensures l + p * t + (BETA * p) * (b * above) == l + p * t' + p * (b * (q + BETA * above))
  {
    assert p * t == p * t' + p * (q * b);
    assert (BETA * p) * (b * above) == p * (BETA * (b * above)) by { MulAssoc(p, BETA, b * above); }
    assert b * (q + BETA * above) == q * b + BETA * (b * above) by { MulAssoc(b, BETA, above); MulAssoc(BETA, b, above); }
    assert p * (q * b + BETA * (b * above)) == p * (q * b) + p * (BETA * (b * above));
  }

  lemma OnePower()
    ensures BPow(1) == BETA
  {
    assert BPow(0) == 1;
  }

  /** The limbs around the digit that is found. */
  lemma PlacesOfDigit(was: seq<Limb>, now: seq<Limb>, j: nat, n: nat, m: nat)
    requires j + n <= m < |was| && SameOutside(was, now, j, n + 1)
    ensures was[0..j] == was[..j] == now[..j] == now[0..j]
    ensures was[0..j + n + 1] == was[..j + 1 + n] && now[0..j + n] == now[..j + n]
    ensures now[j + n..m + 1] == [now[j + n]] + was[j + 1 + n..m + 1]
  {
    assert now[j + n + 1..] == was[j + n + 1..];
    assert now[j + n + 1..m + 1] == now[j + n + 1..][..m - j - n] == was[j + n + 1..][..m - j - n];
  }

  /** One more digit divided: the quotient digit moves into the overlaid quotient. */
  lemma DigitDivided(whole: nat, was: seq<Limb>, now: seq<Limb>, j: nat, n: nat, m: nat, b: nat)
    requires DividedFrom(whole, was, j + 1, n, m, b) && SameOutside(was, now, j, n + 1)
    requires Val(now[j..j + n]) < b
    requires Val(now[j..j + n]) + now[j + n] * b == Val(was[j..j + n + 1])
    ensures DividedFrom(whole, now, j, n, m, b)
  {
    hide Val, BPow;
    ValSplit(was, 0, j, j + n + 1);
    ValSplit(now, 0, j, j + n);
    NextPower(j);
    PlacesOfDigit(was, now, j, n, m);
    var above := was[j + 1 + n..m + 1];
    ValConcat([now[j + n]], above);
    ValSingle(now[j + n]);
    OnePower();
    DigitArithmetic(Val(was[..j]), BPow(j), Val(was[j..j + n + 1]), Val(now[j..j + n]), now[j + n], Val(above), b);
  }

  /** The division loop: leaves the remainder in room[..n] and the quotient in room[n..m + 1]. */
  method DivideLoop(room: array<Limb>, m: nat, b: Mpn)
    requires b.Valid() && b.limbs != room && IsShifted(b.Limbs())
    requires b.nlimbs <= m < room.Length
    requires Val(room[m + 1 - b.nlimbs..m + 1]) < b.Value()
    modifies room
    ensures Val(room[..b.nlimbs]) < b.Value()
    ensures Val(room[..b.nlimbs]) + b.Value() * Val(room[b.nlimbs..m + 1]) == old(Val(room[..m + 1]))
  {
    var n := b.nlimbs;
    ghost var whole, vb := Val(room[..m + 1]), b.Value();
    for j := m - n + 1 downto 0
      invariant DividedFrom(whole, room[..], j, n, m, vb)
    {
      ghost var was := room[..];
      assert was[j..j + n + 1][1..] == was[j + 1..j + 1 + n];
      assert was[j..j + n + 1] == room[j..j + n + 1];
      DivideDigit(room, j, b);
      assert room[..][j..j + n] == room[j..j + n];
      DigitDivided(whole, was, room[..], j, n, m, vb);
    }
    assert room[..][..n] == room[0..n] == room[..n] && room[..][n..m + 1] == room[n..m + 1];
  }

  // ---------- The normalising shift ----------

  lemma ShrinkKeepsPlace(msd: nat, cur: nat, k: nat, w: nat)
    requires cur * Pow(2, k) <= msd < (cur + 1) * Pow(2, k)
    ensures
      var next := cur / Pow(2, w);
      next * Pow(2, k + w) <= msd < (next + 1) * Pow(2, k + w)
  {
    PowAdd(2, w, k);
    var step, p := Pow(2, w), Pow(2, k);
    var next := cur / step;
    DivMod(cur, step);
    MulMono(next * step, cur, p);
    MulMono(cur + 1, (next + 1) * step, p);
    MulAssoc(next, step, p);
    MulAssoc(next + 1, step, p);
  }

  /** msd is what is left of top after dropping 31 - s low bits. */
  ghost predicate InPlace(top: nat, msd: nat, s: nat) {
    && s <= 31 && msd > 0
    && msd * Pow(2, 31 - s) <= top < (msd + 1) * Pow(2, 31 - s)
  }

  lemma DivideTwiceAsLong(x: nat, p: nat)
    requires p <= x < p * p
    ensures 0 < x / p < p
  {
    DivMod(x, p);
    if x / p >= p { MulMono(p, x / p, p); }
    if x / p <= 0 { MulMono(x / p, 0, p); }
  }

  /** Drops w low bits unless nothing would be left. */
  method HalveRange(ghost top: nat, msd: nat, s: nat, w: nat) returns (msd': nat, s': nat)
    requires InPlace(top, msd, s) && w <= s && msd < Pow(2, w) * Pow(2, w)
    ensures InPlace(top, msd', s') && s - w <= s' && msd' < Pow(2, w)
  {
    msd', s' := msd, s;
    if msd >= Pow(2, w) {
      ShrinkKeepsPlace(top, msd, 31 - s, w);
      DivideTwiceAsLong(msd, Pow(2, w));
      msd' := msd / Pow(2, w);
      s' := s - w;
    }
  }

  lemma ShiftReachesTop(top: nat, s: nat)
    requires s <= 31 && Pow(2, 31 - s) <= top < 2 * Pow(2, 31 - s)
    ensures BETA / 2 <= top * Pow(2, s) && (top + 1) * Pow(2, s) <= BETA
  {
    PowAdd(2, 31 - s, s);
    PowAdd(2, 1, 31);
    Pow2Of32();
    MulMono(Pow(2, 31 - s), top, Pow(2, s));
    MulMono(top + 1, 2 * Pow(2, 31 - s), Pow(2, s));
    MulAssoc(2, Pow(2, 31 - s), Pow(2, s));
  }

  /** The number of zero bits above the highest one bit of the top limb, by halving the range five times. */
  method NormalisingShift(top: Limb) returns (s: nat)
    requires top > 0
    ensures s < LIMB_BITS
    ensures BETA / 2 <= top * Pow(2, s) && (top + 1) * Pow(2, s) <= BETA
  {
    assert Pow(2, 0) == 1 && Pow(2, 1) == 2 && Pow(2, 2) == 4 && Pow(2, 4) == 16 && Pow(2, 8) == 256;
    Pow2Of32();
    s := 31;
    var msd: nat := top;
    msd, s := HalveRange(top, msd, s, 16);
    msd, s := HalveRange(top, msd, s, 8);
    msd, s := HalveRange(top, msd, s, 4);
    msd, s := HalveRange(top, msd, s, 2);
    msd, s := HalveRange(top, msd, s, 1);
    ShiftReachesTop(top, s);
  }

  lemma ShiftedArithmetic(b: nat, t: nat, top: nat, top': nat, accu: nat, x: nat, p: nat)
    requires p > 0 && x > 0
    requires top * p <= b < (top + 1) * p && t < (top' + 1) * p
    requires t + accu * (BETA * p) == x * b
    requires BETA / 2 <= top * x && (top + 1) * x <= BETA
    ensures accu == 0 && top' >= BETA / 2
  {
    MulStrict(b, (top + 1) * p, x);
    assert x * ((top + 1) * p) == ((top + 1) * x) * p by { MulAssoc(x, top + 1, p); }
    MulMono((top + 1) * x, BETA, p);
    if accu > 0 { MulMono(1, accu, BETA * p); }
    MulMono(top * p, b, x);
    assert x * (top * p) == (top * x) * p by { MulAssoc(x, top, p); }
    MulMono(BETA / 2, top * x, p);
    if top' < BETA / 2 { MulMono(top' + 1, BETA / 2, p); }
  }

  /** A shifted divisor keeps its length, and its top bit is a one. */
  lemma ShiftedDivisor(b: seq<Limb>, t: seq<Limb>, accu: nat, s: nat)
    requires |b| == |t| >= 2
    requires BETA / 2 <= b[|b| - 1] * Pow(2, s) && (b[|b| - 1] + 1) * Pow(2, s) <= BETA
    requires Val(t) + accu * BPow(|t|) == Pow(2, s) * Val(b)
    ensures accu == 0 && IsShifted(t)
  {
    var n := |b|;
    var top, p, x := b[n - 1], BPow(n - 1), Pow(2, s);
    TopLimb(b);
    TopLimb(t);
    ShiftedArithmetic(Val(b), Val(t), top, t[n - 1], accu, x, p);
  }

  /** A copy of the dividend, shifted left by s bits, with one more limb on top. */
  method ShiftDividend(room: array<Limb>, a: Mpn, s: nat)
    requires a.Valid() && a.limbs != room && a.nlimbs < room.Length && s < LIMB_BITS
    modifies room
    ensures Val(room[..a.nlimbs + 1]) == Pow(2, s) * a.Value()
    ensures room[a.nlimbs] < BETA / 2
  {
    var m := a.nlimbs;
    if s == 0 {
      CopyLimbs(a.limbs, a.off, room, 0, m);
      room[m] := 0;
      assert room[0..m] == a.Limbs();
    } else {
      var accu := ShiftLeft(a.limbs, a.off, room, 0, m, s);
      ghost var low := room[0..m];
      PowMono(2, s, 31);
      PowAdd(2, 1, 31);
      Pow2Of32();
      var top: Limb := accu;
      room[m] := top;
      assert room[0..m] == low;
    }
    ValExtend(room[..], 0, m);
    assert room[..][0..m + 1] == room[..m + 1] && room[..][0..m] == room[0..m];
  }

  /** The divisor, shifted left by s bits into an array of its own unless s is zero. */
  method ShiftDivisor(b: Mpn) returns (bs: Mpn, s: nat)
    requires b.Valid() && b.nlimbs >= 2 && Normalised(b.Limbs())
    ensures s < LIMB_BITS && bs.Valid() && bs.nlimbs == b.nlimbs && (bs == b || fresh(bs.limbs))
    ensures IsShifted(bs.Limbs()) && bs.Value() == Pow(2, s) * b.Value()
  {
    var n := b.nlimbs;
    s := NormalisingShift(b.limbs[b.off + n - 1]);
    bs := b;
    if s > 0 {
      var tmp := new Limb[n];
      ghost var limbs := b.Limbs();
      var accu := ShiftLeft(b.limbs, b.off, tmp, 0, n, s);
      bs := Mpn(tmp, 0, n);
      ShiftedDivisor(limbs, bs.Limbs(), accu, s);
      assert accu == 0; // the source aborts otherwise
    }
  }

  lemma LeadingPartSmaller(room: seq<Limb>, b: seq<Limb>, m: nat)
    requires IsShifted(b) && |b| <= m < |room| && room[m] < BETA / 2
    ensures Val(room[m + 1 - |b|..m + 1]) < Val(b)
  {
    var n := |b|;
    var seg := room[m + 1 - n..m + 1];
    TopLimb(seg);
    TopLimb(b);
    MulMono(seg[n - 1] + 1, b[n - 1], BPow(n - 1));
  }

  /** When at most the top limb of a quotient can be zero, dropping it normalises the quotient. */
  lemma OneZeroLimb(q: seq<Limb>)
    requires |q| > 0 && (|q| >= 2 ==> Val(q) >= BPow(|q| - 2))
    ensures q[|q| - 1] == 0 ==> Normalised(q[..|q| - 1]) && Val(q[..|q| - 1]) == Val(q)
  {
    var n := |q|;
    if q[n - 1] == 0 {
      ValDropZero(q, n);
      assert q[..n] == q;
      if n >= 2 && q[n - 2] == 0 {
        ValDropZero(q, n - 1);
        ValBound(q[..n - 2]);
      }
    }
  }

  method DropOneZero(q: Mpn) returns (q': Mpn)
    requires q.Valid() && q.nlimbs > 0 && (q.nlimbs >= 2 ==> q.Value() >= BPow(q.nlimbs - 2))
    ensures q'.Valid() && q'.limbs == q.limbs && q'.off == q.off && q'.nlimbs <= q.nlimbs
    ensures Normalised(q'.Limbs()) && q'.Value() == q.Value()
  {
    q' := q;
    OneZeroLimb(q.Limbs());
    if q.limbs[q.off + q.nlimbs - 1] == 0 {
      q' := q.(nlimbs := q.nlimbs - 1);
      assert q'.Limbs() == q.Limbs()[..q.nlimbs - 1];
    }
  }

  // ---------- The whole division ----------

  /** r and q are remainder and quotient of k * a by bs, which is k * b. */
  ghost predicate IsDivision(a: nat, b: nat, k: nat, r: nat, q: nat, bs: nat) {
    k > 0 && bs == k * b && q * bs + r == k * a && r < bs
  }

  /** The common factor does not matter, and twice the remainder tells how to round. */
  lemma RoundingDecision(a: nat, b: nat, k: nat, r: nat, q: nat, bs: nat)
    requires b > 0 && IsDivision(a, b, k, r, q, bs)
    ensures RoundHalfEven(a, b) == if 2 * r > bs || (2 * r == bs && q % 2 == 1) then q + 1 else q
  {
    RoundScaled(k, a, b);
    DivModUnique(k * a, bs, q, r);
  }

  /** A quotient of numbers of known length is not much shorter than their lengths tell. */
  lemma QuotientLength(a: seq<Limb>, b: seq<Limb>, k: nat, r: nat, q: nat, bs: nat)
    requires Normalised(a) && |a| > |b| && IsDivision(Val(a), Val(b), k, r, q, bs)
    ensures q >= BPow(|a| - |b| - 1)
  {
    NormalisedBound(a);
    ValBound(b);
    if q < BPow(|a| - |b| - 1) {
      MulMono(q + 1, BPow(|a| - |b| - 1), bs);
      assert (q + 1) * bs == q * bs + bs;
      assert bs * BPow(|a| - |b| - 1) == k * (Val(b) * BPow(|a| - |b| - 1)) by { MulAssoc(k, Val(b), BPow(|a| - |b| - 1)); }
      BPowAdd(|a| - |b| - 1, |b|);
      MulMono(Val(b), BPow(|b|), BPow(|a| - |b| - 1));
      MulMono(Val(b) * BPow(|a| - |b| - 1), Val(a), k);
    }
  }

  /** n = 1: the quotient goes into room[1..], the remainder into room[0]. */
  method DivideShort(room: array<Limb>, a: Mpn, b: Mpn) returns (r: Mpn, q: Mpn)
    requires a.Valid() && b.Valid() && a.limbs != room && b.limbs != room && a.nlimbs + 2 <= room.Length
    requires Normalised(a.Limbs()) && Normalised(b.Limbs()) && b.nlimbs == 1 <= a.nlimbs
    modifies room
    ensures r.Valid() && q.Valid() && r.limbs == q.limbs == room && q.off + q.nlimbs < room.Length
    ensures Normalised(r.Limbs()) && Normalised(q.Limbs())
    ensures IsDivision(a.Value(), b.Value(), 1, r.Value(), q.Value(), b.Value())
  {
    ghost var va, vb, s := a.Value(), b.Value(), a.Limbs();
    var den := b.limbs[b.off];
    ValSingle(den);
    assert b.Limbs() == [den];
    var remainder := DivideByLimb(room, 1, a, den);
    q := Mpn(room, 1, a.nlimbs);
    assert s[0..] == s && q.Limbs() == room[..][1..1 + a.nlimbs];
    ghost var vq := q.Value();
    if a.nlimbs >= 2 {
      QuotientLength(a.Limbs(), b.Limbs(), 1, remainder, vq, vb);
    }
    ghost var qs := q.Limbs();
    if remainder > 0 {
      room[0] := remainder;
      r := Mpn(room, 0, 1);
      ValSingle(remainder);
      assert r.Limbs() == [remainder];
    } else {
      r := Mpn(room, 0, 0);
    }
    assert q.Limbs() == qs;
    q := DropOneZero(q);
  }

  lemma DivisionFound(a: nat, b: nat, k: nat, r: nat, q: nat, bs: nat)
    requires k > 0 && bs == k * b && r + bs * q == k * a && r < bs
    ensures IsDivision(a, b, k, r, q, bs)
  {
  }

  /** Shifts divisor and dividend and runs the division loop. */
  method DivideShifted(room: array<Limb>, a: Mpn, b: Mpn) returns (bs: Mpn, ghost k: nat)
    requires a.Valid() && b.Valid() && a.limbs != room && b.limbs != room && a.nlimbs + 2 <= room.Length
    requires Normalised(b.Limbs()) && 2 <= b.nlimbs <= a.nlimbs
    modifies room
    ensures bs.Valid() && bs.nlimbs == b.nlimbs && bs.limbs != room && b.nlimbs <= a.nlimbs < room.Length
    ensures IsDivision(a.Value(), b.Value(), k, Val(room[..b.nlimbs]), Val(room[b.nlimbs..a.nlimbs + 1]), bs.Value())
  {
    var m, n := a.nlimbs, b.nlimbs;
    ghost var va, vb := a.Value(), b.Value();
    var s;
    bs, s := ShiftDivisor(b);
    k := Pow(2, s);
    ghost var vbs := bs.Value();
    ghost var bl := bs.Limbs();
    ShiftDividend(room, a, s);
    LeadingPartSmaller(room[..], bl, m);
    assert bs.Limbs() == bl && room[..][m + 1 - n..m + 1] == room[m + 1 - n..m + 1];
    ghost var whole := Val(room[..m + 1]);
    assert whole == k * va;
    DivideLoop(room, m, bs);
    assert bs.Limbs() == bl && a.Value() == va && b.Value() == vb;
    DivisionFound(va, vb, k, Val(room[..n]), Val(room[n..m + 1]), vbs);
  }

  /** n > 1: the quotient goes into room[n..], above the remainder in room[..n]. */
  method DivideLong(room: array<Limb>, a: Mpn, b: Mpn) returns (r: Mpn, q: Mpn, bs: Mpn, ghost k: nat)
    requires a.Valid() && b.Valid() && a.limbs != room && b.limbs != room && a.nlimbs + 2 <= room.Length
    requires Normalised(a.Limbs()) && Normalised(b.Limbs()) && 2 <= b.nlimbs <= a.nlimbs
    modifies room
    ensures r.Valid() && q.Valid() && bs.Valid() && r.limbs == q.limbs == room && q.off + q.nlimbs < room.Length
    ensures Normalised(r.Limbs()) && Normalised(q.Limbs())
    ensures IsDivision(a.Value(), b.Value(), k, r.Value(), q.Value(), bs.Value())
  {
    var m, n := a.nlimbs, b.nlimbs;
    bs, k := DivideShifted(room, a, b);
    r, q := Mpn(room, 0, n), Mpn(room, n, m - n + 1);
    assert r.Limbs() == room[..n] && q.Limbs() == room[n..m + 1];
    if m > n {
      QuotientLength(a.Limbs(), b.Limbs(), k, r.Value(), q.Value(), bs.Value());
    }
    q := DropOneZero(q);
    r := DropLeadingZeros(r);
  }

  /** A number is odd exactly if its lowest limb is. */
  lemma LowLimbParity(s: seq<Limb>)
    ensures Val(s) % 2 == if s == [] then 0 else s[0] % 2
  {
    if s != [] {
      assert Val(s) == s[0] + BETA * Val(s[1..]);
    }
  }

  /** Rounds the quotient: twice the remainder is compared with the divisor, a tie goes to the even quotient. */
  method RoundQuotient(r: Mpn, q: Mpn, bs: Mpn) returns (q': Mpn)
    requires r.Valid() && q.Valid() && bs.Valid() && q.off + q.nlimbs < q.limbs.Length
    requires Normalised(r.Limbs()) && Normalised(q.Limbs())
    modifies q.limbs
    ensures q'.Valid() && q'.limbs == q.limbs && Normalised(q'.Limbs())
    ensures
      var vr, vq, vb := old(r.Value()), old(q.Value()), old(bs.Value());
      q'.Value() == if 2 * vr > vb || (2 * vr == vb && vq % 2 == 1) then vq + 1 else vq
  {
    hide Val;
    LowLimbParity(q.Limbs());
    q' := q;
    var sign := CompareTwice(r, bs);
    if sign > 0 || (sign == 0 && q.nlimbs > 0 && q.limbs[q.off] % 2 == 1) {
      q' := Increment(q);
    }
  }

  /** A dividend shorter than the divisor is the remainder itself; the quotient is empty, behind it. */
  method DivideNothing(room: array<Limb>, a: Mpn, b: Mpn) returns (r: Mpn, q: Mpn)
    requires a.Valid() && b.Valid() && a.limbs != room && b.limbs != room && a.nlimbs + 2 <= room.Length
    requires Normalised(a.Limbs()) && Normalised(b.Limbs()) && a.nlimbs < b.nlimbs
    modifies room
    ensures r.Valid() && q.Valid() && r.limbs == q.limbs == room && q.off + q.nlimbs < room.Length
    ensures Normalised(r.Limbs()) && Normalised(q.Limbs())
    ensures IsDivision(a.Value(), b.Value(), 1, r.Value(), q.Value(), b.Value())
  {
    ghost var s := a.Limbs();
    LongerIsLarger(b.Limbs(), s);
    CopyLimbs(a.limbs, a.off, room, 0, a.nlimbs);
    r, q := Mpn(room, 0, a.nlimbs), Mpn(room, a.nlimbs, 0);
    assert r.Limbs() == s && q.Limbs() == [];
  }

  /** The three layouts: quotient and remainder share the room; k is how much the division was scaled by. */
  method DivideInRoom(room: array<Limb>, a: Mpn, b: Mpn) returns (r: Mpn, q: Mpn, bs: Mpn, ghost k: nat)
    requires a.Valid() && b.Valid() && a.limbs != room && b.limbs != room && a.nlimbs + 2 <= room.Length
    requires Normalised(a.Limbs()) && Normalised(b.Limbs()) && b.nlimbs > 0
    modifies room
    ensures r.Valid() && q.Valid() && bs.Valid() && r.limbs == q.limbs == room && q.off + q.nlimbs < room.Length
    ensures Normalised(r.Limbs()) && Normalised(q.Limbs())
    ensures IsDivision(a.Value(), b.Value(), k, r.Value(), q.Value(), bs.Value())
  {
    hide IsDivision;
    bs, k := b, 1;
    if a.nlimbs < b.nlimbs {
      r, q := DivideNothing(room, a, b);
    } else if b.nlimbs == 1 {
      r, q := DivideShort(room, a, b);
    } else {
      r, q, bs, k := DivideLong(room, a, b);
    }
  }

  lemma NoLimbs(s: seq<Limb>)
    requires Val(s) > 0
    ensures |s| > 0
  {
  }

  /**
   The quotient of a by b, rounded half to even, normalised. The caller must not pass a zero divisor:
   the source aborts then.
   */
  method Divide(a: Mpn, b: Mpn) returns (q: Mpn)
    requires a.Valid() && b.Valid() && b.Value() > 0
    ensures q.Valid() && fresh(q.limbs) && Normalised(q.Limbs())
    ensures q.Value() == RoundHalfEven(a.Value(), b.Value())
  {
    hide RoundHalfEven, IsDivision;
    var room := new Limb[a.nlimbs + 2];
    ghost var va, vb := a.Value(), b.Value();
    var a' := DropLeadingZeros(a);
    var b' := DropLeadingZeros(b);
    NoLimbs(b'.Limbs());
    var r, bs;
    ghost var k;
    r, q, bs, k := DivideInRoom(room, a', b');
    RoundingDecision(va, vb, k, r.Value(), q.Value(), bs.Value());
    q := RoundQuotient(r, q, bs);
  }
}
