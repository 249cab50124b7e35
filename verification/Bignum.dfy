/**
 Bignums: little-endian limb arrays, their value, and the operations that work on them limb by limb.
 A C pointer into a limb array is an array and an offset.
 */
module Bignum {
  import opened Powers

  const LIMB_BITS := 32
  const BETA := 0x1_0000_0000

  /** mp_limb_t: an unsigned 32-bit integer. */
  type Limb = x: int | 0 <= x < BETA
  /** mp_twolimb_t: an unsigned 64-bit integer. An assignment to one proves that C's would not wrap around. */
  type TwoLimb = x: int | 0 <= x < BETA * BETA

  function BPow(k: nat): (r: nat)
    ensures r > 0
  {
    if k == 0 then 1 else BETA * BPow(k - 1)
  }

  function Val(s: seq<Limb>): (v: nat)
  {
    if |s| == 0 then 0 else s[0] + BETA * Val(s[1..])
  }

  predicate Normalised(s: seq<Limb>) {
    |s| > 0 ==> s[|s| - 1] != 0
  }

  lemma {:induction false} BPowAdd(x: nat, y: nat)
    ensures BPow(x + y) == BPow(x) * BPow(y)
  {
    if x == 0 {
    } else {
      BPowAdd(x - 1, y);
      MulAssoc(BETA, BPow(x - 1), BPow(y));
    }
  }

  lemma Pow2Of32()
    ensures Pow(2, 16) == 0x1_0000 && Pow(2, 32) == BETA
  {
    assert Pow(2, 8) == 0x100;
    PowAdd(2, 8, 8);
    PowAdd(2, 16, 16);
  }

  lemma {:induction false} BPowIsPow2(k: nat)
    ensures BPow(k) == Pow(2, 32 * k)
  {
    if k == 0 {
    } else {
      BPowIsPow2(k - 1);
      PowAdd(2, 32, 32 * (k - 1));
      Pow2Of32();
    }
  }

  lemma {:induction false} ValBound(s: seq<Limb>)
    ensures Val(s) < BPow(|s|)
  {
    if |s| == 0 {
    } else {
      ValBound(s[1..]);
    }
  }

  lemma {:induction false} ValConcat(s: seq<Limb>, t: seq<Limb>)
    ensures Val(s + t) == Val(s) + BPow(|s|) * Val(t)
  {
    if |s| == 0 {
      assert s + t == t;
    } else {
      ValConcat(s[1..], t);
      assert (s + t)[1..] == s[1..] + t;
      MulAssoc(BETA, BPow(|s| - 1), Val(t));
    }
  }

  lemma ValSingle(x: Limb)
    ensures Val([x]) == x
  {
    assert Val([x][1..]) == 0;
  }

  lemma ValSnoc(s: seq<Limb>, x: Limb)
    ensures Val(s + [x]) == Val(s) + x * BPow(|s|)
  {
    ValConcat(s, [x]);
    ValSingle(x);
  }

  /** The value of a slice, one limb longer at the top. */
  lemma ValExtend(s: seq<Limb>, lo: nat, k: nat)
    requires lo <= k < |s|
    ensures Val(s[lo..k + 1]) == Val(s[lo..k]) + s[k] * BPow(k - lo)
  {
    assert s[lo..k + 1] == s[lo..k] + [s[k]];
    ValSnoc(s[lo..k], s[k]);
  }

  /** The limb at i singled out. */
  lemma ValAround(s: seq<Limb>, i: nat)
    requires i < |s|
    ensures Val(s) == Val(s[..i]) + s[i] * BPow(i) + BPow(i + 1) * Val(s[i + 1..])
  {
    assert s == s[..i + 1] + s[i + 1..];
    ValConcat(s[..i + 1], s[i + 1..]);
    ValExtend(s, 0, i);
    assert s[0..i + 1] == s[..i + 1] && s[0..i] == s[..i];
  }

  /** The value of a slice, cut in two. */
  lemma ValSplit(s: seq<Limb>, lo: nat, mid: nat, hi: nat)
    requires lo <= mid <= hi <= |s|
    ensures Val(s[lo..hi]) == Val(s[lo..mid]) + BPow(mid - lo) * Val(s[mid..hi])
  {
    assert s[lo..hi] == s[lo..mid] + s[mid..hi];
    ValConcat(s[lo..mid], s[mid..hi]);
  }

  /** mpn_t: nlimbs limbs starting at a pointer into an array. */
  datatype Mpn = Mpn(limbs: array<Limb>, off: nat, nlimbs: nat) {
    predicate Valid() {
      off + nlimbs <= limbs.Length
    }

    function Limbs(): seq<Limb>
      requires Valid()
      reads limbs
    {
      limbs[off..off + nlimbs]
    }

    function Value(): nat
      requires Valid()
      reads limbs
    {
      Val(Limbs())
    }
  }

  /** A limb and its carry weigh together as much as the double limb they came from. */
  lemma CarrySplit(total: TwoLimb, p: nat)
    ensures (total % BETA) * p + (total / BETA) * (BETA * p) == total * p
  {
    var low, high := total % BETA, total / BETA;
    assert total == low + BETA * high;
    MulAssoc(high, BETA, p);
    assert (low + BETA * high) * p == low * p + (BETA * high) * p;
  }

  /** One limb product with carry and an addend fits in a double limb, and its carry is at most the digit. */
  lemma MulAddFits(digit1: Limb, digit2: Limb, carry: int, addend: Limb)
    requires 0 <= carry <= digit1
    ensures 0 <= digit1 * digit2 && 0 <= carry + digit1 * digit2 + addend < BETA * BETA
    ensures (carry + digit1 * digit2 + addend) / BETA <= digit1
  {
    MulMono(digit2, BETA - 1, digit1);
    MulMono(0, digit2, digit1);
    MulMono(digit1, BETA - 1, BETA);
    assert carry + digit1 * digit2 + addend <= BETA * digit1 + (BETA - 1);
  }

  lemma RowStep(was: nat, now: nat, w: nat, carry: nat, digit1: Limb, digit2: Limb, addend: Limb, p: nat)
    requires now + carry * p == was + digit1 * w
    requires carry <= digit1 && carry + digit1 * digit2 + addend < BETA * BETA
    ensures
      var total := carry + digit1 * digit2 + addend;
      now + (total % BETA) * p + (total / BETA) * (BETA * p) == was + addend * p + digit1 * (w + digit2 * p)
  {
    MulMono(0, digit2, digit1);
    var total: TwoLimb := carry + digit1 * digit2 + addend;
    CarrySplit(total, p);
    assert total * p == carry * p + (digit1 * digit2) * p + addend * p;
    MulAssoc(digit1, digit2, p);
    assert digit1 * (w + digit2 * p) == digit1 * w + digit1 * (digit2 * p);
  }

  /** After j digits of a row: dp grew by digit1 times the digits read, up to the carry still to be written. */
  ghost predicate RowDone(was: seq<Limb>, now: seq<Limb>, src: seq<Limb>, i: nat, j: nat, digit1: Limb, carry: int)
  {
    && i + j <= |was| == |now| && j <= |src| && 0 <= carry <= digit1
    && now[..i] == was[..i] && now[i + j..] == was[i + j..]
    && Val(now[i..i + j]) + carry * BPow(j) == Val(was[i..i + j]) + digit1 * Val(src[..j])
  }

  lemma NextPower(j: nat)
    ensures BPow(j + 1) == BETA * BPow(j)
  {
  }

  /** What stays the same when the limb above a row is written. */
  lemma OneLimbWritten(was: seq<Limb>, now: seq<Limb>, after: seq<Limb>, i: nat, n: nat, x: Limb)
    requires i + n < |was| == |now| && now[..i] == was[..i] && now[i + n..] == was[i + n..]
    requires after == now[i + n := x]
    ensures now[i + n] == was[i + n] && after[i + n] == x
    ensures after[..i] == was[..i] && after[i..i + n] == now[i..i + n] && after[i + n + 1..] == was[i + n + 1..]
  {
    assert after[i + n + 1..] == now[i + n..][1..] && was[i + n..][1..] == was[i + n + 1..];
    assert now[i + n] == now[i + n..][0];
  }

  lemma RowAdvance(was: seq<Limb>, now: seq<Limb>, src: seq<Limb>, i: nat, j: nat, digit1: Limb, carry: int, total: TwoLimb)
    requires RowDone(was, now, src, i, j, digit1, carry) && j < |src| && i + j < |was|
    requires total == carry + digit1 * src[j] + now[i + j]
    requires total / BETA <= digit1
    ensures RowDone(was, now[i + j := total % BETA], src, i, j + 1, digit1, total / BETA)
  {
    hide Val, BPow;
    var after := now[i + j := total % BETA];
    NextPower(j);
    RowStep(Val(was[i..i + j]), Val(now[i..i + j]), Val(src[..j]), carry, digit1, src[j], now[i + j], BPow(j));
    OneLimbWritten(was, now, after, i, j, total % BETA);
    ValExtend(after, i, i + j);
    ValExtend(was, i, i + j);
    ValExtend(src, 0, j);
  }

  lemma RowBegin(was: seq<Limb>, src: seq<Limb>, i: nat, digit1: Limb)
    requires i <= |was|
    ensures RowDone(was, was, src, i, 0, digit1, 0)
  {
  }

  /** What is left to write when all digits are read. */
  lemma RowTotal(was: seq<Limb>, now: seq<Limb>, src: seq<Limb>, i: nat, digit1: Limb, carry: Limb)
    requires RowDone(was, now, src, i, |src|, digit1, carry)
    ensures i + |src| <= |was| == |now| && now[..i] == was[..i] && now[i + |src|..] == was[i + |src|..]
    ensures Val(now[i..i + |src|]) + carry * BPow(|src|) == Val(was[i..i + |src|]) + digit1 * Val(src)
  {
    hide Val, BPow;
    assert src[..|src|] == src;
  }

  lemma LimbOnRow(low: seq<Limb>, top: Limb, sum: int)
    requires Val(low) + top * BPow(|low|) == sum
    ensures Val(low + [top]) == sum
  {
    hide Val, BPow;
    ValSnoc(low, top);
  }

  lemma LimbAppended(now: seq<Limb>, after: seq<Limb>, i: nat, n: nat, x: Limb)
    requires i + n < |now| && after == now[i + n := x]
    ensures after[i..i + n + 1] == now[i..i + n] + [x]
  {
  }

  /** What stays when the limb above a row is written. */
  lemma RowFramed(was: seq<Limb>, now: seq<Limb>, after: seq<Limb>, src: seq<Limb>, i: nat, digit1: Limb, carry: Limb)
    requires RowDone(was, now, src, i, |src|, digit1, carry) && i + |src| < |was|
    requires after == now[i + |src| := carry]
    ensures after[..i] == was[..i] && after[i + |src| + 1..] == was[i + |src| + 1..]
  {
    hide Val, BPow;
    OneLimbWritten(was, now, after, i, |src|, carry);
  }

  lemma RowFinish(was: seq<Limb>, now: seq<Limb>, after: seq<Limb>, src: seq<Limb>, i: nat, digit1: Limb, carry: Limb)
    requires RowDone(was, now, src, i, |src|, digit1, carry) && i + |src| < |was|
    requires after == now[i + |src| := carry]
    ensures after[..i] == was[..i] && after[i + |src| + 1..] == was[i + |src| + 1..]
    ensures Val(after[i..i + |src| + 1]) == Val(was[i..i + |src|]) + digit1 * Val(src)
  {
    hide Val, BPow, RowDone;
    RowFramed(was, now, after, src, i, digit1, carry);
    RowTotal(was, now, src, i, digit1, carry);
    LimbOnRow(now[i..i + |src|], carry, Val(was[i..i + |src|]) + digit1 * Val(src));
    LimbAppended(now, after, i, |src|, carry);
  }

  /** Adds digit1 * p2 into dp[i..]; the limb above the row is written without being read. */
  method MultiplyRow(dp: array<Limb>, i: nat, digit1: Limb, p2: Mpn)
    requires p2.Valid() && dp != p2.limbs && i + p2.nlimbs < dp.Length
    modifies dp
    ensures dp[..i] == old(dp[..i]) && dp[i + p2.nlimbs + 1..] == old(dp[i + p2.nlimbs + 1..])
    ensures Val(dp[i..i + p2.nlimbs + 1]) == old(Val(dp[i..i + p2.nlimbs])) + digit1 * p2.Value()
  {
    hide Val, BPow, RowDone;
    var carry: TwoLimb := 0;
    var len2 := p2.nlimbs;
    ghost var was := dp[..];
    ghost var src := p2.Limbs();
    RowBegin(was, src, i, digit1);
    for j := 0 to len2
      invariant carry <= digit1 && RowDone(was, dp[..], src, i, j, digit1, carry)
    {
      ghost var now := dp[..];
      var digit2 := p2.limbs[p2.off + j];
      assert digit2 == src[j] && dp[i + j] == now[i + j];
      MulAddFits(digit1, digit2, carry, dp[i + j]);
      ghost var carried := carry;
      carry := carry + digit1 * digit2;
      carry := carry + dp[i + j];
      RowAdvance(was, now, src, i, j, digit1, carried, carry);
      var low: Limb := carry % BETA;
      dp[i + j] := low;
      assert dp[..] == now[i + j := low];
      carry := carry / BETA;
    }
    ghost var now := dp[..];
    var top: Limb := carry;
    dp[i + len2] := top;
    assert dp[..] == now[i + len2 := top];
    RowFinish(was, now, dp[..], src, i, digit1, top);
    assert p2.Limbs() == src;
  }

  lemma ValDropZero(s: seq<Limb>, n: nat)
    requires 0 < n <= |s| && s[n - 1] == 0
    ensures Val(s[..n - 1]) == Val(s[..n])
  {
    ValExtend(s, 0, n - 1);
  }

  lemma {:induction false} ValZeros(s: seq<Limb>)
    requires forall k :: 0 <= k < |s| ==> s[k] == 0
    ensures Val(s) == 0
  {
    if |s| == 0 {
    } else {
      ValZeros(s[1..]);
    }
  }

  lemma {:induction false} AllOnes(s: seq<Limb>)
    requires forall k :: 0 <= k < |s| ==> s[k] == BETA - 1
    ensures Val(s) == BPow(|s|) - 1
  {
    if |s| == 0 {
    } else {
      AllOnes(s[1..]);
    }
  }

  /** A normalised bignum needs every one of its limbs. */
  lemma NormalisedBound(s: seq<Limb>)
    requires Normalised(s) && |s| > 0
    ensures Val(s) >= BPow(|s| - 1)
  {
    ValExtend(s, 0, |s| - 1);
    assert s[0..|s|] == s;
    MulMono(1, s[|s| - 1], BPow(|s| - 1));
  }

  /** The same bignum without its leading zero limbs. */
  method DropLeadingZeros(a: Mpn) returns (n: Mpn)
    requires a.Valid()
    ensures n.Valid() && n.limbs == a.limbs && n.off == a.off && n.nlimbs <= a.nlimbs
    ensures n.Value() == a.Value() && Normalised(n.Limbs())
  {
    var len := a.nlimbs;
    ghost var s := a.Limbs();
    assert s[..len] == s;
    while len > 0 && a.limbs[a.off + len - 1] == 0
      invariant len <= a.nlimbs
      invariant Val(s[..len]) == Val(s)
    {
      ValDropZero(s, len);
      len := len - 1;
    }
    n := a.(nlimbs := len);
    assert n.Limbs() == s[..len];
  }

  lemma ProductArithmetic(low: int, high: int, w: int, d: int, p: int, v2: int)
    requires low + p * high == w * v2
    ensures low + p * (high + d * v2) == (w + d * p) * v2
  {
    MulAssoc(p, d, v2);
    assert p * (high + d * v2) == p * high + p * (d * v2);
    assert (w + d * p) * v2 == w * v2 + (d * p) * v2;
  }

  /** One more row of the schoolbook product. */
  lemma ProductStep(was: seq<Limb>, now: seq<Limb>, src1: seq<Limb>, i: nat, n: nat, v2: nat)
    requires i < |src1| && i + n < |was| == |now|
    requires Val(was[..i + n]) == Val(src1[..i]) * v2
    requires now[..i] == was[..i]
    requires Val(now[i..i + n + 1]) == Val(was[i..i + n]) + src1[i] * v2
    ensures Val(now[..i + n + 1]) == Val(src1[..i + 1]) * v2
  {
    var d, p := src1[i], BPow(i);
    ValSplit(now, 0, i, i + n + 1);
    ValSplit(was, 0, i, i + n);
    ValExtend(src1, 0, i);
    assert was[0..i + n] == was[..i + n] && now[0..i + n + 1] == now[..i + n + 1];
    assert was[0..i] == was[..i] && src1[0..i] == src1[..i] && src1[0..i + 1] == src1[..i + 1];
    ProductArithmetic(Val(was[..i]), Val(was[i..i + n]), Val(src1[..i]), d, p, v2);
  }

  lemma RowAdded(was: seq<Limb>, now: seq<Limb>, src1: seq<Limb>, i: nat, n: nat, v2: nat,
                 below: seq<Limb>, row: seq<Limb>, upTo: seq<Limb>)
    requires i < |src1| && i + n < |was| == |now|
    requires below == now[..i] && row == now[i..i + n + 1] && upTo == now[..i + n + 1]
    requires Val(was[..i + n]) == Val(src1[..i]) * v2 && below == was[..i]
    requires Val(row) == Val(was[i..i + n]) + src1[i] * v2
    ensures Val(upTo) == Val(src1[..i + 1]) * v2
  {
    hide Val;
    ProductStep(was, now, src1, i, n, v2);
  }

  /** The loop over the rows; each one starts a limb further up. */
  method AddRows(p1: Mpn, p2: Mpn, dp: array<Limb>)
    requires p1.Valid() && p2.Valid() && dp != p1.limbs && dp != p2.limbs
    requires dp.Length == p1.nlimbs + p2.nlimbs && Val(dp[..p2.nlimbs]) == 0
    modifies dp
    ensures Val(dp[..]) == p1.Value() * p2.Value()
  {
    var len1, len2 := p1.nlimbs, p2.nlimbs;
    ghost var s1, v2 := p1.Limbs(), p2.Value();
    for i := 0 to len1
      invariant Val(dp[..i + len2]) == Val(s1[..i]) * v2
    {
      ghost var was := dp[..];
      assert was[..i] == dp[..i] && was[i..i + len2] == dp[i..i + len2] && was[..i + len2] == dp[..i + len2];
      MultiplyRow(dp, i, p1.limbs[p1.off + i], p2);
      RowAdded(was, dp[..], s1, i, len2, v2, dp[..i], dp[i..i + len2 + 1], dp[..i + len2 + 1]);
    }
    assert s1[..len1] == s1 && dp[..len1 + len2] == dp[..];
  }

  /** All rows of the product. Only the limbs of the first row are cleared beforehand. */
  method MultiplyRows(p1: Mpn, p2: Mpn) returns (dp: array<Limb>)
    requires p1.Valid() && p2.Valid()
    ensures fresh(dp) && dp.Length == p1.nlimbs + p2.nlimbs
    ensures Val(dp[..]) == p1.Value() * p2.Value()
  {
    var len1, len2 := p1.nlimbs, p2.nlimbs;
    dp := new Limb[len1 + len2];
    var k := len2;
    while k > 0
      invariant 0 <= k <= len2
      invariant forall i :: k <= i < len2 ==> dp[i] == 0
    {
      k := k - 1;
      dp[k] := 0;
    }
    ValZeros(dp[..len2]);
    AddRows(p1, p2, dp);
  }

  /** The product of two bignums, in an array of its own. */
  method Multiply(src1: Mpn, src2: Mpn) returns (dest: Mpn)
    requires src1.Valid() && src2.Valid()
    ensures dest.Valid() && fresh(dest.limbs)
    ensures dest.Value() == src1.Value() * src2.Value()
    ensures Normalised(dest.Limbs())
  {
    var p1, p2 := src1, src2;
    if src1.nlimbs > src2.nlimbs {
      p1, p2 := src2, src1;
    }
    assert p1.Value() * p2.Value() == src1.Value() * src2.Value();
    if p1.nlimbs == 0 {
      var none := new Limb[1];
      dest := Mpn(none, 0, 0);
      assert p1.Value() == 0;
    } else {
      var dp := MultiplyRows(p1, p2);
      dest := Mpn(dp, 0, dp.Length);
      assert dest.Limbs() == dp[..];
      dest := DropLeadingZeros(dest);
    }
  }

  /**
   After j limbs of a multiplication by one digit: the limbs written and the carry hold digit times the limbs read.
   The multiplication may be in place: nothing above the limbs written has changed.
   */
  ghost predicate ScaleDone(src: seq<Limb>, was: seq<Limb>, now: seq<Limb>, off: nat, j: nat, digit: int, carry: int)
  {
    && j <= |src| && off + j <= |was| == |now| && 0 <= carry < digit
    && now[..off] == was[..off] && now[off + j..] == was[off + j..]
    && Val(now[off..off + j]) + carry * BPow(j) == digit * Val(src[..j])
  }

  lemma ScaleAdvance(src: seq<Limb>, was: seq<Limb>, now: seq<Limb>, after: seq<Limb>,
                     off: nat, j: nat, digit: Limb, carry: int, total: TwoLimb)
    requires ScaleDone(src, was, now, off, j, digit, carry) && j < |src| && off + j < |was|
    requires total == carry + digit * src[j]
    requires after == now[off + j := total % BETA]
    ensures ScaleDone(src, was, after, off, j + 1, digit, total / BETA)
  {
    MulMono(src[j], BETA - 1, digit);
    assert total <= BETA * digit - 1;
    RowStep(0, Val(now[off..off + j]), Val(src[..j]), carry, digit, src[j], 0, BPow(j));
    assert after[off..off + j] == now[off..off + j];
    assert after[off + j + 1..] == now[off + j..][1..] == was[off + j..][1..] == was[off + j + 1..];
    ValExtend(after, off, off + j);
    ValExtend(src, 0, j);
  }

  /**
   Copies count limbs, shifting them left by s bits, low to high; the bits that leave the top are returned.
   Source and destination may be the same limbs.
   */
  method ShiftLeft(src: array<Limb>, srcOff: nat, dst: array<Limb>, dstOff: nat, count: nat, s: nat)
    returns (accu: TwoLimb)
    requires s < LIMB_BITS && srcOff + count <= src.Length && dstOff + count <= dst.Length
    requires src != dst || srcOff == dstOff
    modifies dst
    ensures accu < Pow(2, s)
    ensures dst[..dstOff] == old(dst[..dstOff]) && dst[dstOff + count..] == old(dst[dstOff + count..])
    ensures Val(dst[dstOff..dstOff + count]) + accu * BPow(count) == Pow(2, s) * old(Val(src[srcOff..srcOff + count]))
  {
    accu := 0;
    PowStrict(2, s, 32);
    Pow2Of32();
    var unit: Limb := Pow(2, s);
    ghost var from, was := src[srcOff..srcOff + count], dst[..];
    assert was[..dstOff] == dst[..dstOff] && was[dstOff + count..] == dst[dstOff + count..];
    for j := 0 to count
      invariant ScaleDone(from, was, dst[..], dstOff, j, unit, accu)
      invariant src == dst ==> from == was[srcOff..srcOff + count]
    {
      ghost var now, carried := dst[..], accu;
      assert now[dstOff + j] == now[dstOff + j..][0] == was[dstOff + j..][0];
      assert src[srcOff + j] == from[j];
      MulAddFits(unit, src[srcOff + j], accu, 0);
      accu := accu + src[srcOff + j] * unit;
      var low: Limb := accu % BETA;
      dst[dstOff + j] := low;
      ScaleAdvance(from, was, now, dst[..], dstOff, j, unit, carried, accu);
      accu := accu / BETA;
    }
    assert from[..count] == from;
  }

  /** memcpy of count limbs between two arrays. */
  method CopyLimbs(src: array<Limb>, srcOff: nat, dst: array<Limb>, dstOff: nat, count: nat)
    requires srcOff + count <= src.Length && dstOff + count <= dst.Length && src != dst
    modifies dst
    ensures dst[dstOff..dstOff + count] == src[srcOff..srcOff + count]
    ensures dst[..dstOff] == old(dst[..dstOff]) && dst[dstOff + count..] == old(dst[dstOff + count..])
  {
    for i := 0 to count
      invariant dst[dstOff..dstOff + i] == src[srcOff..srcOff + i]
      invariant dst[..dstOff] == old(dst[..dstOff]) && dst[dstOff + i..] == old(dst[dstOff + i..])
    {
      ghost var rest := dst[dstOff + i..];
      dst[dstOff + i] := src[srcOff + i];
      assert dst[dstOff + i + 1..] == rest[1..];
    }
  }

  /** Multiplies a bignum by one digit, in place; the limb to go on top is returned. */
  method ScaleInPlace(a: array<Limb>, len: nat, digit: Limb) returns (carry: TwoLimb)
    requires len <= a.Length && digit > 0
    modifies a
    ensures carry < digit && a[len..] == old(a[len..])
    ensures Val(a[..len]) + carry * BPow(len) == digit * old(Val(a[..len]))
  {
    carry := 0;
    ghost var was := a[..];
    ghost var from := was[..len];
    for j := 0 to len
      invariant ScaleDone(from, was, a[..], 0, j, digit, carry)
    {
      ghost var now, carried := a[..], carry;
      assert now[j] == now[j..][0] == was[j..][0] == from[j];
      var digit2 := a[j];
      MulAddFits(digit, digit2, carry, 0);
      carry := carry + digit * digit2;
      var low: Limb := carry % BETA;
      a[j] := low;
      ScaleAdvance(from, was, now, a[..], 0, j, digit, carried, carry);
      carry := carry / BETA;
    }
    assert from[..len] == from && a[..][0..len] == a[..len] && a[..][len..] == a[len..];
  }

  /** C's / and % of a double limb by a limb, when the quotient fits in a limb. */
  method DivideTwoLimbs(num: TwoLimb, den: Limb) returns (quot: Limb, rem: Limb)
    requires den > 0 && num / BETA < den
    ensures num == quot * den + rem && rem < den
  {
    if num / den >= BETA {
      MulMono(BETA, num / den, den);
    }
    quot := num / den;
    rem := num % den;
  }
}
