/** The last part of the division: twice the remainder is compared with the divisor, and the quotient incremented in place. */
module QuotientRounding {
  import opened Powers
  import opened Bignum

  /** Limb i of r << 1. */
  function DoubledLimb(r: seq<Limb>, i: nat): Limb {
    (if 0 < i <= |r| then r[i - 1] / (BETA / 2) else 0) + (if i < |r| then (2 * r[i]) % BETA else 0)
  }

  function Doubled(r: seq<Limb>, n: nat): (d: seq<Limb>)
    ensures |d| == n && forall i :: 0 <= i < n ==> d[i] == DoubledLimb(r, i)
  {
    seq(n, i requires 0 <= i < n => DoubledLimb(r, i))
  }

  lemma DoubledArithmetic(carry: int, x: int, p: nat)
    requires 0 <= x < BETA
    ensures (carry + (2 * x) % BETA) * p + (x / (BETA / 2)) * (BETA * p) == carry * p + 2 * (x * p)
  {
    CarrySplit(2 * x, p);
    assert (carry + (2 * x) % BETA) * p == carry * p + ((2 * x) % BETA) * p;
    assert (2 * x) * p == 2 * (x * p);
  }

  lemma {:induction false} DoubledPrefix(r: seq<Limb>, k: nat)
    requires k <= |r|
    ensures Val(Doubled(r, k)) + (if k == 0 then 0 else r[k - 1] / (BETA / 2)) * BPow(k) == 2 * Val(r[..k])
  {
    if k == 0 {
    } else {
      DoubledPrefix(r, k - 1);
      assert Doubled(r, k) == Doubled(r, k - 1) + [DoubledLimb(r, k - 1)];
      ValSnoc(Doubled(r, k - 1), DoubledLimb(r, k - 1));
      ValExtend(r, 0, k - 1);
      var top: int := r[k - 1];
      DoubledArithmetic(if k == 1 then 0 else r[k - 2] / (BETA / 2), top, BPow(k - 1));
    }
  }

  lemma {:induction false} DoubledValue(r: seq<Limb>, n: nat)
    requires n > |r|
    ensures Val(Doubled(r, n)) == 2 * Val(r)
  {
    var m := n - 1;
    assert Doubled(r, n) == Doubled(r, m) + [DoubledLimb(r, m)];
    ValSnoc(Doubled(r, m), DoubledLimb(r, m));
    if m == |r| {
      DoubledPrefix(r, m);
      assert r[..m] == r;
    } else {
      DoubledValue(r, m);
    }
  }

  lemma DifferenceArithmetic(x: int, y: int, p: nat)
    requires x > y
    ensures x * p >= y * p + p
  {
    MulMono(y + 1, x, p);
    assert (y + 1) * p == y * p + p;
  }

  /** The highest limb that differs decides. */
  lemma HighestDifference(s: seq<Limb>, t: seq<Limb>, i: nat)
    requires i < |s| == |t| && s[i] > t[i]
    requires forall k :: i < k < |s| ==> s[k] == t[k]
    ensures Val(s) > Val(t)
  {
    ValAround(s, i);
    ValAround(t, i);
    assert s[i + 1..] == t[i + 1..];
    ValBound(t[..i]);
    DifferenceArithmetic(s[i], t[i], BPow(i));
  }

  lemma BPowMono(x: nat, y: nat)
    requires x <= y
    ensures BPow(x) <= BPow(y)
  {
    BPowAdd(x, y - x);
    MulMono(1, BPow(y - x), BPow(x));
  }

  lemma LongerIsLarger(r: seq<Limb>, b: seq<Limb>)
    requires Normalised(r) && |r| > |b|
    ensures Val(r) > Val(b)
  {
    NormalisedBound(r);
    ValBound(b);
    BPowMono(|b|, |r| - 1);
  }

  /** Compares r << 1 with b, one limb more than b has, from the top down. */
  method CompareLimbs(r: Mpn, b: Mpn) returns (sign: int)
    requires r.Valid() && b.Valid() && r.nlimbs <= b.nlimbs
    ensures
      var d, e := Doubled(r.Limbs(), b.nlimbs + 1), b.Limbs() + [0];
      if sign > 0 then Val(d) > Val(e) else if sign < 0 then Val(d) < Val(e) else d == e
  {
    ghost var d, e := Doubled(r.Limbs(), b.nlimbs + 1), b.Limbs() + [0];
    var i := b.nlimbs;
    while true
      invariant 0 <= i <= b.nlimbs
      invariant forall k :: i < k <= b.nlimbs ==> d[k] == e[k]
      decreases i
    {
      var ri: Limb := (if i <= r.nlimbs && i > 0 then r.limbs[r.off + i - 1] / (BETA / 2) else 0)
        + (if i < r.nlimbs then (2 * r.limbs[r.off + i]) % BETA else 0);
      var bi: Limb := if i < b.nlimbs then b.limbs[b.off + i] else 0;
      assert d[i] == ri && e[i] == bi;
      if ri > bi {
        HighestDifference(d, e, i);
        return 1;
      }
      if ri < bi {
        HighestDifference(e, d, i);
        return -1;
      }
      if i == 0 {
        return 0;
      }
      i := i - 1;
    }
  }

  /** Compares r << 1 with b. */
  method CompareTwice(r: Mpn, b: Mpn) returns (sign: int)
    requires r.Valid() && b.Valid() && Normalised(r.Limbs())
    ensures sign > 0 <==> 2 * r.Value() > b.Value()
    ensures sign < 0 <==> 2 * r.Value() < b.Value()
  {
    if r.nlimbs > b.nlimbs {
      LongerIsLarger(r.Limbs(), b.Limbs());
      sign := 1;
    } else {
      sign := CompareLimbs(r, b);
      DoubledValue(r.Limbs(), b.nlimbs + 1);
      ValSnoc(b.Limbs(), 0);
    }
  }

  lemma CarryArithmetic(x: int, p: nat)
    ensures (x + 1) * p == x * p + p
  {
  }

  lemma CarryStops(was: seq<Limb>, now: seq<Limb>, i: nat)
    requires i < |was| == |now| && was[i] < BETA - 1 && now[i] == was[i] + 1
    requires forall k :: 0 <= k < i ==> now[k] == 0
    requires forall k :: 0 <= k < i ==> was[k] == BETA - 1
    requires now[i + 1..] == was[i + 1..]
    ensures Val(now) == Val(was) + 1
  {
    ValAround(now, i);
    ValAround(was, i);
    AllOnes(was[..i]);
    ValZeros(now[..i]);
    CarryArithmetic(was[i], BPow(i));
  }

  lemma CarryLeaves(was: seq<Limb>, zeros: seq<Limb>)
    requires |zeros| == |was|
    requires forall k :: 0 <= k < |was| ==> zeros[k] == 0
    requires forall k :: 0 <= k < |was| ==> was[k] == BETA - 1
    ensures Val(zeros + [1]) == Val(was) + 1
  {
    AllOnes(was);
    ValZeros(zeros);
    ValSnoc(zeros, 1);
  }

  /** Adds one in place; a carry out of the top becomes one more limb. */
  method Increment(q: Mpn) returns (q': Mpn)
    requires q.Valid() && q.off + q.nlimbs < q.limbs.Length && Normalised(q.Limbs())
    modifies q.limbs
    ensures q'.Valid() && q'.limbs == q.limbs && q'.off == q.off
    ensures q'.Value() == old(q.Value()) + 1 && Normalised(q'.Limbs())
  {
    hide Val;
    ghost var was := q.Limbs();
    var i := 0;
    while i < q.nlimbs
      invariant 0 <= i <= q.nlimbs
      invariant forall k :: 0 <= k < i ==> was[k] == BETA - 1
      invariant forall k :: 0 <= k < q.nlimbs ==> q.Limbs()[k] == if k < i then 0 else was[k]
    {
      assert q.Limbs()[i] == was[i];
      ghost var now := q.Limbs();
      var sum: Limb := (q.limbs[q.off + i] + 1) % BETA;
      q.limbs[q.off + i] := sum;
      assert q.Limbs() == now[i := sum];
      if sum != 0 {
        CarryStops(was, q.Limbs(), i);
        return q;
      }
      i := i + 1;
    }
    ghost var now := q.Limbs();
    q.limbs[q.off + q.nlimbs] := 1;
    q' := q.(nlimbs := q.nlimbs + 1);
    assert q'.Limbs() == now + [1];
    CarryLeaves(was, now);
  }
}
