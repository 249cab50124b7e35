/** One step of the long division: guess a digit, subtract in place, add the divisor back when the guess was too big. */
module DivisionStep {
  import opened Powers
  import opened Bignum
  import opened TrialDigit

  /** C's ~ on a limb. */
  function Complement(x: Limb): Limb {
    BETA - 1 - x
  }

  /** Every limb of s outside [off, off + n) is as it was. */
  ghost predicate SameOutside(was: seq<Limb>, now: seq<Limb>, off: nat, n: nat) {
    && off + n <= |was| == |now|
    && now[..off] == was[..off] && now[off + n..] == was[off + n..]
  }

  lemma SameOutsideGrows(was: seq<Limb>, now: seq<Limb>, after: seq<Limb>, off: nat, n: nat, x: Limb)
    requires SameOutside(was, now, off, n) && off + n < |was|
    requires after == now[off + n := x]
    ensures SameOutside(was, after, off, n + 1)
    ensures now[off + n] == was[off + n]
    ensures after[off..off + n] == now[off..off + n] && after[off + n] == x
  {
    assert now[off + n] == now[off + n..][0] == was[off + n..][0];
    assert after[off + n + 1..] == now[off + n..][1..] == was[off + n..][1..] == was[off + n + 1..];
  }

  // ---------- Subtracting a multiple of the divisor ----------

  ghost predicate Subtracted(was: seq<Limb>, now: seq<Limb>, b: seq<Limb>, off: nat, j: nat, q: Limb, carry: int) {
    && j <= |b| && SameOutside(was, now, off, j) && 0 <= carry <= q
    && Val(now[off..off + j]) == Val(was[off..off + j]) - q * Val(b[..j]) + carry * BPow(j)
  }

  lemma SubtractArithmetic(now: int, was: int, w: int, q: int, r: int, bj: int, low: int, carry: int, next: int, p: int)
    requires now == was - q * w + carry * p
    requires low - BETA * next == r - q * bj - carry
    ensures now + low * p == was + r * p - q * (w + bj * p) + next * (BETA * p)
  {
    MulAssoc(next, BETA, p);
    MulAssoc(q, bj, p);
    assert low * p == (r - q * bj - carry + BETA * next) * p;
    assert (r - q * bj - carry + BETA * next) * p == r * p - (q * bj) * p - carry * p + (BETA * next) * p;
    assert q * (w + bj * p) == q * w + q * (bj * p);
  }

  lemma SubtractAdvance(was: seq<Limb>, now: seq<Limb>, after: seq<Limb>, b: seq<Limb>,
                        off: nat, j: nat, q: Limb, carry: int, total: TwoLimb)
    requires Subtracted(was, now, b, off, j, q, carry) && j < |b| && off + j < |was|
    requires total == carry + q * b[j] + Complement(now[off + j]) && total / BETA <= q
    requires after == now[off + j := Complement(total % BETA)]
    ensures Subtracted(was, after, b, off, j + 1, q, total / BETA)
  {
    hide Val, BPow;
    NextPower(j);
    SameOutsideGrows(was, now, after, off, j, Complement(total % BETA));
    ValExtend(after, off, off + j);
    ValExtend(was, off, off + j);
    ValExtend(b, 0, j);
    SubtractArithmetic(Val(now[off..off + j]), Val(was[off..off + j]), Val(b[..j]), q, was[off + j], b[j],
                       after[off + j], carry, total / BETA, BPow(j));
  }

  /** r[j..] := r[j..] - q * b, modulo a power of BETA; the borrow is returned. */
  method SubtractMultiple(r: array<Limb>, j: nat, b: Mpn, q: Limb) returns (cr: Limb)
    requires b.Valid() && b.limbs != r && j + b.nlimbs <= r.Length
    modifies r
    ensures Subtracted(old(r[..]), r[..], b.Limbs(), j, b.nlimbs, q, cr)
  {
    var carry: TwoLimb := 0;
    ghost var was, bs := r[..], b.Limbs();
    for i := 0 to b.nlimbs
      invariant Subtracted(was, r[..], bs, j, i, q, carry)
    {
      ghost var now, borrowed := r[..], carry;
      MulAddFits(q, b.limbs[b.off + i], carry, Complement(r[j + i]));
      carry := carry + q * b.limbs[b.off + i] + Complement(r[j + i]);
      var low: Limb := carry % BETA;
      r[j + i] := Complement(low);
      SubtractAdvance(was, now, r[..], bs, j, i, q, borrowed, carry);
      carry := carry / BETA;
    }
    cr := carry;
  }

  // ---------- Adding the divisor back ----------

  ghost predicate Added(was: seq<Limb>, now: seq<Limb>, b: seq<Limb>, off: nat, j: nat, carry: int) {
    && j <= |b| && SameOutside(was, now, off, j) && 0 <= carry <= 1
    && Val(now[off..off + j]) + carry * BPow(j) == Val(was[off..off + j]) + Val(b[..j])
  }

  lemma AddArithmetic(now: int, was: int, w: int, r: int, bj: int, low: int, carry: int, next: int, p: int)
    requires now + carry * p == was + w
    requires low + BETA * next == r + bj + carry
    ensures now + low * p + next * (BETA * p) == was + r * p + (w + bj * p)
  {
    MulAssoc(next, BETA, p);
    assert (low + BETA * next) * p == (r + bj + carry) * p;
    assert (r + bj + carry) * p == r * p + bj * p + carry * p;
    assert (low + BETA * next) * p == low * p + (BETA * next) * p;
  }

  lemma AddAdvance(was: seq<Limb>, now: seq<Limb>, after: seq<Limb>, b: seq<Limb>,
                   off: nat, j: nat, carry: int, low: Limb, next: int)
    requires Added(was, now, b, off, j, carry) && j < |b| && off + j < |was|
    requires low + BETA * next == b[j] + now[off + j] + carry && 0 <= next <= 1
    requires after == now[off + j := low]
    ensures Added(was, after, b, off, j + 1, next)
  {
    hide Val, BPow;
    NextPower(j);
    SameOutsideGrows(was, now, after, off, j, low);
    ValExtend(after, off, off + j);
    ValExtend(was, off, off + j);
    ValExtend(b, 0, j);
    AddArithmetic(Val(now[off..off + j]), Val(was[off..off + j]), Val(b[..j]), was[off + j], b[j], low, carry, next, BPow(j));
  }

  /** r[j..] := r[j..] + b, modulo a power of BETA; the last carry is forgotten. */
  method AddBack(r: array<Limb>, j: nat, b: Mpn) returns (ghost carry: int)
    requires b.Valid() && b.limbs != r && j + b.nlimbs <= r.Length
    modifies r
    ensures Added(old(r[..]), r[..], b.Limbs(), j, b.nlimbs, carry)
  {
    var c: Limb := 0;
    ghost var was, bs := r[..], b.Limbs();
    for i := 0 to b.nlimbs
      invariant Added(was, r[..], bs, j, i, c)
    {
      ghost var now, carried := r[..], c;
      var source1, source2 := b.limbs[b.off + i], r[j + i];
      var sum: Limb := (source1 + source2 + c) % BETA;
      r[j + i] := sum;
      c := if c != 0 then (if source1 >= Complement(source2) then 1 else 0)
                     else (if source1 > Complement(source2) then 1 else 0);
      AddAdvance(was, now, r[..], bs, j, i, carried, sum, c);
    }
    carry := c;
  }

  // ---------- One quotient digit ----------

  /** The top limbs of a bignum say how large it is, up to one unit of the lowest of them. */
  lemma TopLimbs(s: seq<Limb>, k: nat)
    requires k <= |s|
    ensures Val(s[k..]) * BPow(k) <= Val(s) < (Val(s[k..]) + 1) * BPow(k)
  {
    assert s[..k] + s[k..] == s;
    ValConcat(s[..k], s[k..]);
    ValBound(s[..k]);
    assert (Val(s[k..]) + 1) * BPow(k) == BPow(k) * Val(s[k..]) + BPow(k);
  }

  lemma ValTwo(s: seq<Limb>)
    requires |s| == 2
    ensures Val(s) == s[1] * BETA + s[0]
  {
    ValSingle(s[1]);
    assert s[1..] == [s[1]];
  }

  lemma ValThree(s: seq<Limb>)
    requires |s| == 3
    ensures Val(s) == (s[2] * BETA + s[1]) * BETA + s[0]
  {
    ValTwo(s[1..]);
  }

  lemma TopLimb(s: seq<Limb>)
    requires |s| >= 1
    ensures s[|s| - 1] * BPow(|s| - 1) <= Val(s) < (s[|s| - 1] + 1) * BPow(|s| - 1)
  {
    hide Val, BPow;
    TopLimbs(s, |s| - 1);
    ValSingle(s[|s| - 1]);
    assert s[|s| - 1..] == [s[|s| - 1]];
  }

  lemma TopTwoLimbs(s: seq<Limb>, top: nat)
    requires |s| >= 2 && top == s[|s| - 1] * BETA + s[|s| - 2]
    ensures top * BPow(|s| - 2) <= Val(s) < (top + 1) * BPow(|s| - 2)
  {
    hide Val, BPow;
    TopLimbs(s, |s| - 2);
    ValTwo(s[|s| - 2..]);
  }

  lemma TopThreeLimbs(s: seq<Limb>, top: nat)
    requires |s| >= 3 && top == (s[|s| - 1] * BETA + s[|s| - 2]) * BETA + s[|s| - 3]
    ensures top * BPow(|s| - 3) <= Val(s) < (top + 1) * BPow(|s| - 3)
  {
    hide Val, BPow;
    TopLimbs(s, |s| - 3);
    ValThree(s[|s| - 3..]);
  }

  lemma SmallMultiple(x: int, y: int, k: int, p: int)
    requires x == y + k * p && 0 <= x < p && 0 <= y < p
    ensures k == 0 && x == y
  {
    if k >= 1 { MulMono(1, k, p); }
    if k <= -1 { MulMono(k, -1, p); }
  }

  /** No borrow beyond the top limb: the digit was right and the limbs below the top one are the remainder. */
  lemma NoBorrow(t: nat, low: nat, t0: Limb, b: nat, q: int, cr: Limb, l1: nat, pn: nat)
    requires t == low + t0 * pn && b < pn && l1 < pn
    requires l1 == low - q * b + cr * pn
    requires t < (q + 1) * b
    requires cr <= t0
    ensures l1 == t - q * b && l1 < b
  {
    var k, d := t0 - cr, t - q * b;
    assert (q + 1) * b == q * b + b;
    assert k * pn == t0 * pn - cr * pn;
    assert d == l1 + k * pn;
    if k >= 1 { MulMono(1, k, pn); }
  }

  /** A borrow: the digit was one too big, and adding the divisor back gives the remainder. */
  lemma BorrowRepaired(t: nat, low: nat, t0: Limb, b: nat, q: int, cr: Limb, l1: nat, l2: nat, carry: int, pn: nat)
    requires t == low + t0 * pn && b < pn && l1 < pn && l2 < pn
    requires l1 == low - q * b + cr * pn && l2 + carry * pn == l1 + b
    requires (q - 1) * b <= t
    requires cr > t0
    ensures l2 == t - (q - 1) * b && l2 < b
  {
    var k, d := cr - t0, t - q * b;
    assert (q - 1) * b == q * b - b;
    assert k * pn == cr * pn - t0 * pn;
    assert l1 == d + k * pn;
    MulMono(1, k, pn);
    assert (k - carry) * pn == k * pn - carry * pn;
    SmallMultiple(l2, d + b, k - carry, pn);
  }

  /** The normalising shift has made the top bit of the divisor a one. */
  ghost predicate IsShifted(b: seq<Limb>) {
    |b| >= 2 && b[|b| - 1] >= BETA / 2
  }

  lemma TopDigitArithmetic(t0: nat, b1: nat, t: nat, b: nat, p: nat)
    requires p > 0 && t < b * BETA && t0 * (BETA * p) <= t && b < (b1 + 1) * p
    ensures t0 <= b1
  {
    if t0 > b1 {
      MulMono(b1 + 1, t0, p);
      assert t0 * (BETA * p) == BETA * (t0 * p) by { MulAssoc(t0, BETA, p); MulAssoc(BETA, t0, p); }
    }
  }

  /** The test r[j+n] > b[n-1] never succeeds. */
  lemma TopDigitBounded(seg: seq<Limb>, b: seq<Limb>)
    requires |b| >= 1 && |seg| == |b| + 1 && Val(seg) < Val(b) * BETA
    ensures seg[|b|] <= b[|b| - 1]
  {
    var n := |b|;
    TopLimb(seg);
    TopLimb(b);
    TopDigitArithmetic(seg[n], b[n - 1], Val(seg), Val(b), BPow(n - 1));
  }

  /** The guess from the top limbs is, of the whole remainder and divisor, the quotient digit or one more. */
  lemma GuessOnLimbs(seg: seq<Limb>, b: seq<Limb>, u: nat, v: nat, q: Limb)
    requires IsShifted(b) && |seg| == |b| + 1 && Val(seg) < Val(b) * BETA
    requires
      var n := |b|;
      u == (seg[n] * BETA + seg[n - 1]) * BETA + seg[n - 2] && v == b[n - 1] * BETA + b[n - 2]
    requires IsTopQuotient(q, u, v)
    ensures Val(seg) < (q + 1) * Val(b) && (q - 1) * Val(b) <= Val(seg)
  {
    var n := |b|;
    TopThreeLimbs(seg, u);
    TopTwoLimbs(b, v);
    assert 2 * v >= BETA * BETA;
    GuessIsClose(q, Val(seg), Val(b), u, v, BPow(n - 2));
  }

  /** Subtracts q times the divisor, q being the quotient digit or one more, and corrects both if it was one more. */
  method SubtractAndCorrect(r: array<Limb>, j: nat, b: Mpn, guess: Limb, ghost t: nat) returns (q: Limb)
    requires b.Valid() && b.limbs != r && j + b.nlimbs < r.Length && guess > 0
    requires t == Val(r[..][j..j + b.nlimbs]) + r[j + b.nlimbs] * BPow(b.nlimbs)
    requires t < (guess + 1) * b.Value() && (guess - 1) * b.Value() <= t
    modifies r
    ensures SameOutside(old(r[..]), r[..], j, b.nlimbs)
    ensures Val(r[..][j..j + b.nlimbs]) == t - q * b.Value() < b.Value()
  {
    hide BPow;
    var n := b.nlimbs;
    ghost var was, bs := r[..], b.Limbs();
    ghost var low, pn := Val(was[j..j + n]), BPow(n);
    assert bs[..n] == bs;
    ValBound(bs);
    var t0 := r[j + n];
    q := guess;
    var cr := SubtractMultiple(r, j, b, q);
    ghost var now := r[..];
    ghost var l1 := Val(now[j..j + n]);
    ValBound(now[j..j + n]);
    if cr > t0 {
      q := q - 1;
      ghost var carry := AddBack(r, j, b);
      ghost var l2 := Val(r[..][j..j + n]);
      ValBound(r[..][j..j + n]);
      BorrowRepaired(t, low, t0, Val(bs), guess, cr, l1, l2, carry, pn);
    } else {
      NoBorrow(t, low, t0, Val(bs), q, cr, l1, pn);
    }
  }

  /**
   One step of the long division, at weight j: the limbs r[j..j+n] are divided by b.
   The remainder stays in the n low limbs; the quotient digit is stored in the limb above them.
   */
  method DivideDigit(r: array<Limb>, j: nat, b: Mpn)
    requires b.Valid() && b.limbs != r && j + b.nlimbs < r.Length && IsShifted(b.Limbs())
    requires Val(r[j..j + b.nlimbs + 1]) < b.Value() * BETA
    modifies r
    ensures SameOutside(old(r[..]), r[..], j, b.nlimbs + 1)
    ensures Val(r[j..j + b.nlimbs]) < b.Value()
    ensures Val(r[j..j + b.nlimbs]) + r[j + b.nlimbs] * b.Value() == old(Val(r[j..j + b.nlimbs + 1]))
  {
    hide Val, BPow, IsTopQuotient;
    var n := b.nlimbs;
    ghost var was, bs := r[..], b.Limbs();
    ghost var seg := was[j..j + n + 1];
    assert seg == r[j..j + n + 1];
    TopDigitBounded(seg, bs);
    var t0 := r[j + n];
    var qStar := Guess(t0, r[j + n - 1], r[j + n - 2], b.limbs[b.off + n - 1], b.limbs[b.off + n - 2]);
    GuessOnLimbs(seg, bs, (seg[n] * BETA + seg[n - 1]) * BETA + seg[n - 2], bs[n - 1] * BETA + bs[n - 2], qStar);
    ghost var t := Val(seg);
    ValExtend(was, j, j + n);
    if qStar > 0 {
      qStar := SubtractAndCorrect(r, j, b, qStar, t);
    } else {
      ValBound(bs);
      ValBound(was[j..j + n]);
      NoBorrow(t, Val(was[j..j + n]), t0, Val(bs), 0, 0, Val(was[j..j + n]), BPow(n));
    }
    ghost var now := r[..];
    assert SameOutside(was, now, j, n);
    r[j + n] := qStar;
    SameOutsideGrows(was, now, r[..], j, n, qStar);
    assert r[..][j..j + n] == r[j..j + n];
  }
}
