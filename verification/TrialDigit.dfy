/**
 The quotient digit of one step of the long division: a guess from the top limbs, at most one too big.
 */
module TrialDigit {
  import opened Powers
  import opened Bignum

  /** qStar is the quotient digit of the three top limbs u by the two top limbs v, capped at BETA - 1. */
  ghost predicate IsTopQuotient(qStar: int, u: int, v: int) {
    && 0 <= qStar < BETA
    && qStar * v <= u
    && (qStar < BETA - 1 ==> u < (qStar + 1) * v)
  }

  /** The guess from two limbs by one exceeds the quotient of three limbs by two by at most two. */
  lemma GuessTooBigByTwo(q0: int, t0: Limb, t1: Limb, t2: Limb, b1: Limb, b2: Limb)
    requires b1 >= BETA / 2 && 0 <= q0 < BETA && q0 * b1 <= t0 * BETA + t1
    ensures
      var u, v := (t0 * BETA + t1) * BETA + t2, b1 * BETA + b2;
      && v * 2 == v + v && q0 * v - u <= 2 * v
      && q0 * v - u == q0 * b2 - ((t0 * BETA + t1 - q0 * b1) * BETA + t2)
      && (q0 - 1) * v == q0 * v - v && (q0 - 2) * v == q0 * v - 2 * v
  {
    var u, v := (t0 * BETA + t1) * BETA + t2, b1 * BETA + b2;
    assert q0 * v == (q0 * b1) * BETA + q0 * b2 by { MulAssoc(q0, b1, BETA); }
    MulMono(q0, BETA - 1, b2);
    MulMono(b2, BETA - 1, BETA - 1);
    assert q0 * b2 <= (BETA - 1) * (BETA - 1);
  }

  /** A digit whose product with one limb more fits below u is at most the guess from one limb less. */
  lemma GuessNotTooSmall(q0: int, q: int, t0: Limb, t1: Limb, t2: Limb, b1: Limb, b2: Limb)
    requires b1 > 0 && 0 <= q0 && t0 * BETA + t1 < (q0 + 1) * b1
    requires q >= q0 + 1
    ensures (t0 * BETA + t1) * BETA + t2 < q * (b1 * BETA + b2)
  {
    MulMono(q0 + 1, q, b1);
    assert t0 * BETA + t1 + 1 <= q * b1;
    MulAssoc(q, b1, BETA);
    MulMono(0, q, b2);
    assert q * (b1 * BETA + b2) == (q * b1) * BETA + q * b2;
  }

  /** How far the overshoot of the guess tells by how much to lower it. */
  lemma Overshoot(q0: int, u: nat, v: nat, over: int)
    requires 0 <= q0 < BETA && v > 0 && over == q0 * v - u && over <= 2 * v
    requires q0 < BETA - 1 ==> u < (q0 + 1) * v
    ensures over <= 0 ==> IsTopQuotient(q0, u, v)
    ensures 0 < over <= v ==> IsTopQuotient(q0 - 1, u, v)
    ensures v < over ==> IsTopQuotient(q0 - 2, u, v)
  {
    assert (q0 - 1) * v == q0 * v - v;
    assert (q0 - 2) * v == q0 * v - 2 * v;
    if q0 <= 0 { MulMono(q0, 0, v); }
    if q0 <= 1 { MulMono(q0, 1, v); }
  }

  /**
   The first guess, from two limbs of the remainder and one of the divisor, and what it leaves of those two limbs.
   t0 > b1 is tested but does not occur; b1 + t1 is the 32-bit sum, which wraps around.
   */
  method FirstGuess(t0: Limb, t1: Limb, b1: Limb) returns (q0: Limb, c1: Limb, sure: bool)
    requires b1 >= BETA / 2 && t0 <= b1
    ensures q0 < BETA - 1 ==> t0 * BETA + t1 < (q0 + 1) * b1
    ensures q0 * b1 <= t0 * BETA + t1
    ensures if sure then q0 == BETA - 1 && t0 * BETA + t1 - q0 * b1 >= BETA else c1 == t0 * BETA + t1 - q0 * b1
  {
    if t0 < b1 {
      var num: TwoLimb := t0 * BETA + t1;
      q0, c1 := DivideTwoLimbs(num, b1);
      sure := false;
    } else {
      assert t0 == b1;
      q0 := BETA - 1;
      assert q0 * b1 == BETA * b1 - b1;
      c1 := (t1 + b1) % BETA;
      sure := t0 > b1 || c1 < b1;
    }
  }

  /** The quotient digit of the three top limbs of the remainder by the two top limbs of the divisor. */
  method Guess(t0: Limb, t1: Limb, t2: Limb, b1: Limb, b2: Limb) returns (qStar: Limb)
    requires b1 >= BETA / 2 && t0 <= b1
    ensures IsTopQuotient(qStar, (t0 * BETA + t1) * BETA + t2, b1 * BETA + b2)
  {
    var q0, c1, sure := FirstGuess(t0, t1, b1);
    qStar := q0;
    var msdd: TwoLimb := b1 * BETA + b2;
    ghost var u := (t0 * BETA + t1) * BETA + t2;
    GuessTooBigByTwo(q0, t0, t1, t2, b1, b2);
    MulAddFits(q0, b2, 0, 0);
    if q0 < BETA - 1 {
      GuessNotTooSmall(q0, q0 + 1, t0, t1, t2, b1, b2);
    }
    Overshoot(q0, u, msdd, q0 * msdd - u);
    if !sure {
      var c2: TwoLimb := c1 * BETA + t2;
      var c3: TwoLimb := b2 * q0;
      assert c3 - c2 == q0 * msdd - u;
      if c3 > c2 {
        qStar := qStar - 1;
        if c3 - c2 > msdd {
          qStar := qStar - 1;
        }
      }
    }
  }

  /** The guess is the true quotient digit or one more. */
  lemma GuessIsClose(qStar: int, t: nat, b: nat, u: nat, v: nat, p: nat)
    requires IsTopQuotient(qStar, u, v)
    requires p > 0 && 2 * v >= BETA * BETA
    requires u * p <= t < (u + 1) * p && v * p <= b < (v + 1) * p
    requires t < b * BETA
    ensures t < (qStar + 1) * b && (qStar - 1) * b <= t
  {
    // Not too small: a larger digit would overshoot the top limbs alone.
    if qStar < BETA - 1 {
      MulMono(u + 1, (qStar + 1) * v, p);
      MulAssoc(qStar + 1, v, p);
      MulMono(v * p, b, qStar + 1);
    }
    // Not too big by two: what the top limbs overshoot is less than the divisor.
    MulMono(qStar * v, u, p);
    MulAssoc(qStar, v, p);
    MulMono(b - v * p, p, qStar);
    assert qStar * b == qStar * (v * p) + qStar * (b - v * p);
    MulMono(qStar, v, p);
    assert (qStar - 1) * b == qStar * b - b;
  }
}
