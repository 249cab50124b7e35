/**
 The two logarithms behind the buffer sizes: log(2)/log(10) < 146/485 and log(5)/log(2) < 476/205.
 Each is one comparison of large powers; the comparison of other powers follows by taking roots.
 */
module Logarithms {
  import opened Powers

  lemma Pow5To36()
    ensures Pow(5, 36) == 14551915228366851806640625
  {
    assert Pow(5, 9) == 1953125;
    PowAdd(5, 9, 9);
    PowAdd(5, 18, 18);
  }

  lemma Pow5To73()
    ensures Pow(5, 73) == 1058791184067875423835403125849552452564239501953125
  {
    Pow5To36();
    PowAdd(5, 36, 36);
    PowAdd(5, 1, 72);
  }

  lemma Pow5To41()
    ensures Pow(5, 41) == 45474735088646411895751953125
  {
    Pow5To36();
    PowAdd(5, 5, 36);
  }

  lemma Pow2To42()
    ensures Pow(2, 42) == 4398046511104
  {
    assert Pow(2, 14) == 16384;
    PowAdd(2, 14, 14);
    PowAdd(2, 14, 28);
  }

  lemma Pow2To85()
    ensures Pow(2, 85) == 38685626227668133590597632
  {
    Pow2To42();
    PowAdd(2, 42, 42);
    PowAdd(2, 1, 84);
  }

  lemma Pow2To119()
    ensures Pow(2, 119) == 664613997892457936451903530140172288
  {
    Pow2To42();
    Pow2To85();
    PowAdd(2, 8, 34);
    PowAdd(2, 34, 85);
  }

  lemma Pow2Below5()
    ensures 2 * Pow(5, 146) > Pow(2, 340)
  {
    Pow5To73();
    Pow2To85();
    PowAdd(5, 73, 73);
    PowAdd(2, 85, 85);
    PowAdd(2, 170, 170);
  }

  lemma Pow2BelowPow10()
    ensures Pow(2, 485) < Pow(10, 146)
  {
    Pow2Below5();
    PowAdd(2, 1, 339);
    PowAdd(2, 146, 339);
    PowOfProduct(2, 5, 146);
    MulStrict(Pow(2, 339), Pow(5, 146), Pow(2, 146));
  }

  lemma Pow5BelowPow2()
    ensures Pow(5, 205) < Pow(2, 476)
  {
    Pow5To41();
    Pow2To119();
    PowAdd(5, 41, 41);
    PowAdd(5, 82, 82);
    PowAdd(5, 41, 164);
    PowAdd(2, 119, 119);
    PowAdd(2, 238, 238);
  }

  /** A comparison of two powers with a fixed ratio of exponents decides all comparisons with a smaller ratio. */
  lemma {:induction false} CompareByRoot(a: nat, p: nat, b: nat, q: nat, x: nat, y: nat)
    requires a > 0 && b > 0 && x > 0 && Pow(a, p) < Pow(b, q)
    requires q * x <= p * y
    ensures Pow(a, x) < Pow(b, y)
  {
    if Pow(a, x) >= Pow(b, y) {
      PowBaseMono(Pow(b, y), Pow(a, x), p);
      PowOfPow(b, y, p);
      PowOfPow(a, x, p);
      PowOfPow(a, p, x);
      PowOfPow(b, q, x);
      assert x * p == p * x && y * p == p * y;
      PowBaseStrict(Pow(a, p), Pow(b, q), x);
      PowMono(b, q * x, p * y);
    }
  }
}
