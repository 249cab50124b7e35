/** Integers, and conversion to the signed integer types of C. */
module Integers {
  import opened Powers

  function Min(a: nat, b: nat): nat {
    if a < b then a else b
  }

  function Max(a: nat, b: nat): nat {
    if a < b then b else a
  }

  /** Conversion to a signed integer type with the given number of values. */
  function ToSigned(n: int, size: nat): int
    requires size > 0
  {
    var r := n % size;
    if 2 * r >= size then r - size else r
  }

  lemma MultipleRemainder(q: int, size: nat)
    requires size > 0
    ensures (q * size) % size == 0
  {
    var r := (q * size) % size;
    var k := q - (q * size) / size;
    assert k * size == r;
    if k >= 1 { MulMono(1, k, size); }
    if k <= -1 { MulMono(k, -1, size); }
  }

  /** The value that differs from n by a multiple of the size and is in the range of the type. */
  lemma ToSignedIsCast(n: int, half: int)
    requires half > 0
    ensures
      var r := ToSigned(n, 2 * half);
      && -half <= r < half && (n - r) % (2 * half) == 0
      && (-half <= n < half ==> r == n)
  {
    var size := 2 * half;
    var q := n / size;
    assert n == q * size + n % size;
    MultipleRemainder(q, size);
    MultipleRemainder(q + 1, size);
    assert (q + 1) * size == q * size + size;
    if -half <= n < half {
      if q >= 1 { MulMono(1, q, size); }
      if q <= -2 { MulMono(q, -2, size); }
    }
  }

  /** An int; INT_MIN is left out, because its absolute value overflows. */
  predicate IsInt(x: int) {
    -0x8000_0000 < x < 0x8000_0000
  }

  type CInt = x: int | -0x8000_0000 < x < 0x8000_0000

  /** The cast (int) of a size. */
  function IntOf(n: nat): int {
    ToSigned(n, 0x1_0000_0000)
  }

  /** The cast keeps what an int can hold, and takes at least 2^32 from everything larger. */
  lemma IntOfIsSmall(n: nat)
    ensures if IsInt(n) then IntOf(n) == n else IntOf(n) <= n - 0x1_0000_0000
  {
  }
}
