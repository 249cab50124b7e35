/** Size arithmetic with overflow check: SIZE_MAX stands for every size that is too large. */
module Xsize {
  import opened Powers

  const SIZE_MAX := 0xFFFF_FFFF_FFFF_FFFF

  /** size_t */
  type Size = x: int | 0 <= x <= SIZE_MAX

  /** The sum of two sizes wraps around; then it is smaller than either. */
  function Xsum(size1: Size, size2: Size): Size {
    var sum := (size1 + size2) % (SIZE_MAX + 1);
    if sum >= size1 then sum else SIZE_MAX
  }

  function Xsum4(size1: Size, size2: Size, size3: Size, size4: Size): Size {
    Xsum(Xsum(Xsum(size1, size2), size3), size4)
  }

  function Xmax(size1: Size, size2: Size): Size {
    if size1 >= size2 then size1 else size2
  }

  lemma QuotientBound(n: nat, d: nat)
    requires d > 0
    ensures n <= SIZE_MAX / d <==> n * d <= SIZE_MAX
  {
    var q := SIZE_MAX / d;
    assert q * d <= SIZE_MAX < (q + 1) * d;
    if n <= q { MulMono(n, q, d); } else { MulMono(q + 1, n, d); }
  }

  /** The element size must be positive. */
  function Xtimes(n: Size, elsize: Size): Size
    requires elsize > 0
  {
    QuotientBound(n, elsize);
    if n <= SIZE_MAX / elsize then n * elsize else SIZE_MAX
  }

  predicate SizeOverflow(size: Size) {
    size == SIZE_MAX
  }

  /** The number, or SIZE_MAX if it is larger. */
  function Saturate(n: nat): Size {
    if n <= SIZE_MAX then n else SIZE_MAX
  }

  /** A computation with sizes. */
  datatype SizeExpr =
    | Known(size: Size)
    | Sum(left: SizeExpr, right: SizeExpr)
    | Maximum(left: SizeExpr, right: SizeExpr)
    | Times(count: SizeExpr, elsize: Size)
  {
    predicate Valid() {
      match this
      case Known(_) => true
      case Sum(l, r) => l.Valid() && r.Valid()
      case Maximum(l, r) => l.Valid() && r.Valid()
      case Times(c, s) => c.Valid() && s > 0
    }

    /** The true value, without any bound. */
    function Exact(): nat {
      match this
      case Known(n) => n
      case Sum(l, r) => l.Exact() + r.Exact()
      case Maximum(l, r) => if l.Exact() >= r.Exact() then l.Exact() else r.Exact()
      case Times(c, s) => c.Exact() * s
    }

    /** What the checked operations compute. */
    function Computed(): Size
      requires Valid()
    {
      match this
      case Known(n) => n
      case Sum(l, r) => Xsum(l.Computed(), r.Computed())
      case Maximum(l, r) => Xmax(l.Computed(), r.Computed())
      case Times(c, s) => Xtimes(c.Computed(), s)
    }
  }

  lemma SaturatedSum(m: nat, n: nat)
    ensures Xsum(Saturate(m), Saturate(n)) == Saturate(m + n)
  {
  }

  lemma SaturatedSum4(size1: Size, size2: Size, size3: Size, size4: Size)
    ensures Xsum4(size1, size2, size3, size4) == Saturate(size1 + size2 + size3 + size4)
  {
    hide Xsum;
    SaturatedSum(size1, size2);
    SaturatedSum(size1 + size2, size3);
    SaturatedSum(size1 + size2 + size3, size4);
  }

  lemma SaturatedProduct(n: nat, s: Size)
    requires s > 0
    ensures Xtimes(Saturate(n), s) == Saturate(n * s)
  {
    QuotientBound(Saturate(n), s);
    MulMono(1, s, n);
    if n > SIZE_MAX {
      MulMono(1, s, SIZE_MAX);
      MulMono(SIZE_MAX, n, s);
    }
  }

  /** However the operations are nested, they compute the true value or SIZE_MAX if that is larger. */
  lemma {:induction false} SaturationIsExact(e: SizeExpr)
    requires e.Valid()
    ensures e.Computed() == Saturate(e.Exact())
  {
    match e
    case Known(_) =>
    case Sum(l, r) =>
      SaturationIsExact(l);
      SaturationIsExact(r);
      SaturatedSum(l.Exact(), r.Exact());
    case Maximum(l, r) =>
      SaturationIsExact(l);
      SaturationIsExact(r);
    case Times(c, s) =>
      SaturationIsExact(c);
      SaturatedProduct(c.Exact(), s);
  }

  /** A verdict of no overflow means that the size is exact. */
  lemma NoOverflowMeansExact(e: SizeExpr)
    requires e.Valid() && !SizeOverflow(e.Computed())
    ensures e.Computed() == e.Exact()
  {
    SaturationIsExact(e);
  }
}
