/** Products and quotients, one small fact at a time. */
module Arithmetic {

  function Min(a: nat, b: nat): nat { if a <= b then a else b }

  lemma MulMonotone(a: int, b: int, c: int)
    requires a <= b && 0 <= c
    ensures a * c <= b * c
  {
    assert 0 <= (b - a) * c;
  }

  lemma MulDistributes(a: int, b: int, c: int)
    ensures (a + b) * c == a * c + b * c
    ensures (a - b) * c == a * c - b * c
  {
  }

  lemma MulAssociates(a: int, b: int, c: int)
    ensures (a * b) * c == a * (b * c) == b * (a * c)
  {
  }

  /** A nonzero multiple of d lies outside (-|d|, |d|). */
  lemma MultipleIsLarge(d: int, e: int)
    requires e != 0 && d != 0
    ensures !(-(if d < 0 then -d else d) < d * e < (if d < 0 then -d else d))
  {
    if d > 0 && e > 0 {
      MulMonotone(1, e, d);
    } else if d > 0 {
      MulMonotone(e, -1, d);
    } else if e > 0 {
      MulMonotone(1, e, -d);
    } else {
      MulMonotone(e, -1, -d);
    }
  }

  lemma DivideExactly(dividend: int, divisor: int, q: int)
    requires divisor != 0 && dividend == divisor * q
    ensures dividend / divisor == q && dividend % divisor == 0
  {
    var q' := dividend / divisor;
    MulDistributes(q, q', divisor);
    if q != q' {
      MultipleIsLarge(divisor, q - q');
    }
  }

  lemma SmallDividend(dividend: int, divisor: int)
    requires 0 <= dividend < divisor
    ensures dividend / divisor == 0
  {
    var q := dividend / divisor;
    if q != 0 {
      MultipleIsLarge(divisor, q);
    }
  }
}
