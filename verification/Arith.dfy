/** Small facts about products and quotients. */
module Arith {
  function Min(x: int, y: int): int { if x < y then x else y }

  function Max(x: int, y: int): int { if x < y then y else x }

  function Abs(x: int): nat { if x < 0 then -x else x }

  lemma MulSub(a: int, b: int, d: int)
    ensures (a - b) * d == a * d - b * d
    ensures d * (a - b) == d * a - d * b
  {
  }

  lemma MulAdd(a: int, b: int, d: int)
    ensures (a + b) * d == a * d + b * d
    ensures d * (a + b) == d * a + d * b
  {
  }

  lemma MulTwice(a: int, b: int)
    ensures a * (2 * b) == 2 * (a * b) == (2 * a) * b
  {
  }

  lemma MulAssoc(a: int, b: int, c: int)
    ensures a * (b * c) == (a * b) * c
  {
  }

  lemma SameProduct(a: int, b: int, p: int)
    requires a == b
    ensures a * p == b * p
  {
  }

  lemma MulAtLeast(a: int, d: int)
    requires a >= 1 && d > 0
    ensures a * d >= d
  {
  }

  lemma MulMono(a: int, b: int, d: int)
    requires a <= b && d >= 0
    ensures a * d <= b * d && d * a <= d * b
  {
  }

  lemma MulNonNeg(a: int, b: int)
    requires a >= 0 && b >= 0
    ensures a * b >= 0
  {
  }

  lemma DivModUnique(v: int, d: int, q: int, r: int)
    requires d > 0 && v == q * d + r && 0 <= r < d
    ensures v / d == q && v % d == r
  {
    var q', r' := v / d, v % d;
    assert v == d * q' + r';
    assert d * q' == q' * d;
    MulSub(q, q', d);
    MulSub(q', q, d);
    if q > q' {
      MulAtLeast(q - q', d);
    } else if q' > q {
      MulAtLeast(q' - q, d);
    }
  }

  lemma DivModBasics(v: int, d: int)
    requires d > 0
    ensures v == (v / d) * d + v % d && 0 <= v % d < d
    ensures v >= 0 ==> 0 <= v / d <= v
  {
    var q, r := v / d, v % d;
    assert v == d * q + r && d * q == q * d;
    if v >= 0 {
      if q < 0 {
        MulAtLeast(-q, d);
      } else {
        MulMono(1, d, q);
      }
    }
  }
}
