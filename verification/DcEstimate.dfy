/** How good the estimated digits of long division are. The divisor's leading digits give a number `c`;
    what it stands for is compared with the divisor itself, which it must not fall short of by one. */
module DcEstimate {
  import opened Arith
  import opened DcValue
  import opened DcAdd

  /** The three leading characters of a block, zeros standing in for missing ones. */
  function TopThree(s: seq<int>): int
    requires s != []
  {
    var n := |s|;
    (s[n - 1] * 100 + if n > 1 then s[n - 2] else 0) * 100 + if n > 2 then s[n - 3] else 0
  }

  /** Digits, except that the top one may be larger. */
  ghost predicate Topped(s: seq<int>) {
    s != [] && Digits(s[..|s| - 1]) && s[|s| - 1] >= 0
  }

  /** Leading characters bound the number, here taken with two more zeros below. */
  lemma TopThreeBounds(s: seq<int>)
    requires Topped(s)
    ensures TopThree(s) >= 0
    ensures TopThree(s) * Pow100(|s| - 1) <= 10000 * Val(s) < (TopThree(s) + 1) * Pow100(|s| - 1)
  {
    var n := |s|;
    var t := s[..n - 1];
    assert n > 1 ==> t[n - 2] == s[n - 2];
    assert n > 2 ==> t[n - 3] == s[n - 3];
    if n >= 3 {
      LongBounds(s);
    } else {
      ShortValue(s);
    }
  }

  lemma ShortValue(s: seq<int>)
    requires 0 < |s| <= 2
    ensures Val(s) == s[0] + if |s| == 2 then 100 * s[1] else 0
    ensures Pow100(0) == 1 && Pow100(1) == 100
  {
    if |s| == 2 {
      assert s[..1][0] == s[0] && s[..1][..0] == [];
      assert Val(s[..1]) == s[0];
    }
  }

  lemma LongBounds(s: seq<int>)
    requires |s| >= 3 && Topped(s)
    ensures TopThree(s) * Pow100(|s| - 1) <= 10000 * Val(s) < (TopThree(s) + 1) * Pow100(|s| - 1)
  {
    hide Val, Pow100;
    var n := |s|;
    ValStep(s, n - 1);
    ValStep(s, n - 2);
    ValStep(s, n - 3);
    NextPower(n - 3);
    NextPower(n - 2);
    assert s[..n] == s;
    var v := s[..n - 3];
    assert Digits(v) by {
      assert v == s[..n - 1][..n - 3];
    }
    DigitsBound(v);
    ThreeTimes(s[n - 3], s[n - 2], s[n - 1], Pow100(n - 3));
  }

  lemma ThreeTimes(a: int, b: int, c: int, p: int)
    ensures a * p + b * (100 * p) + c * (10000 * p) == ((c * 100 + b) * 100 + a) * p
    ensures ((c * 100 + b) * 100 + a) * (10000 * p) == 10000 * (((c * 100 + b) * 100 + a) * p)
    ensures ((c * 100 + b) * 100 + a + 1) * (10000 * p) == 10000 * (((c * 100 + b) * 100 + a) * p) + 10000 * p
  {
    MulAssoc(b, 100, p);
    MulAssoc(c, 10000, p);
    MulAdd(a, 100 * b, p);
    MulAdd(a + 100 * b, 10000 * c, p);
    var x := (c * 100 + b) * 100 + a;
    MulAssoc(x, 10000, p);
    MulAssoc(10000, x, p);
    MulAdd(x, 1, 10000 * p);
    SameProduct(x * 10000, 10000 * x, p);
  }

  /** A divisor with a small top digit is measured by three digits, in units of a twenty-fifth. */
  predicate Magic(divr: seq<int>)
    requires divr != []
  {
    divr[|divr| - 1] < 10
  }

  function Leading(divr: seq<int>): int
    requires divr != []
  {
    if Magic(divr) then TopThree(divr) * 2 / 25 else TopThree(divr) / 100
  }

  function Factor(divr: seq<int>): int
    requires divr != []
  {
    if Magic(divr) then 8 else 1
  }

  /** The estimates never fall short: `Leading` plus one is no less than the divisor. */
  predicate Safe(divr: seq<int>)
    requires divr != []
  {
    Factor(divr) * (10000 * Val(divr)) <= (Leading(divr) + 1) * Pow100(|divr|)
  }

  /** The facts about a positive normal divisor that estimates rest on; `w` is the divisor with two zeros more. */
  ghost predicate Measured(f: int, c: int, w: int, unit: int) {
    && ((f == 8 && c >= 800) || (f == 1 && c >= 1000)) && unit > 0
    && c * unit <= f * w
  }

  lemma Measure(divr: seq<int>)
    requires Digits(divr) && Normal(divr) && divr != []
    ensures Measured(Factor(divr), Leading(divr), 10000 * Val(divr), Pow100(|divr|))
    ensures !Magic(divr) ==> Safe(divr)
    ensures Magic(divr) ==>
        Factor(divr) * (10000 * Val(divr)) < (Leading(divr) + 1) * Pow100(|divr|) + 4 * Pow100(|divr| - 1)
    ensures 100 * (Factor(divr) * (10000 * Val(divr))) <= (100 * Leading(divr) + 104) * Pow100(|divr|)
    ensures Magic(divr) && 2 * TopThree(divr) % 25 != 24 ==> Safe(divr)
  {
    hide Pow100, Val;
    TopThreeBounds(divr);
    NextPower(|divr| - 1);
    var t, p, w := TopThree(divr), Pow100(|divr| - 1), 10000 * Val(divr);
    assert t >= divr[|divr| - 1] * 10000;
    if Magic(divr) {
      MagicMeasure(t, p, w);
    } else {
      PlainMeasure(t, p, w);
    }
    var c := Leading(divr);
    MulAdd(c, 1, 100 * p);
    MulAdd(100 * c, 104, 100 * p);
    MulAssoc(100, c, 100 * p);
  }

  lemma MagicMeasure(t: int, p: int, w: int)
    requires p > 0 && t >= 0 && t * p <= w < (t + 1) * p
    ensures
      var c := t * 2 / 25;
      && c * (100 * p) <= 8 * w < (c + 1) * (100 * p) + 4 * p
      && (2 * t % 25 != 24 ==> 8 * w <= (c + 1) * (100 * p))
  {
    var c, r := t * 2 / 25, t * 2 % 25;
    MulAdd(t, 1, p);
    assert 2 * (t * p) == 25 * (c * p) + r * p by {
      MulAssoc(2, t, p);
      SameProduct(2 * t, 25 * c + r, p);
      MulAdd(25 * c, r, p);
      MulAssoc(25, c, p);
    }
    assert c * (100 * p) == 100 * (c * p) by { MulAssoc(c, 100, p); MulAssoc(100, c, p); }
    MulAdd(c, 1, 100 * p);
    MulNonNeg(r, p);
    MulMono(r, 24, p);
    if r != 24 {
      MulMono(r, 23, p);
    }
    MagicLinear(t * p, c * p, r * p, p, w);
  }

  lemma MagicLinear(tp: int, cp: int, rp: int, p: int, w: int)
    requires 2 * tp == 25 * cp + rp && 0 <= rp <= 24 * p && tp <= w < tp + p
    ensures 100 * cp <= 8 * w < 100 * cp + 104 * p
    ensures rp <= 23 * p ==> 8 * w <= 100 * cp + 100 * p
  {
  }

  lemma PlainMeasure(t: int, p: int, w: int)
    requires p > 0 && t >= 0 && t * p <= w < (t + 1) * p
    ensures
      var c := t / 100;
      c * (100 * p) <= w <= (c + 1) * (100 * p)
  {
    var c := t / 100;
    assert c * (100 * p) == (100 * c) * p by { MulAssoc(c, 100, p); }
    assert (c + 1) * (100 * p) == (100 * (c + 1)) * p by { MulAssoc(c + 1, 100, p); }
    MulMono(100 * c, t, p);
    MulMono(t + 1, 100 * (c + 1), p);
  }

  // ---- One digit ----

  /** The dividend `r` and what is known of it: `td` its leading digits, `x` the divisor at the digit's
      place, both with two more zeros; the part not yet divided is below 116 times the divisor. */
  ghost predicate Estimating(f: int, c: int, x: int, u: int, td: int, r: int) {
    && ((f == 8 && c >= 800) || (f == 1 && c >= 1000)) && u > 0 && x > 0
    && c * u <= f * x && 100 * (f * x) <= (100 * c + 104) * u
    && 0 <= td && td * u <= r < (td + 1) * u && r < 116 * x
  }

  /** An estimate before the last that is not too large leaves little over; one that is, is too large by
      little; and for a divisor that is bounded well it never is. */
  lemma DigitEstimate(f: int, c: int, x: int, u: int, td: int, r: int, dig: int)
    requires Estimating(f, c, x, u, td, r) && dig == f * td / (c + 1)
    ensures 0 <= dig <= 116
    ensures dig * x <= r ==> dig <= 115 && 100 * (r - dig * x) < 116 * x
    ensures dig * x - r <= 5 * u
    ensures f * x <= (c + 1) * u ==> dig * x <= r
  {
    DivModBasics(f * td, c + 1);
    MulNonNeg(f, td);
    assert dig * (c + 1) <= f * td < (dig + 1) * (c + 1) by { MulAdd(dig, 1, c + 1); }
    DigitAtMost(f, c, x, u, td, r, dig);
    TooLargeByLittle(f, c, x, u, td, r, dig);
    if f * x <= (c + 1) * u {
      NotTooLarge(f, c, x, u, td, r, dig);
    }
    if dig * x <= r {
      if dig >= 116 {
        MulMono(116, dig, x);
      }
      LittleLeft(f, c, x, u, td, r, dig);
    }
  }

  /** The dividend's leading digits against the divisor's. */
  lemma DividendBelow(f: int, c: int, x: int, u: int, td: int, r: int)
    requires Estimating(f, c, x, u, td, r)
    ensures (f * td) * u <= f * r < (116 * c + 121) * u
  {
    assert (f * td) * u <= f * r by {
      MulAssoc(f, td, u);
      MulMono(td * u, r, f);
    }
    assert f * r <= 116 * (f * x) by {
      MulMono(r, 116 * x, f);
      MulAssoc(f, 116, x);
      MulAssoc(116, f, x);
    }
    assert (100 * c + 104) * u == 100 * (c * u) + 104 * u by {
      MulAdd(100 * c, 104, u);
      MulAssoc(100, c, u);
    }
    assert (116 * c + 121) * u == 116 * (c * u) + 121 * u by {
      MulAdd(116 * c, 121, u);
      MulAssoc(116, c, u);
    }
  }

  lemma DigitAtMost(f: int, c: int, x: int, u: int, td: int, r: int, dig: int)
    requires Estimating(f, c, x, u, td, r) && dig * (c + 1) <= f * td
    ensures dig <= 116
  {
    DividendBelow(f, c, x, u, td, r);
    if f * td >= 116 * c + 121 {
      MulMono(116 * c + 121, f * td, u);
    }
    if dig >= 117 {
      MulMono(117, dig, c + 1);
    }
  }

  lemma DigitProduct(f: int, c: int, x: int, u: int, dig: int)
    requires u > 0 && 0 <= dig <= 116 && 100 * (f * x) <= (100 * c + 104) * u
    ensures 100 * (f * (dig * x)) <= 100 * ((dig * (c + 1)) * u) + 464 * u
  {
    MulAssoc(f, dig, x);
    MulAssoc(dig, f, x);
    MulMono(100 * (f * x), (100 * c + 104) * u, dig);
    MulAssoc(dig, 100, f * x);
    MulAssoc(100, dig, f * x);
    MulAssoc(dig, 100 * c + 104, u);
    SpreadDigit(dig, c);
    SameProduct(dig * (100 * c + 104), 100 * (dig * (c + 1)) + 4 * dig, u);
    MulAdd(100 * (dig * (c + 1)), 4 * dig, u);
    MulAssoc(100, dig * (c + 1), u);
    MulMono(4 * dig, 464, u);
  }

  lemma TooLargeByLittle(f: int, c: int, x: int, u: int, td: int, r: int, dig: int)
    requires Estimating(f, c, x, u, td, r) && 0 <= dig <= 116 && dig * (c + 1) <= f * td
    ensures dig * x - r <= 5 * u
  {
    DividendBelow(f, c, x, u, td, r);
    DigitProduct(f, c, x, u, dig);
    MulMono(dig * (c + 1), f * td, u);
    MulSub(dig * x, r, f);
    MulAssoc(f, dig, x);
    assert 100 * (f * (dig * x - r)) <= 464 * u;
    if dig * x - r > 5 * u {
      MulMono(1, f, dig * x - r);
    }
  }

  lemma SpreadDigit(dig: int, c: int)
    ensures dig * (100 * c + 104) == 100 * (dig * (c + 1)) + 4 * dig
  {
    MulAdd(100 * c, 104, dig);
    MulAssoc(dig, 100, c);
    MulAssoc(100, dig, c);
    MulAdd(c, 1, dig);
  }

  lemma NotTooLarge(f: int, c: int, x: int, u: int, td: int, r: int, dig: int)
    requires Estimating(f, c, x, u, td, r) && dig >= 0 && dig * (c + 1) <= f * td
    requires f * x <= (c + 1) * u
    ensures dig * x <= r
  {
    assert f * (dig * x) <= (dig * (c + 1)) * u by {
      MulMono(f * x, (c + 1) * u, dig);
      MulAssoc(f, dig, x);
      MulAssoc(dig, f, x);
      MulAssoc(dig, c + 1, u);
    }
    assert (dig * (c + 1)) * u <= f * r by {
      MulMono(dig * (c + 1), f * td, u);
      MulAssoc(f, td, u);
      MulMono(td * u, r, f);
    }
    if dig * x > r {
      MulMono(r + 1, dig * x, f);
      MulAdd(r, 1, f);
    }
  }

  lemma LittleLeft(f: int, c: int, x: int, u: int, td: int, r: int, dig: int)
    requires Estimating(f, c, x, u, td, r) && 0 <= dig <= 115 && f * td < (dig + 1) * (c + 1)
    ensures 100 * (r - dig * x) < 116 * x
  {
    LeftoverBelow(f, c, x, u, td, r, dig);
    LeftoverSmall(f, c, x, u, dig);
    assert (dig + 1) * (f * x) == f * (dig * x) + f * x by {
      MulAdd(dig, 1, f * x);
      MulAssoc(dig, f, x);
      MulAssoc(f, dig, x);
    }
    CancelFactor(f, 100 * (r - dig * x), 116 * x);
  }

  lemma CancelFactor(f: int, a: int, b: int)
    requires f == 1 || f == 8
    ensures f * a < f * b ==> a < b
  {
  }

  /** What is left, times the factor, is below the next multiple of the divisor by little. */
  lemma LeftoverBelow(f: int, c: int, x: int, u: int, td: int, r: int, dig: int)
    requires Estimating(f, c, x, u, td, r) && 0 <= dig && f * td < (dig + 1) * (c + 1)
    ensures f * r < (dig + 1) * (f * x) + (dig + f) * u
  {
    assert f * r < (f * td + f) * u by {
      MulMono(r + 1, (td + 1) * u, f);
      MulAdd(r, 1, f);
      MulAssoc(f, td + 1, u);
      MulAdd(td, 1, f);
    }
    assert (dig + 1) * (c + 1) == (dig + 1) * c + dig + 1 by { MulAdd(c, 1, dig + 1); }
    assert (f * td + f) * u <= ((dig + 1) * c) * u + (dig + f) * u by {
      MulMono(f * td + f, (dig + 1) * c + (dig + f), u);
      MulAdd((dig + 1) * c, dig + f, u);
    }
    assert ((dig + 1) * c) * u <= (dig + 1) * (f * x) by {
      MulAssoc(dig + 1, c, u);
      MulMono(c * u, f * x, dig + 1);
    }
  }

  lemma LeftoverSmall(f: int, c: int, x: int, u: int, dig: int)
    requires ((f == 8 && c >= 800) || (f == 1 && c >= 1000)) && u > 0 && 0 <= dig <= 115 && c * u <= f * x
    ensures 100 * ((dig + f) * u) <= 16 * (f * x)
  {
    MulMono(100 * (dig + f), 16 * c, u);
    MulAssoc(100, dig + f, u);
    MulAssoc(16, c, u);
  }

  /** The last estimate is the quotient or one more, for every divisor. */
  lemma LastEstimate(f: int, c: int, x: int, u: int, td: int, r: int, dig: int)
    requires Estimating(f, c, x, u, td, r) && dig == f * (td + 1) / c
    ensures 0 <= dig <= 116
    ensures (dig - 1) * x <= r < (dig + 1) * x
  {
    DivModBasics(f * (td + 1), c);
    MulNonNeg(f, td + 1);
    assert dig * c <= f * (td + 1) < (dig + 1) * c by { MulAdd(dig, 1, c); }
    LastAtMost(f, c, x, u, td, r, dig);
    LastEnough(f, c, x, u, td, r, dig);
    LastNear(f, c, x, u, td, r, dig);
  }

  lemma LastAtMost(f: int, c: int, x: int, u: int, td: int, r: int, dig: int)
    requires Estimating(f, c, x, u, td, r) && dig * c <= f * (td + 1)
    ensures dig <= 116
  {
    DividendBelow(f, c, x, u, td, r);
    if f * td >= 116 * c + 121 {
      MulMono(116 * c + 121, f * td, u);
    }
    assert dig * c < 116 * c + 121 + f by { MulAdd(td, 1, f); }
    if dig >= 117 {
      MulMono(117, dig, c);
    }
  }

  lemma LastEnough(f: int, c: int, x: int, u: int, td: int, r: int, dig: int)
    requires Estimating(f, c, x, u, td, r) && dig >= 0 && f * (td + 1) < (dig + 1) * c
    ensures r < (dig + 1) * x
  {
    assert f * r < f * ((dig + 1) * x) by {
      MulMono(r + 1, (td + 1) * u, f);
      MulAdd(r, 1, f);
      MulAssoc(f, td + 1, u);
      MulMono(f * (td + 1), (dig + 1) * c, u);
      MulAssoc(dig + 1, c, u);
      MulMono(c * u, f * x, dig + 1);
      MulAssoc(dig + 1, f, x);
      MulAssoc(f, dig + 1, x);
    }
    if r >= (dig + 1) * x {
      MulMono((dig + 1) * x, r, f);
    }
  }

  /** The product of a digit and the divisor, against the leading digits. */
  lemma ProductBelow(f: int, c: int, x: int, u: int, k: int)
    requires u > 0 && 0 <= k <= 116 && 100 * (f * x) <= (100 * c + 104) * u
    ensures f * (k * x) <= (k * c) * u + 121 * u
  {
    MulAssoc(f, k, x);
    MulAssoc(k, f, x);
    MulMono(100 * (f * x), (100 * c + 104) * u, k);
    MulAssoc(k, 100, f * x);
    MulAssoc(100, k, f * x);
    ProductSpread(c, u, k);
  }

  lemma ProductSpread(c: int, u: int, k: int)
    requires u > 0 && 0 <= k <= 116
    ensures k * ((100 * c + 104) * u) <= 100 * ((k * c) * u) + 12064 * u
  {
    MulAssoc(k, 100 * c + 104, u);
    MulAdd(100 * c, 104, k);
    MulAssoc(k, 100, c);
    MulAssoc(100, k, c);
    MulAdd(100 * (k * c), 104 * k, u);
    MulAssoc(100, k * c, u);
    MulMono(104 * k, 12064, u);
  }

  lemma LastNear(f: int, c: int, x: int, u: int, td: int, r: int, dig: int)
    requires Estimating(f, c, x, u, td, r) && 0 <= dig <= 116 && dig * c <= f * (td + 1)
    ensures (dig - 1) * x <= r
  {
    if dig >= 1 {
      var k := dig - 1;
      DividendBelow(f, c, x, u, td, r);
      ProductBelow(f, c, x, u, k);
      MulSub(dig, 1, c);
      MulAdd(td, 1, f);
      MulMono(k * c, f * td + f - c, u);
      MulAdd(f * td, f - c, u);
      MulMono(f - c, -792, u);
      if k * x > r {
        MulMono(r + 1, k * x, f);
        MulAdd(r, 1, f);
      }
    } else {
      MulNonNeg(td, u);
    }
  }

  // ---- Which divisors are safe ----

  /** Three digits are measured exactly. */
  lemma ShortIsSafe(divr: seq<int>)
    requires Digits(divr) && Normal(divr) && 0 < |divr| <= 3
    ensures Safe(divr)
  {
    Measure(divr);
    var n := |divr|;
    if n == 1 {
      assert Val(divr) == divr[0] && Pow100(1) == 100;
    } else if n == 2 {
      assert divr[..1][0] == divr[0] && Val(divr[..1]) == divr[0] && Pow100(2) == 10000;
    } else {
      assert divr[..2][..1] == divr[..1] && divr[..1][0] == divr[0] && divr[..2][1] == divr[1];
      assert Val(divr[..2][..1]) == divr[0] && Val(divr[..2]) == divr[0] + 100 * divr[1];
      assert Val(divr) == divr[0] + 100 * divr[1] + 10000 * divr[2] && Pow100(3) == 1000000;
    }
  }

  /** A divisor that is not safe: its first four digits are 1, 0, 12 and 99. */
  lemma UnsafeDivisor()
    ensures
      var v := [99, 12, 0, 1];
      Digits(v) && Normal(v) && Val(v) == 1001299 && !Safe(v)
  {
    var v := [99, 12, 0, 1];
    assert v[..3] == [99, 12, 0] && [99, 12, 0][..2] == [99, 12] && [99, 12][..1] == [99] && [99][..0] == [];
    assert Val([99]) == 99;
    assert Pow100(1) == 100 && Pow100(2) == 10000 && Pow100(3) == 1000000 && Pow100(4) == 100000000;
    assert Val([99, 12]) == 1299;
    assert Val([99, 12, 0]) == 1299;
  }
}
