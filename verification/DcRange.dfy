/** For which numbers of digits the square root can be relied on. */
module DcRange {
  import opened Arith
  import opened DcValue
  import opened DcAdd
  import opened DcEstimate
  import opened DcDiv
  import opened DcDivide
  import opened DcSqrt

  // ---- Iterates that are safe divisors ----

  /** A divisor whose top digit is ten or more, or a power of a hundred. */
  lemma BigTopIsSafe(y: nat, m: nat)
    requires m >= 1 && 10 * Pow100(m - 1) <= y <= Pow100(m)
    ensures SafeDivisor(y)
  {
    hide Val, Pow100, Safe, DigitsOf;
    var v := DigitsOf(y);
    DigitsOfNumber(y);
    DigitCount(y, v);
    Measure(v);
    NextPower(m - 1);
    if y < Pow100(m) {
      if |v| < m {
        Pow100Grows(|v|, m - 1);
      } else if |v| > m {
        Pow100Grows(m, |v| - 1);
      }
      TopAtLeast(v, 10);
    } else {
      PowerIsSafe(v, m);
    }
  }

  lemma PowerIsSafe(v: seq<int>, m: nat)
    requires Digits(v) && Normal(v) && v != [] && Val(v) == Pow100(m)
    requires Pow100(|v| - 1) <= Val(v) < Pow100(|v|)
    ensures Safe(v)
  {
    hide Val, Pow100, Safe;
    if |v| <= m {
      Pow100Grows(|v|, m);
    } else if |v| > m + 1 {
      Pow100Grows(m + 1, |v| - 1);
      NextPower(m);
    }
    assert Topped(v);
    TopThreeIs(v);
    DivModUnique(10000 * Pow100(m), Pow100(m), 10000, 0);
    Measure(v);
  }

  /** A divisor of up to three digits, or a million. */
  lemma SmallIsSafe(y: nat)
    requires 0 < y <= 1000000
    ensures SafeDivisor(y)
  {
    hide Val, Pow100, Safe, DigitsOf;
    var v := DigitsOf(y);
    DigitsOfNumber(y);
    DigitCount(y, v);
    Million();
    if y < 1000000 {
      if |v| > 3 {
        Pow100Grows(3, |v| - 1);
      }
      ShortIsSafe(v);
    } else {
      BigTopIsSafe(y, 3);
    }
  }

  lemma Million()
    ensures Pow100(3) == 1000000 && Pow100(2) == 10000
  {
    assert Pow100(1) == 100;
  }

  /** Where all numbers from a bound below the root up to the iterate are safe, nothing overflows. */
  lemma {:induction false} SafeRun(x: nat, r: nat, low: nat)
    requires x >= 1 && r >= 1 && x < (r + 1) * (r + 1) && low * low <= x
    requires forall y: nat :: low <= y <= r ==> SafeDivisor(y)
    ensures RunFits(x, r)
    decreases r
  {
    hide SafeDivisor, RunFits, DivisionFits;
    NotBelow(x, r, low);
    SafeFits(x, r);
    RunStep(x, r);
    var s := NextIterate(x, r);
    NewtonStep(x, r, x / r, s);
    StillPositive(x, s);
    if s < r {
      SafeRun(x, s, low);
    }
  }

  lemma NotBelow(x: nat, r: nat, low: nat)
    requires x < (r + 1) * (r + 1) && low * low <= x
    ensures low <= r
  {
    if low >= r + 1 {
      MulMono(r + 1, low, r + 1);
      MulMono(r + 1, low, low);
    }
  }

  lemma GuessIs(s: seq<int>, guess: int)
    requires Digits(s) && s != [] && Guess(s, guess)
    ensures
      var m := (|s| + 1) / 2;
      Pow100(m - 1) <= guess <= 100 * Pow100(m - 1) && Val(s) < guess * guess
  {
    hide Val, Pow100, TopPart;
    TopPartBounds(s);
    var n := (|s| + 1) / 2;
    var g :| g >= 1 && (g - 1) * (g - 1) <= TopPart(s) < g * g && guess == g * Pow100(n - 1);
    GuessBound(g, TopPart(s));
    MulMono(1, g, Pow100(n - 1));
    MulMono(g, 100, Pow100(n - 1));
    DigitsBound(s);
    GuessAbove(Val(s), TopPart(s), g, Pow100(n - 1));
  }

  lemma GuessExists(s: seq<int>) returns (guess: nat)
    requires Digits(s) && s != []
    ensures Guess(s, guess)
  {
    hide Pow100, TopPart, Val;
    TopPartBounds(s);
    var g := 1;
    while g * g <= TopPart(s)
      invariant 1 <= g <= 101 && (g - 1) * (g - 1) <= TopPart(s)
      decreases 101 - g
    {
      GuessBound(g + 1, TopPart(s));
      g := g + 1;
    }
    MulNonNeg(g, Pow100((|s| + 1) / 2 - 1));
    guess := g * Pow100((|s| + 1) / 2 - 1);
  }

  lemma EvenFits(s: seq<int>, guess: nat)
    requires Digits(s) && Normal(s) && s != [] && |s| % 2 == 0 && Guess(s, guess)
    ensures Val(s) >= 0 && RunFits(Val(s), guess)
  {
    hide Val, Pow100, Guess, RunFits, SafeDivisor;
    GuessIs(s, guess);
    NormalPositive(s);
    DigitsBound(s);
    var m := |s| / 2;
    assert (|s| + 1) / 2 == m;
    NextPower(m - 1);
    GuessMargin(Val(s), guess);
    var low := 10 * Pow100(m - 1);
    Pow100Adds(m - 1, m - 1);
    NextPower(|s| - 2);
    TenTimes(Pow100(m - 1));
    forall y: nat | low <= y <= guess ensures SafeDivisor(y) {
      BigTopIsSafe(y, m);
    }
    SafeRun(Val(s), guess, low);
  }

  lemma ShortFits(s: seq<int>, guess: nat)
    requires Digits(s) && Normal(s) && s != [] && |s| <= 5 && Guess(s, guess)
    ensures Val(s) >= 0 && RunFits(Val(s), guess)
  {
    hide Val, Pow100, Guess, RunFits, SafeDivisor;
    GuessIs(s, guess);
    NormalPositive(s);
    DigitsBound(s);
    var m := (|s| + 1) / 2;
    GuessMargin(Val(s), guess);
    Million();
    Pow100Grows(m - 1, 2);
    forall y: nat | 1 <= y <= guess ensures SafeDivisor(y) {
      SmallIsSafe(y);
    }
    SafeRun(Val(s), guess, 1);
  }

  /** An even number of digits, or up to five: every division is by a safe divisor. */
  lemma EvenOrShortFits(s: seq<int>)
    requires Digits(s) && Normal(s) && s != [] && (|s| % 2 == 0 || |s| <= 5)
    ensures RootFits(s)
  {
    hide Val, Pow100, Guess, RunFits, RootFits;
    var guess := GuessExists(s);
    if |s| % 2 == 0 {
      EvenFits(s, guess);
    } else {
      ShortFits(s, guess);
    }
    FitsFrom(s, guess);
  }

  lemma TenTimes(p: int)
    ensures (10 * p) * (10 * p) == 100 * (p * p)
  {
    MulAssoc(10, p, 10 * p);
    MulAssoc(p, 10, p);
    MulAssoc(10, p, p);
  }

  // ---- Inputs for which a digit overflows ----

  /** The run comes to the root and divides by it. */
  lemma {:induction false} RunReachesRoot(x: nat, r: nat, root: nat)
    requires x >= 1 && r >= 1 && x < (r + 1) * (r + 1) && RootOf(x, root) && RunFits(x, r)
    ensures DivisionFits(x, root)
    decreases r
  {
    hide RunFits, DivisionFits, RootOf;
    RunStep(x, r);
    var s := NextIterate(x, r);
    NewtonStep(x, r, x / r, s);
    StillPositive(x, s);
    if s >= r {
      OneRoot(x, r, root);
    } else {
      RunReachesRoot(x, s, root);
    }
  }

  lemma OneRoot(x: int, a: int, b: int)
    requires RootOf(x, a) && RootOf(x, b)
    ensures a == b
  {
    if a < b {
      MulMono(a + 1, b, a + 1);
      MulMono(a + 1, b, b);
    } else if b < a {
      MulMono(b + 1, a, b + 1);
      MulMono(b + 1, a, a);
    }
  }

  /** `o` digits 87 above a digit 99. */
  ghost function Tail(o: nat): nat {
    if o == 0 then 99 else 87 * Pow100(o) + Tail(o - 1)
  }

  /** Roots 2308799, 230878799, ... */
  ghost function BadRoot(k: nat): nat { Tail(k) + 230 * Pow100(k + 1) }

  ghost function BadSquare(k: nat): nat {
    MulMono(1, BadRoot(k), BadRoot(k) + 1);
    BadRoot(k) * (BadRoot(k) + 1) - 1
  }

  lemma {:induction false} TailBounds(o: nat)
    ensures Tail(o) < Pow100(o + 1)
    ensures o >= 1 ==> 8787 * Pow100(o) <= 100 * (Tail(o) + 1) <= 8800 * Pow100(o)
    ensures o >= 2 ==> 100 * (Tail(o) + 1) <= 8789 * Pow100(o)
  {
    hide Pow100;
    SmallPowers();
    NextPower(o);
    if o > 0 {
      NextPower(o - 1);
      TailBounds(o - 1);
    }
  }

  lemma SmallPowers()
    ensures Pow100(0) == 1 && Pow100(1) == 100
  {
  }

  lemma RootBounds(k: nat)
    requires k >= 1
    ensures 2308787 * Pow100(k) <= 100 * (BadRoot(k) + 1) <= 2308800 * Pow100(k) && Pow100(k) >= 100
    ensures BadRoot(k) == 23087 * Pow100(k) + Tail(k - 1) && Tail(k - 1) < Pow100(k)
  {
    hide Pow100, Tail;
    TailBounds(k);
    TailBounds(k - 1);
    TailStep(k);
    NextPower(k);
    NextPower(k - 1);
    PowersPositive(k - 1);
  }

  lemma PowersPositive(n: nat)
    ensures Pow100(n) >= 1
  {
  }

  lemma TailStep(o: nat)
    requires o > 0
    ensures Tail(o) == 87 * Pow100(o) + Tail(o - 1)
  {
  }

  lemma TenThousandths(e: int, u: int)
    requires u > 0
    ensures 10000 * e / (10000 * u) == e / u
  {
    DivModBasics(e, u);
    MulAssoc(e / u, 10000, u);
    MulAssoc(10000, e / u, u);
    DivModUnique(10000 * e, 10000 * u, e / u, 10000 * (e % u));
  }

  /** The root as a divisor. */
  ghost predicate BadDivisor(k: nat, v: seq<int>) {
    && k >= 1 && Divisor(v) && |v| == k + 3 && Leading(v) == 1846 && Factor(v) == 8 && Val(v) == BadRoot(k)
    && v == DigitsOf(BadRoot(k))
  }

  lemma RootIsBad(k: nat, v: seq<int>)
    requires k >= 1 && v == DigitsOf(BadRoot(k))
    ensures BadDivisor(k, v)
  {
    hide Val, Pow100, DigitsOf, Tail, BadRoot;
    var r, p := BadRoot(k), Pow100(k);
    RootBounds(k);
    DigitsOfNumber(r);
    DigitCount(r, v);
    NextPower(k);
    NextPower(k + 1);
    NextPower(k + 2);
    if |v| < k + 3 {
      Pow100Grows(|v|, k + 2);
    } else if |v| > k + 3 {
      Pow100Grows(k + 3, |v| - 1);
    }
    assert Topped(v);
    TopThreeIs(v);
    DivModUnique(r, p, 23087, Tail(k - 1));
    TenThousandths(r, p);
    TopThreeTop(v);
  }

  lemma TopThreeTop(v: seq<int>)
    requires Digits(v) && v != [] && TopThree(v) == 23087
    ensures Leading(v) == 1846 && Factor(v) == 8
  {
  }

  /** What is left to divide: `a` times the root, less one. */
  ghost function LeftAt(k: nat, a: int): int { a * BadRoot(k) - 1 }

  lemma LeadingDigits(q: int, ar: int, lo: int, hi: int, tl: int, th: int)
    requires q >= 100 && lo * 2308786 * q <= 10000 * ar <= hi * 2308800 * q
    requires lo * 2308786 - tl * 1000000 >= 100 && hi * 2308800 <= (th + 1) * 1000000
    ensures tl <= 10000 * (ar - 1) / (1000000 * q) <= th
  {
    var u, e := 1000000 * q, 10000 * (ar - 1);
    DivModBasics(e, u);
    assert tl * u <= e by {
      MulMono(tl * 1000000 + 100, lo * 2308786, q);
      MulAdd(tl * 1000000, 100, q);
      MulAssoc(tl, 1000000, q);
    }
    assert e < (th + 1) * u by {
      MulMono(hi * 2308800, (th + 1) * 1000000, q);
      MulAssoc(th + 1, 1000000, q);
    }
    QuotientBetween(e, u, tl, th);
  }

  lemma QuotientBetween(e: int, u: int, tl: int, th: int)
    requires u > 0 && tl * u <= e < (th + 1) * u
    ensures tl <= e / u <= th
  {
    DivModBasics(e, u);
    if e / u < tl {
      MulMono(e / u + 1, tl, u);
      MulAdd(e / u, 1, u);
    } else if e / u > th {
      MulMono(th + 1, e / u, u);
    }
  }

  lemma ProductBounds(k: nat, o: nat, a: int, lo: int, hi: int)
    requires k >= 1 && a >= 0 && 0 <= lo && lo * Pow100(o) <= 100 * a <= hi * Pow100(o)
    ensures
      var q := Pow100(o) * Pow100(k);
      q >= 100 && lo * 2308786 * q <= 10000 * (a * BadRoot(k)) <= hi * 2308800 * q
  {
    hide Pow100, BadRoot;
    RootBounds(k);
    PowersPositive(o);
    var p, s, r := Pow100(o), Pow100(k), BadRoot(k);
    var q := p * s;
    MulMono(1, p, s);
    assert 10000 * (a * r) == (100 * a) * (100 * r) by {
      MulAssoc(100, a, 100 * r);
      MulAssoc(a, 100, r);
      MulAssoc(100, a, r);
    }
    assert lo * 2308786 * q <= (100 * a) * (100 * r) by {
      MulBoth(lo * p, 2308786 * s, 100 * a, 100 * r);
      Regroup(lo, p, 2308786, s);
    }
    assert (100 * a) * (100 * r) <= hi * 2308800 * q by {
      MulNonNeg(2308800, s);
      MulBoth(100 * a, 100 * r, hi * p, 2308800 * s);
      Regroup(hi, p, 2308800, s);
    }
  }

  lemma MulBoth(a: int, b: int, c: int, d: int)
    requires 0 <= a <= c && 0 <= b <= d
    ensures a * b <= c * d
  {
    MulMono(a, c, b);
    MulMono(b, d, c);
  }

  lemma Regroup(a: int, p: int, b: int, s: int)
    ensures (a * p) * (b * s) == a * b * (p * s)
  {
    MulAssoc(a, p, b * s);
    MulAssoc(p, b, s);
    MulAssoc(b, p, s);
    MulAssoc(a, b, p * s);
  }

  /** The digit estimated for it, from its leading digits. */
  lemma DigitIs(k: nat, v: seq<int>, o: nat, a: int, lo: int, hi: int, tl: int, th: int, dig: int)
    requires BadDivisor(k, v) && a >= 0 && 0 <= lo && lo * Pow100(o) <= 100 * a <= hi * Pow100(o)
    requires lo * 2308786 - tl * 1000000 >= 100 && hi * 2308800 <= (th + 1) * 1000000
    requires dig * 1847 <= 8 * tl && 8 * th < (dig + 1) * 1847
    ensures DigitAt(v, LeftAt(k, a), o) == dig
  {
    hide Pow100, Val, Leading, Factor, BadRoot, DigitsOf;
    ProductBounds(k, o, a, lo, hi);
    LeadingDigits(Pow100(o) * Pow100(k), a * BadRoot(k), lo, hi, tl, th);
    PlaceOf(k, o);
    var td := 10000 * LeftAt(k, a) / Pow100(o + |v|);
    DivModUnique(8 * td, 1847, dig, 8 * td - dig * 1847);
  }

  lemma PlaceOf(k: nat, o: nat)
    ensures Pow100(o + (k + 3)) == 1000000 * (Pow100(o) * Pow100(k))
  {
    Pow100Adds(o, k);
    hide Pow100;
    NextPower(o + k);
    NextPower(o + k + 1);
    NextPower(o + k + 2);
  }

  /** Taking a digit of the root away takes it off the multiple. */
  lemma LeftAfter(k: nat, v: seq<int>, o: nat, a: int, dig: int)
    requires Val(v) == BadRoot(k)
    ensures LeftAt(k, a) - dig * Shifted(v, o) == LeftAt(k, a - dig * Pow100(o))
  {
    hide Val, Pow100, BadRoot;
    MulAssoc(dig, Pow100(o), BadRoot(k));
    MulSub(a, dig * Pow100(o), BadRoot(k));
  }

  /** Below 2 and 30 the digits 87 come out right, except the last but one, for which 88 is estimated. */
  lemma TailDigit(k: nat, v: seq<int>, o: nat)
    requires BadDivisor(k, v) && 1 <= o <= k
    ensures
      var e := LeftAt(k, Tail(o) + 1);
      if o == 1 then DigitAt(v, e, o) == 88 && e - 88 * Shifted(v, o) == -1
      else DigitAt(v, e, o) == 87 && e - 87 * Shifted(v, o) == LeftAt(k, Tail(o - 1) + 1)
  {
    hide Pow100, Val, Leading, Factor, DigitAt, Shifted, DigitsOf;
    TailBounds(o);
    SmallPowers();
    if o == 1 {
      DigitIs(k, v, o, Tail(o) + 1, 8800, 8800, 20317, 20317, 88);
      LeftAfter(k, v, o, Tail(o) + 1, 88);
    } else {
      DigitIs(k, v, o, Tail(o) + 1, 8787, 8789, 20287, 20292, 87);
      LeftAfter(k, v, o, Tail(o) + 1, 87);
    }
  }

  lemma FirstDigitIs(k: nat, v: seq<int>)
    requires BadDivisor(k, v)
    ensures
      var x := BadSquare(k);
      DigitAt(v, x, k + 2) == 2 && x - 2 * Shifted(v, k + 2) == LeftAt(k, Tail(k) + 1 + 30 * Pow100(k + 1))
  {
    hide Pow100, Val, Leading, Factor, DigitAt, Shifted, Tail, DigitsOf;
    RootBounds(k);
    NextPower(k);
    NextPower(k + 1);
    var a := BadRoot(k) + 1;
    assert LeftAt(k, a) == BadSquare(k);
    hide BadRoot, BadSquare, LeftAt;
    DigitIs(k, v, k + 2, a, 230, 231, 531, 533, 2);
    LeftAfter(k, v, k + 2, a, 2);
    RootDigits(k);
  }

  lemma RootDigits(k: nat)
    ensures BadRoot(k) + 1 - 2 * Pow100(k + 2) == Tail(k) + 1 + 30 * Pow100(k + 1)
  {
    hide Pow100, Tail;
    NextPower(k + 1);
  }

  lemma SecondDigitIs(k: nat, v: seq<int>)
    requires BadDivisor(k, v)
    ensures
      var y := LeftAt(k, Tail(k) + 1 + 30 * Pow100(k + 1));
      DigitAt(v, y, k + 1) == 30 && y - 30 * Shifted(v, k + 1) == LeftAt(k, Tail(k) + 1)
  {
    hide Pow100, Val, Leading, Factor, DigitAt, Shifted, Tail, DigitsOf, BadRoot, LeftAt;
    TailBounds(k);
    NextPower(k);
    var b := Tail(k) + 1 + 30 * Pow100(k + 1);
    DigitIs(k, v, k + 1, b, 3087, 3088, 7127, 7129, 30);
    LeftAfter(k, v, k + 1, b, 30);
  }
}
