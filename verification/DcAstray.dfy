/** What becomes of a square root when a digit has overflowed: the division goes on with the characters
    as they were stored. */
module DcAstray {
  import opened Arith
  import opened DcValue
  import opened DcBlk
  import opened DcAdd
  import opened DcEstimate
  import opened DcDiv
  import opened DcDivide
  import opened DcSqrt
  import opened DcRange

  // ---- One step down ----

  /** After a digit that was not too large the division goes on below it. */
  lemma StepDown(v: seq<int>, dd: int, e: seq<int>, q: seq<int>, o: nat, dig: int) returns (f: seq<int>)
    requires Divisor(v) && Dividing(v, dd, e, q, o) && o > 0 && |e| == o + |v| + 1 && Leading(v) > 0
    requires dig == DigitAt(v, Val(e), o) && Val(e) - dig * Shifted(v, o) >= 0
    ensures |f| == o + |v| && Dividing(v, dd, f, [dig] + q, o - 1) && Val(f) == Val(e) - dig * Shifted(v, o)
    ensures 0 <= dig <= 116 && Righted(LongDivide(v, e, o)) == Righted(LongDivide(v, f, o - 1)) + [dig]
  {
    hide Val, Pow100, Digits, Normal, Dividing, Divided, Leading, Taken, Stepped, Shifted, DigitAt, Times, Folded,
        Estimate;
    var left := Taken(v, e, o);
    var e' := e[..o] + left.data;
    TakenIsStep(v, e, o);
    ProperStep(v, dd, e, q, o, Estimate(v, e, o), Times(v, Estimate(v, e, o), 0), e', left.d, left.carry);
    FoldedIs(e', left.d, Lowered(e', left.d));
    f := Folded(e');
    FoldedSize(e');
    RightedBelow(LongDivide(v, f, o - 1), dig, LongDivide(v, e, o));
  }

  lemma RightedBelow(rest: Long, dig: int, r: Long)
    requires rest.q != [] && 0 <= dig <= 116 && r.q == rest.q + [SChar(dig)] && r.dig == rest.dig
        && r.carry == rest.carry
    ensures Righted(r) == Righted(rest) + [dig]
  {
    if rest.carry != 0 {
      assert (rest.q + [dig])[0 := SChar(rest.dig - 1)] == rest.q[0 := SChar(rest.dig - 1)] + [dig];
    }
  }

  /** A digit that was too large leaves the complement of what is missing, and the fold overflows. */
  lemma StepOver(v: seq<int>, dd: int, e: seq<int>, q: seq<int>, o: nat, dig: int) returns (f: seq<int>)
    requires Divisor(v) && Dividing(v, dd, e, q, o) && o > 0 && |e| == o + |v| + 1 && Leading(v) > 0
    requires dig == DigitAt(v, Val(e), o) && Val(e) - dig * Shifted(v, o) < 0
    ensures |f| == |e| && Digits(f) && Val(f) == Pow100(|e|) + Val(e) - dig * Shifted(v, o)
    ensures f[|e| - 1] == 99 && f[|e| - 2] == 99
    ensures 0 <= dig <= 116
    ensures Righted(LongDivide(v, e, o)) == Righted(LongDivide(v, f[..|e| - 2] + [-57], o - 1)) + [dig]
  {
    hide Val, Pow100, Digits, Normal, Product, Dividing, Leading, Taken, Stepped, Shifted, DigitAt, Times, Estimate,
        TopThree, Subtractable;
    var left := Taken(v, e, o);
    f := e[..o] + left.data;
    var x := Times(v, Estimate(v, e, o), 0);
    TakenIsStep(v, e, o);
    ProperStep(v, dd, e, q, o, Estimate(v, e, o), x, f, left.d, left.carry);
    StepParts(v, dd, e, q, o, dig, x, f, left.d, left.carry);
    Subtracted(v, dig, e, x, f, o, left.carry);
    var under := Val(e) - dig * Shifted(v, o);
    NegativeCarries(f, left.carry, under);
    EstimateBelow(v, dd, e, q, o, dig);
    TooLargeSprings(f, left.carry, under);
    TopOfComplement(f, under);
    LoweredOver(f);
    RightedBelow(LongDivide(v, f[..|e| - 2] + [-57], o - 1), dig, LongDivide(v, e, o));
  }

  lemma StepParts(v: seq<int>, dd: int, e: seq<int>, q: seq<int>, o: nat, dig: int, x: seq<int>, f: seq<int>, d: int,
                  carry: int)
    requires Dividing(v, dd, e, q, o) && Stepped(v, e, o, dig, x, f, d, carry) && 0 <= dig <= 116
    ensures |f| == |e| == o + |v| + 1 && Product(v, dig, x) && Subtracting(e, x, o, f, |e| - o, carry)
        && d == f[|e| - 1]
    ensures Digits(f[..|e| - 1]) && (carry == 1 ==> f[|e| - 1] < 100) && 0 <= carry <= 1
        && (carry == 0 ==> f[|e| - 1] >= 0)
  {
    hide Product, Subtractable, Val, Pow100;
    CanSubtract(v, dig, e, x, o);
  }

  lemma EstimateBelow(v: seq<int>, dd: int, e: seq<int>, q: seq<int>, o: nat, dig: int)
    requires Divisor(v) && Dividing(v, dd, e, q, o) && o > 0 && dig == Estimate(v, e, o) && Leading(v) > 0
    ensures 10000 * (Val(e) - dig * Shifted(v, o)) >= -5 * Pow100(o + |v|)
  {
    hide Val, Pow100, TopThree, Leading, Factor, Shifted;
    TopThreeBounds(e);
    EstimateNonNeg(v, e, o);
    EstimateGives(v, dd, e, q, o, dig);
  }

  lemma TopOfComplement(f: seq<int>, under: int)
    requires |f| >= 2 && Digits(f[..|f| - 1]) && f[|f| - 1] < 100 && f[|f| - 2] + 100 > SCHAR_MAX
    requires Val(f) - Pow100(|f|) == under < 0 && 10000 * under >= -5 * Pow100(|f| - 1)
    ensures Digits(f) && f[|f| - 1] == 99 && f[|f| - 2] == 99
  {
    hide Val, Pow100;
    var n := |f| - 1;
    NextPower(n);
    TopAtLeast(f, 99);
    AllDigits(f);
    var t := f[..n];
    NextPower(n - 1);
    ValStep(f, n);
    assert f[..n + 1] == f && t[..n - 1] == f[..n][..n - 1];
    assert Digits(t[..n - 1]);
    TopAtLeast(t, 99);
  }

  lemma LoweredOver(f: seq<int>)
    requires |f| >= 2 && f[|f| - 1] == 99 && f[|f| - 2] == 99
    ensures Lowered(f, 99) == f[..|f| - 2] + [-57]
  {
    assert SChar(199) == -57;
  }

  // ---- Negative digits ----

  lemma NegativeStep(v: seq<int>, g: int, c: int, t: int)
    requires v != [] && Digits(v) && g >= 0 && c >= 0 && t >= 0 && g * Val(v) + c < (t + 1) * Pow100(|v|)
    ensures
      var n := g * v[0] + c;
      n >= 0 && g * Val(v[1..]) + n / 100 < (t + 1) * Pow100(|v| - 1)
  {
    hide Val, Pow100;
    var rest := v[1..];
    assert v == [v[0]] + rest;
    ValCons(v[0], rest);
    NextPower(|rest|);
    MulNonNeg(g, v[0]);
    assert g * Val(v) == g * v[0] + 100 * (g * Val(rest)) by {
      MulAdd(v[0], 100 * Val(rest), g);
      MulAssoc(g, 100, Val(rest));
      MulAssoc(100, g, Val(rest));
    }
    assert (t + 1) * Pow100(|v|) == 100 * ((t + 1) * Pow100(|rest|)) by {
      MulAssoc(t + 1, 100, Pow100(|rest|));
      MulAssoc(100, t + 1, Pow100(|rest|));
    }
  }

  lemma NegativeChar(n: int)
    requires n >= 0
    ensures CDiv(0 - n, 100) == 0 - n / 100 && -99 <= SChar(CMod(0 - n, 100)) <= 0
  {
  }

  /** Multiplying by a negative number leaves characters that are not positive. */
  lemma {:induction false} NegativeTimes(v: seq<int>, g: int, c: int, t: int)
    requires Digits(v) && g >= 0 && c >= 0 && 0 <= t <= 127 && g * Val(v) + c < (t + 1) * Pow100(|v|)
    ensures
      var x := Times(v, 0 - g, 0 - c);
      (forall i :: 0 <= i < |v| ==> -99 <= x[i] <= 0) && 0 - t <= x[|v|] <= 0
  {
    if v == [] {
      ValOfNothing();
      FirstPower();
    } else {
      hide Val, Pow100;
      NegativeStep(v, g, c, t);
      var n := g * v[0] + c;
      assert v[0] * (0 - g) + (0 - c) == 0 - n;
      hide CDiv, CMod, SChar;
      NegativeChar(n);
      NegativeTimes(v[1..], g, n / 100, t);
    }
  }

  /** Subtracting it borrows nothing before the top character, and one there if that is not enough. */
  lemma {:induction false} TopBorrows(e: seq<int>, x: seq<int>, d: int, carry: int)
    requires |e| == |x| >= 1 && 0 <= carry <= 1 && (|e| == 1 ==> carry == 0)
    requires forall i :: 0 <= i < |e| - 1 ==> e[i] - x[i] >= 1
    requires e[|e| - 1] - x[|e| - 1] < 0
    ensures Minus(e, x, d, carry).carry == 1
  {
    var n := e[0] - x[0] - carry;
    if |e| > 1 {
      TopBorrows(e[1..], x[1..], n, 0);
    }
  }

  // ---- A root that is not found ----

  lemma {:induction false} AllNines(f: seq<int>)
    requires Digits(f) && Val(f) == Pow100(|f|) - 1
    ensures forall i :: 0 <= i < |f| ==> f[i] == 99
    decreases |f|
  {
    hide Val, Pow100;
    if f != [] {
      var n := |f| - 1;
      var t := f[..n];
      NextPower(n);
      PowersPositive(n);
      TopAtLeast(f, 99);
      ValStep(f, n);
      assert f[..n + 1] == f;
      AllNines(t);
      forall i | 0 <= i < |f| ensures f[i] == 99 {
        if i < n {
          assert f[i] == t[i];
        }
      }
    }
  }

  lemma NinesEstimate(v: seq<int>, e: seq<int>)
    requires v != [] && Leading(v) == 1846 && Factor(v) == 8
    requires |e| >= 3 && e[|e| - 1] == -57 && e[|e| - 2] == e[|e| - 3] == 99
    ensures Estimate(v, e, 0) == -2426
  {
    hide Leading, Factor;
    assert TopThree(e) + 1 == -560000;
    assert CDiv(-4480000, 1846) == -2426;
  }

  /** From there the last digit is estimated as -2426; stored in a signed char, and one less, it is -123. */
  lemma LastAstray(k: nat, v: seq<int>, e: seq<int>)
    requires BadDivisor(k, v) && |e| == |v| + 1 && e[|v|] == -57 && forall i :: 0 <= i < |v| ==> e[i] == 99
    ensures Righted(LongDivide(v, e, 0)) == [-123]
  {
    hide Val, Pow100, Leading, Factor, Times, Minus, BadRoot, Tail, Estimate, Digits, DigitsOf;
    NinesEstimate(v, e);
    RootBounds(k);
    NextPower(k);
    NextPower(k + 1);
    NextPower(k + 2);
    NegativeTimes(v, 2426, 0, 56);
    var x := Times(v, -2426, 0);
    assert e[0..] == e;
    TopBorrows(e, x, 0, 0);
    assert SChar(-2427) == -123;
  }

  /** The quotient's characters below the digits 2 and 30: they fall short by 122. */
  lemma {:induction false} TailQuotient(k: nat, v: seq<int>, dd: int, e: seq<int>, q: seq<int>, o: nat)
    requires BadDivisor(k, v) && 1 <= o <= k
    requires Dividing(v, dd, e, q, o) && |e| == o + |v| + 1 && Val(e) == LeftAt(k, Tail(o) + 1)
    ensures
      var r := Righted(LongDivide(v, e, o));
      && |r| == o + 1 && r[0] == -123 && (forall i :: 1 <= i < |r| ==> 0 <= r[i] < 100)
      && Val(r) == Tail(o) - 122
    decreases o
  {
    hide Val, Pow100, Leading, Factor, DigitAt, Shifted, Dividing, Divisor, Tail, LongDivide, Righted, LeftAt, DigitsOf;
    TailDigit(k, v, o);
    TailStep(o);
    if o == 1 {
      var f := StepOver(v, dd, e, q, o, 88);
      AllNines(f);
      LastAstray(k, v, f[..|e| - 2] + [-57]);
      ShortTail();
      ValOfTwo(-123, 88);
    } else {
      LeftNonNeg(k, Tail(o - 1) + 1);
      var f := StepDown(v, dd, e, q, o, 87);
      TailQuotient(k, v, dd, f, [87] + q, o - 1);
      ValSnoc(Righted(LongDivide(v, f, o - 1)), 87);
    }
  }

  lemma ShortTail()
    ensures Tail(1) == 8799
  {
    assert Tail(0) == 99 && Pow100(1) == 100 * Pow100(0) == 100;
  }

  lemma ValOfTwo(a: int, b: int)
    ensures Val([a] + [b]) == a + 100 * b
  {
    SmallPowers();
    ValSnoc([a], b);
    ValSnoc([], a);
    assert [] + [a] == [a];
    ValOfNothing();
  }

  lemma {:induction false} NothingCarried(q: seq<int>)
    requires forall i :: 0 <= i < |q| ==> -128 <= q[i] < 100
    ensures Carried(q, 0) == q
  {
    if q != [] {
      NothingCarried(q[1..]);
      assert q == [q[0]] + q[1..];
    }
  }

  lemma NothingDropped(q: seq<int>)
    requires q != [] && q[|q| - 1] != 0
    ensures NoZeros(q) == q
  {
  }

  /** The quotient that comes out, instead of the root: its last character is -123. */
  lemma BadQuotient(k: nat, v: seq<int>, s: seq<int>)
    requires BadDivisor(k, v) && Digits(s) && |s| == 2 * k + 5 && Val(s) == BadSquare(k)
    ensures
      var q := QuotientChars(s, v);
      |q| == |v| && q[0] == -123 && (forall i :: 1 <= i < |q| ==> 0 <= q[i] < 100) && Val(q) == BadRoot(k) - 122
  {
    hide Val, Pow100, Leading, Factor, DigitAt, Shifted, Dividing, Divisor, Tail, LongDivide, Righted, LeftAt, Carried,
        NoZeros, DigitsOf;
    var x := BadSquare(k);
    BeginDividing(v, s, k + 2);
    FirstDigitIs(k, v);
    SecondDigitIs(k, v);
    LeftNonNeg(k, Tail(k) + 1);
    LeftNonNeg(k, Tail(k) + 1 + 30 * Pow100(k + 1));
    PowersPositive(k + 1);
    var e := StepDown(v, x, s + [0], [], k + 2, 2);
    var f := StepDown(v, x, e, [2] + [], k + 1, 30);
    TailQuotient(k, v, x, f, [30] + ([2] + []), k);
    var r := Righted(LongDivide(v, f, k));
    ValSnoc(r, 30);
    ValSnoc(r + [30], 2);
    NextPower(k + 1);
    NothingCarried(r + [30] + [2]);
    NothingDropped(r + [30] + [2]);
  }

  lemma LeftNonNeg(k: nat, a: int)
    requires k >= 1 && a >= 1
    ensures LeftAt(k, a) >= 0
  {
    hide Tail, Pow100;
    RootBounds(k);
    MulMono(1, a, BadRoot(k));
  }

  lemma {:induction false} TailEnds(o: nat)
    ensures Tail(o) % 100 == 99
  {
    if o > 0 {
      TailEnds(o - 1);
      assert Pow100(o) == 100 * Pow100(o - 1);
    }
  }

  lemma BadLowDigit(k: nat, v: seq<int>)
    requires BadDivisor(k, v)
    ensures v[0] == 99
  {
    TailEnds(k);
    assert Pow100(k + 1) == 100 * Pow100(k);
    assert BadRoot(k) % 100 == 99;
  }

  lemma BadSquareSize(k: nat, s: seq<int>)
    requires s == DigitsOf(BadSquare(k)) && k >= 1
    ensures Digits(s) && Normal(s) && Val(s) == BadSquare(k) && |s| == 2 * k + 5
    ensures RootOf(BadSquare(k), BadRoot(k)) && BadSquare(k) >= 1
  {
    hide Val, Pow100, DigitsOf, BadRoot;
    var x, r, p := BadSquare(k), BadRoot(k), Pow100(k);
    DigitsOfNumber(x);
    RootBounds(k);
    NextPower(k);
    NextPower(k + 1);
    NextPower(2 * k + 4);
    Pow100Adds(k + 2, k + 2);
    SquareSize(r, Pow100(k + 2));
    DigitCount(x, s);
    if |s| < 2 * k + 5 {
      Pow100Grows(|s|, 2 * k + 4);
    } else if |s| > 2 * k + 5 {
      Pow100Grows(2 * k + 5, |s| - 1);
    }
    MulAdd(r, 1, r);
    MulAdd(r, 1, r + 1);
  }

  lemma SquareSize(r: int, p: int)
    requires 2 * p <= r < 3 * p
    ensures p * p <= r * (r + 1) - 1 < 100 * (p * p) && r * (r + 1) - 1 >= 1
  {
    MulBoth(2 * p, 2 * p, r, r + 1);
    MulBoth(r, r + 1, 3 * p, 3 * p);
    MulMono(1, p, p);
    Regroup(2, p, 2, p);
    Regroup(3, p, 3, p);
  }

  /** So the iterate after the root is 61 less, and the method goes on. */
  lemma BadHalfway(k: nat)
    requires k >= 1
    ensures BadRoot(k) >= 61 && Halfway(BadSquare(k), BadRoot(k)) == Next(BadRoot(k) - 61)
  {
    hide Val, Pow100, DigitsOf, BadRoot, BadSquare, QuotientChars;
    var s, v := DigitsOf(BadSquare(k)), DigitsOf(BadRoot(k));
    RootIsBad(k, v);
    BadSquareSize(k, s);
    BadQuotient(k, v, s);
    BadLowDigit(k, v);
    RootBounds(k);
    assert Addable(QuotientChars(s, v), v);
  }

  /** What is returned is an iterate that the next one does not fall below. */
  lemma {:induction false} ReturnedStops(x: nat, r: nat)
    ensures
      var s := Returned(x, r);
      s.Next? ==> s.value > 0 && Halfway(x, s.value).Next? && Halfway(x, s.value).value >= s.value
    decreases r
  {
    hide Halfway;
    if r > 0 {
      ReturnedStep(x, r);
      var h := Halfway(x, r);
      if h.Next? && h.value < r {
        ReturnedStops(x, h.value);
      }
    }
  }

  /** The root is not returned, whatever overflows on the way to it. */
  lemma RootNotGiven(k: nat, s: seq<int>)
    requires k >= 1 && s == DigitsOf(BadSquare(k))
    ensures s != [] && !Gives(s, BadRoot(k))
  {
    hide Val, Pow100, DigitsOf, BadRoot, BadSquare, Halfway, Returned, Guess;
    BadSquareSize(k, s);
    BadHalfway(k);
    if Gives(s, BadRoot(k)) {
      var guess: nat :| Guess(s, guess) && Returned(Abs(Val(s)), guess) == Next(BadRoot(k));
      ReturnedStops(BadSquare(k), guess);
      assert false;
    }
  }

  // ---- Which numbers of digits can be relied on ----

  /** The square root routine returns the root. */
  ghost predicate FindsRoot(s: seq<int>)
    requires s != []
  {
    exists r {:trigger RootOf(Val(s), r)} :: RootOf(Val(s), r) && Gives(s, r)
  }

  /** Without overflow it does. */
  lemma FitsFinds(s: seq<int>)
    requires Digits(s) && Normal(s) && s != [] && RootFits(s)
    ensures FindsRoot(s)
  {
    hide Val, Pow100, Guess, RunFits, Returned, RootOf, Gives;
    var guess: nat :| Guess(s, guess) && RunFits(Abs(Val(s)), guess);
    GuessIs(s, guess);
    NormalPositive(s);
    DigitsBound(s);
    PowersPositive(|s| - 1);
    PowersPositive((|s| + 1) / 2 - 1);
    GuessMargin(Val(s), guess);
    FittingRun(Val(s), guess);
    GivesFrom(s, guess);
    var r := Returned(Val(s), guess).value;
    assert RootOf(Val(s), r) && Gives(s, r);
  }

  lemma RootNotFound(k: nat)
    requires k >= 1
    ensures var s := DigitsOf(BadSquare(k)); Digits(s) && Normal(s) && |s| == 2 * k + 5 && !FindsRoot(s) && !RootFits(s)
  {
    hide Val, Pow100, DigitsOf, BadRoot, BadSquare, RootOf, Gives, RootFits;
    var s := DigitsOf(BadSquare(k));
    BadSquareSize(k, s);
    RootNotGiven(k, s);
    if FindsRoot(s) {
      var r :| RootOf(Val(s), r) && Gives(s, r);
      OneRoot(BadSquare(k), r, BadRoot(k));
      assert false;
    }
    if RootFits(s) {
      FitsFinds(s);
    }
  }

  /** The square root routine returns the root of every number of `n` digits if and only if `n` is even or
      at most five. */
  lemma DigitCountDecides(n: nat)
    requires n >= 1
    ensures (forall s: seq<int> {:trigger FindsRoot(s)} :: Digits(s) && Normal(s) && |s| == n ==> FindsRoot(s))
       <==> n % 2 == 0 || n <= 5
  {
    hide Digits, Normal, FindsRoot, DigitsOf;
    if n % 2 == 0 || n <= 5 {
      forall s: seq<int> {:trigger FindsRoot(s)} | Digits(s) && Normal(s) && |s| == n ensures FindsRoot(s) {
        EvenOrShortFits(s);
        FitsFinds(s);
      }
    } else {
      RootNotFound((n - 5) / 2);
    }
  }

  // ---- Examples ----

  lemma DigitsAre(x: nat, d: seq<int>)
    requires Digits(d) && Normal(d) && Val(d) == x
    ensures DigitsOf(x) == d
  {
    hide Val, Pow100, DigitsOf;
    DigitCount(x, d);
  }

  lemma SevenDigits(a: int, b: int, c: int, d: int, e: int, f: int, g: int)
    ensures
      Val([a, b, c, d, e, f, g])
      == a + 100 * (b + 100 * (c + 100 * (d + 100 * (e + 100 * (f + 100 * g)))))
  {
    hide Val, Pow100;
    FourDigits(d, e, f, g);
    ValCons(c, [d, e, f, g]);
    ValCons(b, [c, d, e, f, g]);
    ValCons(a, [b, c, d, e, f, g]);
    assert [c] + [d, e, f, g] == [c, d, e, f, g] && [b] + [c, d, e, f, g] == [b, c, d, e, f, g];
    assert [a] + [b, c, d, e, f, g] == [a, b, c, d, e, f, g];
  }

  lemma FourDigits(a: int, b: int, c: int, d: int)
    ensures Val([a, b, c, d]) == a + 100 * (b + 100 * (c + 100 * d))
  {
    hide Val, Pow100;
    ValOfTwo(c, d);
    ValCons(b, [c, d]);
    ValCons(a, [b, c, d]);
    assert [c] + [d] == [c, d] && [b] + [c, d] == [b, c, d] && [a] + [b, c, d] == [a, b, c, d];
  }

  /** The test on a divisor of four digits. */
  lemma SafeHere(y: nat, a: int, b: int, c: int, d: int)
    requires 0 <= a < 100 && 0 <= b < 100 && 0 <= c < 100 && 0 < d < 10 && y == a + 100 * (b + 100 * (c + 100 * d))
    requires 80000 * y <= (((d * 100 + c) * 100 + b) * 2 / 25 + 1) * 100000000
    ensures SafeDivisor(y)
  {
    var v := [a, b, c, d];
    FourDigits(a, b, c, d);
    Million();
    NextPower(3);
    hide Val, Pow100, DigitsOf;
    DigitsAre(y, v);
  }

  lemma RunOn(x: nat, r: nat, s: nat)
    requires x >= 1 && r >= 1 && SafeDivisor(r) && s == NextIterate(x, r)
    ensures s >= 1 && Returned(x, r) == if s >= r then Next(r) else Returned(x, s)
  {
    hide SafeDivisor, DivisionFits, Returned, Halfway;
    SafeFits(x, r);
    HalfwayRight(x, r);
    ReturnedStep(x, r);
  }

  lemma GuessOf(s: seq<int>, g: nat)
    requires |s| == 7 && g >= 1 && (g - 1) * (g - 1) <= s[6] < g * g
    ensures Guess(s, g * 1000000)
  {
    hide Pow100;
    Million();
    assert TopPart(s) == s[6];
    assert g * 1000000 == g * Pow100((|s| + 1) / 2 - 1);
  }

  /** The root of 5330555131199 is 2308799, and 2308738 is returned. */
  lemma WrongExample()
    ensures RootOf(5330555131199, 2308799)
    ensures var s := DigitsOf(5330555131199); |s| == 7 && Gives(s, 2308738)
  {
    hide Val, Pow100, DigitsOf, SafeDivisor, Returned, Halfway, Gives;
    var x := 5330555131199;
    var s := [99, 11, 13, 55, 5, 33, 5];
    SevenDigits(99, 11, 13, 55, 5, 33, 5);
    DigitsAre(x, s);
    GuessOf(s, 3);
    GivesFrom(s, 3000000);
    SafeHere(3000000, 0, 0, 0, 3);
    RunOn(x, 3000000, 2388425);
    SafeHere(2388425, 25, 84, 38, 2);
    RunOn(x, 2388425, 2310126);
    SafeHere(2310126, 26, 1, 31, 2);
    RunOn(x, 2310126, 2308799);
    FirstBad();
    BadHalfway(1);
    ReturnedStep(x, 2308799);
    SafeHere(2308738, 38, 87, 30, 2);
    RunOn(x, 2308738, 2308799);
  }

  lemma FirstBad()
    ensures BadRoot(1) == 2308799 && BadSquare(1) == 5330555131199
  {
    ShortTail();
    assert Pow100(2) == 100 * Pow100(1) == 10000 * Pow100(0);
  }

  lemma PowersTo7()
    ensures Pow100(4) == 100000000 && Pow100(5) == 10000000000 && Pow100(6) == 1000000000000
        && Pow100(7) == 100000000000000
  {
    Million();
    hide Pow100;
    NextPower(3);
    NextPower(4);
    NextPower(5);
    NextPower(6);
  }

  lemma LuckyDigits(v: seq<int>)
    requires v == [98, 87, 72, 5]
    ensures Divisor(v) && Val(v) == 5728798 && Leading(v) == 4582 && Factor(v) == 8 && DigitsOf(5728798) == v
    ensures DigitAt(v, 32819137607047, 3) == 5 && Shifted(v, 3) == 5728798000000
    ensures DigitAt(v, 4175147607047, 2) == 72 && Shifted(v, 2) == 57287980000
    ensures DigitAt(v, 50413047047, 1) == 88 && Shifted(v, 1) == 572879800
  {
    hide Val, DigitsOf;
    FourDigits(98, 87, 72, 5);
    DigitsAre(5728798, v);
    PowersTo7();
    Million();
    SmallPowers();
    hide Pow100;
    assert Leading(v) == 4582;
  }

  lemma LuckyRest(f: seq<int>)
    requires Digits(f) && |f| == 6 && Val(f) == 999999624647
    ensures f == [47, 46, 62, 99, 99, 99]
  {
    hide Val, Pow100;
    var t := [46, 62, 99, 99, 99];
    FourDigits(62, 99, 99, 99);
    ValCons(46, [62, 99, 99, 99]);
    ValCons(47, t);
    assert [46] + [62, 99, 99, 99] == t && [47] + t == [47, 46, 62, 99, 99, 99];
    DigitsUnique(f, [47, 46, 62, 99, 99, 99]);
  }

  lemma LuckyTimes(v: seq<int>)
    requires v == [98, 87, 72, 5]
    ensures Times(v, -977, 0) == [-46, -56, -3, -97, -55]
  {
    hide Times;
    assert v[0..] == v;
    TimesAt(v, -977, 0, 0);
    TimesAt(v, -977, -957, 1);
    TimesAt(v, -977, -859, 2);
    TimesAt(v, -977, -712, 3);
    TimesNone(v[4..], -977, -55);
    assert CDiv(-95746, 100) == -957 && CDiv(-85956, 100) == -859 && CDiv(-71203, 100) == -712
        && CDiv(-5597, 100) == -55;
    assert Times(v, -977, 0) == [-46] + ([-56] + ([-3] + ([-97] + [-55])));
  }

  lemma LuckyLast(v: seq<int>, e: seq<int>)
    requires v == [98, 87, 72, 5] && e == [47, 46, 62, 99, -57] && Leading(v) == 4582 && Factor(v) == 8
    ensures Righted(LongDivide(v, e, 0)) == [46]
  {
    hide Times, Minus, Leading, Factor;
    assert TopThree(e) == -560038;
    assert Estimate(v, e, 0) == CDiv(-4480296, 4582) == -977;
    LuckyTimes(v);
    var x := [-46, -56, -3, -97, -55];
    assert e[0..] == e && x[0..] == x;
    MinusAt(e, x, 0, 0, 0);
    MinusAt(e, x, 93, 0, 1);
    MinusAt(e, x, 102, 0, 2);
    MinusAt(e, x, 65, 0, 3);
    MinusAt(e, x, 196, 0, 4);
    MinusNone(e[5..], x[5..], 98, 1);
    assert SChar(-978) == 46;
  }

  lemma LuckyQuotient(v: seq<int>, s: seq<int>)
    requires v == [98, 87, 72, 5] && Digits(s) && |s| == 7 && Val(s) == 32819137607047
    ensures QuotientChars(s, v) == [46, 88, 72, 5]
  {
    hide Val, Pow100, Leading, Factor, DigitAt, Shifted, Dividing, Divisor, LongDivide, Righted, Carried, NoZeros,
        DigitsOf;
    LuckyDigits(v);
    BeginDividing(v, s, 3);
    var x := 32819137607047;
    var e := StepDown(v, x, s + [0], [], 3, 5);
    var f := StepDown(v, x, e, [5] + [], 2, 72);
    var g := StepOver(v, x, f, [72] + ([5] + []), 1, 88);
    PowersTo7();
    LuckyRest(g);
    assert g[..4] + [-57] == [47, 46, 62, 99, -57];
    LuckyLast(v, g[..4] + [-57]);
    assert [46] + [88] + [72] + [5] == [46, 88, 72, 5];
    NothingCarried([46, 88, 72, 5]);
    NothingDropped([46, 88, 72, 5]);
  }

  lemma LuckyOvershoots(v: seq<int>)
    requires v == [98, 87, 72, 5]
    ensures Overshoots(v, 32819137607047, 3)
  {
    hide Val, Pow100, DigitAt, Shifted, Overshoots;
    LuckyDigits(v);
    OvershootStep(v, 32819137607047, 3);
    OvershootStep(v, 4175147607047, 2);
    OvershootStep(v, 50413047047, 1);
  }

  /** A digit that overflows can do no harm: 5728798 is the root of 32819137607047 and is returned. */
  lemma LuckyExample()
    ensures RootOf(32819137607047, 5728798)
    ensures var s := DigitsOf(32819137607047); |s| == 7 && Gives(s, 5728798) && !RootFits(s)
  {
    hide Val, Pow100, DigitsOf, SafeDivisor, Returned, Gives, RootFits, RunFits, Overshoots, QuotientChars, Guess;
    var x := 32819137607047;
    var s, v := [47, 70, 60, 37, 91, 81, 32], [98, 87, 72, 5];
    SevenDigits(47, 70, 60, 37, 91, 81, 32);
    DigitsAre(x, s);
    LuckyDigits(v);
    GuessOf(s, 6);
    GivesFrom(s, 6000000);
    FitsFrom(s, 6000000);
    SafeHere(6000000, 0, 0, 0, 6);
    RunOn(x, 6000000, 5734928);
    SafeHere(5734928, 28, 49, 73, 5);
    RunOn(x, 5734928, 5728802);
    SafeHere(5728802, 2, 88, 72, 5);
    RunOn(x, 5728802, 5728798);
    LuckyQuotient(v, s);
    FourDigits(46, 88, 72, 5);
    assert Halfway(x, 5728798) == Next(5728822);
    ReturnedStep(x, 5728798);
    LuckyOvershoots(v);
    if RunFits(x, 6000000) {
      RunReachesRoot(x, 6000000, 5728798);
      assert false;
    }
  }
}
