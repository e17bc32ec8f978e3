/** Square root by Newton's method. */
module DcSqrt {
  import opened Arith
  import opened DcValue
  import opened DcBlk
  import opened DcAdd
  import opened DcMult
  import opened DcEstimate
  import opened DcDiv
  import opened DcDivide
  import opened DcExp

  /** `r` is the square root of `x`, cut to an integer. */
  ghost predicate RootOf(x: int, r: int) {
    r >= 0 && r * r <= x < (r + 1) * (r + 1)
  }

  // ---- The first guess ----

  /** Subtracting odd numbers until nothing is left counts up to just above the root. */
  method OddSum(c0: int) returns (g: int)
    requires 0 <= c0
    ensures g >= 1 && (g - 1) * (g - 1) <= c0 < g * g
  {
    var c, nn := c0, 1;
    ghost var k := 0;
    c := c - nn;
    while c >= 0
      invariant k >= 0 && nn == 2 * k + 1 && c0 - c == (k + 1) * (k + 1) && k * k <= c0
      decreases c
    {
      nn := nn + 2;
      c := c - nn;
      k := k + 1;
    }
    g := (nn + 1) / 2;
  }

  /** The top one or two digits, so that an even number of digits remains below. */
  ghost function TopPart(s: seq<int>): int
    requires s != []
  {
    if |s| % 2 == 1 then s[|s| - 1] else s[|s| - 1] * 100 + s[|s| - 2]
  }

  lemma TopPartBounds(s: seq<int>)
    requires Digits(s) && s != []
    ensures
      var n := (|s| + 1) / 2;
      0 <= TopPart(s) < 10000 && Val(s) < (TopPart(s) + 1) * (Pow100(n - 1) * Pow100(n - 1))
  {
    hide Val, Pow100;
    var n := (|s| + 1) / 2;
    Pow100Adds(n - 1, n - 1);
    assert s[..|s|] == s;
    ValStep(s, |s| - 1);
    DigitsBound(s[..|s| - 1]);
    if |s| % 2 == 0 {
      TwoOnTop(s);
    } else {
      MulAdd(s[|s| - 1], 1, Pow100(|s| - 1));
    }
  }

  lemma TwoOnTop(s: seq<int>)
    requires Digits(s) && |s| >= 2 && Val(s) == Val(s[..|s| - 1]) + s[|s| - 1] * Pow100(|s| - 1)
    ensures Val(s) < (s[|s| - 1] * 100 + s[|s| - 2] + 1) * Pow100(|s| - 2)
  {
    hide Val, Pow100;
    ValStep(s, |s| - 2);
    NextPower(|s| - 2);
    DigitsBound(s[..|s| - 2]);
    var a, b, p := s[|s| - 1], s[|s| - 2], Pow100(|s| - 2);
    MulAssoc(a, 100, p);
    MulAdd(a * 100, b, p);
    MulAdd(a * 100 + b, 1, p);
  }

  /** The guess, of half as many digits, lies above the root. */
  lemma GuessAbove(x: int, top: int, g: int, p: int)
    requires p > 0 && 0 <= x < (top + 1) * (p * p) && g >= 1 && top < g * g
    ensures x < (g * p) * (g * p)
  {
    MulMono(top + 1, g * g, p * p);
    MulAssoc(g, p, g * p);
    MulAssoc(p, g, p);
    MulAssoc(g, g, p * p);
    MulAssoc(g, p, p);
    assert (g * p) * (g * p) == (g * g) * (p * p) by {
      assert p * (g * p) == g * (p * p) by { MulAssoc(p, g, p); MulAssoc(g, p, p); }
      MulAssoc(g, p, g * p);
      MulAssoc(g, g, p * p);
    }
  }

  /** The guess the code starts from. */
  ghost predicate Guess(s: seq<int>, r: int)
    requires s != []
  {
    exists g :: g >= 1 && (g - 1) * (g - 1) <= TopPart(s) < g * g && r == g * Pow100((|s| + 1) / 2 - 1)
  }

  function NextIterate(x: nat, r: nat): nat
    requires r > 0
  {
    DivModBasics(x, r);
    (x / r + r) / 2
  }

  /** Whether every division on the way from the iterate `r` to the root stores only characters that fit. */
  ghost predicate RunFits(x: nat, r: nat)
    decreases r
  {
    r == 0 || (DivisionFits(x, r) && (NextIterate(x, r) >= r || RunFits(x, NextIterate(x, r))))
  }

  lemma {:induction false} ZerosValue(n: nat, z: seq<int>)
    requires |z| == n && forall i :: 0 <= i < n ==> z[i] == 0
    ensures Val(z) == 0 && Digits(z)
  {
    ValZeros(z);
  }

  /** `n` zero characters, the cursor behind them. */
  method ZeroBlock(n: nat) returns (r: Blk)
    ensures fresh(r) && |r.data| == n == r.rd && forall i :: 0 <= i < n ==> r.data[i] == 0
  {
    r := new Blk();
    r.data := seq(n, _ => 0);
    r.rd := n;
  }

  method FirstGuess(p: Blk) returns (r: Blk)
    requires Digits(p.data) && Normal(p.data) && p.data != []
    modifies p`rd
    ensures fresh(r) && Digits(r.data) && Normal(r.data) && r.data != []
    ensures 0 <= Val(p.data) < Val(r.data) * Val(r.data) && Val(r.data) > 0 && Guess(p.data, Val(r.data))
  {
    hide Val, Pow100;
    ghost var s := p.data;
    DigitsBound(s);
    TopPartBounds(s);
    var n := p.Length();
    p.FsFile();
    var c := p.SbackC();
    if n % 2 != 1 {
      var d := 0;
      if !p.SfBeg() {
        d := p.SbackC();
      }
      c := c * 100 + d;
    }
    n := (n + 1) / 2;
    r := ZeroBlock(n);
    c := OddSum(c);
    ghost var g := c;
    GuessBound(g, TopPart(s));
    r.FsFile();
    var x := r.SbackC();
    ghost var z := r.data;
    GuessValue(z, n, g);
    if c >= 100 {
      c := c - 100;
      r.SalterC(c);
      r.SputC(1);
      assert r.data == z[n - 1 := g - 100] + [1];
    } else {
      r.SalterC(c);
    }
    GuessAbove(Val(s), TopPart(s), g, Pow100(n - 1));
    MulMono(1, g, Pow100(n - 1));
    assert Guess(s, g * Pow100(n - 1));
  }

  lemma GuessBound(g: int, top: int)
    requires g >= 1 && (g - 1) * (g - 1) <= top < 10000
    ensures g <= 100
  {
    if g > 100 {
      MulMono(100, g - 1, 100);
      MulMono(100, g - 1, g - 1);
    }
  }

  lemma GuessValue(z: seq<int>, n: nat, g: int)
    requires |z| == n > 0 && (forall i :: 0 <= i < n ==> z[i] == 0) && 1 <= g <= 100
    ensures g < 100 ==> var r := z[n - 1 := g]; Digits(r) && Normal(r) && Val(r) == g * Pow100(n - 1)
    ensures g == 100 ==> var r := z[n - 1 := g - 100] + [1]; Digits(r) && Normal(r) && Val(r) == g * Pow100(n - 1)
  {
    hide Val, Pow100;
    ZerosValue(n, z);
    if g < 100 {
      ValSet(z, n - 1, g);
    } else {
      assert z[n - 1 := 0] == z;
      ValSnoc(z, 1);
      NextPower(n - 1);
    }
  }

  // ---- Newton's step ----

  /** The iterates stay at or above the root, and where they stop falling the root is reached. */
  lemma NewtonStep(x: int, r: int, q: int, s: int)
    requires x >= 0 && r > 0 && x < (r + 1) * (r + 1) && q == x / r && s == (q + r) / 2
    ensures x < (s + 1) * (s + 1) && s >= 0
    ensures s >= r ==> RootOf(x, r)
  {
    DivModBasics(x, r);
    assert q * r <= x < (q + 1) * r by { MulAdd(q, 1, r); }
    SquaresApart(q, r, s);
    if s >= r {
      MulMono(r, q, r);
    }
  }

  /** Twice the mean of two numbers squared is at least four times their product. */
  lemma SquaresApart(q: int, r: int, s: int)
    requires q >= 0 && r > 0 && s == (q + r) / 2
    ensures (q + 1) * r <= (s + 1) * (s + 1)
  {
    var a, b := q + 1, r;
    var m := s + 1;
    assert 2 * m >= a + b;
    assert (a + b) * (a + b) - 4 * (a * b) == (a - b) * (a - b) by {
      SquareOfSum(a, b);
    }
    SquareNonNeg(a - b);
    MulMono(a + b, 2 * m, a + b);
    MulMono(a + b, 2 * m, 2 * m);
    assert (2 * m) * (2 * m) == 4 * (m * m);
  }

  lemma SquareOfSum(a: int, b: int)
    ensures (a + b) * (a + b) - 4 * (a * b) == (a - b) * (a - b)
  {
    MulAdd(a, b, a + b);
    MulAdd(a, b, a);
    MulAdd(a, b, b);
    MulSub(a, b, a - b);
    MulSub(a, b, a);
    MulSub(a, b, b);
  }

  lemma SquareNonNeg(a: int)
    ensures a * a >= 0
  {
    if a >= 0 {
      MulNonNeg(a, a);
    } else {
      MulNonNeg(-a, -a);
    }
  }

  datatype Next = Next(value: nat) | Lost

  /** The iterate after `r`: half the sum of `r` and the quotient, right or not, as long as the sum is
      a block of digits again and leaves a positive number. */
  ghost function Halfway(x: nat, r: nat): Next {
    var q, v := QuotientChars(DigitsOf(x), DigitsOf(r)), DigitsOf(r);
    if Addable(q, v) && Val(q) + r >= 2 then Next((Val(q) + r) / 2) else Lost
  }

  /** What Newton's method returns when it starts from `r`. */
  ghost function Returned(x: nat, r: nat): Next
    decreases r
  {
    if r == 0 then Lost
    else
      match Halfway(x, r)
      case Lost => Lost
      case Next(s) => if s >= r then Next(r) else Returned(x, s)
  }

  lemma ReturnedStep(x: nat, r: nat)
    requires r > 0
    ensures
      Returned(x, r)
      == match Halfway(x, r)
         case Lost => Lost
         case Next(s) => if s >= r then Next(r) else Returned(x, s)
  {
  }

  /** Where the division fits this is Newton's iterate. */
  lemma HalfwayRight(x: nat, r: nat)
    requires x >= 1 && r > 0 && DivisionFits(x, r)
    ensures Halfway(x, r) == Next(NextIterate(x, r)) && NextIterate(x, r) >= 1
  {
    hide Val, Pow100, DigitsOf, QuotientChars, DivisionFits, Addable;
    QuotientRight(x, r);
    DigitsOfNumber(r);
    var q := QuotientChars(DigitsOf(x), DigitsOf(r));
    DigitsAreNumber(q);
    DigitsAreNumber(DigitsOf(r));
    NumbersAddable(q, DigitsOf(r));
    DivModBasics(x, r);
    assert r == 1 ==> x / r == x;
  }

  /** A run in which every division fits returns the root. */
  lemma {:induction false} FittingRun(x: nat, r: nat)
    requires x >= 1 && r >= 1 && x < (r + 1) * (r + 1) && RunFits(x, r)
    ensures var s := Returned(x, r); s.Next? && RootOf(x, s.value)
    decreases r
  {
    hide RunFits, DivisionFits, RootOf, Returned, Halfway;
    RunStep(x, r);
    ReturnedStep(x, r);
    HalfwayRight(x, r);
    var s := NextIterate(x, r);
    NewtonStep(x, r, x / r, s);
    StillPositive(x, s);
    if s < r {
      FittingRun(x, s);
    }
  }

  /** Half the sum of the iterate and the quotient by it, whatever the quotient is. */
  method NextGuess(p: Blk, r: Blk, sqtemp: Blk, divxyz: Blk, ghost x: nat, ghost y: nat)
    returns (q: Blk, fits: bool, lost: bool)
    requires p != r && p != sqtemp && p != divxyz && r != sqtemp && r != divxyz && sqtemp != divxyz
        && sqtemp.data == [2]
    requires Digits(p.data) && Normal(p.data) && Digits(r.data) && Normal(r.data)
    requires x == Val(p.data) && y == Val(r.data) > 0
    modifies r`rd, sqtemp`rd, divxyz
    ensures fits <==> DivisionFits(x, y)
    ensures lost <==> Halfway(x, y).Lost?
    ensures !lost ==> fresh(q) && Digits(q.data) && Normal(q.data) && Val(q.data) == Halfway(x, y).value
  {
    hide Val, Pow100, DivisionFits, Digits, Normal, Number, QuotientOf, QuotientChars, Addable, Halfway;
    DigitsBound(p.data);
    DigitsAreNumber(p.data);
    DigitsAreNumber(r.data);
    EmptyValue(r.data);
    var d;
    d, fits := Div(p, r, divxyz);
    HalfwayIs(p.data, r.data, d.quotient.data);
    q, lost := HalfSum(d.quotient, r, sqtemp, divxyz);
  }

  lemma HalfwayIs(d: seq<int>, v: seq<int>, q: seq<int>)
    requires Digits(d) && Normal(d) && Digits(v) && Normal(v) && Val(d) >= 0 && Val(v) >= 0 && q == QuotientChars(d, v)
    ensures Halfway(Val(d), Val(v)) == if Addable(q, v) && Val(q) + Val(v) >= 2 then Next((Val(q) + Val(v)) / 2)
        else Lost
  {
    hide Val, Pow100, QuotientChars, Addable;
    DigitCount(Val(d), d);
    DigitCount(Val(v), v);
  }

  method HalfSum(a: Blk, r: Blk, sqtemp: Blk, divxyz: Blk) returns (q: Blk, lost: bool)
    requires a != r && a != sqtemp && a != divxyz && r != sqtemp && r != divxyz && sqtemp != divxyz
        && sqtemp.data == [2]
    modifies a`rd, r`rd, sqtemp`rd, divxyz
    ensures lost <==> !Addable(a.data, r.data) || Val(a.data) + Val(r.data) < 2
    ensures !lost ==> fresh(q) && Digits(q.data) && Normal(q.data) && Val(q.data) == (Val(a.data) + Val(r.data)) / 2
  {
    hide Val, Pow100, Digits, Normal, Addable;
    q, lost := a, true;
    if Addable(a.data, r.data) {
      var s := Add(a, r);
      TwoOrMore(s.data);
      if AtLeastTwo(s.data) {
        EmptyValue(s.data);
        var odd;
        q, odd := Halve(s, sqtemp, divxyz);
        lost := false;
      }
    }
  }

  /** A normal block that stands for two or more. */
  predicate AtLeastTwo(s: seq<int>) {
    s != [] && s[|s| - 1] > if |s| > 1 then 0 else 1
  }

  lemma TwoOrMore(s: seq<int>)
    requires Normal(s)
    ensures AtLeastTwo(s) <==> Val(s) >= 2
    ensures AtLeastTwo(s) ==> Digits(s)
  {
    SignOnTop(s);
    if s != [] && s[|s| - 1] > 0 {
      NormalPositive(s);
      if |s| > 1 {
        Pow100Grows(1, |s| - 1);
        assert Pow100(1) == 100;
      } else {
        assert s[..0] == [];
      }
    }
  }

  /** Compares two iterates by the sign of their difference. */
  method NoLess(r: Blk, q: Blk) returns (stop: bool)
    requires r != q && Digits(r.data) && Normal(r.data) && Digits(q.data) && Normal(q.data)
    modifies q`rd
    ensures stop <==> Val(q.data) >= Val(r.data)
  {
    hide Val, Pow100;
    var s := new Blk.Copy(r);
    DigitsAreNumber(s.data);
    DigitsAreNumber(q.data);
    ChSign(s);
    var t := Add(s, q);
    NormalIsNumber(t.data);
    SignOnTop(t.data);
    t.FsFile();
    var nn := 0;
    if !t.SfBeg() {
      nn := t.SbackC();
    }
    stop := nn >= 0;
  }

  lemma NormalIsNumber(s: seq<int>)
    requires Normal(s)
    ensures Number(s)
  {
  }

  lemma GuessMargin(x: int, r: int)
    requires r > 0 && x < r * r
    ensures x < (r + 1) * (r + 1)
  {
    MulAdd(r, 1, r + 1);
    MulAdd(r, 1, r);
  }

  lemma StillPositive(x: int, q: int)
    requires x >= 1 && q >= 0 && x < (q + 1) * (q + 1)
    ensures q >= 1
  {
  }

  lemma GuessUnique(s: seq<int>, a: int, b: int)
    requires s != [] && Guess(s, a) && Guess(s, b)
    ensures a == b
  {
    hide TopPart;
    var t := TopPart(s);
    var g :| g >= 1 && (g - 1) * (g - 1) <= t < g * g && a == g * Pow100((|s| + 1) / 2 - 1);
    var h :| h >= 1 && (h - 1) * (h - 1) <= t < h * h && b == h * Pow100((|s| + 1) / 2 - 1);
    if g < h {
      MulMono(g, h - 1, g);
      MulMono(g, h - 1, h - 1);
    } else if h < g {
      MulMono(h, g - 1, h);
      MulMono(h, g - 1, g - 1);
    }
  }

  /** Whether the square root of a number is found without any character overflowing. */
  ghost predicate RootFits(s: seq<int>)
    requires s != []
  {
    exists guess: nat {:trigger Guess(s, guess)} :: Guess(s, guess) && RunFits(Abs(Val(s)), guess)
  }

  /** Whether the square root routine returns `r`. */
  ghost predicate Gives(s: seq<int>, r: int)
    requires s != []
  {
    exists guess: nat {:trigger Guess(s, guess)} :: Guess(s, guess) && r >= 0 && Returned(Abs(Val(s)), guess) == Next(r)
  }

  datatype Root = Root(r: Blk) | NoRoot

  /** The integer square root. Digits that do not fit a signed char are kept as they are stored, and the
      method goes on with them; `fits` tells whether there were none. The model stops where the sum with
      such a quotient is no longer a block of digits, or not positive. */
  method Sqrt(p: Blk, sqtemp: Blk, divxyz: Blk) returns (root: Root, fits: bool)
    requires p != sqtemp && p != divxyz && sqtemp != divxyz && sqtemp.data == [2]
    requires Digits(p.data) && Normal(p.data) && p.data != []
    modifies p`rd, sqtemp`rd, divxyz
    ensures fits <==> RootFits(p.data)
    ensures fits ==> root.Root?
    ensures root.Root? ==> Digits(root.r.data) && Normal(root.r.data) && Gives(p.data, Val(root.r.data))
    ensures root.Root? && fits ==> RootOf(Val(p.data), Val(root.r.data))
    ensures root.NoRoot? ==> forall r :: !Gives(p.data, r)
  {
    hide Val, Pow100, DivisionFits, Digits, Normal, RootOf, Guess, RootFits, RunFits, Gives, Returned, Halfway;
    var r := FirstGuess(p);
    ghost var x: nat, guess := Val(p.data), Val(r.data);
    NormalZero(p.data);
    GuessMargin(x, guess);
    FitsFrom(p.data, guess);
    GivesFrom(p.data, guess);
    if RunFits(x, guess) {
      FittingRun(x, guess);
    }
    fits := true;
    while true
      invariant fresh(r) && p.data == old(p.data) && sqtemp.data == [2]
      invariant Digits(r.data) && Normal(r.data) && Val(r.data) > 0 && r.data != []
      invariant Returned(x, Val(r.data)) == Returned(x, guess)
      invariant fits && RunFits(x, Val(r.data)) <==> RunFits(x, guess)
      invariant fits ==> x < (Val(r.data) + 1) * (Val(r.data) + 1)
      decreases Val(r.data)
    {
      ghost var y: nat := Val(r.data);
      RunStep(x, y);
      ReturnedStep(x, y);
      var q, fit, lost := NextGuess(p, r, sqtemp, divxyz, x, y);
      if fits && fit {
        HalfwayRight(x, y);
        NewtonStep(x, y, x / y, NextIterate(x, y));
      }
      fits := fits && fit;
      if lost {
        return NoRoot, fits;
      }
      var stop := NoLess(r, q);
      if stop {
        return Root(r), fits;
      }
      EmptyValue(q.data);
      HalfwayPositive(x, y);
      r := q;
    }
  }

  lemma HalfwayPositive(x: nat, r: nat)
    ensures Halfway(x, r).Next? ==> Halfway(x, r).value >= 1
  {
  }

  lemma GivesFrom(s: seq<int>, guess: nat)
    requires s != [] && Guess(s, guess)
    ensures forall r: int :: Gives(s, r) <==> r >= 0 && Returned(Abs(Val(s)), guess) == Next(r)
  {
    hide Returned, Guess;
    forall r: int ensures Gives(s, r) <==> r >= 0 && Returned(Abs(Val(s)), guess) == Next(r) {
      if Gives(s, r) {
        var g: nat :| Guess(s, g) && Returned(Abs(Val(s)), g) == Next(r);
        GuessUnique(s, g, guess);
      }
    }
  }

  lemma RunStep(x: nat, r: nat)
    requires r > 0
    ensures RunFits(x, r) <==> DivisionFits(x, r) && (NextIterate(x, r) >= r || RunFits(x, NextIterate(x, r)))
    ensures NextIterate(x, r) == (x / r + r) / 2
  {
  }

  lemma FitsFrom(s: seq<int>, guess: nat)
    requires s != [] && Guess(s, guess)
    ensures RootFits(s) <==> RunFits(Abs(Val(s)), guess)
  {
    hide RunFits, Guess;
    if RootFits(s) {
      var g: nat :| Guess(s, g) && RunFits(Abs(Val(s)), g);
      GuessUnique(s, g, guess);
    }
  }
}
