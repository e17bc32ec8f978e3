/** Powers by repeated squaring. */
module DcExp {
  import opened Arith
  import opened DcValue
  import opened DcBlk
  import opened DcAdd
  import opened DcMult
  import opened DcEstimate
  import opened DcDivide

  ghost function Power(b: int, n: nat): int {
    if n == 0 then 1 else b * Power(b, n - 1)
  }

  lemma {:induction false} PowerOfSquare(b: int, n: nat)
    ensures Power(b * b, n) == Power(b, 2 * n)
  {
    if n > 0 {
      PowerOfSquare(b, n - 1);
      assert Power(b, 2 * n) == b * Power(b, 2 * n - 1) && Power(b, 2 * n - 1) == b * Power(b, 2 * n - 2);
      MulAssoc(b, b, Power(b, 2 * n - 2));
    }
  }

  lemma {:induction false} PowerOfZero(n: nat)
    requires n > 0
    ensures Power(0, n) == 0
  {
    assert Power(0, n) == 0 * Power(0, n - 1);
  }

  /** One more bit of the exponent. */
  lemma PowerStep(b: int, n: nat, r: int)
    ensures n % 2 == 0 ==> r * Power(b * b, n / 2) == r * Power(b, n)
    ensures n % 2 == 1 ==> (b * r) * Power(b * b, n / 2) == r * Power(b, n)
  {
    PowerOfSquare(b, n / 2);
    if n % 2 == 1 {
      assert n == 2 * (n / 2) + 1;
      assert Power(b, n) == b * Power(b, n - 1);
      MulAssoc(r, b, Power(b, n - 1));
    }
  }

  /** Two is a divisor that can always be relied on. */
  lemma TwoIsSafe(v: seq<int>)
    requires v == [2]
    ensures Digits(v) && Normal(v) && Val(v) == 2 && SafeDivisor(2)
  {
    assert v[..0] == [];
    ShortIsSafe(v);
    DivisorKnown(2, v);
  }

  lemma HalfOf(e: int, q: int, r: int)
    requires e >= 0 && QuotientOf(e, 2, q, r)
    ensures q == e / 2 && r == e % 2
  {
  }

  lemma OneValue(v: seq<int>, c: int)
    requires v == [c]
    ensures Val(v) == c && (0 < c < 100 ==> Normal(v))
  {
    assert v[..0] == [];
  }

  /** Halves the exponent; tells whether it was odd. */
  method Halve(e: Blk, sqtemp: Blk, divxyz: Blk) returns (e1: Blk, odd: bool)
    requires e != sqtemp && e != divxyz && sqtemp != divxyz && sqtemp.data == [2]
    requires Digits(e.data) && e.data != []
    modifies sqtemp`rd, divxyz
    ensures fresh(e1) && Normal(e1.data) && Digits(e1.data) && Val(e.data) >= 0
    ensures Val(e1.data) == Val(e.data) / 2 && odd == (Val(e.data) % 2 == 1)
  {
    hide Val, Pow100, SafeDivisor;
    TwoIsSafe(sqtemp.data);
    DigitsBound(e.data);
    DigitsAreNumber(e.data);
    SafeFits(Val(e.data), 2);
    var d, fits := Div(e, sqtemp, divxyz);
    HalfOf(Val(e.data), Val(d.quotient.data), Val(d.rem.data));
    e1 := d.quotient;
    SignOnTop(e1.data);
    NormalZero(d.rem.data);
    odd := d.rem.Length() != 0;
  }

  /** The squaring loop. */
  method Raise(p0: Blk, e0: Blk, sqtemp: Blk, divxyz: Blk) returns (r: Blk)
    requires p0 != e0 && e0 != sqtemp && e0 != divxyz && p0 != sqtemp && p0 != divxyz && sqtemp != divxyz
        && sqtemp.data == [2]
    requires Number(p0.data) && Digits(e0.data)
    modifies p0`rd, e0`rd, sqtemp`rd, divxyz
    ensures fresh(r) && Number(r.data) && Val(e0.data) >= 0 && Val(r.data) == Power(Val(p0.data), Val(e0.data))
  {
    hide Val, Pow100, Number, Digits, Normal;
    DigitsBound(e0.data);
    r := new Blk();
    r.SputC(1);
    OneValue(r.data, 1);
    var p, e := p0, e0;
    while e.Length() != 0
      invariant (p == p0 || fresh(p)) && (e == e0 || fresh(e)) && fresh(r) && p != e && p != r && e != r
      invariant p0.data == old(p0.data) && e0.data == old(e0.data) && sqtemp.data == [2]
      invariant Number(p.data) && Number(r.data) && Digits(e.data) && Val(e.data) >= 0
      invariant Val(r.data) * Power(Val(p.data), Val(e.data)) == Power(Val(p0.data), Val(e0.data))
      invariant Normal(e.data) || e == e0
      decreases Val(e.data), |e.data|
    {
      PowerStep(Val(p.data), Val(e.data), Val(r.data));
      ghost var e' := e;
      var odd;
      e, odd := Halve(e, sqtemp, divxyz);
      NormalZero(e.data);
      if odd {
        r := Mult(p, r);
      }
      var t := new Blk.Copy(p);
      p := Mult(p, t);
    }
    EmptyValue(e.data);
  }

  lemma EmptyValue(s: seq<int>)
    ensures s == [] ==> Val(s) == 0
  {
  }

  /** `base` to the power `ex`. For negative exponents the code looks at the length and the last character of `base`
      only. */
  method Exp(base: Blk, ex: Blk, sqtemp: Blk, divxyz: Blk) returns (r: Blk)
    requires base != ex && sqtemp != divxyz && base != sqtemp && base != divxyz && ex != sqtemp && ex != divxyz
        && sqtemp.data == [2]
    requires Number(base.data) && Number(ex.data)
    modifies base`rd, sqtemp`rd, divxyz
    ensures Number(r.data)
    ensures Val(ex.data) >= 0 ==> Val(r.data) == Power(Val(base.data), Val(ex.data))
    ensures Val(ex.data) < 0 ==> Val(r.data) == if |base.data| == 1 && base.data[0] <= 1 then base.data[0] else 0
  {
    hide Val, Pow100, Digits, Normal;
    var p := new Blk.Copy(base);
    var e := new Blk.Copy(ex);
    SignOnTop(ex.data);
    EmptyValue(ex.data);
    e.FsFile();
    if e.SfBeg() {
      r := new Blk();
      r.SputC(1);
      OneValue(r.data, 1);
      return;
    }
    var negative := false;
    var c := e.SbackC();
    if c < 0 {
      negative := true;
      ChSign(e);
    }
    SignOnTop(e.data);
    r := Raise(p, e, sqtemp, divxyz);
    if negative {
      EmptyValue([]);
      if base.Length() == 0 {
        EmptyValue(base.data);
        PowerOfZero(Val(e.data));
        return;
      }
      if base.Length() > 1 {
        r.Create();
      } else {
        base.Rewind();
        c := base.SgetC();
        if c <= 1 {
          r.Create();
          r.SputC(c);
          OneValue(r.data, c);
        } else {
          r.Create();
        }
      }
    }
  }
}
