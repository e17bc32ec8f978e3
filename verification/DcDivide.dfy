/** Division: quotient and remainder of signed numbers. */
module DcDivide {
  import opened Arith
  import opened DcValue
  import opened DcBlk
  import opened DcAdd
  import opened DcMult
  import opened DcEstimate
  import opened DcDiv

  // ---- All digits of the quotient ----

  /** From the first digit to the last. */
  method DivDigits(divd: Blk, divr: Blk, divxyz: Blk, p: Blk, c: int, magic: int, offset0: nat)
    returns (dig: int, divcarry: int, fits: bool)
    requires divd != divr && divd != divxyz && divd != p && divr != divxyz && divr != p && divxyz != p
    requires divr.data != [] && c == Leading(divr.data) > 0 && magic == (if Magic(divr.data) then 1 else 0)
    requires |divd.data| == offset0 + |divr.data| + 1 && p.rd == offset0 + 1 == |p.data|
    modifies divd, divr`rd, divxyz, p
    ensures p.rd == 0 && divd.rd == |divd.data|
    ensures LongDivide(divr.data, old(divd.data), offset0) == Long(p.data, dig, divd.data, divcarry, fits)
  {
    hide Leading, Magic, LongDivide;
    ghost var v, e0 := divr.data, divd.data;
    ghost var r := LongDivide(v, e0, offset0);
    dig, divcarry, fits := 0, 0, true;
    var offset: int := offset0;
    assert p.data[offset + 1..] == [];
    while offset >= 0
      invariant -1 <= offset <= offset0 && p.rd == offset + 1 && |p.data| == offset0 + 1
      invariant |divd.data| == if offset >= 0 then offset + |v| + 1 else |v| + 1
      invariant
        if offset >= 0 then
          var rest := LongDivide(v, divd.data, offset);
          Long(rest.q + p.data[offset + 1..], rest.dig, rest.e, rest.carry, fits && rest.fits) == r
        else r == Long(p.data, dig, divd.data, divcarry, fits) && divd.rd == |divd.data|
    {
      ghost var e, before, fitted := divd.data, p.data, fits;
      DigitAdded(v, e, offset, before, fits);
      var fit;
      dig, divcarry, fit := DivStep(divd, divr, divxyz, p, c, magic, offset);
      fits := fits && fit;
      offset := offset - 1;
    }
  }

  /** One step of the division adds its digit below those above. */
  lemma DigitAdded(v: seq<int>, e: seq<int>, o: nat, p: seq<int>, fits: bool)
    requires v != [] && |e| == o + |v| + 1 && Leading(v) > 0 && o < |p|
    ensures
      var r, dig, left := LongDivide(v, e, o), Estimate(v, e, o), Taken(v, e, o);
      var e', p' := e[..o] + left.data, p[o := SChar(dig)];
      if o == 0 then r.q + p[o + 1..] == p' && r == Long(r.q, dig, e', left.carry, dig <= SCHAR_MAX)
      else
        var rest := LongDivide(v, Lowered(e', left.d), o - 1);
        && rest.q + p'[o..] == r.q + p[o + 1..] && rest.dig == r.dig && rest.e == r.e && rest.carry == r.carry
        && (r.fits <==> rest.fits && dig <= SCHAR_MAX && (left.d <= 0 || e'[|e'| - 2] + 100 <= SCHAR_MAX))
  {
    hide Estimate, Taken, Leading;
    var dig := Estimate(v, e, o);
    assert p[o := SChar(dig)][o..] == [SChar(dig)] + p[o + 1..];
    if o > 0 {
      var left := Taken(v, e, o);
      var rest := LongDivide(v, Lowered(e[..o] + left.data, left.d), o - 1);
      assert rest.q + ([SChar(dig)] + p[o + 1..]) == rest.q + [SChar(dig)] + p[o + 1..];
    } else {
      assert [SChar(dig)] + p[1..] == p[0 := SChar(dig)];
    }
  }

  // ---- Putting right a last digit that was too large ----

  /** What the quotient's digits and the remainder have come to. */
  ghost predicate Quotient(v: seq<int>, dd: int, r: seq<int>, q: seq<int>) {
    Number(r) && 0 <= Val(r) < Val(v) && SmallDigits(q) && Val(r) + Val(q) * Val(v) == dd
  }

  method CorrectLast(divd: Blk, divr: Blk, p: Blk, dig: int, divcarry: int, ghost dd: int) returns (divd': Blk)
    requires divd != divr && divd != p && divr != p && Number(divr.data)
    requires divd.rd == |divd.data| && p.rd == 0 && p.data != []
    modifies divd, divr`rd, p
    ensures divd' == divd || fresh(divd')
    ensures p.data == if divcarry != 0 then old(p.data)[0 := SChar(dig - 1)] else old(p.data)
    ensures Divided(divr.data, dd, old(divd.data), old(p.data), divcarry) && old(p.data)[0] == dig ==>
      Quotient(divr.data, dd, divd'.data, p.data)
  {
    hide Val, Pow100, Number, Divided, Quotient;
    ghost var v, e, q := divr.data, divd.data, p.data;
    divd' := divd;
    if divcarry != 0 {
      p.SalterC(dig - 1);
      divd.SalterC(-1);
      divd' := Add(divr, divd);
    }
    if Divided(v, dd, e, q, divcarry) && q[0] == dig {
      Corrected(v, dd, e, q, divcarry, divd'.data, p.data);
    }
  }

  lemma Corrected(v: seq<int>, dd: int, e: seq<int>, q: seq<int>, carry: int, r: seq<int>, q': seq<int>)
    requires Divided(v, dd, e, q, carry)
    requires carry == 0 ==> r == e && q' == q
    requires carry != 0 ==> q' == q[0 := SChar(q[0] - 1)]
    requires carry != 0 && Number(v) && Number(e + [-1]) ==> Number(r) && Val(r) == Val(v) + Val(e + [-1])
    requires Number(v)
    ensures Quotient(v, dd, r, q')
  {
    hide Val, Pow100;
    if carry != 0 {
      MarkValue(e);
      ValSet(q, 0, q[0] - 1);
      FirstPower();
      MulSub(Val(q), 1, Val(v));
    } else {
      DigitsBound(e);
    }
  }

  lemma FirstPower()
    ensures Pow100(0) == 1
  {
  }

  // ---- Digits of a hundred and more carry over ----

  ghost predicate Carrying(q: seq<int>, t: seq<int>, i: nat, carry: int) {
    && i <= |q| == |t| && 0 <= carry <= 1 && t[i..] == q[i..] && Digits(t[..i])
    && Val(t[..i]) + carry * Pow100(i) == Val(q[..i])
  }

  lemma CarryDigit(q: seq<int>, t: seq<int>, i: nat, carry: int, d: int, carry': int)
    requires Carrying(q, t, i, carry) && i < |q| && 0 <= q[i] <= 116
    requires carry' == (if q[i] + carry >= 100 then 1 else 0) && d == q[i] + carry - 100 * carry'
    ensures 0 <= d < 100 && Carrying(q, t[i := d], i + 1, carry')
  {
    hide Val, Pow100;
    var t' := t[i := d];
    assert t'[..i] == t[..i] && t'[..i + 1] == t[..i] + [d];
    assert t'[i + 1..] == t[i..][1..] == q[i + 1..];
    ValStep(q, i);
    ValStep(t', i);
    NextPower(i);
    CarryArithmetic(q[i], carry, d, carry', Pow100(i));
  }

  lemma CarryArithmetic(n: int, carry: int, d: int, carry': int, p: int)
    requires d == n + carry - 100 * carry'
    ensures d * p + carry' * (100 * p) == n * p + carry * p
  {
    MulAssoc(carry', 100, p);
    MulAdd(d, carry' * 100, p);
    MulAdd(n, carry, p);
  }

  /** A hundred in one place becomes one in the next, in a single pass from below. */
  ghost function Carried(q: seq<int>, carry: int): seq<int> {
    if q == [] then if carry != 0 then [SChar(carry)] else []
    else
      var d := q[0] + carry;
      if d >= 100 then [SChar(d - 100)] + Carried(q[1..], 1) else [SChar(d)] + Carried(q[1..], 0)
  }

  lemma CarriedAt(q: seq<int>, i: nat, carry: int)
    requires i < |q|
    ensures
      var d := q[i] + carry;
      Carried(q[i..], carry)
      == if d >= 100 then [SChar(d - 100)] + Carried(q[i + 1..], 1) else [SChar(d)] + Carried(q[i + 1..], 0)
  {
    assert q[i..][1..] == q[i + 1..];
  }

  lemma CarriedNone(q: seq<int>, carry: int)
    requires q == []
    ensures Carried(q, carry) == if carry != 0 then [SChar(carry)] else []
  {
  }

  /** The places below `i` are done, and doing the others will lead to `goal`. */
  ghost predicate CarryingTo(q: seq<int>, t: seq<int>, i: nat, carry: int, goal: seq<int>) {
    i <= |q| == |t| && t[i..] == q[i..] && t[..i] + Carried(q[i..], carry) == goal
  }

  lemma CarryingNext(q: seq<int>, t: seq<int>, i: nat, carry: int, goal: seq<int>)
    requires CarryingTo(q, t, i, carry, goal) && i < |q|
    ensures
      var d := t[i] + carry;
      if d >= 100 then CarryingTo(q, t[i := SChar(d - 100)], i + 1, 1, goal)
          else CarryingTo(q, t[i := SChar(d)], i + 1, 0, goal)
  {
    hide Carried, SChar;
    assert t[i] == t[i..][0] == q[i];
    CarriedAt(q, i, carry);
    var c := SChar(if t[i] + carry >= 100 then t[i] + carry - 100 else t[i] + carry);
    assert t[i := c][..i + 1] == t[..i] + [c];
    assert t[i := c][i + 1..] == t[i..][1..] == q[i + 1..];
  }

  lemma CarryingStarts(q: seq<int>)
    ensures CarryingTo(q, q, 0, 0, Carried(q, 0))
  {
    assert q[0..] == q;
  }

  lemma CarryingEnds(q: seq<int>, t: seq<int>, carry: int, goal: seq<int>)
    requires CarryingTo(q, t, |q|, carry, goal)
    ensures goal == if carry != 0 then t + [SChar(carry)] else t
  {
    assert t[..|q|] == t;
  }

  method CarryOver(p: Blk)
    modifies p
    ensures p.data == Carried(old(p.data), 0)
  {
    hide Carried, SChar, CarryingTo;
    ghost var q := p.data;
    p.Rewind();
    var divcarry := 0;
    CarryingStarts(q);
    while !p.SfEof()
      invariant p.rd <= |p.data| == |q| && CarryingTo(q, p.data, p.rd, divcarry, Carried(q, 0))
      decreases |q| - p.rd
    {
      CarryingNext(q, p.data, p.rd, divcarry, Carried(q, 0));
      var d := p.SlookC() + divcarry;
      divcarry := 0;
      if d >= 100 {
        d := d - 100;
        divcarry := 1;
      }
      p.SalterC(d);
    }
    CarryingEnds(q, p.data, divcarry, Carried(q, 0));
    if divcarry != 0 {
      p.SalterC(divcarry);
    }
  }

  lemma SmallAt(q: seq<int>, i: nat)
    requires SmallDigits(q) && i < |q|
    ensures 0 <= q[i] <= 116
  {
  }

  lemma CarryStart(q: seq<int>)
    ensures Carrying(q, q, 0, 0)
  {
  }

  lemma CarryEnd(q: seq<int>, t: seq<int>, carry: int, r: seq<int>)
    requires Carrying(q, t, |q|, carry) && r == if carry != 0 then t + [carry] else t
    ensures Digits(r) && Val(r) == Val(q)
  {
    hide Val, Pow100;
    assert t[..|q|] == t && q[..|q|] == q;
    ValSnoc(t, carry);
  }

  /** Of small digits it leaves digits, and the number they stand for. */
  lemma {:induction false} CarriedFrom(q: seq<int>, t: seq<int>, i: nat, carry: int)
    requires SmallDigits(q) && Carrying(q, t, i, carry)
    ensures Digits(t[..i] + Carried(q[i..], carry)) && Val(t[..i] + Carried(q[i..], carry)) == Val(q)
    decreases |q| - i
  {
    hide Val, Pow100, Digits, SmallDigits, Carried;
    CarryingBounds(q, t, i, carry);
    if i == |q| {
      CarriedNone(q[i..], carry);
      assert t[..i] == t;
      assert t + [] == t;
      CarryEnd(q, t, carry, t[..i] + Carried(q[i..], carry));
    } else {
      SmallAt(q, i);
      CarriedAt(q, i, carry);
      var carry' := if q[i] + carry >= 100 then 1 else 0;
      var d := q[i] + carry - 100 * carry';
      CarryDigit(q, t, i, carry, d, carry');
      CarriedFrom(q, t[i := d], i + 1, carry');
      assert t[i := d][..i + 1] == t[..i] + [d];
      assert t[..i] + [d] + Carried(q[i + 1..], carry') == t[..i] + Carried(q[i..], carry);
    }
  }

  lemma CarryingBounds(q: seq<int>, t: seq<int>, i: nat, carry: int)
    requires Carrying(q, t, i, carry)
    ensures i <= |q| == |t| && 0 <= carry <= 1
  {
  }

  lemma CarriedValue(q: seq<int>)
    requires SmallDigits(q)
    ensures Digits(Carried(q, 0)) && Val(Carried(q, 0)) == Val(q)
  {
    hide Val, Pow100, Carried, SmallDigits;
    CarryStart(q);
    CarriedFrom(q, q, 0, 0);
    assert q[0..] == q && q[..0] + Carried(q, 0) == Carried(q, 0);
  }

  ghost function NoZeros(s: seq<int>): (t: seq<int>)
    ensures t <= s && Val(t) == Val(s) && (t != [] ==> t[|t| - 1] != 0)
  {
    if s != [] && s[|s| - 1] == 0 then NoZeros(s[..|s| - 1]) else s
  }

  /** Zeros on top are cut off one by one. */
  method DropZeros(p: Blk)
    modifies p
    ensures p.data == NoZeros(old(p.data))
  {
    hide Val, Pow100;
    ghost var s := p.data;
    p.FsFile();
    while !p.SfBeg()
      invariant p.rd == |p.data| && NoZeros(p.data) == NoZeros(s)
      decreases p.rd
    {
      var c := p.SbackC();
      if c == 0 {
        p.Truncate();
      } else {
        break;
      }
    }
  }

  // ---- Signed division ----

  /** The digits of a number that is not negative. */
  ghost function DigitsOf(x: nat): seq<int> {
    if x == 0 then [] else [x % 100] + DigitsOf(x / 100)
  }

  lemma {:induction false} DigitsOfNumber(x: nat)
    ensures Digits(DigitsOf(x)) && Normal(DigitsOf(x)) && Val(DigitsOf(x)) == x
  {
    if x > 0 {
      DigitsOfNumber(x / 100);
      ValCons(x % 100, DigitsOf(x / 100));
      NormalZero(DigitsOf(x / 100));
      assert x == 100 * (x / 100) + x % 100;
    }
  }

  lemma NormalUnique(s: seq<int>, t: seq<int>)
    requires Digits(s) && Normal(s) && Digits(t) && Normal(t) && Val(s) == Val(t)
    ensures s == t
  {
    hide Val, Pow100;
    NormalZero(s);
    NormalZero(t);
    if s != [] && t != [] {
      NormalPositive(s);
      NormalPositive(t);
      DigitsBound(s);
      DigitsBound(t);
      if |s| < |t| {
        Pow100Grows(|s|, |t| - 1);
      } else if |t| < |s| {
        Pow100Grows(|t|, |s| - 1);
      }
      DigitsUnique(s, t);
    }
  }

  /** Whether division by `y` can be relied on for every dividend (`SafeForAll`): a test on `y` alone. */
  ghost predicate SafeDivisor(y: int) {
    DigitsOf(Abs(y)) != [] ==> Safe(DigitsOf(Abs(y)))
  }

  /** Whether dividing `x` by `y` stores only characters that fit: no digit before the last is too large. */
  ghost predicate DivisionFits(x: int, y: int) {
    var d, v := DigitsOf(Abs(x)), DigitsOf(Abs(y));
    v == [] || |d| < |v| || !Overshoots(v, Abs(x), |d| - |v|)
  }

  /** The dividend that gives an unsafe divisor away. */
  ghost function Trap(y: int): int {
    if DigitsOf(Abs(y)) != [] then TrapFor(DigitsOf(Abs(y))) else 0
  }

  lemma DigitCount(x: nat, d: seq<int>)
    requires Digits(d) && Val(d) == x
    ensures |DigitsOf(x)| <= |d| && (Normal(d) ==> d == DigitsOf(x))
    ensures x < Pow100(|DigitsOf(x)|) && (x > 0 ==> Pow100(|DigitsOf(x)| - 1) <= x && DigitsOf(x) != [])
  {
    hide Val, Pow100, DigitsOf;
    DigitsOfNumber(x);
    DigitsBound(d);
    DigitsBound(DigitsOf(x));
    NormalZero(DigitsOf(x));
    if Normal(d) {
      NormalUnique(d, DigitsOf(x));
    }
    if x > 0 {
      NormalPositive(DigitsOf(x));
      if |d| < |DigitsOf(x)| {
        Pow100Grows(|d|, |DigitsOf(x)| - 1);
      }
    }
  }

  /** Below its highest place the dividend gives a zero digit. */
  lemma ZeroDigit(v: seq<int>, e: nat, o: nat)
    requires Divisor(v) && o > 0 && e < Pow100(o - 1 + |v|)
    ensures DigitAt(v, e, o) == 0 && (Overshoots(v, e, o) <==> Overshoots(v, e, o - 1))
  {
    Scaled(v, o);
    NextPower(o - 1 + |v|);
    hide Pow100, Val, Leading, Factor, Overshoots;
    var u := Pow100(o + |v|);
    var td := 10000 * e / u;
    DivModBasics(10000 * e, u);
    if td >= 100 {
      MulMono(100, td, u);
    }
    DivModUnique(Factor(v) * td, Leading(v) + 1, 0, Factor(v) * td);
    OvershootStep(v, e, o);
  }

  /** How many digits the quotient is given room for makes no difference. */
  lemma {:induction false} RoomAbove(v: seq<int>, e: nat, o: nat)
    requires Divisor(v) && |DigitsOf(e)| <= o + |v|
    ensures Overshoots(v, e, o) <==> |DigitsOf(e)| >= |v| && Overshoots(v, e, |DigitsOf(e)| - |v|)
    decreases o
  {
    hide Val, Pow100, DigitAt, Overshoots, DigitsOf;
    DigitsOfNumber(e);
    DigitCount(e, DigitsOf(e));
    OvershootStep(v, e, o);
    if o > 0 && |DigitsOf(e)| < o + |v| {
      Pow100Grows(|DigitsOf(e)|, o - 1 + |v|);
      ZeroDigit(v, e, o);
      RoomAbove(v, e, o - 1);
    }
  }

  datatype DivResult = DivideByZero | Result(quotient: Blk, rem: Blk)

  /** The quotient is cut towards zero, and the remainder has the dividend's sign. */
  ghost predicate QuotientOf(x: int, y: int, q: int, r: int) {
    x == q * y + r && Abs(r) < Abs(y) && (r == 0 || (r < 0 <==> x < 0))
  }

  lemma SignedQuotient(x: int, y: int, q: int, r: int)
    requires Abs(x) == r + q * Abs(y) && 0 <= r < Abs(y)
    ensures QuotientOf(x, y, if (x < 0) != (y < 0) then -q else q, if x < 0 then -r else r)
  {
    Signs(q, y);
  }

  lemma BeginDividing(v: seq<int>, d: seq<int>, o: nat)
    requires Divisor(v) && Digits(d) && |d| == o + |v|
    ensures Dividing(v, Val(d), d + [0], [], o) && Val(d + [0]) == Val(d)
  {
    ValSnoc(d, 0);
    DigitsBound(d);
    NormalPositive(v);
    Pow100Adds(|v| - 1, o);
    NextPower(|d| - 1);
    hide Pow100, Val;
    MulMono(Pow100(|v| - 1), Val(v), Pow100(o));
    assert (d + [0])[..|d|] == d;
    ValOfNothing();
  }

  lemma ValOfNothing()
    ensures Val([]) == 0 && Normal([])
  {
  }

  lemma LeadingBelow(v: seq<int>)
    requires Divisor(v) && Magic(v)
    ensures Leading(v) <= 7999
  {
  }

  /** A dividend with fewer digits than the divisor is its own remainder. */
  lemma Shorter(x: int, y: int, d: seq<int>, v: seq<int>)
    requires Divisor(v) && Digits(d) && |d| < |v| && Val(d) == Abs(x) && Val(v) == Abs(y)
    ensures QuotientOf(x, y, 0, x)
  {
    hide Val, Pow100;
    DigitsBound(d);
    NormalPositive(v);
    Pow100Grows(|d|, |v| - 1);
  }

  /** The digits of the absolute value, always in a block of its own. */
  method CopyMagnitude(p: Blk) returns (d: Blk, negative: bool)
    requires Number(p.data)
    ensures fresh(d) && negative == (Val(p.data) < 0) && Digits(d.data) && Val(d.data) == Abs(Val(p.data))
    ensures !negative ==> d.data == p.data
    ensures Normal(p.data) ==> Normal(d.data)
  {
    hide Val, Pow100;
    SignOnTop(p.data);
    d := new Blk.Copy(p);
    negative := false;
    d.FsFile();
    if !d.SfBeg() {
      var c := d.SbackC();
      if c == -1 {
        ChSign(d);
        negative := true;
      }
    }
    SignOnTop(d.data);
  }

  /** The quotient's characters when its last digit has been put right. */
  ghost function Righted(r: Long): seq<int>
    requires r.q != []
  {
    if r.carry != 0 then r.q[0 := SChar(r.dig - 1)] else r.q
  }

  /** The characters of the quotient of digits `d` by digits `v`, whatever has been stored on the way. */
  ghost function QuotientChars(d: seq<int>, v: seq<int>): seq<int> {
    if v == [] || Leading(v) <= 0 || |d| < |v| then []
    else NoZeros(Carried(Righted(LongDivide(v, d + [0], |d| - |v|)), 0))
  }

  /** Divides blocks of digits. */
  method DivMagnitudes(divd0: Blk, divr: Blk, divxyz: Blk, offset: nat) returns (p: Blk, divd: Blk, fits: bool)
    requires divd0 != divr && divd0 != divxyz && divr != divxyz
    requires Divisor(divr.data) && Digits(divd0.data) && |divd0.data| == offset + |divr.data|
    modifies divd0, divr`rd, divxyz
    ensures fresh(p) && (divd == divd0 || fresh(divd)) && p != divd
    ensures Leading(divr.data) > 0
        && p.data == Carried(Righted(LongDivide(divr.data, old(divd0.data) + [0], offset)), 0)
    ensures fits <==> !Overshoots(divr.data, Val(old(divd0.data)), offset)
    ensures fits ==>
      && Digits(p.data) && Digits(divd.data) && 0 <= Val(divd.data) < Val(divr.data)
      && Val(divd.data) + Val(p.data) * Val(divr.data) == Val(old(divd0.data))
  {
    hide Val, Pow100, Dividing, DcDiv.Divided, Quotient, Number, Overshoots, LongDivide, Leading, Carried;
    ghost var v, d := divr.data, divd0.data;
    ghost var dd := Val(d);
    p := new Blk();
    p.SeekC(offset + 1);
    divd0.SputC(0);
    BeginDividing(v, d, offset);
    Measure(v);
    LongDivision(v, dd, d + [0], [], offset);
    var c, magic := MeasureDivisor(divr);
    var dig, divcarry;
    dig, divcarry, fits := DivDigits(divd0, divr, divxyz, p, c, magic, offset);
    assert p.data + [] == p.data;
    DigitsAreNumber(v);
    divd := CorrectLast(divd0, divr, p, dig, divcarry, dd);
    if fits {
      FirstDigit(dig);
      QuotientFacts(v, dd, divd.data, p.data);
      CarriedValue(p.data);
    }
    CarryOver(p);
  }

  lemma FirstDigit(dig: int)
    requires 0 <= dig <= 116
    ensures SChar(dig) == dig
  {
  }

  lemma DigitsAreNumber(v: seq<int>)
    requires Digits(v)
    ensures Number(v)
  {
  }

  lemma QuotientFacts(v: seq<int>, dd: int, r: seq<int>, q: seq<int>)
    requires Quotient(v, dd, r, q)
    ensures Digits(r) && 0 <= Val(r) < Val(v) && SmallDigits(q) && Val(r) + Val(q) * Val(v) == dd
  {
    SignOnTop(r);
  }

  lemma PrefixDigits(s: seq<int>, t: seq<int>)
    requires s <= t && Digits(t)
    ensures Digits(s)
  {
    forall i | 0 <= i < |s| ensures 0 <= s[i] < 100 {
      assert s[i] == t[i];
    }
  }

  /** Cuts zeros off the top, and takes up the sign. */
  method Finish(p: Blk, negative: bool)
    modifies p
    ensures Digits(old(p.data)) ==>
        Normal(p.data) && Val(p.data) == if negative then -Val(old(p.data)) else Val(old(p.data))
    ensures !negative ==> p.data == NoZeros(old(p.data))
  {
    hide Val, Pow100, NoZeros;
    ghost var s := p.data;
    DropZeros(p);
    if Digits(s) {
      PrefixDigits(p.data, s);
    }
    if negative {
      ChSign(p);
    }
  }

  lemma DivisorKnown(y: int, v: seq<int>)
    requires y != 0 && Digits(v) && Normal(v) && Val(v) == Abs(y)
    ensures Divisor(v) && (SafeDivisor(y) <==> Safe(v)) && Trap(y) == TrapFor(v)
  {
    hide Val, Pow100, TrapFor, Leading;
    DivisorIs(y, v);
  }

  lemma DigitsNotNegative(s: seq<int>)
    ensures Digits(s) ==> Val(s) >= 0
  {
    if Digits(s) {
      DigitsBound(s);
    }
  }

  lemma TrapPositive(v: seq<int>)
    requires Divisor(v)
    ensures TrapFor(v) > 0
  {
    Measure(v);
    MulMono(1, Leading(v) + 1, Pow100(|v| - 1));
  }

  /** Long division. `fits` tells whether every digit the algorithm stored fitted a signed char; if it
      did, the result is right, whatever the divisor; if not, the quotient is what has been stored. */
  method Div(ddivd: Blk, ddivr: Blk, divxyz: Blk) returns (r: DivResult, fits: bool)
    requires ddivd != ddivr && ddivd != divxyz && ddivr != divxyz && Number(ddivd.data) && Normal(ddivr.data)
    modifies ddivr`rd, divxyz
    ensures r.DivideByZero? <==> ddivr.data == []
    ensures r.Result? ==> fresh(r.quotient) && fresh(r.rem) && r.quotient != r.rem
    ensures r.Result? ==> (fits <==> DivisionFits(Val(ddivd.data), Val(ddivr.data)))
    ensures r.Result? && fits ==>
      && Normal(r.quotient.data) && Number(r.rem.data)
      && QuotientOf(Val(ddivd.data), Val(ddivr.data), Val(r.quotient.data), Val(r.rem.data))
      && (Normal(ddivd.data) || (Digits(ddivd.data) && Digits(ddivr.data) && |ddivd.data| >= |ddivr.data|) ==>
          Normal(r.rem.data))
    ensures r.Result? && Digits(ddivd.data) && Digits(ddivr.data) ==>
        r.quotient.data == QuotientChars(ddivd.data, ddivr.data)
  {
    hide Val, Pow100, QuotientOf, DigitsOf, Number, Digits, Overshoots, LongDivide, Carried, NoZeros, Leading, Righted;
    fits := true;
    if ddivr.Length() == 0 {
      return DivideByZero, true;
    }
    ghost var x, y := Val(ddivd.data), Val(ddivr.data);
    NormalZero(ddivr.data);
    var divr, sr := Magnitude(ddivr);
    var divd, sd := CopyMagnitude(ddivd);
    DivisorIs(y, divr.data);
    DigitCount(Abs(x), divd.data);
    DigitsNotNegative(ddivd.data);
    DigitsNotNegative(ddivr.data);
    var offset := divd.Length() - divr.Length();
    if offset < 0 {
      Shorter(x, y, divd.data, divr.data);
      var p := new Blk();
      ValOfNothing();
      DigitsAreNumber(divd.data);
      if sd {
        ChSign(divd);
      }
      return Result(p, divd), true;
    }
    RoomAbove(divr.data, Abs(x), offset);
    var p, rest;
    p, rest, fits := DivMagnitudes(divd, divr, divxyz, offset);
    ghost var qa, ra := Val(p.data), Val(rest.data);
    Finish(p, sr != sd);
    Finish(rest, sd);
    if fits {
      SignedQuotient(x, y, qa, ra);
    }
    r := Result(p, rest);
  }

  lemma DivisorIs(y: int, v: seq<int>)
    requires y != 0 && Digits(v) && Normal(v) && Val(v) == Abs(y)
    ensures Divisor(v) && v == DigitsOf(Abs(y))
  {
    hide Val, Pow100;
    DigitsOfNumber(Abs(y));
    NormalZero(v);
    NormalUnique(v, DigitsOf(Abs(y)));
  }

  // ---- Which divisions can be relied on ----

  lemma SafeFits(x: int, y: int)
    requires SafeDivisor(y)
    ensures DivisionFits(x, y)
  {
    hide Val, Pow100, Safe, Overshoots, DigitsOf;
    var d, v := DigitsOf(Abs(x)), DigitsOf(Abs(y));
    DigitsOfNumber(Abs(x));
    DigitsOfNumber(Abs(y));
    if v != [] && |d| >= |v| {
      BeginDividing(v, d, |d| - |v|);
      SafeNeverOvershoots(v, Abs(x), |d| - |v|);
    }
  }

  /** The trap's dividend has one digit more than the divisor. */
  lemma TrapFails(y: int)
    requires !SafeDivisor(y)
    ensures !DivisionFits(Trap(y), y)
  {
    hide Val, Pow100, Overshoots, DigitsOf, Safe, Leading, TrapFor;
    var v := DigitsOf(Abs(y));
    DigitsOfNumber(Abs(y));
    TrapPositive(v);
    TrapOvershoots(v);
    TrapSize(v);
    var d := DigitsOf(TrapFor(v));
    DigitsOfNumber(TrapFor(v));
    DigitCount(TrapFor(v), d);
    if |d| > |v| + 1 {
      Pow100Grows(|v| + 1, |d| - 1);
    }
    RoomAbove(v, TrapFor(v), 1);
  }

  lemma TrapSize(v: seq<int>)
    requires Divisor(v) && !Safe(v)
    ensures TrapFor(v) < Pow100(|v| + 1)
  {
    hide Val, Pow100, Leading;
    Measure(v);
    LeadingBelow(v);
    NextPower(|v| - 1);
    NextPower(|v|);
    MulMono(Leading(v) + 1, 9999, Pow100(|v| - 1));
  }

  /** A divisor passes the test if and only if it divides every number without overflow. */
  lemma SafeForAll(y: int)
    ensures SafeDivisor(y) <==> forall x :: DivisionFits(x, y)
  {
    hide DivisionFits;
    if SafeDivisor(y) {
      forall x ensures DivisionFits(x, y) {
        SafeFits(x, y);
      }
    } else {
      TrapFails(y);
    }
  }

  /** 1001299 is unsafe, and 801000000 shows it. */
  lemma UnsafeExample()
    ensures !SafeDivisor(1001299) && !DivisionFits(801000000, 1001299)
  {
    var v := [99, 12, 0, 1];
    UnsafeDivisor();
    DivisorKnown(1001299, v);
    assert Pow100(3) == 1000000;
    TrapFails(1001299);
  }

  /** Where a division fits, the characters of its quotient are the quotient. */
  lemma QuotientRight(x: nat, y: nat)
    requires y > 0 && DivisionFits(x, y)
    ensures
      var q := QuotientChars(DigitsOf(x), DigitsOf(y));
      Digits(q) && Normal(q) && Val(q) == x / y
  {
    hide Val, Pow100, DigitsOf, Overshoots, LongDivide, Leading, Carried, Dividing, DcDiv.Divided, NoZeros, Righted;
    var d, v := DigitsOf(x), DigitsOf(y);
    DigitsOfNumber(x);
    DigitsOfNumber(y);
    NormalZero(v);
    Measure(v);
    if |d| < |v| {
      Shorter(x, y, d, v);
      DivModUnique(x, y, 0, x);
      ValOfNothing();
    } else {
      var o := |d| - |v|;
      BeginDividing(v, d, o);
      LongDivision(v, x, d + [0], [], o);
      var r := LongDivide(v, d + [0], o);
      assert r.q + [] == r.q;
      RightedValue(v, x, r);
      CarriedValue(Righted(r));
      var q := NoZeros(Carried(Righted(r), 0));
      PrefixDigits(q, Carried(Righted(r), 0));
      DigitsNormal(q);
    }
  }

  lemma DigitsNormal(q: seq<int>)
    requires Digits(q) && (q != [] ==> q[|q| - 1] != 0)
    ensures Normal(q)
  {
  }

  lemma RightedValue(v: seq<int>, dd: int, r: Long)
    requires Divisor(v) && Val(v) > 0
    requires Divided(v, dd, r.e, r.q, r.carry) && r.q[0] == SChar(r.dig) && 0 <= r.dig <= 116
    ensures SmallDigits(Righted(r)) && Val(Righted(r)) == dd / Val(v)
  {
    hide Val, Pow100;
    var q := Righted(r);
    var left := Val(r.e) - r.carry * Pow100(|r.e|) + if r.carry != 0 then Val(v) else 0;
    DigitsBound(r.e);
    if r.carry != 0 {
      ValSet(r.q, 0, r.dig - 1);
      FirstPower();
      MulSub(Val(r.q), 1, Val(v));
    }
    DivModUnique(dd, Val(v), Val(q), left);
  }
}
