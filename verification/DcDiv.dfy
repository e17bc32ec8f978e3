/** Long division with estimated digits. */
module DcDiv {
  import opened Arith
  import opened DcValue
  import opened DcBlk
  import opened DcAdd
  import opened DcMult
  import opened DcEstimate

  const SCHAR_MAX: int := 127

  /** Division and remainder of C, which cut towards zero. */
  function CDiv(a: int, b: int): int
    requires b > 0
  {
    if a >= 0 then a / b else -((-a) / b)
  }

  function CMod(a: int, b: int): int
    requires b > 0
  {
    a - CDiv(a, b) * b
  }

  // ---- Leading characters ----

  method LeadingThree(p: Blk) returns (td: int)
    requires p.data != []
    modifies p`rd
    ensures td == TopThree(p.data)
  {
    p.FsFile();
    var c := p.SbackC();
    td := c * 100;
    c := 0;
    if !p.SfBeg() {
      c := p.SbackC();
    }
    td := (td + c) * 100;
    c := 0;
    if !p.SfBeg() {
      c := p.SbackC();
    }
    td := td + c;
  }

  method MeasureDivisor(divr: Blk) returns (c: int, magic: int)
    requires Digits(divr.data) && divr.data != []
    modifies divr`rd
    ensures c == Leading(divr.data) && magic == if Magic(divr.data) then 1 else 0
  {
    magic := 0;
    divr.FsFile();
    c := divr.SbackC();
    if c < 10 {
      magic := magic + 1;
    }
    var d := 0;
    if !divr.SfBeg() {
      d := divr.SbackC();
    }
    c := c * 100 + d;
    if magic > 0 {
      d := 0;
      if !divr.SfBeg() {
        d := divr.SbackC();
      }
      c := (c * 100 + d) * 2;
      c := CDiv(c, 25);
    }
  }

  // ---- The digit times the divisor ----

  ghost predicate Multiplying(v: seq<int>, dig: int, x: seq<int>, i: nat, carry: int) {
    && i <= |v| && i <= |x| && Digits(x[..i]) && 0 <= carry <= SCHAR_MAX
    && Val(x[..i]) + carry * Pow100(i) == dig * Val(v[..i])
  }

  lemma MultiplyDigit(v: seq<int>, dig: int, x: seq<int>, i: nat, carry: int, d: int, x': seq<int>)
    requires Multiplying(v, dig, x, i, carry) && i < |v| && Digits(v) && 0 <= dig <= SCHAR_MAX
    requires d == v[i] * dig + carry && |x'| > i && x'[..i] == x[..i] && x'[i] == d % 100
    ensures d >= 0 && Multiplying(v, dig, x', i + 1, d / 100)
  {
    hide Val, Pow100;
    MulNonNeg(v[i], dig);
    MulMono(v[i], 99, dig);
    assert d == 100 * (d / 100) + d % 100;
    ValStep(v, i);
    ValStep(x', i);
    assert x'[..i + 1] == x[..i] + [d % 100];
    NextPower(i);
    var p := Pow100(i);
    assert dig * Val(v[..i + 1]) == dig * Val(v[..i]) + (v[i] * dig) * p by {
      MulAdd(Val(v[..i]), v[i] * p, dig);
      MulAssoc(dig, v[i], p);
    }
    assert (d % 100) * p + (d / 100) * (100 * p) == (v[i] * dig) * p + carry * p by {
      MulAssoc(d / 100, 100, p);
      MulAdd(d % 100, d / 100 * 100, p);
      MulAdd(v[i] * dig, carry, p);
    }
  }

  lemma MultiplyNone(v: seq<int>, dig: int, x: seq<int>)
    ensures Multiplying(v, dig, x, 0, 0)
  {
  }

  /** The product of the divisor and a digit, for a digit that is one. */
  ghost predicate Product(v: seq<int>, dig: int, x: seq<int>) {
    && |x| > |v| && Digits(x[..|v|]) && 0 <= x[|v|] <= SCHAR_MAX
    && Val(x[..|v| + 1]) == dig * Val(v)
  }

  /** `dig` times the characters of `v` and a carry, as C works it out, low characters first. */
  ghost function Times(v: seq<int>, dig: int, carry: int): (x: seq<int>)
    ensures |x| == |v| + 1
  {
    if v == [] then [SChar(carry)]
    else
      var d := v[0] * dig + carry;
      [SChar(CMod(d, 100))] + Times(v[1..], dig, CDiv(d, 100))
  }

  lemma TimesAt(v: seq<int>, dig: int, carry: int, i: nat)
    requires i < |v|
    ensures
      var d := v[i] * dig + carry;
      Times(v[i..], dig, carry) == [SChar(CMod(d, 100))] + Times(v[i + 1..], dig, CDiv(d, 100))
  {
    assert v[i..][1..] == v[i + 1..];
  }

  method MultiplyDivisor(divr: Blk, divxyz: Blk, dig: int)
    requires divr != divxyz
    modifies divr`rd, divxyz
    ensures |divxyz.data| > |divr.data| && divxyz.rd == 0
    ensures divxyz.data[..|divr.data| + 1] == Times(divr.data, dig, 0)
  {
    hide Times;
    ghost var v := divr.data;
    divr.Rewind();
    divxyz.Rewind();
    var carry := 0;
    assert v[0..] == v;
    while !divr.SfEof()
      invariant divr.rd == divxyz.rd <= |v| && divxyz.rd <= |divxyz.data|
      invariant divxyz.data[..divr.rd] + Times(v[divr.rd..], dig, carry) == Times(v, dig, 0)
      decreases |v| - divr.rd
    {
      ghost var i, x := divr.rd, divxyz.data;
      TimesAt(v, dig, carry, i);
      var d := divr.SgetC();
      d := d * dig + carry;
      carry := CDiv(d, 100);
      divxyz.SalterC(CMod(d, 100));
      assert divxyz.data[..i + 1] == x[..i] + [SChar(CMod(d, 100))];
    }
    ghost var x := divxyz.data;
    TimesNone(v[|v|..], dig, carry);
    divxyz.SalterC(carry);
    assert divxyz.data[..|v| + 1] == x[..|v|] + [SChar(carry)];
    divxyz.Rewind();
  }

  lemma TimesNone(v: seq<int>, dig: int, carry: int)
    requires v == []
    ensures Times(v, dig, carry) == [SChar(carry)]
  {
  }

  /** For a digit that is one it is the product. */
  lemma {:induction false} TimesFrom(v: seq<int>, dig: int, x: seq<int>, carry: int)
    requires Digits(v) && 0 <= dig <= SCHAR_MAX && Multiplying(v, dig, x, |x|, carry)
    ensures Product(v, dig, x + Times(v[|x|..], dig, carry))
    decreases |v| - |x|
  {
    hide Val, Pow100, Digits, Product, Multiplying, Times, SChar, CMod, CDiv;
    var i := |x|;
    MultiplyingBounds(v, dig, x, carry);
    if i == |v| {
      TimesNone(v[i..], dig, carry);
      assert (x + [carry])[..i] == x == x[..i];
      ProductDone(v, dig, x, carry, x + [carry]);
    } else {
      var d := v[i] * dig + carry;
      ProductNonNeg(v, i, dig, carry);
      TimesAt(v, dig, carry, i);
      DigitKept(d);
      var x' := x + [d % 100];
      assert x'[..i] == x == x[..i];
      MultiplyDigit(v, dig, x, i, carry, d, x');
      TimesFrom(v, dig, x', d / 100);
      JoinThree(x, [d % 100], Times(v[i + 1..], dig, d / 100));
    }
  }

  lemma DigitKept(d: int)
    requires d >= 0
    ensures SChar(CMod(d, 100)) == d % 100 && CDiv(d, 100) == d / 100
  {
  }

  lemma JoinThree<T>(a: seq<T>, b: seq<T>, c: seq<T>)
    ensures a + b + c == a + (b + c)
  {
  }

  lemma MultiplyingBounds(v: seq<int>, dig: int, x: seq<int>, carry: int)
    requires Multiplying(v, dig, x, |x|, carry)
    ensures |x| <= |v| && 0 <= carry <= SCHAR_MAX
  {
  }

  lemma ProductNonNeg(v: seq<int>, i: nat, dig: int, carry: int)
    requires Digits(v) && i < |v| && 0 <= dig && 0 <= carry
    ensures v[i] * dig + carry >= 0
  {
    MulNonNeg(v[i], dig);
  }

  lemma ProductDone(v: seq<int>, dig: int, x: seq<int>, carry: int, x': seq<int>)
    requires Multiplying(v, dig, x, |v|, carry) && |x'| > |v| && x'[..|v|] == x[..|v|] && x'[|v|] == carry
    ensures Product(v, dig, x')
  {
    hide Val, Pow100;
    ValStep(x', |v|);
    assert v[..|v|] == v;
  }

  // ---- Subtracting it ----

  /** The first `i` characters of `x` have been subtracted from `e`, starting at `offset`. */
  ghost predicate Subtracting(e: seq<int>, x: seq<int>, offset: nat, e': seq<int>, i: nat, carry: int) {
    && 0 < |e| == |e'| && offset + i <= |e| && i <= |x| && 0 <= carry <= 1
    && (if carry == 1 then i > 0 && e'[offset + i - 1] < 100 else i > 0 ==> e'[offset + i - 1] >= 0)
    && Digits(e'[..|e| - 1]) && e'[offset + i..] == e[offset + i..]
    && Val(e') - carry * Pow100(offset + i) == Val(e) - Val(x[..i]) * Pow100(offset)
  }

  /** Dividend and product are made of digits, except that top characters may be larger. */
  ghost predicate Subtractable(e: seq<int>, x: seq<int>, offset: nat) {
    && offset < |e| && Topped(e) && e[|e| - 1] <= SCHAR_MAX
    && |x| >= |e| - offset && Digits(x[..|e| - 1 - offset]) && 0 <= x[|e| - 1 - offset] <= SCHAR_MAX
  }

  lemma SubtractDigit(e: seq<int>, x: seq<int>, offset: nat, e': seq<int>, i: nat, carry: int, d: int, carry': int)
    requires Subtractable(e, x, offset) && Subtracting(e, x, offset, e', i, carry) && offset + i < |e|
    requires 0 <= carry' <= 1 && d == e[offset + i] - x[i] - carry + 100 * carry'
    requires carry' == if e[offset + i] - x[i] - carry < 0 then 1 else 0
    ensures -28 <= d <= SCHAR_MAX && Subtracting(e, x, offset, e'[offset + i := d], i + 1, carry')
  {
    hide Val, Pow100;
    var k := offset + i;
    assert e'[k] == e[k..][0] == e[k];
    assert k < |e| - 1 ==> e[k] == e[..|e| - 1][k] && x[i] == x[..|e| - 1 - offset][i];
    assert -28 <= d <= SCHAR_MAX && (k < |e| - 1 ==> 0 <= d < 100);
    var e'' := e'[k := d];
    assert e''[k + 1..] == e'[k..][1..] == e[k + 1..];
    assert Digits(e''[..|e| - 1]);
    ValSet(e', k, d);
    ValStep(x, i);
    NextPower(k);
    SubtractArithmetic(Val(e), Val(e'), Val(x[..i]), Val(x[..i + 1]), e[k], x[i], carry, d, carry', offset, i);
  }

  lemma SubtractArithmetic(e: int, e': int, part: int, part': int, ek: int, xi: int, carry: int, d: int, carry': int,
                           offset: nat, i: nat)
    requires e' - carry * Pow100(offset + i) == e - part * Pow100(offset)
    requires part' == part + xi * Pow100(i) && d == ek - xi - carry + 100 * carry'
    ensures e' + (d - ek) * Pow100(offset + i) - carry' * (100 * Pow100(offset + i)) == e - part' * Pow100(offset)
  {
    var p, o, q := Pow100(i), Pow100(offset), Pow100(offset + i);
    Pow100Adds(offset, i);
    hide Pow100;
    assert part' * o == part * o + xi * q by {
      MulAdd(part, xi * p, o);
      MulAssoc(xi, p, o);
    }
    assert (d - ek) * q - carry' * (100 * q) == 0 - xi * q - carry * q by {
      MulAssoc(carry', 100, q);
      MulSub(d - ek, carry' * 100, q);
      SameProduct(d - ek - carry' * 100, -xi - carry, q);
      MulSub(-xi, carry, q);
    }
  }

  lemma SubtractNone(e: seq<int>, x: seq<int>, offset: nat)
    requires Subtractable(e, x, offset)
    ensures Subtracting(e, x, offset, e, 0, 0)
  {
  }

  /** What is stored by a subtraction, the last number before it was stored, and whether one is borrowed. */
  datatype Difference = Difference(data: seq<int>, d: int, carry: int)

  /** The characters of `x` from those of `e`, low characters first. */
  ghost function Minus(e: seq<int>, x: seq<int>, d: int, carry: int): (r: Difference)
    requires |x| == |e| && 0 <= carry <= 1
    ensures |r.data| == |e| && 0 <= r.carry <= 1
  {
    if e == [] then Difference([], d, carry)
    else
      var n := e[0] - x[0] - carry;
      var k := if n < 0 then n + 100 else n;
      var rest := Minus(e[1..], x[1..], k, if n < 0 then 1 else 0);
      rest.(data := [SChar(k)] + rest.data)
  }

  lemma MinusAt(e: seq<int>, x: seq<int>, d: int, carry: int, i: nat)
    requires |x| == |e| && 0 <= carry <= 1 && i < |e|
    ensures
      var n := e[i] - x[i] - carry;
      var k := if n < 0 then n + 100 else n;
      var r, rest := Minus(e[i..], x[i..], d, carry), Minus(e[i + 1..], x[i + 1..], k, if n < 0 then 1 else 0);
      r.data == [SChar(k)] + rest.data && r.d == rest.d && r.carry == rest.carry
  {
    assert e[i..][1..] == e[i + 1..] && x[i..][1..] == x[i + 1..];
  }

  /** From character `k` on, what is left to subtract will lead to `goal`. */
  ghost predicate Underway(e: seq<int>, k: nat, f: seq<int>, x: seq<int>, d: int, carry: int, goal: Difference) {
    && |f| == |x| <= |e| == |goal.data| && |e| - |f| <= k <= |e| && 0 <= carry <= 1
    && var i := k - (|e| - |f|);
    && e[k..] == f[i..]
    && var rest := Minus(f[i..], x[i..], d, carry);
    && e[..k] + rest.data == goal.data && rest.d == goal.d && rest.carry == goal.carry
  }

  lemma UnderwayNext(e: seq<int>, k: nat, f: seq<int>, x: seq<int>, d: int, carry: int, goal: Difference)
    requires Underway(e, k, f, x, d, carry, goal) && k < |e|
    ensures
      var i := k - (|e| - |f|);
      var n := e[k] - x[i] - carry;
      var stored := if n < 0 then n + 100 else n;
      Underway(e[k := SChar(stored)], k + 1, f, x, stored, if n < 0 then 1 else 0, goal)
  {
    hide Minus, SChar;
    var i := k - (|e| - |f|);
    MinusAt(f, x, d, carry, i);
    assert e[k] == e[k..][0] == f[i];
    var c := SChar(if e[k] - x[i] - carry < 0 then e[k] - x[i] - carry + 100 else e[k] - x[i] - carry);
    assert e[k := c][..k + 1] == e[..k] + [c];
    assert e[k := c][k + 1..] == e[k..][1..] == f[i + 1..];
  }

  lemma UnderwayEnds(e: seq<int>, f: seq<int>, x: seq<int>, d: int, carry: int, goal: Difference)
    requires Underway(e, |e|, f, x, d, carry, goal)
    ensures goal == Difference(e, d, carry)
  {
    assert e[..|e|] + [] == e;
  }

  lemma UnderwayStarts(e: seq<int>, offset: nat, x: seq<int>)
    requires offset <= |e| && |x| == |e| - offset
    ensures
      var r := Minus(e[offset..], x, 0, 0);
      Underway(e, offset, e[offset..], x, 0, 0, r.(data := e[..offset] + r.data))
  {
    assert e[offset..][0..] == e[offset..] && x[0..] == x;
  }

  /** Subtracts the product from the dividend, from character `offset` on; `carry` tells that it was too large. */
  method SubtractProduct(divd: Blk, divxyz: Blk, offset: nat) returns (d: int, carry: int)
    requires divd != divxyz && divxyz.rd == 0 && offset < |divd.data| && |divd.data| - offset <= |divxyz.data|
    modifies divd, divxyz`rd
    ensures |divd.data| == |old(divd.data)| == divd.rd && 0 <= carry <= 1
    ensures
      var r := Minus(old(divd.data)[offset..], divxyz.data[..|divd.data| - offset], 0, 0);
      divd.data == old(divd.data)[..offset] + r.data && d == r.d && carry == r.carry
  {
    hide Minus, SChar, Underway;
    ghost var e := divd.data;
    ghost var f, x := e[offset..], divxyz.data[..|e| - offset];
    ghost var r := Minus(f, x, 0, 0);
    ghost var goal := r.(data := e[..offset] + r.data);
    d := 0;
    divd.SeekC(offset);
    assert divd.data == e;
    carry := 0;
    UnderwayStarts(e, offset, x);
    while !divd.SfEof()
      invariant offset <= divd.rd <= |divd.data| == |e| && divxyz.rd == divd.rd - offset && 0 <= carry <= 1
      invariant Underway(divd.data, divd.rd, f, x, d, carry, goal)
      decreases |e| - divd.rd
    {
      UnderwayNext(divd.data, divd.rd, f, x, d, carry, goal);
      d := divd.SlookC();
      var n := 0;
      if !divxyz.SfEof() {
        n := divxyz.SgetC();
      }
      d := d - n - carry;
      carry := 0;
      if d < 0 {
        d := d + 100;
        carry := 1;
      }
      divd.SalterC(d);
    }
    UnderwayEnds(divd.data, f, x, d, carry, goal);
  }

  lemma MinusNone(e: seq<int>, x: seq<int>, d: int, carry: int)
    requires e == x == [] && 0 <= carry <= 1
    ensures Minus(e, x, d, carry) == Difference([], d, carry)
  {
  }

  /** For a dividend and a product of digits it is their difference. */
  lemma {:induction false} MinusFrom(e: seq<int>, x: seq<int>, offset: nat, e': seq<int>, i: nat, d: int, carry: int)
    requires Subtractable(e, x, offset) && Subtracting(e, x, offset, e', i, carry) && |x| == |e| - offset
    requires i > 0 ==> d == e'[offset + i - 1]
    ensures
      var r := Minus(e[offset..][i..], x[i..], d, carry);
      var f := e'[..offset + i] + r.data;
      Subtracting(e, x, offset, f, |x|, r.carry) && r.d == f[|e| - 1]
    decreases |x| - i
  {
    hide Val, Pow100, Subtractable, Subtracting, Minus;
    SubtractingBounds(e, x, offset, e', i, carry);
    if i == |x| {
      MinusNone(e[offset..][i..], x[i..], d, carry);
      assert e'[..offset + i] + [] == e';
    } else {
      MinusAt(e[offset..], x, d, carry, i);
      var n := e[offset + i] - x[i] - carry;
      var carry' := if n < 0 then 1 else 0;
      var k := n + 100 * carry';
      SubtractDigit(e, x, offset, e', i, carry, k, carry');
      var f := e'[offset + i := k];
      MinusFrom(e, x, offset, f, i + 1, k, carry');
      var r, rest := Minus(e[offset..][i..], x[i..], d, carry), Minus(e[offset..][i + 1..], x[i + 1..], k, carry');
      assert SChar(k) == k;
      assert f[..offset + i + 1] + rest.data == e'[..offset + i] + r.data;
    }
  }

  lemma SubtractingBounds(e: seq<int>, x: seq<int>, offset: nat, e': seq<int>, i: nat, carry: int)
    requires Subtracting(e, x, offset, e', i, carry) && |x| == |e| - offset && Subtractable(e, x, offset)
    ensures |e'| == |e| && offset + i <= |e| && 0 <= carry <= 1 && 0 < |x|
  {
  }

  // ---- One step ----

  /** The divisor at the place of quotient digit `o`. */
  ghost function Shifted(v: seq<int>, o: nat): int { Val(v) * Pow100(o) }

  /** The state before the quotient digit at `o`: `q` are the digits above it, `e` what is left of the dividend `dd`. */
  ghost predicate Dividing(v: seq<int>, dd: int, e: seq<int>, q: seq<int>, o: nat) {
    && v != [] && |e| == o + |v| + 1 && Topped(e) && e[|e| - 1] <= 115
    && Val(e) < 116 * Shifted(v, o)
    && Val(e) + Val(q) * Shifted(v, o + 1) == dd
    && SmallDigits(q)
  }

  ghost predicate SmallDigits(q: seq<int>) {
    forall i {:trigger q[i]} :: 0 <= i < |q| ==> 0 <= q[i] <= 116
  }

  /** The state after the last digit; with a carry the digit was one too large. */
  ghost predicate Divided(v: seq<int>, dd: int, e: seq<int>, q: seq<int>, carry: int) {
    && v != [] && |e| == |v| + 1 && Digits(e) && 0 <= carry <= 1 && q != [] && SmallDigits(q)
    && Val(e) - carry * Pow100(|e|) + Val(q) * Val(v) == dd
    && (carry == 0 ==> Val(e) < Val(v))
    && (carry == 1 ==> Val(e) - Pow100(|e|) < 0 <= Val(e) - Pow100(|e|) + Val(v) && q[0] > 0)
  }

  ghost predicate Divisor(v: seq<int>) {
    v != [] && Digits(v) && Normal(v)
  }

  /** The divisor's measure at the place of digit `o`. */
  lemma Scaled(v: seq<int>, o: nat)
    requires Divisor(v)
    ensures
      var f, c, x, u := Factor(v), Leading(v), 10000 * Shifted(v, o), Pow100(o + |v|);
      && ((f == 8 && c >= 800) || (f == 1 && c >= 1000)) && u > 0 && x > 0
      && c * u <= f * x && 100 * (f * x) <= (100 * c + 104) * u
      && (Safe(v) ==> f * x <= (c + 1) * u)
  {
    Measure(v);
    NormalPositive(v);
    Pow100Adds(|v|, o);
    var f, c, w, p, m := Factor(v), Leading(v), Val(v), Pow100(o), Pow100(|v|);
    hide Pow100, Val, TopThree;
    MulAssoc(f, 10000 * w, p);
    MulAssoc(10000, w, p);
    assert c * (m * p) <= f * (10000 * (w * p)) by {
      MulAssoc(c, m, p);
      MulMono(c * m, f * (10000 * w), p);
    }
    assert 100 * (f * (10000 * (w * p))) <= (100 * c + 104) * (m * p) by {
      MulAssoc(100 * c + 104, m, p);
      MulMono(100 * (f * (10000 * w)), (100 * c + 104) * m, p);
      MulAssoc(100, f * (10000 * w), p);
    }
    if Safe(v) {
      MulAssoc(c + 1, m, p);
      MulMono(f * (10000 * w), (c + 1) * m, p);
    }
    MulMono(1, w, p);
  }

  lemma EstimateHere(v: seq<int>, dd: int, e: seq<int>, q: seq<int>, o: nat)
    requires Divisor(v) && Dividing(v, dd, e, q, o)
    ensures Estimating(Factor(v), Leading(v), 10000 * Shifted(v, o), Pow100(o + |v|), TopThree(e), 10000 * Val(e))
    ensures Safe(v) ==> Factor(v) * (10000 * Shifted(v, o)) <= (Leading(v) + 1) * Pow100(o + |v|)
  {
    hide Pow100, Val, TopThree, Safe, Shifted, Leading, Factor;
    Scaled(v, o);
    TopThreeBounds(e);
  }

  lemma TopOf(e: seq<int>)
    requires e != [] && Digits(e[..|e| - 1])
    ensures
      var t, p := e[|e| - 1], Pow100(|e| - 1);
      t * p <= Val(e) < (t + 1) * p
  {
    DigitsBound(e[..|e| - 1]);
    MulAdd(e[|e| - 1], 1, Pow100(|e| - 1));
  }

  lemma TopBelow(e: seq<int>, b: int)
    requires e != [] && Digits(e[..|e| - 1]) && Val(e) < b * Pow100(|e| - 1)
    ensures e[|e| - 1] < b
  {
    TopOf(e);
    if e[|e| - 1] >= b {
      MulMono(b, e[|e| - 1], Pow100(|e| - 1));
    }
  }

  lemma TopAtLeast(e: seq<int>, b: int)
    requires e != [] && Digits(e[..|e| - 1]) && Val(e) >= b * Pow100(|e| - 1)
    ensures e[|e| - 1] >= b
  {
    TopOf(e);
    if e[|e| - 1] + 1 <= b {
      MulMono(e[|e| - 1] + 1, b, Pow100(|e| - 1));
    }
  }

  /** What has been subtracted is the digit times the divisor in its place. */
  lemma Subtracted(v: seq<int>, dig: int, e: seq<int>, x: seq<int>, e': seq<int>, o: nat, carry: int)
    requires |e| == o + |v| + 1 && Product(v, dig, x) && Subtracting(e, x, o, e', |e| - o, carry)
    ensures Val(e') - carry * Pow100(|e|) == Val(e) - dig * Shifted(v, o)
    ensures carry == 1 ==> e'[|e| - 1] < 100
    ensures carry == 0 ==> e'[|e| - 1] >= 0
  {
    hide Val, Pow100;
    MulAssoc(dig, Val(v), Pow100(o));
  }

  lemma CanSubtract(v: seq<int>, dig: int, e: seq<int>, x: seq<int>, o: nat)
    requires |e| == o + |v| + 1 && Topped(e) && e[|e| - 1] <= SCHAR_MAX && Product(v, dig, x)
    ensures Subtractable(e, x, o)
  {
  }

  lemma NoCarryArithmetic(t: int, p: int, e: int, carry: int, left: int, w: int)
    requires p > 0 && t * p <= e < (t + 1) * p && 0 <= carry <= 1 && (carry == 1 ==> t < 100)
    requires left == e - carry * (100 * p) && 0 <= left && 100 * left < 116 * w && w <= p
    ensures carry == 0 && 0 <= t <= 1
  {
    if carry == 1 {
      MulMono(t + 1, 100, p);
    } else if t < 0 {
      MulMono(t + 1, 0, p);
    } else if t >= 2 {
      MulMono(2, t, p);
    }
  }

  lemma PlaceBound(v: seq<int>, o: nat)
    requires Digits(v)
    ensures Shifted(v, o) <= Pow100(o + |v|)
  {
    hide Pow100, Val;
    DigitsBound(v);
    Pow100Adds(|v|, o);
    MulMono(Val(v), Pow100(|v|), Pow100(o));
  }

  /** An estimate that was not too large leaves no carry, and at most 1 on top. */
  lemma NoCarry(v: seq<int>, e: seq<int>, e': seq<int>, o: nat, carry: int, left: int)
    requires Divisor(v) && |e'| == |e| == o + |v| + 1 && Digits(e'[..|e| - 1]) && 0 <= carry <= 1
    requires carry == 1 ==> e'[|e| - 1] < 100
    requires left == Val(e') - carry * Pow100(|e|) && 0 <= left && 100 * left < 116 * Shifted(v, o)
    ensures carry == 0 && 0 <= e'[|e| - 1] <= 1
  {
    hide Pow100, Val;
    NextPower(|e| - 1);
    TopOf(e');
    PlaceBound(v, o);
    NoCarryArithmetic(e'[|e| - 1], Pow100(|e| - 1), Val(e'), carry, left, Shifted(v, o));
  }

  /** The top character moves into the one below. */
  ghost function Folded(e: seq<int>): seq<int>
    requires |e| > 1
  {
    var n := |e| - 1;
    if e[n] > 0 then e[..n][n - 1 := e[n - 1] + 100] else e[..n]
  }

  lemma FoldedSize(e: seq<int>)
    requires |e| > 1
    ensures |Folded(e)| == |e| - 1
    ensures e[|e| - 1] > 0 ==> Folded(e)[|e| - 2] == e[|e| - 2] + 100
  {
  }

  lemma FoldedIs(e: seq<int>, d: int, f: seq<int>)
    requires |e| > 1
    requires f == if d > 0 then e[|e| - 2 := SChar(e[|e| - 2] + 100)][..|e| - 1] else e[..|e| - 1]
    ensures d == e[|e| - 1] && (d > 0 ==> 0 <= e[|e| - 2] + 100 <= SCHAR_MAX) ==> f == Folded(e)
  {
    if d == e[|e| - 1] && d > 0 && 0 <= e[|e| - 2] + 100 <= SCHAR_MAX {
      assert f == e[..|e| - 1][|e| - 2 := e[|e| - 2] + 100];
    }
  }

  lemma FoldedValue(e: seq<int>)
    requires |e| > 1 && 0 <= e[|e| - 1] <= 1 && Digits(e[..|e| - 1])
    ensures Val(Folded(e)) == Val(e) && Topped(Folded(e))
  {
    hide Val, Pow100;
    var n := |e| - 1;
    var t := e[..n];
    assert Digits(t[..n - 1]);
    ValStep(e, n);
    assert e[..n + 1] == e;
    ValSet(t, n - 1, e[n - 1] + 100);
    NextPower(n - 1);
    assert t[n - 1 := e[n - 1] + 100][..n - 1] == t[..n - 1];
  }

  /** The digit estimated for what is left of the dividend, before the last one. */
  ghost function DigitAt(v: seq<int>, e: int, o: nat): int
    requires v != []
  {
    if Leading(v) < 0 then 0 else Factor(v) * (10000 * e / Pow100(o + |v|)) / (Leading(v) + 1)
  }

  /** Whether some digit before the last, from the one at `o` on, is estimated too large. */
  ghost predicate Overshoots(v: seq<int>, e: int, o: nat)
    requires v != []
    decreases o
  {
    o > 0 && var left := e - DigitAt(v, e, o) * Shifted(v, o); left < 0 || Overshoots(v, left, o - 1)
  }

  lemma TopThreeIs(e: seq<int>)
    requires Topped(e)
    ensures TopThree(e) == 10000 * Val(e) / Pow100(|e| - 1) && TopThree(e) >= 0
  {
    hide Val, Pow100, TopThree;
    TopThreeBounds(e);
    var p := Pow100(|e| - 1);
    MulAdd(TopThree(e), 1, p);
    DivModUnique(10000 * Val(e), p, TopThree(e), 10000 * Val(e) - TopThree(e) * p);
  }

  /** The estimated digit, and what its product leaves of the dividend. */
  lemma EstimateGives(v: seq<int>, dd: int, e: seq<int>, q: seq<int>, o: nat, dig: int)
    requires Divisor(v) && Dividing(v, dd, e, q, o) && e != []
    requires dig == Factor(v) * TopThree(e) / (Leading(v) + 1)
    ensures 0 <= dig <= 116 && dig == DigitAt(v, Val(e), o)
    ensures
      var left := Val(e) - dig * Shifted(v, o);
      && (left >= 0 ==> dig <= 115 && 100 * left < 116 * Shifted(v, o))
      && 10000 * left >= -5 * Pow100(o + |v|)
      && (Safe(v) ==> left >= 0)
  {
    hide Val, Pow100, TopThree, Safe, Shifted, Leading, Factor;
    EstimateHere(v, dd, e, q, o);
    TopThreeIs(e);
    var w := Shifted(v, o);
    DigitEstimate(Factor(v), Leading(v), 10000 * w, Pow100(o + |v|), TopThree(e), 10000 * Val(e), dig);
    MulAssoc(10000, dig, w);
    MulAssoc(dig, 10000, w);
  }

  lemma LastGives(v: seq<int>, dd: int, e: seq<int>, q: seq<int>, dig: int)
    requires Divisor(v) && Dividing(v, dd, e, q, 0) && e != []
    requires dig == Factor(v) * (TopThree(e) + 1) / Leading(v)
    ensures 0 <= dig <= 116
    ensures 0 - Val(v) <= Val(e) - dig * Val(v) < Val(v)
  {
    hide Val, TopThree, Dividing, Safe;
    EstimateHere(v, dd, e, q, 0);
    assert Pow100(0) == 1;
    var w := Val(v);
    LastEstimate(Factor(v), Leading(v), 10000 * w, Pow100(0 + |v|), TopThree(e), 10000 * Val(e), dig);
    MulAssoc(10000, dig - 1, w);
    MulAssoc(dig - 1, 10000, w);
    MulAssoc(10000, dig + 1, w);
    MulAssoc(dig + 1, 10000, w);
    MulSub(dig, 1, w);
    MulAdd(dig, 1, w);
  }

  lemma StepDone(v: seq<int>, dd: int, e: seq<int>, q: seq<int>, o: nat, dig: int, e': seq<int>, carry: int)
    requires Divisor(v) && Dividing(v, dd, e, q, o) && o > 0
    requires dig == Factor(v) * TopThree(e) / (Leading(v) + 1) && Val(e) - dig * Shifted(v, o) >= 0
    requires |e'| == |e| && Digits(e'[..|e| - 1]) && 0 <= carry <= 1 && (carry == 1 ==> e'[|e| - 1] < 100)
    requires Val(e') - carry * Pow100(|e|) == Val(e) - dig * Shifted(v, o)
    ensures 0 <= dig <= 115 && carry == 0 && 0 <= e'[|e| - 1] <= 1
    ensures e'[|e| - 1] > 0 ==> 0 <= e'[|e| - 2] + 100 <= 115
    ensures Dividing(v, dd, Folded(e'), [dig] + q, o - 1) == true && Val(Folded(e')) == Val(e) - dig * Shifted(v, o)
  {
    hide Val, Pow100, TopThree, Safe, Digits, Leading, Factor, SmallDigits, Shifted, Folded;
    SmallCons(dig, q);
    EstimateGives(v, dd, e, q, o, dig);
    var left := Val(e) - dig * Shifted(v, o);
    NoCarry(v, e, e', o, carry, left);
    FoldedValue(e');
    LeftOver(v, o, left);
    var f := Folded(e');
    FoldedSize(e');
    assert Val(f) == left && |f| == o + |v|;
    TopBelow(f, 116);
    QuotientGrows(v, dd, Val(e), left, q, o, dig);
  }

  lemma LeftOver(v: seq<int>, o: nat, left: int)
    requires Divisor(v) && o > 0 && 100 * left < 116 * Shifted(v, o)
    ensures left < 116 * Shifted(v, o - 1) && left < 116 * Pow100(o - 1 + |v|)
  {
    DigitsBound(v);
    Pow100Adds(o - 1, |v|);
    assert Pow100(o) == 100 * Pow100(o - 1);
    hide Pow100, Val;
    MulAssoc(Val(v), 100, Pow100(o - 1));
    MulAssoc(100, Val(v), Pow100(o - 1));
    MulMono(Val(v), Pow100(|v|), Pow100(o - 1));
  }

  lemma SmallCons(dig: int, q: seq<int>)
    ensures SmallDigits(q) && 0 <= dig <= 116 ==> SmallDigits([dig] + q)
    ensures [dig] + q != [] && ([dig] + q)[0] == dig
  {
  }

  lemma ValCons(dig: int, q: seq<int>)
    ensures Val([dig] + q) == dig + 100 * Val(q)
  {
    ValJoin([dig], q);
    assert Val([dig]) == dig;
    assert Pow100(1) == 100;
  }

  lemma ShiftedNext(v: seq<int>, o: nat)
    ensures Shifted(v, o + 1) == 100 * Shifted(v, o)
    ensures Shifted(v, 0) == Val(v)
  {
    hide Val;
    MulAssoc(Val(v), 100, Pow100(o));
    MulAssoc(100, Val(v), Pow100(o));
  }

  lemma QuotientGrows(v: seq<int>, dd: int, e: int, left: int, q: seq<int>, o: nat, dig: int)
    requires e + Val(q) * Shifted(v, o + 1) == dd && left == e - dig * Shifted(v, o)
    ensures left + Val([dig] + q) * Shifted(v, o) == dd
  {
    hide Val, Pow100, Shifted;
    ValCons(dig, q);
    ShiftedNext(v, o);
    var a, x := Val(q), Shifted(v, o);
    assert (dig + 100 * a) * x == dig * x + (100 * a) * x by { MulAdd(dig, 100 * a, x); }
    assert a * (100 * x) == (100 * a) * x by { MulAssoc(a, 100, x); }
  }

  lemma LastDone(v: seq<int>, dd: int, e: seq<int>, q: seq<int>, dig: int, e': seq<int>, carry: int)
    requires Divisor(v) && Dividing(v, dd, e, q, 0)
    requires dig == Factor(v) * (TopThree(e) + 1) / Leading(v)
    requires |e'| == |e| && Digits(e'[..|e| - 1]) && 0 <= carry <= 1
    requires (carry == 1 ==> e'[|e| - 1] < 100) && (carry == 0 ==> e'[|e| - 1] >= 0)
    requires Val(e') - carry * Pow100(|e|) == Val(e) - dig * Shifted(v, 0)
    ensures 0 <= dig <= 116 && Divided(v, dd, e', [dig] + q, carry) == true
  {
    hide Val, TopThree, Safe, Leading, Factor, Digits, SmallDigits, Shifted, Pow100;
    ShiftedNext(v, 0);
    SmallCons(dig, q);
    LastGives(v, dd, e, q, dig);
    var left := Val(e) - dig * Val(v);
    LastTop(v, e', carry, left);
    TopNonNeg(e);
    PositiveDigit(Val(e), dig, Val(v));
    QuotientGrows(v, dd, Val(e), left, q, 0, dig);
    AllDigits(e');
  }

  lemma PositiveDigit(e: int, dig: int, w: int)
    requires e >= 0 && dig >= 0
    ensures e - dig * w < 0 ==> dig > 0
  {
  }

  lemma LastTop(v: seq<int>, e: seq<int>, carry: int, left: int)
    requires Divisor(v) && |e| == |v| + 1 && Digits(e[..|v|]) && 0 <= carry <= 1
    requires (carry == 1 ==> e[|v|] < 100) && (carry == 0 ==> e[|v|] >= 0)
    requires left == Val(e) - carry * Pow100(|e|) && 0 - Val(v) <= left < Val(v)
    ensures 0 <= e[|v|] < 100 && (carry == 0 ==> left >= 0) && (carry == 1 ==> left < 0)
  {
    hide Val;
    DigitsBound(v);
    NextPower(|v|);
    TopOf(e);
    if carry == 0 {
      TopBelow(e, 1);
      MulNonNeg(e[|v|], Pow100(|v|));
    } else {
      TopAtLeast(e, 99);
      MulMono(e[|v|] + 1, 100, Pow100(|v|));
    }
  }

  lemma TopNonNeg(e: seq<int>)
    requires Topped(e)
    ensures Val(e) >= 0
  {
    TopOf(e);
    MulNonNeg(e[|e| - 1], Pow100(|e| - 1));
  }

  lemma AllDigits(e: seq<int>)
    requires e != [] && Digits(e[..|e| - 1]) && 0 <= e[|e| - 1] < 100
    ensures Digits(e)
  {
    assert e == e[..|e| - 1] + [e[|e| - 1]];
  }

  // ---- A digit that is too large ----

  /** It leaves 99 on top, and the character below would have to take another hundred. */
  lemma TooLargeSprings(e: seq<int>, carry: int, left: int)
    requires |e| >= 2 && Digits(e[..|e| - 1]) && 0 <= carry <= 1
    requires (carry == 1 ==> e[|e| - 1] < 100) && (carry == 0 ==> e[|e| - 1] >= 0)
    requires Val(e) - carry * Pow100(|e|) == left < 0 && 10000 * left >= -5 * Pow100(|e| - 1)
    ensures e[|e| - 1] > 0 && e[|e| - 2] + 100 > SCHAR_MAX
  {
    hide Val, Pow100;
    var m := |e| - 2;
    NextPower(m);
    NextPower(m + 1);
    NegativeCarries(e, carry, left);
    TopAtLeast(e, 99);
    var t := e[..m + 1];
    assert t[..m] == e[..m + 1][..m];
    ValStep(e, m + 1);
    assert e[..m + 2] == e;
    assert e[m + 1] == 99;
    TopAtLeast(t, 99);
  }

  lemma NegativeCarries(e: seq<int>, carry: int, left: int)
    requires e != [] && Digits(e[..|e| - 1]) && 0 <= carry <= 1 && (carry == 0 ==> e[|e| - 1] >= 0)
    requires Val(e) - carry * Pow100(|e|) == left < 0
    ensures carry == 1
  {
    hide Val, Pow100;
    TopOf(e);
    if carry == 0 {
      MulNonNeg(e[|e| - 1], Pow100(|e| - 1));
    }
  }

  /** For a divisor that is not safe, a dividend whose first quotient digit comes out too large. */
  ghost function TrapFor(v: seq<int>): int
    requires v != []
  {
    (Leading(v) + 1) * Pow100(|v| - 1)
  }

  lemma TrapOvershoots(v: seq<int>)
    requires Divisor(v) && !Safe(v)
    ensures Overshoots(v, TrapFor(v), 1)
  {
    hide Val, Leading, Pow100, Shifted;
    Measure(v);
    ShiftedNext(v, 0);
    NextPower(|v| - 1);
    NextPower(|v|);
    var c, p := Leading(v), Pow100(|v| - 1);
    assert 10000 * TrapFor(v) == (c + 1) * (10000 * p) by {
      MulAssoc(c + 1, 10000, p);
      MulAssoc(10000, c + 1, p);
    }
    DivModUnique(10000 * TrapFor(v), 10000 * p, c + 1, 0);
    DivModUnique(8 * (c + 1), c + 1, 8, 0);
    assert DigitAt(v, TrapFor(v), 1) == 8;
    assert (c + 1) * (100 * p) == 100 * TrapFor(v) by {
      MulAssoc(c + 1, 100, p);
      MulAssoc(100, c + 1, p);
    }
  }

  /** Safe divisors never overshoot. */
  lemma {:induction false} SafeNeverOvershoots(v: seq<int>, e: int, o: nat)
    requires Divisor(v) && Safe(v) && 0 <= e < 116 * Shifted(v, o)
    ensures !Overshoots(v, e, o)
    decreases o
  {
    if o > 0 {
      NumberEstimate(v, e, o);
      var left := e - DigitAt(v, e, o) * Shifted(v, o);
      LeftOver(v, o, left);
      SafeNeverOvershoots(v, left, o - 1);
    }
  }

  /** The estimate, read as numbers. */
  lemma NumberEstimate(v: seq<int>, e: int, o: nat)
    requires Divisor(v) && 0 <= e < 116 * Shifted(v, o)
    ensures
      var left := e - DigitAt(v, e, o) * Shifted(v, o);
      && (left >= 0 ==> 100 * left < 116 * Shifted(v, o))
      && (Safe(v) ==> left >= 0)
  {
    hide Val, Pow100, Leading, Factor, Safe, Shifted;
    var u, w := Pow100(o + |v|), Shifted(v, o);
    var td := 10000 * e / u;
    DivModBasics(10000 * e, u);
    MulAdd(td, 1, u);
    Scaled(v, o);
    DigitEstimate(Factor(v), Leading(v), 10000 * w, u, td, 10000 * e, DigitAt(v, e, o));
    MulAssoc(10000, DigitAt(v, e, o), w);
    MulAssoc(DigitAt(v, e, o), 10000, w);
  }

  // ---- The loop ----

  /** The digit that a step estimates. */
  function Estimate(v: seq<int>, e: seq<int>, o: nat): int
    requires v != [] && e != [] && Leading(v) > 0
  {
    if o == 0 then CDiv(Factor(v) * (TopThree(e) + 1), Leading(v)) else CDiv(Factor(v) * TopThree(e), Leading(v) + 1)
  }

  /** What the multiplication and the subtraction of a step promise. */
  ghost predicate Stepped(v: seq<int>, e: seq<int>, o: nat, dig: int, x: seq<int>, e': seq<int>, d: int, carry: int) {
    && |e| == |e'| == o + |v| + 1 && 0 <= carry <= 1
    && (0 <= dig <= SCHAR_MAX ==> Product(v, dig, x))
    && (Subtractable(e, x, o) ==> Subtracting(e, x, o, e', |e| - o, carry) && d == e'[|e| - 1])
  }

  lemma ProperStep(v: seq<int>, dd: int, e: seq<int>, q: seq<int>, o: nat, dig: int, x: seq<int>, e': seq<int>, d: int,
                   carry: int)
    requires Divisor(v) && Dividing(v, dd, e, q, o) && Leading(v) > 0
    requires dig == Estimate(v, e, o) && Stepped(v, e, o, dig, x, e', d, carry)
    ensures 0 <= dig <= 116 && d == e'[|e| - 1]
    ensures o > 0 ==> dig == DigitAt(v, Val(e), o)
    ensures o > 0 && Val(e) - dig * Shifted(v, o) >= 0 ==>
      && 0 <= d <= 1 && (d > 0 ==> 0 <= e'[|e| - 2] + 100 <= 115)
      && Dividing(v, dd, Folded(e'), [dig] + q, o - 1) && Val(Folded(e')) == Val(e) - dig * Shifted(v, o)
    ensures o > 0 && Val(e) - dig * Shifted(v, o) < 0 ==> d > 0 && e'[|e| - 2] + 100 > SCHAR_MAX
    ensures o == 0 ==> Divided(v, dd, e', [dig] + q, carry)
  {
    hide Val, Pow100, TopThree, Leading, Factor, Safe, Shifted, Product, Divided, SmallDigits;
    TopThreeBounds(e);
    EstimateNonNeg(v, e, o);
    if o > 0 {
      EstimateGives(v, dd, e, q, o, dig);
      CanSubtract(v, dig, e, x, o);
      Subtracted(v, dig, e, x, e', o, carry);
      if Val(e) - dig * Shifted(v, o) >= 0 {
        StepDone(v, dd, e, q, o, dig, e', carry);
      } else {
        TooLargeSprings(e', carry, Val(e) - dig * Shifted(v, o));
      }
    } else {
      LastGives(v, dd, e, q, dig);
      CanSubtract(v, dig, e, x, o);
      Subtracted(v, dig, e, x, e', o, carry);
      LastDone(v, dd, e, q, dig, e', carry);
    }
  }

  lemma EstimateNonNeg(v: seq<int>, e: seq<int>, o: nat)
    requires v != [] && e != [] && Leading(v) > 0 && TopThree(e) >= 0
    ensures Estimate(v, e, o) ==
      if o == 0 then Factor(v) * (TopThree(e) + 1) / Leading(v) else Factor(v) * TopThree(e) / (Leading(v) + 1)
  {
    MulNonNeg(Factor(v), TopThree(e));
    MulNonNeg(Factor(v), TopThree(e) + 1);
  }

  /** What a step leaves of the dividend, from the digit's place on. */
  ghost function Taken(v: seq<int>, e: seq<int>, o: nat): (r: Difference)
    requires v != [] && |e| == o + |v| + 1 && Leading(v) > 0
    ensures |r.data| == |v| + 1 && 0 <= r.carry <= 1
  {
    Minus(e[o..], Times(v, Estimate(v, e, o), 0), 0, 0)
  }

  /** The multiplication and the subtraction keep their promise. */
  lemma TakenIsStep(v: seq<int>, e: seq<int>, o: nat)
    requires Divisor(v) && |e| == o + |v| + 1 && Leading(v) > 0
    ensures
      var dig, r := Estimate(v, e, o), Taken(v, e, o);
      Stepped(v, e, o, dig, Times(v, dig, 0), e[..o] + r.data, r.d, r.carry)
  {
    hide Val, Pow100, Digits, Product, Multiplying, Times, Minus, Subtractable, Subtracting, Estimate, Leading;
    var dig, r := Estimate(v, e, o), Taken(v, e, o);
    var x := Times(v, dig, 0);
    if 0 <= dig <= SCHAR_MAX {
      MultiplyNone(v, dig, []);
      TimesFrom(v, dig, [], 0);
      assert v[0..] == v && [] + x == x;
    }
    if Subtractable(e, x, o) {
      SubtractNone(e, x, o);
      MinusFrom(e, x, o, e, 0, 0, 0);
      assert e[o..][0..] == e[o..] && x[0..] == x;
    }
  }

  /** The top character goes; if it was positive, the one below it counts a hundred more. */
  ghost function Lowered(e: seq<int>, d: int): (f: seq<int>)
    requires |e| > 1
    ensures |f| == |e| - 1
  {
    if d > 0 then e[|e| - 2 := SChar(e[|e| - 2] + 100)][..|e| - 1] else e[..|e| - 1]
  }

  /** The end of a division: the quotient's characters as they were stored, the last of them as it was
      estimated, what is left of the dividend, whether the last digit was too large, and whether all fitted. */
  datatype Long = Long(q: seq<int>, dig: int, e: seq<int>, carry: int, fits: bool)

  /** The division from the quotient digit at `o` on, character by character, whatever they are. */
  ghost function LongDivide(v: seq<int>, e: seq<int>, o: nat): (r: Long)
    requires v != [] && |e| == o + |v| + 1 && Leading(v) > 0
    ensures |r.q| == o + 1 && |r.e| == |v| + 1 && 0 <= r.carry <= 1 && r.q[0] == SChar(r.dig)
    decreases o
  {
    var dig, left := Estimate(v, e, o), Taken(v, e, o);
    var e' := e[..o] + left.data;
    if o == 0 then Long([SChar(dig)], dig, e', left.carry, dig <= SCHAR_MAX)
    else
      var rest := LongDivide(v, Lowered(e', left.d), o - 1);
      var fits := dig <= SCHAR_MAX && (left.d <= 0 || e'[|e| - 2] + 100 <= SCHAR_MAX);
      rest.(q := rest.q + [SChar(dig)], fits := fits && rest.fits)
  }

  lemma OvershootStep(v: seq<int>, e: int, o: nat)
    requires v != []
    ensures o == 0 ==> !Overshoots(v, e, o)
    ensures o > 0 ==>
      var left := e - DigitAt(v, e, o) * Shifted(v, o);
      Overshoots(v, e, o) <==> left < 0 || Overshoots(v, left, o - 1)
  {
  }

  /** Everything fits exactly if no digit before the last is estimated too large; and then quotient and
      remainder come out right, but for a last digit that may be one too large. */
  lemma {:induction false} LongDivision(v: seq<int>, dd: int, e: seq<int>, q: seq<int>, o: nat)
    requires Divisor(v) && Dividing(v, dd, e, q, o) && |e| == o + |v| + 1 && Leading(v) > 0
    ensures
      var r := LongDivide(v, e, o);
      && (r.fits <==> !Overshoots(v, Val(e), o))
      && (r.fits ==> Divided(v, dd, r.e, r.q + q, r.carry) && 0 <= r.dig <= 116)
    decreases o
  {
    hide Val, Pow100, Digits, Normal, Dividing, Divided, Leading, Estimate, Taken, Stepped, Shifted, Overshoots,
        DigitAt, Times, Folded;
    var dig, left := Estimate(v, e, o), Taken(v, e, o);
    var e' := e[..o] + left.data;
    TakenIsStep(v, e, o);
    ProperStep(v, dd, e, q, o, dig, Times(v, dig, 0), e', left.d, left.carry);
    OvershootStep(v, Val(e), o);
    if o > 0 && Val(e) - dig * Shifted(v, o) >= 0 {
      FoldedIs(e', left.d, Lowered(e', left.d));
      FoldedSize(e');
      LongDivision(v, dd, Folded(e'), [dig] + q, o - 1);
      var rest := LongDivide(v, Folded(e'), o - 1);
      assert rest.q + [dig] + q == rest.q + ([dig] + q);
    }
  }

  method EstimateDigit(divd: Blk, c: int, magic: int, offset: nat, ghost v: seq<int>) returns (dig: int)
    requires v != [] && c == Leading(v) > 0 && magic == (if Magic(v) then 1 else 0) && divd.data != []
    modifies divd`rd
    ensures dig == Estimate(v, divd.data, offset)
  {
    hide TopThree, Leading;
    var td := LeadingThree(divd);
    var cc := c;
    if offset == 0 {
      td := td + 1;
    } else {
      cc := cc + 1;
    }
    if magic != 0 {
      td := 8 * td;
    }
    dig := CDiv(td, cc);
  }

  /** One digit of the quotient. `fits` tells whether what is stored fits a signed char. */
  method DivStep(divd: Blk, divr: Blk, divxyz: Blk, p: Blk, c: int, magic: int, offset: nat)
    returns (dig: int, divcarry: int, fits: bool)
    requires divd != divr && divd != divxyz && divd != p && divr != divxyz && divr != p && divxyz != p
    requires divr.data != [] && c == Leading(divr.data) > 0 && magic == (if Magic(divr.data) then 1 else 0)
    requires |divd.data| == offset + |divr.data| + 1 && p.rd == offset + 1 <= |p.data|
    modifies divd, divr`rd, divxyz, p
    ensures dig == Estimate(divr.data, old(divd.data), offset)
    ensures p.rd == offset && p.data == old(p.data)[offset := SChar(dig)]
    ensures
      var left := Taken(divr.data, old(divd.data), offset);
      var e' := old(divd.data)[..offset] + left.data;
      && divcarry == left.carry
      && divd.data == (if offset > 0 then Lowered(e', left.d) else e')
      && (fits <==> dig <= SCHAR_MAX && (offset == 0 || left.d <= 0 || e'[|e'| - 2] + 100 <= SCHAR_MAX))
    ensures offset == 0 ==> divd.rd == |divd.data|
  {
    hide TopThree, Leading, Times, Minus, Lowered, Estimate, Magic, SChar, CDiv;
    ghost var v, e := divr.data, divd.data;
    dig := EstimateDigit(divd, c, magic, offset, v);
    MultiplyDivisor(divr, divxyz, dig);
    var d;
    d, divcarry := SubtractProduct(divd, divxyz, offset);
    var x := p.SbackC();
    p.SalterC(dig);
    x := p.SbackC();
    fits := dig <= SCHAR_MAX;
    if offset > 0 {
      var folds := FoldTop(divd, d);
      fits := fits && folds;
    }
  }

  method FoldTop(divd: Blk, d: int) returns (fits: bool)
    requires |divd.data| > 1 && divd.rd == |divd.data|
    modifies divd
    ensures divd.data == Lowered(old(divd.data), d)
    ensures fits <==> d <= 0 || old(divd.data)[|old(divd.data)| - 2] + 100 <= SCHAR_MAX
  {
    ghost var e := divd.data;
    fits := true;
    if d > 0 {
      var top := divd.SbackC();
      top := divd.SbackC();
      fits := top + 100 <= SCHAR_MAX;
      divd.SalterC(top + 100);
      assert divd.data == e[|e| - 2 := SChar(top + 100)];
    }
    divd.data := divd.data[..|divd.data| - 1];
  }
}
