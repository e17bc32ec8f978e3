/** Multiplication, digit by digit. */
module DcMult {
  import opened Arith
  import opened DcValue
  import opened DcBlk
  import opened DcAdd

  /** `r` with character `q` replaced, or appended when it stands just above the top. */
  ghost function Altered(r: seq<int>, q: nat, d: int): seq<int>
    requires q <= |r|
  {
    if q < |r| then r[q := d] else r + [d]
  }

  lemma AlteredValue(r: seq<int>, q: nat, d: int)
    requires q <= |r|
    ensures Val(Altered(r, q, d)) == Val(r) + (d - At(r, q)) * Pow100(q)
  {
    if q < |r| {
      ValSet(r, q, d);
    } else {
      ValSnoc(r, d);
    }
  }

  /** In the pass for the digit `cq` at place `offset`, the first `i` digits of the other factor are done. */
  ghost predicate Passing(mp: seq<int>, cq: int, offset: nat, before: seq<int>, r: seq<int>, i: nat, carry: int) {
    && i <= |mp| && Digits(r) && 0 <= carry < 100
    && |r| == (if i == 0 then |before| else if |before| > offset + i then |before| else offset + i)
    && Val(r) + carry * Pow100(offset + i) == Val(before) + cq * Val(mp[..i]) * Pow100(offset)
  }

  lemma PassDigit(mp: seq<int>, cq: int, offset: nat, before: seq<int>, r: seq<int>, i: nat, carry: int, mt: int)
    requires Passing(mp, cq, offset, before, r, i, carry) && i < |mp| && offset <= |before|
    requires 0 <= mp[i] < 100 && 0 <= cq < 100 && mt == mp[i] * cq + carry + At(r, offset + i)
    ensures offset + i <= |r| && 0 <= mt / 100 < 100
    ensures Passing(mp, cq, offset, before, Altered(r, offset + i, mt % 100), i + 1, mt / 100)
  {
    hide Val, Pow100;
    var q, d, c := offset + i, mt % 100, mt / 100;
    assert mp[i] * cq <= 99 * 99 by {
      MulMono(mp[i], 99, cq);
    }
    MulNonNeg(mp[i], cq);
    assert mt == 100 * c + d;
    AlteredValue(r, q, d);
    ValStep(mp, i);
    PassArithmetic(Val(r), Val(before), Val(mp[..i]), Val(mp[..i + 1]), mp[i], cq, carry, At(r, q), d, c, i, offset);
  }

  lemma PassArithmetic(r: int, before: int, part: int, part': int, cp: int, cq: int, carry: int, mcr: int, d: int,
                       c: int, i: nat, offset: nat)
    requires r + carry * Pow100(offset + i) == before + cq * part * Pow100(offset)
    requires part' == part + cp * Pow100(i) && 100 * c + d == cp * cq + carry + mcr
    ensures r + (d - mcr) * Pow100(offset + i) + c * Pow100(offset + i + 1) == before + cq * part' * Pow100(offset)
  {
    hide Val;
    var p, o, q := Pow100(i), Pow100(offset), Pow100(offset + i);
    Pow100Adds(offset, i);
    assert Pow100(offset + i + 1) == 100 * q;
    hide Pow100;
    var x, y := cq * part, cq * (cp * p);
    assert cq * part' == x + y by { MulAdd(part, cp * p, cq); }
    assert (x + y) * o == x * o + y * o by { MulAdd(x, y, o); }
    assert y * o == (cp * cq) * q by {
      MulAssoc(cq, cp, p);
      MulAssoc(cq * cp, p, o);
    }
    assert c * (100 * q) == 100 * c * q by { MulAssoc(c, 100, q); }
    assert (d - mcr) * q + 100 * c * q == (cp * cq + carry) * q by {
      MulAdd(d - mcr, 100 * c, q);
      SameProduct(d - mcr + 100 * c, cp * cq + carry, q);
    }
    MulAdd(cp * cq, carry, q);
  }

  /** One row of the multiplication: `cq` times `mp`, added in from character `offset` on. */
  method MultRow(mp: Blk, mr: Blk, cq: int, offset: nat)
    requires mp != mr && Digits(mp.data) && Digits(mr.data) && 0 <= cq < 100
    requires mp.data != [] ==> offset <= |mr.data| <= offset + |mp.data|
    requires mp.data == [] ==> mr.data == []
    modifies mp`rd, mr
    ensures Digits(mr.data)
    ensures Val(mr.data) == Val(old(mr.data)) + cq * Val(mp.data) * Pow100(offset)
    ensures mp.data == [] ==> mr.data == []
    ensures mp.data != [] ==>
        |mr.data| == offset + |mp.data| || (|mr.data| == offset + |mp.data| + 1 && mr.data[|mr.data| - 1] != 0)
  {
    hide Val, Pow100;
    ghost var a, before := mp.data, mr.data;
    mp.Rewind();
    mr.rd := offset;
    var carry := 0;
    PassStart(a, cq, offset, before);
    while !mp.SfEof()
      invariant mp.rd <= |a| && mr.rd == offset + mp.rd && Passing(a, cq, offset, before, mr.data, mp.rd, carry)
      decreases |a| - mp.rd
    {
      ghost var i, c := mp.rd, carry;
      var cp := mp.SgetC();
      var mcr := if mr.SfEof() then 0 else mr.SlookC();
      var mt := cp * cq + carry + mcr;
      PassDigit(a, cq, offset, before, mr.data, i, c, mt);
      carry := mt / 100;
      mr.SalterC(mt % 100);
    }
    assert a[..|a|] == a;
    if carry != 0 {
      PassNonempty(a, cq, offset, before, mr.data, carry);
      var mcr := if mr.SfEof() then 0 else mr.SlookC();
      ValSnoc(mr.data, carry);
      mr.SalterC(mcr + carry);
    }
  }

  lemma PassStart(mp: seq<int>, cq: int, offset: nat, before: seq<int>)
    requires Digits(before)
    ensures Passing(mp, cq, offset, before, before, 0, 0)
  {
    assert Val([]) == 0;
    MulAssoc(cq, 0, Pow100(offset));
  }

  lemma PassNonempty(mp: seq<int>, cq: int, offset: nat, before: seq<int>, r: seq<int>, carry: int)
    requires Passing(mp, cq, offset, before, r, |mp|, carry) && carry != 0 && (mp == [] ==> r == before == [])
    ensures mp != []
  {
    if mp == [] {
      assert cq * Val([]) * Pow100(offset) == 0;
      MulMono(1, carry, Pow100(offset));
    }
  }

  /** The product of two blocks of digits. */
  method MultDigits(mp: Blk, mq: Blk, mr: Blk)
    requires mp != mq && mp != mr && mq != mr && Digits(mp.data) && Digits(mq.data) && mr.data == []
    modifies mp`rd, mq`rd, mr
    ensures Digits(mr.data) && Val(mr.data) == Val(mp.data) * Val(mq.data)
    ensures Normal(mp.data) && Normal(mq.data) ==> Normal(mr.data)
  {
    hide Val, Pow100;
    ghost var a, b := mp.data, mq.data;
    var offset := 0;
    mq.Rewind();
    RowsStart(a, b);
    while !mq.SfEof()
      invariant mq.rd == offset <= |b| && mq.data == b && mp.data == a
      invariant Digits(mr.data) && Val(mr.data) == Val(a) * Val(b[..offset])
      invariant a == [] || offset == 0 ==> mr.data == []
      invariant a != [] && offset > 0 ==>
        |mr.data| == offset + |a| - 1 || (|mr.data| == offset + |a| && mr.data[|mr.data| - 1] != 0)
      decreases |b| - offset
    {
      var cq := mq.SgetC();
      RowValue(a, b, offset);
      MultRow(mp, mr, cq, offset);
      offset := offset + 1;
    }
    assert b[..|b|] == b;
    if Normal(a) && Normal(b) {
      ProductNormal(a, b, mr.data);
    }
  }

  lemma RowsStart(a: seq<int>, b: seq<int>)
    ensures Val([]) == 0 && Val(a) * Val(b[..0]) == 0
  {
  }

  lemma RowValue(a: seq<int>, b: seq<int>, j: nat)
    requires j < |b|
    ensures Val(a) * Val(b[..j + 1]) == Val(a) * Val(b[..j]) + b[j] * Val(a) * Pow100(j)
  {
    hide Val, Pow100;
    ValStep(b, j);
    MulAdd(Val(b[..j]), b[j] * Pow100(j), Val(a));
    MulAssoc(Val(a), b[j], Pow100(j));
  }

  lemma ProductNormal(a: seq<int>, b: seq<int>, r: seq<int>)
    requires Digits(a) && Digits(b) && Digits(r) && Normal(a) && Normal(b) && Val(r) == Val(a) * Val(b)
    requires a == [] || b == [] ==> r == []
    requires a != [] && b != [] ==> |r| == |a| + |b| - 1 || (|r| == |a| + |b| && r[|r| - 1] != 0)
    ensures Normal(r)
  {
    if a != [] && b != [] && |r| == |a| + |b| - 1 {
      NormalPositive(a);
      NormalPositive(b);
      NormalPositive(r);
      var x, y := Pow100(|a| - 1), Pow100(|b| - 1);
      Pow100Adds(|a| - 1, |b| - 1);
      MulMono(x, Val(a), y);
      MulMono(y, Val(b), Val(a));
    }
  }

  /** The absolute value, in a block of its own if the number is negative. */
  method Magnitude(p: Blk) returns (mp: Blk, negative: bool)
    requires Number(p.data)
    modifies p`rd
    ensures (mp == p || fresh(mp)) && (!negative ==> mp == p)
    ensures negative == (Val(p.data) < 0) && Digits(mp.data) && Val(mp.data) == if negative then -Val(p.data)
        else Val(p.data)
    ensures Normal(p.data) ==> Normal(mp.data)
  {
    hide Val, Pow100;
    SignOnTop(p.data);
    p.FsFile();
    mp, negative := p, false;
    if !p.SfBeg() {
      var c := p.SbackC();
      if c < 0 {
        mp := new Blk.Copy(p);
        ChSign(mp);
        negative := true;
      }
    }
    SignOnTop(mp.data);
  }

  method Mult(p: Blk, q: Blk) returns (mr: Blk)
    requires p != q && Number(p.data) && Number(q.data)
    modifies p`rd, q`rd
    ensures fresh(mr) && Number(mr.data) && Val(mr.data) == Val(p.data) * Val(q.data)
    ensures Normal(p.data) && Normal(q.data) ==> Normal(mr.data)
  {
    hide Val, Pow100;
    var mp, sp := Magnitude(p);
    var mq, sq := Magnitude(q);
    mr := new Blk();
    MultDigits(mp, mq, mr);
    Signs(Val(p.data), Val(q.data));
    if sp != sq {
      ChSign(mr);
    }
  }

  lemma Signs(x: int, y: int)
    ensures (-x) * y == -(x * y) && x * (-y) == -(x * y) && (-x) * (-y) == x * y
  {
  }
}
