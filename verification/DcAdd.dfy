/** Addition and change of sign. */
module DcAdd {
  import opened Arith
  import opened DcValue
  import opened DcBlk

  /** Digit `i`, zeros standing above the top. */
  function At(s: seq<int>, i: nat): int { if i < |s| then s[i] else 0 }

  /** The number in the first `i` digits. */
  ghost function Part(s: seq<int>, i: nat): int { Val(s[..if i < |s| then i else |s|]) }

  lemma PartStep(s: seq<int>, i: nat)
    ensures Part(s, i + 1) == Part(s, i) + At(s, i) * Pow100(i)
  {
    if i < |s| {
      ValStep(s, i);
    }
  }

  lemma PartWhole(s: seq<int>, i: nat)
    requires i >= |s|
    ensures Part(s, i) == Val(s)
  {
    assert s[..|s|] == s;
  }

  // ---- Normal blocks by value ----

  lemma NormalPositive(s: seq<int>)
    requires Digits(s) && s != []
    ensures Normal(s) <==> Val(s) >= Pow100(|s| - 1)
  {
    var n := |s| - 1;
    DigitsBound(s[..n]);
    if s[n] >= 1 {
      MulMono(1, s[n], Pow100(n));
    }
  }

  lemma NormalNegative(s: seq<int>)
    requires Number(s) && |s| > 2 && s[|s| - 1] == -1
    ensures Normal(s) <==> Val(s) < 0 - Pow100(|s| - 2)
  {
    var n := |s| - 2;
    var u, d := s[..n], s[n];
    DigitsBound(u);
    assert s[..n + 1][..n] == u;
    assert Val(s) == Val(u) + d * Pow100(n) - 100 * Pow100(n);
    if d <= 98 {
      MulMono(d, 98, Pow100(n));
    }
  }

  // ---- Change of sign ----

  lemma MarkValue(s: seq<int>)
    ensures Val(s + [-1]) == Val(s) - Pow100(|s|)
  {
    ValSnoc(s, -1);
  }

  lemma NineDropped(s: seq<int>, i: nat)
    requires i < |s| && s[i] == 99
    ensures Val(s[..i + 1] + [-1]) == Val(s[..i] + [-1])
  {
    MarkValue(s[..i + 1]);
    MarkValue(s[..i]);
    ValStep(s, i);
  }

  /** The first `i` characters have been complemented. */
  ghost predicate Complemented(s: seq<int>, t: seq<int>, i: nat, carry: int) {
    && i <= |s| == |t| && Number(s) && 0 <= carry <= 1
    && (forall j {:trigger t[j]} :: 0 <= j < |t| ==> if j < i then 0 <= t[j] < 100 else t[j] == s[j])
    && Val(t[..i]) + Val(s[..i]) == carry * Pow100(i)
    && (i == |s| > 0 && s[i - 1] == -1 ==> carry == 0)
  }

  lemma ComplementDigit(s: seq<int>, t: seq<int>, i: nat, carry: int, ct: int, carry': int)
    requires Complemented(s, t, i, carry) && i < |s|
    requires ct == 100 * carry' - s[i] - carry && 0 <= ct < 100 && 0 <= carry' <= 1
    ensures Complemented(s, t[i := ct], i + 1, carry')
  {
    var t' := t[i := ct];
    ValStep(s, i);
    ValStep(t', i);
    assert t'[..i] == t[..i];
    var p := Pow100(i);
    assert ct * p + s[i] * p + carry * p == carry' * (100 * p) by {
      MulAdd(ct, s[i], p);
      MulAdd(ct + s[i], carry, p);
      MulAssoc(carry', 100, p);
      SameProduct(ct + s[i] + carry, carry' * 100, p);
    }
  }

  /** Complements all characters; a carry is left exactly for a positive number. */
  method Complement(p: Blk) returns (carry: int)
    modifies p
    ensures |p.data| == |old(p.data)| && (p.data == [] ==> carry == 0)
    ensures Number(old(p.data)) ==> Complemented(old(p.data), p.data, |p.data|, carry)
  {
    ghost var s := p.data;
    carry := 0;
    p.Rewind();
    while !p.SfEof()
      invariant p.rd <= |p.data| == |s| && (p.rd == 0 ==> carry == 0)
      invariant Number(s) ==> Complemented(s, p.data, p.rd, carry)
      decreases |p.data| - p.rd
    {
      ghost var i, c := p.rd, carry;
      var ct := 100 - p.SlookC() - carry;
      carry := 1;
      if ct >= 100 {
        ct := ct - 100;
        carry := 0;
      }
      if Number(s) {
        ComplementDigit(s, p.data, i, c, ct, carry);
      }
      p.SalterC(ct);
    }
  }

  /** Changes the sign of the number; what is normal stays normal. */
  method ChSign(p: Blk)
    modifies p
    ensures Number(old(p.data)) ==> Number(p.data) && Val(p.data) == -Val(old(p.data))
    ensures Normal(old(p.data)) ==> Normal(p.data)
  {
    hide Val, Pow100, Complemented;
    ghost var s := p.data;
    var carry := Complement(p);
    ghost var t := p.data;
    if carry != 0 {
      p.SputC(-1);
      p.FsFile();
      var ct := p.SbackC();
      ct := p.SbackC();
      if ct == 99 {
        p.Truncate();
        p.SputC(-1);
      }
    } else {
      p.FsFile();
      var ct := p.SbackC();
      if ct == 0 {
        p.Truncate();
      }
    }
    if Number(s) {
      Negated(s, t, carry, p.data);
    }
  }

  lemma Negated(s: seq<int>, t: seq<int>, carry: int, r: seq<int>)
    requires Number(s) && Complemented(s, t, |t|, carry) && (t == [] ==> carry == 0)
    requires
      if carry != 0 then r == (if t[|t| - 1] == 99 then t[..|t| - 1] else t) + [-1]
      else r == if t != [] && t[|t| - 1] == 0 then t[..|t| - 1] else t
    ensures Number(r) && Val(r) == -Val(s) && (Normal(s) ==> Normal(r))
  {
    hide Val, Pow100;
    if carry != 0 {
      CarryMeansDigits(s, t, carry);
      if t[|t| - 1] == 99 {
        NegatedDrop(s, t, r);
      } else {
        NegatedKeep(s, t, r);
      }
    } else {
      assert t[..|t|] == t && s[..|s|] == s;
      NoCarryValue(s, t);
      if t != [] && t[|t| - 1] == 0 {
        NegatedShort(s, t, r);
      }
    }
  }

  lemma NoCarryValue(s: seq<int>, t: seq<int>)
    requires Complemented(s, t, |t|, 0)
    ensures Val(t) == -Val(s) && Digits(t)
  {
    assert t[..|t|] == t && s[..|s|] == s;
  }

  lemma CarryMeansDigits(s: seq<int>, t: seq<int>, carry: int)
    requires Complemented(s, t, |t|, carry) && carry != 0
    ensures s != [] && t != [] && carry == 1
  {
  }

  lemma NegatedKeep(s: seq<int>, t: seq<int>, r: seq<int>)
    requires Complemented(s, t, |t|, 1) && s != [] && r == t + [-1] && t[|t| - 1] != 99
    ensures Normal(r) && Val(r) == -Val(s)
  {
    ComplementValue(s, t);
  }

  lemma ComplementValue(s: seq<int>, t: seq<int>)
    requires Complemented(s, t, |t|, 1)
    ensures Val(t + [-1]) == -Val(s)
  {
    assert t[..|t|] == t && s[..|s|] == s;
    MarkValue(t);
  }

  lemma NegatedDrop(s: seq<int>, t: seq<int>, r: seq<int>)
    requires Complemented(s, t, |t|, 1) && s != [] && r == t[..|t| - 1] + [-1] && t[|t| - 1] == 99
    ensures Number(r) && Val(r) == -Val(s) && (Normal(s) ==> Normal(r))
  {
    hide Val, Pow100;
    ComplementValue(s, t);
    assert t[..|t|] == t;
    NineDropped(t, |t| - 1);
    assert Number(r);
    if Normal(s) && |r| > 2 {
      assert Digits(s);
      NormalPositive(s);
      NormalNegative(r);
      NextPower(|r| - 2);
      assert |r| == |s| && r[|r| - 1] == -1;
      assert Val(r) < 0 - Pow100(|r| - 2);
    }
  }

  lemma NextPower(i: nat)
    ensures Pow100(i + 1) == 100 * Pow100(i)
  {
  }

  lemma NegatedShort(s: seq<int>, t: seq<int>, r: seq<int>)
    requires Complemented(s, t, |t|, 0) && s != [] && r == t[..|t| - 1] && t[|t| - 1] == 0
    requires Val(t) == -Val(s)
    ensures Number(r) && Val(r) == -Val(s) && (Normal(s) ==> Normal(r))
  {
    hide Val, Pow100, Complemented, Digits, Number, Normal;
    ShortParts(s, t, r);
    ValSnoc(r, 0);
    DigitsBound(r);
    SignOnTop(s);
    DigitsNumber(r);
    NormalNumber(s);
    if Normal(s) {
      NormalZero(s);
      if |s| > 2 {
        NormalNegative(s);
        NormalPositive(r);
      } else {
        ShortNormal(r);
      }
    }
  }

  lemma ShortParts(s: seq<int>, t: seq<int>, r: seq<int>)
    requires Complemented(s, t, |t|, 0) && s != [] && r == t[..|t| - 1] && t[|t| - 1] == 0
    ensures Digits(r) && Number(s) && |s| == |r| + 1 && t == r + [0]
  {
  }

  lemma DigitsNumber(r: seq<int>)
    requires Digits(r)
    ensures Number(r)
  {
  }

  lemma NormalNumber(s: seq<int>)
    ensures Normal(s) ==> Number(s)
  {
  }

  lemma ShortNormal(r: seq<int>)
    requires Digits(r) && |r| <= 1 && Val(r) != 0
    ensures Normal(r)
  {
  }

  // ---- Addition ----

  /** In each place the characters leave a digit and at most one to carry or to borrow. */
  predicate Addable(a: seq<int>, b: seq<int>) {
    forall i :: 0 <= i < |a| + |b| ==> -99 <= At(a, i) + At(b, i) <= 198
  }

  lemma NumbersAddable(a: seq<int>, b: seq<int>)
    requires Number(a) && Number(b)
    ensures Addable(a, b)
  {
  }

  lemma PlaceFits(a: seq<int>, b: seq<int>, i: nat)
    requires Addable(a, b)
    ensures -99 <= At(a, i) + At(b, i) <= 198
  {
  }

  /** The first `i` digits of the sum are worked out. */
  ghost predicate Summed(a: seq<int>, b: seq<int>, s: seq<int>, i: nat, carry: int) {
    && |s| == i && Digits(s) && -1 <= carry <= 1 && Addable(a, b)
    && Val(s) + carry * Pow100(i) == Part(a, i) + Part(b, i)
  }

  lemma SumDigit(a: seq<int>, b: seq<int>, s: seq<int>, i: nat, carry: int, n: int, carry': int)
    requires Summed(a, b, s, i, carry)
    requires
      var sum := At(a, i) + At(b, i) + carry;
      carry' == (if sum >= 100 then 1 else if sum < 0 then -1 else 0) && n == sum - 100 * carry'
    ensures 0 <= n < 100 && Summed(a, b, s + [n], i + 1, carry')
  {
    hide Val, Pow100, Part, At, Addable;
    PlaceFits(a, b, i);
    NextPower(i);
    ValSnoc(s, n);
    PartStep(a, i);
    PartStep(b, i);
    var p := Pow100(i);
    assert n * p + carry' * (100 * p) == At(a, i) * p + At(b, i) * p + carry * p by {
      MulAdd(At(a, i), At(b, i), p);
      MulAdd(At(a, i) + At(b, i), carry, p);
      MulAssoc(carry', 100, p);
      MulAdd(n, carry' * 100, p);
      SameProduct(n + carry' * 100, At(a, i) + At(b, i) + carry, p);
    }
  }

  lemma SumNone(a: seq<int>, b: seq<int>)
    requires Addable(a, b)
    ensures Summed(a, b, [], 0, 0)
  {
  }

  method SumDigits(a1: Blk, a2: Blk, p: Blk) returns (carry: int)
    requires a1 != a2 && p != a1 && p != a2 && p.data == []
    modifies a1`rd, a2`rd, p
    ensures Addable(a1.data, a2.data) ==>
      Summed(a1.data, a2.data, p.data, if |a1.data| > |a2.data| then |a1.data| else |a2.data|, carry)
  {
    hide Val, Pow100, Part, Summed, Addable;
    var total := if a1.Length() > a2.Length() then a1.Length() else a2.Length();
    var size := total;
    a1.Rewind();
    a2.Rewind();
    if Addable(a1.data, a2.data) {
      SumNone(a1.data, a2.data);
    }
    carry := 0;
    while size > 0
      invariant 0 <= size <= total
      invariant Addable(a1.data, a2.data) ==> Summed(a1.data, a2.data, p.data, total - size, carry)
      invariant a1.rd == if total - size < |a1.data| then total - size else |a1.data|
      invariant a2.rd == if total - size < |a2.data| then total - size else |a2.data|
    {
      ghost var i, c := total - size, carry;
      size := size - 1;
      var n1, n2 := 0, 0;
      if !a1.SfEof() {
        n1 := a1.SgetC();
      }
      if !a2.SfEof() {
        n2 := a2.SgetC();
      }
      var n := n1 + n2 + carry;
      if n >= 100 {
        carry := 1;
        n := n - 100;
      } else if n < 0 {
        carry := -1;
        n := n + 100;
      } else {
        carry := 0;
      }
      if Addable(a1.data, a2.data) {
        SumDigit(a1.data, a2.data, p.data, i, c, n, carry);
      }
      p.SputC(n);
    }
  }

  /** Zeros on top go. */
  method TrimZeros(p: Blk)
    modifies p
    ensures Number(old(p.data)) ==> Number(p.data) && Val(p.data) == Val(old(p.data))
    ensures Number(old(p.data)) && p.data != [] ==> p.data[|p.data| - 1] != 0
    ensures Number(old(p.data)) && old(p.data) != [] && old(p.data)[|old(p.data)| - 1] != 0 ==> p.data == old(p.data)
  {
    hide Pow100;
    ghost var s := p.data;
    p.FsFile();
    if p.SfBeg() {
      return;
    }
    var c := 0;
    assert s[..|s|] == s;
    while !p.SfBeg() && c == 0
      invariant p.data == s && 0 <= p.rd <= |s| && (c != 0 ==> p.rd < |s| && c == s[p.rd])
      invariant Val(s[..if c == 0 then p.rd else p.rd + 1]) == Val(s)
      invariant s[|s| - 1] != 0 ==> p.rd == if c == 0 then |s| else |s| - 1
      decreases if c == 0 then p.rd + 1 else 0
    {
      ValStep(s, p.rd - 1);
      c := p.SbackC();
    }
    if c != 0 {
      p.SalterC(c);
      assert Number(s) ==> p.data == s;
    }
    p.Truncate();
  }

  /** Digits 99 below the mark of a negative number go, except the last. */
  method TrimNines(p: Blk)
    modifies p
    ensures
      Number(old(p.data)) && old(p.data) != [-1] ==>
        && Number(p.data) && Val(p.data) == Val(old(p.data))
        && ((old(p.data) != [] ==> old(p.data)[|old(p.data)| - 1] != 0) ==> Normal(p.data))
  {
    ghost var s := p.data;
    p.FsFile();
    if p.SfBeg() {
      return;
    }
    var c := p.SbackC();
    if c == -1 {
      StripNines(p);
    }
  }

  /** From the mark down to the first character that is not 99, or to the start; the mark follows there. */
  method StripNines(p: Blk)
    requires p.data != [] && p.data[|p.data| - 1] == -1 && p.rd == |p.data| - 1
    modifies p
    ensures Number(old(p.data)) && |old(p.data)| > 1 ==> Normal(p.data) && Val(p.data) == Val(old(p.data))
  {
    hide Val, Pow100;
    ghost var s, k := p.data, p.rd;
    MarkValue(s[..k]);
    assert s == s[..k] + [-1];
    var c := p.SbackC();
    while c == 99
      invariant p.data == s && 0 <= p.rd <= k && (k > 0 ==> p.rd < k)
      invariant k > 0 ==> if c == EOF then s[p.rd] == EOF || (p.rd == 0 && s[0] == 99) else c == s[p.rd]
      invariant k > 0 ==> Val(s[..p.rd + 1] + [-1]) == Val(s)
      invariant k == 0 ==> c == EOF
      decreases p.rd, c == 99
    {
      NineDropped(s, p.rd);
      c := p.SbackC();
    }
    ghost var j := p.rd;
    c := p.SgetC();
    p.SalterC(-1);
    p.Truncate();
    assert k > 0 ==> p.data == s[..j + 1] + [-1];
  }

  /** The sum, in a block of its own. */
  method Add(a1: Blk, a2: Blk) returns (p: Blk)
    requires a1 != a2
    modifies a1`rd, a2`rd
    ensures fresh(p)
    ensures Number(a1.data) && Number(a2.data) ==> Addable(a1.data, a2.data)
    ensures Addable(a1.data, a2.data) ==> Normal(p.data) && Val(p.data) == Val(a1.data) + Val(a2.data)
  {
    hide Val, Pow100, Addable;
    if Number(a1.data) && Number(a2.data) {
      NumbersAddable(a1.data, a2.data);
    }
    p := new Blk();
    var carry := SumDigits(a1, a2, p);
    ghost var s := p.data;
    if carry != 0 {
      p.SputC(carry);
    }
    ghost var t := p.data;
    TrimZeros(p);
    if Addable(a1.data, a2.data) {
      SumWhole(a1.data, a2.data, s, carry, t);
      SignOnTop(t);
      SignOnTop(p.data);
    }
    TrimNines(p);
  }

  lemma SumWhole(a: seq<int>, b: seq<int>, s: seq<int>, carry: int, t: seq<int>)
    requires Summed(a, b, s, if |a| > |b| then |a| else |b|, carry) && t == if carry != 0 then s + [carry] else s
    ensures Number(t) && Val(t) == Val(a) + Val(b)
    ensures t != [-1]
  {
    hide Val, Pow100, Part;
    PartWhole(a, |s|);
    PartWhole(b, |s|);
    ValSnoc(s, carry);
    if s == [] {
      SumOfNothing(a, b, carry);
    }
    assert carry * Pow100(|s|) + Val(s) == Val(a) + Val(b);
    assert s != [] ==> t[0] == s[0] >= 0;
  }

  lemma SumOfNothing(a: seq<int>, b: seq<int>, carry: int)
    requires Summed(a, b, [], 0, carry)
    ensures carry == 0
  {
  }
}
