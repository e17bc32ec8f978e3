/** Numbers as `dc` keeps them: base-100 digits, least significant first; a top digit of -1 marks a
    negative number in 100's complement. */
module DcValue {
  import opened Arith

  function Pow100(n: nat): (r: nat)
    ensures r >= 1
  {
    if n == 0 then 1 else 100 * Pow100(n - 1)
  }

  lemma {:induction false} Pow100Adds(m: nat, n: nat)
    ensures Pow100(m + n) == Pow100(m) * Pow100(n)
  {
    if m > 0 {
      Pow100Adds(m - 1, n);
      MulAssoc(100, Pow100(m - 1), Pow100(n));
    }
  }

  lemma {:induction false} Pow100Grows(m: nat, n: nat)
    requires m <= n
    ensures Pow100(m) <= Pow100(n)
    decreases n
  {
    if m < n {
      Pow100Grows(m, n - 1);
    }
  }

  /** The number a block stands for. */
  function Val(s: seq<int>): int {
    if s == [] then 0 else Val(s[..|s| - 1]) + s[|s| - 1] * Pow100(|s| - 1)
  }

  ghost predicate Digits(s: seq<int>) {
    forall i {:trigger s[i]} :: 0 <= i < |s| ==> 0 <= s[i] < 100
  }

  /** Digits, except that the top one may be the mark of a negative number. */
  ghost predicate Number(s: seq<int>) {
    forall i {:trigger s[i]} :: 0 <= i < |s| ==> 0 <= s[i] < 100 || (i == |s| - 1 && s[i] == -1)
  }

  /** No zeros on top, and no 99 below the mark that could be dropped; -1 itself may be `[-1]` or `[99, -1]`. */
  ghost predicate Normal(s: seq<int>) {
    && Number(s)
    && (s != [] ==> s[|s| - 1] != 0)
    && (|s| > 2 && s[|s| - 1] == -1 ==> s[|s| - 2] != 99)
  }

  lemma ValSnoc(s: seq<int>, d: int)
    ensures Val(s + [d]) == Val(s) + d * Pow100(|s|)
  {
    assert (s + [d])[..|s|] == s;
  }

  lemma ValStep(s: seq<int>, i: nat)
    requires i < |s|
    ensures Val(s[..i + 1]) == Val(s[..i]) + s[i] * Pow100(i)
  {
    assert s[..i + 1] == s[..i] + [s[i]];
    ValSnoc(s[..i], s[i]);
  }

  lemma {:induction false} ValJoin(s: seq<int>, t: seq<int>)
    ensures Val(s + t) == Val(s) + Pow100(|s|) * Val(t)
  {
    if t == [] {
      assert s + t == s;
    } else {
      var u, d := t[..|t| - 1], t[|t| - 1];
      ValJoin(s, u);
      assert s + t == (s + u) + [d];
      ValSnoc(s + u, d);
      Pow100Adds(|s|, |u|);
      MulAssoc(d, Pow100(|s|), Pow100(|u|));
      MulAssoc(Pow100(|s|), d, Pow100(|u|));
      MulAdd(Val(u), d * Pow100(|u|), Pow100(|s|));
    }
  }

  lemma {:induction false} ValSet(s: seq<int>, i: nat, d: int)
    requires i < |s|
    ensures Val(s[i := d]) == Val(s) + (d - s[i]) * Pow100(i)
  {
    var t := s[..|s| - 1];
    if i == |s| - 1 {
      assert s[i := d][..i] == t;
      MulSub(d, s[i], Pow100(i));
    } else {
      ValSet(t, i, d);
      assert s[i := d][..|s| - 1] == t[i := d];
    }
  }

  lemma {:induction false} DigitsBound(s: seq<int>)
    requires Digits(s)
    ensures 0 <= Val(s) < Pow100(|s|)
  {
    if s != [] {
      var t := s[..|s| - 1];
      DigitsBound(t);
      MulMono(s[|s| - 1] + 1, 100, Pow100(|t|));
      MulNonNeg(s[|s| - 1], Pow100(|t|));
      MulAdd(s[|s| - 1], 1, Pow100(|t|));
    }
  }

  /** The sign can be read off the top digit. */
  lemma SignOnTop(s: seq<int>)
    requires Number(s)
    ensures Val(s) < 0 <==> s != [] && s[|s| - 1] == -1
    ensures Val(s) >= 0 ==> Digits(s)
    ensures 0 - Pow100(|s|) <= Val(s) < Pow100(|s|)
  {
    if s != [] {
      var t := s[..|s| - 1];
      DigitsBound(t);
      if s[|s| - 1] == -1 {
        assert Val(s) == Val(t) - Pow100(|t|);
      } else {
        DigitsBound(s);
      }
    }
  }

  lemma {:induction false} ValZeros(s: seq<int>)
    requires forall i :: 0 <= i < |s| ==> s[i] == 0
    ensures Val(s) == 0
  {
    if s != [] {
      ValZeros(s[..|s| - 1]);
    }
  }

  lemma {:induction false} ZeroDigits(s: seq<int>)
    requires Digits(s) && Val(s) == 0
    ensures forall i :: 0 <= i < |s| ==> s[i] == 0
  {
    if s != [] {
      var t := s[..|s| - 1];
      DigitsBound(t);
      if s[|s| - 1] >= 1 {
        MulMono(1, s[|s| - 1], Pow100(|t|));
      }
      ZeroDigits(t);
    }
  }

  /** A normal block is empty exactly when it stands for zero. */
  lemma NormalZero(s: seq<int>)
    requires Normal(s)
    ensures Val(s) == 0 <==> s == []
  {
    SignOnTop(s);
    if s != [] && Val(s) == 0 {
      ZeroDigits(s);
    }
  }

  lemma DigitAndRest(u: int, a: int, v: int, b: int, p: int)
    requires 0 <= u < p && 0 <= v < p && u + a * p == v + b * p
    ensures a == b && u == v
  {
    DivModUnique(u + a * p, p, a, u);
    DivModUnique(v + b * p, p, b, v);
  }

  /** Digits determine the number and are determined by it. */
  lemma {:induction false} DigitsUnique(s: seq<int>, t: seq<int>)
    requires Digits(s) && Digits(t) && |s| == |t| && Val(s) == Val(t)
    ensures s == t
  {
    if s != [] {
      var n := |s| - 1;
      var u, v := s[..n], t[..n];
      DigitsBound(u);
      DigitsBound(v);
      DigitAndRest(Val(u), s[n], Val(v), t[n], Pow100(n));
      DigitsUnique(u, v);
      assert s == u + [s[n]] && t == v + [t[n]];
    }
  }
}
