/** Bit patterns as stretches of code space: a pattern of `n` bits covers all longer ones it starts. */
module HuftBits {
  import opened Arith
  import opened Bits

  const BMAX: nat := 16

  /** Where the stretch of a pattern begins, in units of the longest patterns. */
  ghost function Pos(bs: seq<bool>): nat
    requires |bs| <= BMAX
  {
    Msb(bs) * Pow2(BMAX - |bs|)
  }

  ghost function Span(n: nat): nat
    requires n <= BMAX
  {
    Pow2(BMAX - n)
  }

  /** Bits as a number, the first the least significant: how patterns index the tables. */
  function Lsb(bs: seq<bool>): nat {
    if bs == [] then 0 else (if bs[0] then 1 else 0) + 2 * Lsb(bs[1..])
  }

  lemma {:induction false} LsbOfBits(v: nat, n: nat)
    requires v < Pow2(n)
    ensures Lsb(BitsOf(v, n)) == v
  {
    if n > 0 {
      LsbOfBits(v / 2, n - 1);
      assert BitsOf(v, n)[1..] == BitsOf(v / 2, n - 1);
    }
  }

  lemma {:induction false} BitsOfLsb(bs: seq<bool>)
    ensures Lsb(bs) < Pow2(|bs|) && BitsOf(Lsb(bs), |bs|) == bs
  {
    if bs != [] {
      BitsOfLsb(bs[1..]);
      assert bs == [bs[0]] + bs[1..];
    }
  }

  lemma BitsDetermine(u: nat, v: nat, n: nat)
    requires u < Pow2(n) && v < Pow2(n) && BitsOf(u, n) == BitsOf(v, n)
    ensures u == v
  {
    LsbOfBits(u, n);
    LsbOfBits(v, n);
  }

  lemma MsbDetermines(x: seq<bool>, y: seq<bool>)
    requires |x| == |y| && Msb(x) == Msb(y)
    ensures x == y
  {
    BitsOfMsb(x);
    BitsOfMsb(y);
  }

  // ---- Prefixes and stretches ----

  /** A longer pattern lies within the stretch of every pattern it starts with. */
  lemma PosPrefix(x: seq<bool>, y: seq<bool>)
    requires x <= y && |y| <= BMAX
    ensures Pos(x) <= Pos(y) && Pos(y) + Span(|y|) <= Pos(x) + Span(|x|)
  {
    var d, e := |y| - |x|, BMAX - |y|;
    MsbPrefix(y, |x|);
    assert y[..|x|] == x;
    Pow2Adds(d, e);
    MulMono(Msb(x) * Pow2(d), Msb(y), Pow2(e));
    MulMono(Msb(y) + 1, (Msb(x) + 1) * Pow2(d), Pow2(e));
    MulAssoc(Msb(x), Pow2(d), Pow2(e));
    MulAssoc(Msb(x) + 1, Pow2(d), Pow2(e));
    MulAdd(Msb(y), 1, Pow2(e));
    MulAdd(Msb(x), 1, Pow2(d + e));
  }

  lemma PosBelowTop(x: seq<bool>)
    requires |x| <= BMAX
    ensures Pos(x) + Span(|x|) <= Pow2(BMAX)
  {
    PosPrefix([], x);
  }

  /** ... and lies in no other: a pattern beginning inside a stretch extends the stretch's pattern. */
  lemma PosInside(x: seq<bool>, y: seq<bool>)
    requires |x| <= |y| <= BMAX && Pos(x) <= Pos(y) < Pos(x) + Span(|x|)
    ensures x <= y
  {
    var z := y[..|x|];
    PosPrefix(z, y);
    var s := Span(|x|);
    var a, b := Msb(x), Msb(z);
    assert a * s < b * s + s && b * s < a * s + s;
    if a < b {
      MulMono(a + 1, b, s);
      MulAdd(a, 1, s);
    } else if b < a {
      MulMono(b + 1, a, s);
      MulAdd(b, 1, s);
    }
    MsbDetermines(x, z);
  }

  function Falses(n: nat): (r: seq<bool>)
    ensures |r| == n && forall i :: 0 <= i < n ==> !r[i]
  {
    if n == 0 then [] else Falses(n - 1) + [false]
  }

  lemma {:induction false} PosPadded(x: seq<bool>, n: nat)
    requires |x| + n <= BMAX
    ensures Pos(x + Falses(n)) == Pos(x)
    ensures Msb(x + Falses(n)) == Msb(x) * Pow2(n)
  {
    if n == 0 {
      assert x + Falses(0) == x;
    } else {
      PosPadded(x, n - 1);
      var y := x + Falses(n - 1);
      assert x + Falses(n) == y + [false];
      MsbSnoc(y, false);
      MulTwice(Msb(y), Pow2(BMAX - |y| - 1));
      MulTwice(Msb(x), Pow2(n - 1));
    }
  }

  /** A shorter pattern beginning inside a stretch begins where the stretch does, and starts its pattern. */
  lemma PosAround(x: seq<bool>, y: seq<bool>)
    requires |y| <= |x| <= BMAX && Pos(x) <= Pos(y) < Pos(x) + Span(|x|)
    ensures y <= x && Pos(y) == Pos(x)
  {
    var z := y + Falses(|x| - |y|);
    PosPadded(y, |x| - |y|);
    PosInside(x, z);
    assert x == z;
  }

  // ---- Single bits of a number ----

  /** `v & (1 << r)` */
  predicate TestBit(v: nat, r: nat) { Shr(v, r) % 2 == 1 }

  /** `v ^ (1 << r)` */
  function FlipBit(v: nat, r: nat): nat
  {
    if TestBit(v, r) then v - Pow2(r) else v + Pow2(r)
  }

  lemma {:induction false} BitIs(v: nat, n: nat, r: nat)
    requires r < n
    ensures BitsOf(v, n)[r] == TestBit(v, r)
    decreases r
  {
    if r == 0 {
      ShrLowUnique(v, 0, v, 0);
    } else {
      BitIs(v / 2, n - 1, r - 1);
      HalveModulo(v, Pow2(r - 1));
    }
  }

  lemma FlipHalf(v: nat, r: nat)
    requires r > 0
    ensures FlipBit(v, r) / 2 == FlipBit(v / 2, r - 1) && FlipBit(v, r) % 2 == v % 2
    ensures TestBit(v, r) == TestBit(v / 2, r - 1)
  {
    HalveModulo(v, Pow2(r - 1));
  }

  lemma FlipLowest(v: nat)
    ensures TestBit(v, 0) == (v % 2 == 1)
    ensures FlipBit(v, 0) / 2 == v / 2 && (FlipBit(v, 0) % 2 == 1) == !TestBit(v, 0)
  {
    ShrLowUnique(v, 0, v, 0);
  }

  lemma {:induction false} FlipUpdates(v: nat, n: nat, r: nat)
    requires r < n && v < Pow2(n)
    ensures BitsOf(FlipBit(v, r), n) == BitsOf(v, n)[r := !TestBit(v, r)]
    ensures FlipBit(v, r) < Pow2(n)
    decreases r
  {
    if r == 0 {
      FlipLowest(v);
    } else {
      FlipHalf(v, r);
      FlipUpdates(v / 2, n - 1, r - 1);
    }
  }

  function Trues(n: nat): (r: seq<bool>)
    ensures |r| == n && forall i :: 0 <= i < n ==> r[i]
  {
    if n == 0 then [] else Trues(n - 1) + [true]
  }

  /** The next pattern of the same length, the first bit being the most significant; all ones wrap to zeros. */
  ghost predicate Successor(bs: seq<bool>, cs: seq<bool>) {
    && |cs| == |bs|
    && (if Msb(bs) + 1 == Pow2(|bs|) then cs == Falses(|bs|) else Msb(cs) == Msb(bs) + 1)
    && Carries(bs, cs)
  }

  /** The carry runs from the end: where the beginnings differ, only zeros are left behind it. */
  ghost predicate Carries(bs: seq<bool>, cs: seq<bool>)
    requires |bs| == |cs|
  {
    forall w {:trigger cs[..w]} :: 0 <= w <= |bs| ==> cs[..w] == bs[..w] || cs[w..] == Falses(|bs| - w)
  }

  lemma {:induction false} MsbOfTrues(x: seq<bool>, n: nat)
    ensures Msb(x + Trues(n)) + 1 == (Msb(x) + 1) * Pow2(n)
  {
    if n == 0 {
      assert x + Trues(0) == x;
    } else {
      MsbOfTrues(x, n - 1);
      var y := x + Trues(n - 1);
      assert x + Trues(n) == y + [true];
      MsbSnoc(y, true);
      MulTwice(Msb(x) + 1, Pow2(n - 1));
    }
  }

  lemma {:induction false} MsbOfFalses(x: seq<bool>, n: nat)
    ensures Msb(x + Falses(n)) == Msb(x) * Pow2(n)
  {
    hide Msb;
    if n == 0 {
      assert x + Falses(0) == x;
    } else {
      MsbOfFalses(x, n - 1);
      var y := x + Falses(n - 1);
      assert x + Falses(n) == y + [false];
      MsbSnoc(y, false);
      MulTwice(Msb(x), Pow2(n - 1));
    }
  }

  lemma WrapShape(bs: seq<bool>)
    ensures Carries(bs, Falses(|bs|))
  {
    hide Falses;
    forall w {:trigger Falses(|bs|)[..w]} | 0 <= w <= |bs| ensures Falses(|bs|)[w..] == Falses(|bs| - w) {
    }
  }

  lemma CarryOut(bs: seq<bool>)
    requires bs == Trues(|bs|)
    ensures Successor(bs, Falses(|bs|))
  {
    hide Falses, Trues, Carries;
    WrapShape(bs);
    MsbOfTrues([], |bs|);
    assert [] + Trues(|bs|) == bs;
    assert Msb([]) == 0;
  }

  lemma CarryShape(x: seq<bool>, n: nat)
    ensures Carries(x + [false] + Trues(n), x + [true] + Falses(n))
  {
    var bs, cs := x + [false] + Trues(n), x + [true] + Falses(n);
    forall w {:trigger cs[..w]} | 0 <= w <= |bs| ensures cs[..w] == bs[..w] || cs[w..] == Falses(|bs| - w) {
      if w <= |x| {
        assert cs[..w] == x[..w] && bs[..w] == x[..w];
      } else {
        assert cs[w..] == Falses(|bs| - w);
      }
    }
  }

  lemma CarryValue(u: seq<bool>, v: seq<bool>, n: nat)
    requires Msb(u) + 1 == Msb(v)
    ensures Msb(v + Falses(n)) == Msb(u + Trues(n)) + 1
  {
    MsbOfTrues(u, n);
    MsbOfFalses(v, n);
    SameProduct(Msb(u) + 1, Msb(v), Pow2(n));
  }

  lemma CarryStops(x: seq<bool>, n: nat, bs: seq<bool>, cs: seq<bool>)
    requires bs == x + [false] + Trues(n) && cs == x + [true] + Falses(n)
    ensures Successor(bs, cs)
  {
    MsbSnoc(x, false);
    MsbSnoc(x, true);
    CarryShape(x, n);
    CarryValue(x + [false], x + [true], n);
    BitsOfMsb(cs);
  }

  /** The trailing ones of `bs` from bit `r` on have been cleared. */
  ghost predicate Cleared(bs: seq<bool>, v: nat, k: nat, r: nat) {
    && r <= k == |bs| && BitsOf(v, k) == bs[..r] + Falses(k - r) && bs[r..] == Trues(k - r) && v < Pow2(k)
  }

  lemma NothingCleared(i: nat, k: nat)
    requires i < Pow2(k)
    ensures Cleared(BitsOf(i, k), i, k, k)
  {
  }

  lemma ClearBit(bs: seq<bool>, v: nat, k: nat, r: nat)
    requires r < k && Cleared(bs, v, k, r + 1)
    ensures TestBit(v, r) == bs[r]
    ensures bs[r] ==> Cleared(bs, FlipBit(v, r), k, r)
    ensures !bs[r] ==> FlipBit(v, r) < Pow2(k) && Successor(bs, BitsOf(FlipBit(v, r), k))
  {
    hide Pow2, Msb, TestBit, FlipBit, Successor;
    BitIs(v, k, r);
    FlipUpdates(v, k, r);
    if bs[r] {
      assert bs[r..] == Trues(k - r);
    } else {
      assert bs == bs[..r] + [false] + Trues(k - 1 - r);
      assert BitsOf(FlipBit(v, r), k) == bs[..r] + [true] + Falses(k - 1 - r);
      CarryStops(bs[..r], k - 1 - r, bs, BitsOf(FlipBit(v, r), k));
    }
  }

  lemma AllCleared(bs: seq<bool>, v: nat, k: nat)
    requires Cleared(bs, v, k, 0)
    ensures v < Pow2(k) && Successor(bs, BitsOf(v, k))
  {
    hide Successor;
    assert bs == bs[0..];
    assert BitsOf(v, k) == Falses(k);
    CarryOut(bs);
  }

  /** Increments the `k`-bit code `i`, whose first bit is the least significant one of `i`. */
  method BackIncrement(i: nat, k: nat) returns (i': nat)
    requires 1 <= k && i < Pow2(k)
    ensures i' < Pow2(k) && Successor(BitsOf(i, k), BitsOf(i', k))
  {
    hide Successor, TestBit, FlipBit, Cleared, BitsOf, Pow2;
    ghost var bs := BitsOf(i, k);
    i' := i;
    var r: int := k - 1;  // the bit under test is 1 << r, and none once r is negative
    NothingCleared(i, k);
    while r >= 0 && TestBit(i', r)
      invariant -1 <= r < k && Cleared(bs, i', k, r + 1)
    {
      ClearBit(bs, i', k, r);
      i' := FlipBit(i', r);
      r := r - 1;
    }
    if r >= 0 {
      ClearBit(bs, i', k, r);
      i' := FlipBit(i', r);
    } else {
      AllCleared(bs, i', k);
    }
  }

  // ---- How the builder's numbers index tables ----

  /** `i >> w` indexes the code word's bits from `w` on. */
  lemma TailIndex(i: nat, k: nat, w: nat)
    requires w <= k && i < Pow2(k)
    ensures Shr(i, w) < Pow2(k - w) && BitsOf(Shr(i, w), k - w) == BitsOf(i, k)[w..]
  {
    BitsOfSplit(i, k, w);
    ShrBelow(i, k, w);
  }

  /** `i & ((1 << w) - 1)` stands for its first `w` bits. */
  lemma HeadIndex(i: nat, k: nat, w: nat)
    requires w <= k
    ensures BitsOf(Low(i, w), w) == BitsOf(i, k)[..w]
  {
    BitsOfSplit(i, k, w);
  }

  /** `(i & ((1 << w) - 1)) >> (w - l)` stands for the last `l` of its first `w` bits. */
  lemma MiddleIndex(i: nat, k: nat, w: nat, l: nat)
    requires l <= w <= k
    ensures Shr(Low(i, w), w - l) == Lsb(BitsOf(i, k)[w - l..w]) < Pow2(l)
  {
    HeadIndex(i, k, w);
    TailIndex(Low(i, w), w, w - l);
    LsbOfBits(Shr(Low(i, w), w - l), l);
    assert BitsOf(i, k)[..w][w - l..] == BitsOf(i, k)[w - l..w];
  }

  /** A code word with nothing but zeros from bit `w` on is the number of its first `w` bits. */
  lemma ZeroTailIndex(i: nat, k: nat, w: nat)
    requires w <= k && i < Pow2(k) && BitsOf(i, k)[w..] == Falses(k - w)
    ensures Low(i, w) == i
  {
    TailIndex(i, k, w);
    BitsOfZero(k - w);
    BitsDetermine(Shr(i, w), 0, k - w);
    ShrLow(i, w);
  }

  lemma {:induction false} BitsOfZero(n: nat)
    ensures BitsOf(0, n) == Falses(n)
  {
    if n > 0 {
      BitsOfZero(n - 1);
      FalsesFront(n - 1);
    }
  }

  lemma FalsesFront(n: nat)
    ensures Falses(n + 1) == [false] + Falses(n)
  {
  }

  /** Index `j` of a table selects a pattern starting with given bits exactly when they are its low bits. */
  lemma SelectsPattern(pre: seq<bool>, l: nat, j: nat, d: nat, start: nat)
    requires d <= l && start < Pow2(d)
    ensures (pre + BitsOf(start, d) <= pre + BitsOf(j, l)) <==> Low(j, d) == start
  {
    BitsOfSplit(j, l, d);
    var p, q := pre + BitsOf(start, d), pre + BitsOf(j, l);
    assert q[..|pre| + d] == pre + BitsOf(j, l)[..d];
    if p <= q {
      assert BitsOf(start, d) == p[|pre|..] == q[..|pre| + d][|pre|..] == BitsOf(Low(j, d), d);
      BitsDetermine(Low(j, d), start, d);
    }
  }

  /** The longer code word of the same stretch beginning. */
  lemma {:induction false} LengthenCode(i: nat, k: nat)
    requires i < Pow2(k)
    ensures BitsOf(i, k + 1) == BitsOf(i, k) + [false]
    decreases k
  {
    if k > 0 {
      LengthenCode(i / 2, k - 1);
    }
  }

  // ---- Reading numbers ----

  /** What has been read from a stream, and the rest of it. */
  datatype Field = Field(value: nat, rest: seq<bool>) | NoField

  /** A number of `n` bits, least significant first. */
  ghost function ReadBits(n: nat, stream: seq<bool>): (f: Field)
    ensures f.Field? ==> |f.rest| == |stream| - n
  {
    if n <= |stream| then Field(Lsb(stream[..n]), stream[n..]) else NoField
  }
}
