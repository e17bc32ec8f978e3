/** The three fixed codes of the PKWARE DCL format are full: no bit pattern is without a symbol. */
module BlastTables {
  import opened Arith
  import opened Bits
  import opened Canonical
  import opened Blast
  import opened BlastCode

  // ---- Sums over packed lengths ----

  /** `2^13` divided by `2^length`. */
  function Share(l: int): int {
    if l == 1 then 4096 else if l == 2 then 2048 else if l == 3 then 1024 else if l == 4 then 512 else
    if l == 5 then 256 else if l == 6 then 128 else if l == 7 then 64 else if l == 8 then 32 else
    if l == 9 then 16 else if l == 10 then 8 else if l == 11 then 4 else if l == 12 then 2 else if l == 13 then 1 else 0
  }

  lemma ShareIsPower(l: int)
    requires 1 <= l <= MAXBITS
    ensures Share(l) == Pow2(MAXBITS - l)
  {
    assert Pow2(4) == 16;
    assert Pow2(8) == 256;
    assert Pow2(12) == 4096;
  }

  /** A packed byte holds lengths that `construct` may be given. */
  predicate Proper(b: int) {
    0 <= b < 256 && 1 <= b % 16 <= MAXBITS
  }

  /** Symbols and code space of the first `n` packed bytes. */
  function Size(rep: seq<int>, n: nat): int
    requires n <= |rep|
  {
    if n == 0 then 0 else Size(rep, n - 1) + (rep[n - 1] / 16 + 1)
  }

  function Weight(rep: seq<int>, n: nat): int
    requires n <= |rep|
  {
    if n == 0 then 0 else Weight(rep, n - 1) + (rep[n - 1] / 16 + 1) * Share(rep[n - 1] % 16)
  }

  /** What packed lengths amount to. */
  lemma {:induction false} UnpackedSums(rep: seq<int>, n: nat)
    requires n <= |rep| && forall i :: 0 <= i < n ==> Proper(rep[i])
    ensures AreBytes(rep[..n]) && Bounded(Unpack(rep[..n]), MAXBITS) && |Unpack(rep[..n])| == Size(rep, n)
    ensures KraftSum(Unpack(rep[..n]), MAXBITS, |Unpack(rep[..n])|) == Weight(rep, n)
    ensures forall i :: 0 <= i < |Unpack(rep[..n])| ==> Unpack(rep[..n])[i] > 0
  {
    hide KraftSum, Share;
    if n == 0 {
      NoSymbols();
    } else {
      var b := rep[n - 1];
      UnpackedSums(rep, n - 1);
      assert rep[..n][..n - 1] == rep[..n - 1];
      KraftOfRepeat(Unpack(rep[..n - 1]), MAXBITS, b % 16, b / 16 + 1);
      ShareIsPower(b % 16);
    }
  }

  lemma NoSymbols()
    ensures KraftSum([], MAXBITS, 0) == 0
  {
  }

  /** A code of `n` symbols that leaves no pattern unused. */
  ghost predicate Full(rep: seq<int>, n: nat) {
    && AreBytes(rep) && |rep| >= 1 && |Unpack(rep)| == n && Bounded(Unpack(rep), MAXBITS)
    && (forall i :: 0 <= i < n ==> Unpack(rep)[i] > 0)
    && Left(Unpack(rep), MAXBITS) == 0
  }

  lemma FullBySums(rep: seq<int>, n: nat)
    requires |rep| >= 1 && (forall i :: 0 <= i < |rep| ==> Proper(rep[i])) && Size(rep, |rep|) == n
        && Weight(rep, |rep|) == 8192
    ensures Full(rep, n)
  {
    hide KraftSum, Size, Weight, Proper, Unpack, Left;
    UnpackedSums(rep, |rep|);
    assert rep[..|rep|] == rep;
    LeftIsKraft(Unpack(rep), MAXBITS, |Unpack(rep)|);
    assert Pow2(MAXBITS) == 8192 by {
      ShareIsPower(1);
    }
  }

  lemma SumsStep(rep: seq<int>, n: nat, b: int)
    requires n < |rep| && rep[n] == b
    ensures Size(rep, n + 1) == Size(rep, n) + (b / 16 + 1)
    ensures Weight(rep, n + 1) == Weight(rep, n) + (b / 16 + 1) * Share(b % 16)
  {
  }

  /** Seven packed bytes more. */
  lemma SumsRow(rep: seq<int>, n: nat, b0: int, b1: int, b2: int, b3: int, b4: int, b5: int, b6: int, size: int,
                weight: int)
    requires n + 7 <= |rep| && Size(rep, n) == size && Weight(rep, n) == weight
    requires rep[n] == b0 && rep[n + 1] == b1 && rep[n + 2] == b2 && rep[n + 3] == b3 && rep[n + 4] == b4
        && rep[n + 5] == b5 && rep[n + 6] == b6
    ensures Size(rep, n + 7) == size + b0 / 16 + b1 / 16 + b2 / 16 + b3 / 16 + b4 / 16 + b5 / 16 + b6 / 16 + 7
    ensures
      Weight(rep, n + 7) == weight + (b0 / 16 + 1) * Share(b0 % 16) + (b1 / 16 + 1) * Share(b1 % 16)
          + (b2 / 16 + 1) * Share(b2 % 16)
      + (b3 / 16 + 1) * Share(b3 % 16) + (b4 / 16 + 1) * Share(b4 % 16) + (b5 / 16 + 1) * Share(b5 % 16)
          + (b6 / 16 + 1) * Share(b6 % 16)
  {
    hide Size, Weight, Share;
    SumsStep(rep, n, b0);
    SumsStep(rep, n + 1, b1);
    SumsStep(rep, n + 2, b2);
    SumsStep(rep, n + 3, b3);
    SumsStep(rep, n + 4, b4);
    SumsStep(rep, n + 5, b5);
    SumsStep(rep, n + 6, b6);
  }

  // ---- The codes ----

  /** Lengths of the length codes, of the distance codes, and of the literal codes in seven rows. */
  const LENLEN: seq<int> := [2, 35, 36, 53, 38, 23]
  const DISTLEN: seq<int> := [2, 20, 53, 230, 247, 151, 248]
  const LITLEN0: seq<int> := [11, 124, 8, 7, 28, 7, 188, 13, 76, 4, 10, 8, 12, 10]
  const LITLEN1: seq<int> := [12, 10, 8, 23, 8, 9, 7, 6, 7, 8, 7, 6, 55, 8]
  const LITLEN2: seq<int> := [23, 24, 12, 11, 7, 9, 11, 12, 6, 7, 22, 5, 7, 24]
  const LITLEN3: seq<int> := [6, 11, 9, 6, 7, 22, 7, 11, 38, 7, 9, 8, 25, 11]
  const LITLEN4: seq<int> := [8, 11, 9, 12, 8, 12, 5, 38, 5, 38, 5, 11, 7, 5]
  const LITLEN5: seq<int> := [6, 21, 6, 10, 53, 8, 7, 24, 10, 27, 44, 253, 253, 253]
  const LITLEN6: seq<int> := [252, 252, 252, 13, 12, 45, 12, 45, 12, 61, 12, 45, 44, 173]
  const LITLEN: seq<int> := LITLEN0 + LITLEN1 + LITLEN2 + LITLEN3 + LITLEN4 + LITLEN5 + LITLEN6

  lemma SumsOfNone(rep: seq<int>)
    ensures Size(rep, 0) == 0 && Weight(rep, 0) == 0
  {
  }

  lemma LengthsFull()
    ensures Full(LENLEN, 16)
  {
    hide Size, Weight, Full;
    SumsOfNone(LENLEN);
    SumsStep(LENLEN, 0, 2);
    SumsStep(LENLEN, 1, 35);
    SumsStep(LENLEN, 2, 36);
    SumsStep(LENLEN, 3, 53);
    SumsStep(LENLEN, 4, 38);
    SumsStep(LENLEN, 5, 23);
    FullBySums(LENLEN, 16);
  }

  lemma DistancesFull()
    ensures Full(DISTLEN, 64)
  {
    hide Size, Weight, Full;
    SumsOfNone(DISTLEN);
    SumsRow(DISTLEN, 0, 2, 20, 53, 230, 247, 151, 248, 0, 0);
    FullBySums(DISTLEN, 64);
  }

  /** Sums over a concatenation add up. */
  lemma {:induction false} SumsJoin(a: seq<int>, b: seq<int>, n: nat)
    requires n <= |b|
    ensures Size(a + b, |a| + n) == Size(a, |a|) + Size(b, n)
    ensures Weight(a + b, |a| + n) == Weight(a, |a|) + Weight(b, n)
  {
    if n == 0 {
      SumsOfPrefix(a, a + b, |a|);
    } else {
      SumsJoin(a, b, n - 1);
      assert (a + b)[|a| + n - 1] == b[n - 1];
    }
  }

  lemma {:induction false} SumsOfPrefix(a: seq<int>, c: seq<int>, n: nat)
    requires n <= |a| && n <= |c| && forall i :: 0 <= i < n ==> a[i] == c[i]
    ensures Size(a, n) == Size(c, n) && Weight(a, n) == Weight(c, n)
  {
    if n > 0 {
      SumsOfPrefix(a, c, n - 1);
    }
  }

  /** What a row contributes. */
  ghost predicate RowSums(row: seq<int>, size: int, weight: int) {
    |row| == 14 && (forall i :: 0 <= i < 14 ==> Proper(row[i])) && Size(row, 14) == size && Weight(row, 14) == weight
  }

  lemma LiteralRow0()
    ensures RowSums(LITLEN0, 37, 781)
  {
    hide Size, Weight;
    SumsOfNone(LITLEN0);
    SumsRow(LITLEN0, 0, 11, 124, 8, 7, 28, 7, 188, 0, 0);
    SumsRow(LITLEN0, 7, 13, 76, 4, 10, 8, 12, 10, 26, 208);
  }

  lemma LiteralRow1()
    ensures RowSums(LITLEN1, 18, 986)
  {
    hide Size, Weight;
    SumsOfNone(LITLEN1);
    SumsRow(LITLEN1, 0, 12, 10, 8, 23, 8, 9, 7, 0, 0);
    SumsRow(LITLEN1, 7, 6, 7, 8, 7, 6, 55, 8, 8, 282);
  }

  lemma LiteralRow2()
    ensures RowSums(LITLEN2, 18, 1116)
  {
    hide Size, Weight;
    SumsOfNone(LITLEN2);
    SumsRow(LITLEN2, 0, 23, 24, 12, 11, 7, 9, 11, 0, 0);
    SumsRow(LITLEN2, 7, 12, 6, 7, 22, 5, 7, 24, 9, 282);
  }

  lemma LiteralRow3()
    ensures RowSums(LITLEN3, 18, 1196)
  {
    hide Size, Weight;
    SumsOfNone(LITLEN3);
    SumsRow(LITLEN3, 0, 6, 11, 9, 6, 7, 22, 7, 0, 0);
    SumsRow(LITLEN3, 7, 11, 38, 7, 9, 8, 25, 11, 8, 660);
  }

  lemma LiteralRow4()
    ensures RowSums(LITLEN4, 18, 1948)
  {
    hide Size, Weight;
    SumsOfNone(LITLEN4);
    SumsRow(LITLEN4, 0, 8, 11, 9, 12, 8, 12, 5, 0, 0);
    SumsRow(LITLEN4, 7, 38, 5, 38, 5, 11, 7, 5, 7, 344);
  }

  lemma LiteralRow5()
    ensures RowSums(LITLEN5, 67, 2030)
  {
    hide Size, Weight;
    SumsOfNone(LITLEN5);
    SumsRow(LITLEN5, 0, 6, 21, 6, 10, 53, 8, 7, 0, 0);
    SumsRow(LITLEN5, 7, 24, 10, 27, 44, 253, 253, 253, 11, 1896);
  }

  lemma LiteralRow6()
    ensures RowSums(LITLEN6, 80, 135)
  {
    hide Size, Weight;
    SumsOfNone(LITLEN6);
    SumsRow(LITLEN6, 0, 252, 252, 252, 13, 12, 45, 12, 0, 0);
    SumsRow(LITLEN6, 7, 45, 12, 61, 12, 45, 44, 173, 54, 104);
  }

  lemma RowAdded(a: seq<int>, row: seq<int>, size: int, weight: int)
    requires (forall i :: 0 <= i < |a| ==> Proper(a[i])) && RowSums(row, size, weight)
    ensures forall i :: 0 <= i < |a + row| ==> Proper((a + row)[i])
    ensures Size(a + row, |a + row|) == Size(a, |a|) + size && Weight(a + row, |a + row|) == Weight(a, |a|) + weight
  {
    hide Proper;
    SumsJoin(a, row, 14);
  }

  lemma LiteralsFull()
    ensures Full(LITLEN, 256)
  {
    hide Size, Weight, Full, Proper;
    LiteralRow0();
    LiteralRow1();
    LiteralRow2();
    LiteralRow3();
    LiteralRow4();
    LiteralRow5();
    LiteralRow6();
    RowAdded(LITLEN0, LITLEN1, 18, 986);
    RowAdded(LITLEN0 + LITLEN1, LITLEN2, 18, 1116);
    RowAdded(LITLEN0 + LITLEN1 + LITLEN2, LITLEN3, 18, 1196);
    RowAdded(LITLEN0 + LITLEN1 + LITLEN2 + LITLEN3, LITLEN4, 18, 1948);
    RowAdded(LITLEN0 + LITLEN1 + LITLEN2 + LITLEN3 + LITLEN4, LITLEN5, 67, 2030);
    RowAdded(LITLEN0 + LITLEN1 + LITLEN2 + LITLEN3 + LITLEN4 + LITLEN5, LITLEN6, 80, 135);
    FullBySums(LITLEN, 256);
  }
}
