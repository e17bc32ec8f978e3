/** The numbers of RFC 1951, section 3.2.5 to 3.2.7, computed as a compressor computes them, and the decoder's
    lists compared with them. */
module DeflateCodes {
  import opened Arith
  import opened Bits
  import opened Canonical
  import opened HuftBits
  import opened HuftTables
  import opened HuftDriver
  import opened HuftLists
  import opened Inflate
  import opened InflateBlocks

  // ---- The lists ----

  /** Extra bits of a length symbol 257 + `i`, and of a distance symbol. */
  function LengthExtra(i: nat): nat { if i < 8 then 0 else (i - 4) / 4 }

  function DistanceExtra(i: nat): nat { if i < 4 then 0 else (i - 2) / 2 }

  /** Each length symbol goes on where the one before it ends. */
  lemma LengthsConnect(defl64: bool, i: nat)
    requires i < 28
    ensures
      var L := LengthLists(defl64);
      && |L.base| == |L.extra| == 31 && L.simple == 257 && L.base[0] == 3 && L.extra[i] == LengthExtra(i)
      && (i < 27 ==> L.base[i + 1] == L.base[i] + Pow2(L.extra[i]))
      && L.base[27] + Pow2(L.extra[27]) == 259
  {
    SmallPowers();
    hide Pow2;
    LengthSteps(i);
    LengthExtras(i);
    PowerIs(LengthExtra(i));
  }

  lemma LengthExtras(i: nat)
    requires i < 28
    ensures |CPLEXT32| == |CPLEXT64| == 31 && CPLEXT32[i] == CPLEXT64[i] == LengthExtra(i)
  {
  }

  lemma LengthSteps(i: nat)
    requires i < 28
    ensures |CPLENS32| == |CPLENS64| == 31 && CPLENS32[i] == CPLENS64[i]
    ensures i < 27 ==> CPLENS32[i + 1] == CPLENS64[i + 1] == CPLENS32[i] + Power(LengthExtra(i))
  {
  }

  /** Symbol 285 is length 258, or in deflate64 any from 3 on with 16 bits; 286 and 287 are invalid. */
  lemma LastLengths(defl64: bool)
    ensures
      var L := LengthLists(defl64);
      && L.base[28] == (if defl64 then 3 else 258) && L.extra[28] == (if defl64 then 16 else 0)
      && L.extra[29] == L.extra[30] == INVALID_CODE
  {
  }

  /** So do the distance symbols; deflate has two less. */
  lemma DistancesConnect(defl64: bool, i: nat)
    requires i < 32
    ensures
      var D := DistanceLists(defl64);
      && |D.base| == |D.extra| == 32 && D.simple == 0 && D.base[0] == 1
      && (if i >= 30 && !defl64 then D.extra[i] == INVALID_CODE else D.extra[i] == DistanceExtra(i))
      && (i < 31 ==> D.base[i + 1] == D.base[i] + Pow2(DistanceExtra(i)))
  {
    if i < 16 {
      NearConnect(i);
    } else {
      FarConnect(i);
    }
    assert CPDEXT64[i] == DistanceExtra(i);
    assert CPDEXT32[i] == if i >= 30 then INVALID_CODE else DistanceExtra(i);
    PowerIs(DistanceExtra(i));
  }

  lemma NearConnect(i: nat)
    requires i < 16
    ensures |CPDIST| == 32 && CPDIST[i + 1] == CPDIST[i] + Power(DistanceExtra(i))
  {
  }

  lemma FarConnect(i: nat)
    requires 16 <= i < 32
    ensures |CPDIST| == 32 && (i < 31 ==> CPDIST[i + 1] == CPDIST[i] + Power(DistanceExtra(i)))
  {
  }

  function Power(n: nat): nat {
    match n
    case 0 => 1 case 1 => 2 case 2 => 4 case 3 => 8 case 4 => 16 case 5 => 32 case 6 => 64 case 7 => 128
    case 8 => 256 case 9 => 512 case 10 => 1024 case 11 => 2048 case 12 => 4096 case 13 => 8192 case 14 => 16384
    case _ => 0
  }

  lemma SmallPowers()
    ensures Pow2(0) == 1 && Pow2(1) == 2 && Pow2(2) == 4 && Pow2(3) == 8 && Pow2(4) == 16 && Pow2(5) == 32
  {
  }

  lemma PowerIs(n: nat)
    requires n <= 14
    ensures Pow2(n) == Power(n)
  {
    SmallPowers();
    assert Pow2(10) == 32 * Pow2(5) && Pow2(6) == 64 && Pow2(7) == 128 && Pow2(8) == 256 && Pow2(9) == 512;
    assert Pow2(11) == 2048 && Pow2(12) == 4096 && Pow2(13) == 8192 && Pow2(14) == 16384;
  }

  // ---- The symbol for a length or a distance ----

  /** How often a number is halved to come below `2 * top`. */
  function Halvings(x: nat, top: nat): (e: nat)
    requires top >= 1
  {
    if x < 2 * top then 0 else 1 + Halvings(x / 2, top)
  }

  lemma {:induction false} HalvedAt(x: nat, top: nat)
    requires top >= 1
    ensures
      var e := Halvings(x, top);
      Shr(x, e) < 2 * top && (x >= top ==> Shr(x, e) >= top) && (e > 0 ==> x >= top * Pow2(e))
  {
    var e := Halvings(x, top);
    if x < 2 * top {
      ShrLowUnique(x, 0, x, 0);
    } else {
      HalvedAt(x / 2, top);
      HalveModulo(x, Pow2(e - 1));
      MulTwice(top, Pow2(e - 1));
    }
  }

  /** A symbol, how many extra bits it has, and what they say. */
  datatype Coded = Coded(i: nat, extra: nat, v: nat)

  /** `top` symbols for each number of extra bits, twice as many for none. */
  function CodedAs(x: nat, top: nat): Coded
    requires top >= 1
  {
    var e := Halvings(x, top);
    Coded(top * e + Shr(x, e), e, Low(x, e))
  }

  /** The symbol for a length: 285 has one of its own in deflate, and in deflate64 all that are longer. */
  function LengthCode(defl64: bool, len: nat): Coded
    requires 3 <= len
  {
    if defl64 && len > 258 then Coded(28, 16, len - 3)
    else if !defl64 && len == 258 then Coded(28, 0, 0)
    else CodedAs(len - 3, 4)
  }

  function DistanceCode(dist: nat): Coded
    requires 1 <= dist
  {
    CodedAs(dist - 1, 2)
  }

  function MaxLength(defl64: bool): nat { if defl64 then 65538 else 258 }

  function MaxDistance(defl64: bool): nat { if defl64 then 65536 else 32768 }

  lemma LengthBase(defl64: bool, e: nat, q: nat)
    requires e <= 5 && 4 <= q < 8
    ensures |LengthLists(defl64).base| == 31 && LengthLists(defl64).base[4 * e + q] == 3 + q * Pow2(e)
  {
    hide Power, Pow2;
    PowerIs(e);
    var i := 4 * e + q;
    assert i % 4 == q - 4 && i / 4 - 1 == e;
    LengthValue(i);
  }

  lemma LengthValue(i: nat)
    requires 4 <= i < 28
    ensures |CPLENS32| == |CPLENS64| == 31 && CPLENS32[i] == CPLENS64[i] == 3 + (4 + i % 4) * Power(i / 4 - 1)
  {
  }

  lemma ShortBase(defl64: bool, i: nat)
    requires i < 4
    ensures |LengthLists(defl64).base| == 31 && LengthLists(defl64).base[i] == 3 + i
    ensures |DistanceLists(defl64).base| == 32 && DistanceLists(defl64).base[i] == 1 + i
  {
  }

  lemma DistanceBase(defl64: bool, e: nat, q: nat)
    requires e <= 14 && 2 <= q < 4
    ensures |DistanceLists(defl64).base| == 32
    ensures DistanceLists(defl64).base[2 * e + q] == 1 + q * Pow2(e)
  {
    hide Power, Pow2;
    PowerIs(e);
    var i := 2 * e + q;
    assert i % 2 == q - 2 && i / 2 - 1 == e;
    DistanceValue(i);
  }

  lemma DistanceValue(i: nat)
    requires 2 <= i < 32
    ensures |CPDIST| == 32 && CPDIST[i] == 1 + (2 + i % 2) * Power(i / 2 - 1)
  {
    hide Power;
    if i < 16 {
      NearBase(i);
    } else {
      FarBase(i);
    }
  }

  lemma NearBase(i: nat)
    requires 2 <= i < 16
    ensures |CPDIST| == 32 && CPDIST[i] == 1 + (2 + i % 2) * Power(i / 2 - 1)
  {
  }

  lemma FarBase(i: nat)
    requires 16 <= i < 32
    ensures |CPDIST| == 32 && CPDIST[i] == 1 + (2 + i % 2) * Power(i / 2 - 1)
  {
  }

  lemma PowerBelow(e: nat, m: nat, x: nat, top: nat)
    requires top >= 1 && x >= top * Pow2(e) && x < top * Pow2(m)
    ensures e < m
  {
    if e >= m {
      Pow2Monotone(m, e);
      MulMono(Pow2(m), Pow2(e), top);
    }
  }

  /** The parts of a number coded so. */
  lemma CodedIs(x: nat, top: nat, m: nat)
    requires 1 <= top && x < top * Pow2(m)
    ensures
      var c := CodedAs(x, top);
      var q := c.i - top * c.extra;
      && 0 <= q < 2 * top && x == q * Pow2(c.extra) + c.v && c.v < Pow2(c.extra) && (c.extra > 0 ==> c.extra < m)
      && (q >= top || (c.extra == 0 && c.i == x && c.v == 0))
  {
    HalvedAt(x, top);
    var e := Halvings(x, top);
    ShrLow(x, e);
    if e > 0 {
      PowerBelow(e, m, x, top);
      MulAtLeast(Pow2(e), top);
    } else {
      ShrLowUnique(x, 0, x, 0);
    }
  }

  /** Every length is what its symbol and extra bits stand for. */
  lemma LengthIs(defl64: bool, len: nat)
    requires 3 <= len <= MaxLength(defl64)
    ensures
      var c, L := LengthCode(defl64, len), LengthLists(defl64);
      c.i < 29 && |L.base| == |L.extra| == 31 && L.extra[c.i] == c.extra <= 16 && c.v < Pow2(c.extra)
      && L.base[c.i] + c.v == len
  {
    hide Pow2, LengthLists, CodedAs;
    LastLengths(defl64);
    LengthsConnect(defl64, 0);
    SixtyFour();
    if len <= 258 && (defl64 || len < 258) {
      var c := CodedAs(len - 3, 4);
      CodedIs(len - 3, 4, 6);
      LengthsConnect(defl64, c.i);
      if c.i - 4 * c.extra >= 4 {
        LengthBase(defl64, c.extra, c.i - 4 * c.extra);
      } else {
        ShortBase(defl64, c.i);
      }
    }
  }

  lemma SixtyFour()
    ensures Pow2(6) == 64 && Pow2(16) == 65536 && Pow2(0) == 1
  {
    SixteenBits();
    PowerIs(6);
  }

  lemma SixteenBits()
    ensures Pow2(16) == 65536
  {
    PowerIs(14);
  }

  /** And every distance. */
  lemma DistanceIs(defl64: bool, dist: nat)
    requires 1 <= dist <= MaxDistance(defl64)
    ensures
      var c, D := DistanceCode(dist), DistanceLists(defl64);
      c.i < 32 && |D.base| == |D.extra| == 32
      && D.extra[c.i] == c.extra <= 14 && c.v < Pow2(c.extra)
      && D.base[c.i] + c.v == dist
  {
    hide Pow2, DistanceLists, CodedAs;
    FifteenBits();
    var c := CodedAs(dist - 1, 2);
    CodedIs(dist - 1, 2, if defl64 then 15 else 14);
    DistancesConnect(defl64, c.i);
    if c.i - 2 * c.extra >= 2 {
      DistanceBase(defl64, c.extra, c.i - 2 * c.extra);
    } else {
      ShortBase(defl64, c.i);
    }
  }

  lemma FifteenBits()
    ensures Pow2(14) == 16384 && Pow2(15) == 32768
  {
    PowerIs(14);
  }

  // ---- Extra bits ----

  lemma BitsRead(v: nat, n: nat, rest: seq<bool>)
    requires v < Pow2(n)
    ensures ReadBits(n, BitsOf(v, n) + rest) == Field(v, rest)
  {
    LsbOfBits(v, n);
    var stream := BitsOf(v, n) + rest;
    assert stream[..n] == BitsOf(v, n) && stream[n..] == rest;
  }

  /** Every length is read back from the symbol and extra bits it is sent with. */
  lemma LengthReadBack(defl64: bool, len: nat, rest: seq<bool>)
    requires 3 <= len <= MaxLength(defl64)
    ensures
      var c := LengthCode(defl64, len);
      ReadExtra(LengthLists(defl64), c.i, BitsOf(c.v, c.extra) + rest) == Field(len, rest)
  {
    hide LengthLists, ReadBits, Pow2;
    LengthIs(defl64, len);
    var c := LengthCode(defl64, len);
    BitsRead(c.v, c.extra, rest);
    LengthsPositive(defl64, c.i);
  }

  lemma LengthsPositive(defl64: bool, i: nat)
    requires i < 29
    ensures |LengthLists(defl64).base| == 31 && LengthLists(defl64).base[i] >= 0
    ensures |DistanceLists(defl64).base| == 32
  {
    assert CPLENS32[i] >= 0 && CPLENS64[i] >= 0;
  }

  lemma DistancesPositive(defl64: bool, i: nat)
    requires i < 32
    ensures |DistanceLists(defl64).base| == 32 && DistanceLists(defl64).base[i] >= 0
  {
    assert CPDIST[i] >= 0;
  }

  lemma DistanceReadBack(defl64: bool, dist: nat, rest: seq<bool>)
    requires 1 <= dist <= MaxDistance(defl64)
    ensures
      var c := DistanceCode(dist);
      ReadExtra(DistanceLists(defl64), c.i, BitsOf(c.v, c.extra) + rest) == Field(dist, rest)
  {
    hide DistanceLists, ReadBits, Pow2;
    DistanceIs(defl64, dist);
    var c := DistanceCode(dist);
    BitsRead(c.v, c.extra, rest);
    DistancesPositive(defl64, c.i);
  }

  // ---- Fixed codes ----

  /** The code of a literal or length in a fixed block, and its length. */
  function FixedCode(s: nat): (nat, nat) {
    if s < 144 then (0x30 + s, 8)
    else if s < 256 then (0x190 + s - 144, 9)
    else if s < 280 then (s - 256, 7)
    else (0xc0 + s - 280, 8)
  }

  ghost predicate Fixed(L: seq<int>) {
    |L| == 288 && forall s :: 0 <= s < 288 ==> L[s] == if s < 144 || s >= 280 then 8 else if s < 256 then 9 else 7
  }

  lemma FixedLengths(defl64: bool)
    ensures Fixed(FixedCodes(defl64).ll) && FixedCodes(defl64).dl == Repeat(5, 32)
        && FixedCodes(defl64).defl64 == defl64
  {
  }

  /** How many codes of each length there are before a symbol. */
  lemma FixedCounts(L: seq<int>)
    requires Fixed(L)
    ensures CountTo(L, 8, 144) == 144 && CountTo(L, 8, 280) == 144 && Count(L, 8) == 152
    ensures CountTo(L, 9, 144) == 0 && Count(L, 9) == 112
    ensures CountTo(L, 7, 256) == 0 && Count(L, 7) == 24
  {
    hide CountTo;
    NoneCounted(L);
    CountRuns(L, 8, 0, 144);
    CountSkips(L, 8, 144, 280);
    CountRuns(L, 8, 280, 288);
    CountSkips(L, 9, 0, 144);
    CountRuns(L, 9, 144, 256);
    CountSkips(L, 9, 256, 288);
    CountSkips(L, 7, 0, 256);
    CountRuns(L, 7, 256, 280);
    CountSkips(L, 7, 280, 288);
  }

  lemma NoneCounted(L: seq<int>)
    ensures forall k :: CountTo(L, k, 0) == 0
  {
  }

  lemma FixedEnds(L: seq<int>)
    requires Fixed(L)
    ensures FirstCode(L, 7) == 0 && FirstCode(L, 8) == 0x30 && FirstCode(L, 9) == 0x190
  {
    FixedCounts(L);
    forall k | 1 <= k <= 6 ensures Count(L, k) == 0 {
      hide CountTo;
      NoneCounted(L);
      CountSkips(L, k, 0, 288);
    }
    hide CountTo;
    EndsNone(L, 6);
    assert End(L, 7) == 2 * End(L, 6) + Count(L, 7);
    assert End(L, 8) == 2 * End(L, 7) + Count(L, 8);
  }

  lemma {:induction false} EndsNone(L: seq<int>, k: nat)
    requires forall j :: 1 <= j <= k ==> Count(L, j) == 0
    ensures End(L, k) == 0
  {
    if k > 0 {
      EndsNone(L, k - 1);
      assert Count(L, k) == 0;
    }
  }

  /** The lengths the decoder sets up give just these codes (RFC 1951, section 3.2.6). */
  lemma FixedCodeIs(defl64: bool, s: nat)
    requires s < 288
    ensures
      var L := FixedCodes(defl64).ll;
      |L| == 288 && (Code(L, s), L[s]) == FixedCode(s)
  {
    FixedLengths(defl64);
    var L := FixedCodes(defl64).ll;
    hide CountTo, FixedCodes, FirstCode;
    FixedCounts(L);
    FixedEnds(L);
    NoneCounted(L);
    if s < 144 {
      CountRuns(L, 8, 0, s);
    } else if s < 256 {
      CountRuns(L, 9, 144, s);
    } else if s < 280 {
      CountRuns(L, 7, 256, s);
    } else {
      CountRuns(L, 8, 280, s);
    }
  }

  /** Distance codes are their symbols in five bits. */
  lemma FixedDistanceIs(defl64: bool, s: nat)
    requires s < 32
    ensures var L := FixedCodes(defl64).dl; |L| == 32 && L[s] == 5 && Code(L, s) == s
  {
    FixedLengths(defl64);
    var L := FixedCodes(defl64).dl;
    hide CountTo, FixedCodes;
    NoneCounted(L);
    forall k | 1 <= k <= 4 ensures Count(L, k) == 0 {
      CountSkips(L, k, 0, 32);
    }
    EndsNone(L, 4);
    CountRuns(L, 5, 0, s);
  }

  // ---- The order of bit length codes ----

  /** After the codes for repeats the lengths from 8 outwards, as the outer ones are rarest. */
  function Order(j: nat): nat
    requires j < 19
  {
    if j < 3 then 16 + j else if j == 3 then 0 else if j % 2 == 0 then 8 + (j - 4) / 2 else 7 - (j - 5) / 2
  }

  lemma BorderIs(j: nat)
    requires j < 19
    ensures |BORDER| == 19 && BORDER[j] == Order(j)
  {
  }
}
