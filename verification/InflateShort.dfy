/** A whole deflate stream that means something and is refused: nothing is left behind its last block for
    the table of distances to look at. */
module InflateShort {
  import opened Arith
  import opened Bits
  import opened BitBuffer
  import opened Canonical
  import opened Window
  import opened HuftBits
  import opened HuftTables
  import opened HuftLists
  import opened HuftDriver
  import opened Inflate
  import opened InflateRoom
  import opened InflateBlocks

  /** One dynamic block: a zero, a copy of three bytes at distance 1, and the end of the block. */
  const SHORT_END: seq<int> := [13, 195, 129, 0, 0, 0, 0, 195, 160, 249, 83, 183, 246, 55]

  /** Its bit length code, and the lengths of its two alphabets. */
  const BIT_LENGTHS: seq<int> := [0, 2, 3, 3, 0, 0, 0, 0, 0, 0, 0, 0, 0, 0, 0, 0, 0, 0, 1]

  function Literals(): seq<int> { [2] + Repeat(0, 255) + [1, 2] }

  const DISTANCES: seq<int> := [1, 2, 3, 3]

  function ShortCodes(need: Need): Codes { Codes(Literals(), DISTANCES, false, need) }

  // ---- Streams as numbers ----

  /** The `n` low bytes of a number, least significant first. */
  function BytesOf(v: nat, n: nat): (bytes: seq<int>)
    ensures AreBytes(bytes)
  {
    if n == 0 then [] else [v % 256] + BytesOf(v / 256, n - 1)
  }

  lemma {:induction false} BytesAsNumber(v: nat, n: nat)
    ensures ByteBits(BytesOf(v, n)) == BitsOf(v, 8 * n)
  {
    hide BitsOf;
    if n > 0 {
      BytesAsNumber(v / 256, n - 1);
      BytePower();
      BitsOfJoin(v % 256, 8, v / 256, 8 * (n - 1));
      assert BytesOf(v, n)[1..] == BytesOf(v / 256, n - 1);
    } else {
      assert BitsOf(v, 0) == [];
    }
  }

  lemma SmallPow2()
    ensures Pow2(1) == 2 && Pow2(2) == 4 && Pow2(3) == 8 && Pow2(4) == 16 && Pow2(5) == 32 && Pow2(7) == 128
  {
  }

  lemma ReadNumber(n: nat, v: nat, c: nat)
    requires n <= c
    ensures v / Pow2(n) >= 0 && ReadBits(n, BitsOf(v, c)) == Field(v % Pow2(n), BitsOf(v / Pow2(n), c - n))
  {
    hide BitsOf, Pow2;
    BitsOfSplit(v, c, n);
    LsbOfBits(Low(v, n), n);
  }

  /** The symbol whose code the number starts with. */
  lemma ReadCode(L: seq<int>, s: nat, v: nat, c: nat)
    requires s < |L| && 0 < L[s] <= c && Msb(BitsOf(v % Pow2(L[s]), L[s])) == Code(L, s)
    ensures v / Pow2(L[s]) >= 0 && ReadSymbol(L, BitsOf(v, c)) == Field(s, BitsOf(v / Pow2(L[s]), c - L[s]))
  {
    hide BitsOf, Pow2, Code, Msb;
    BitsOfSplit(v, c, L[s]);
    var stream := BitsOf(v, c);
    assert StartsWith(L, stream, s);
    PrefixFree(L, stream, s, FirstSymbol(L, stream));
  }

  // ---- The codes ----

  lemma CountHere(L: seq<int>, k: int, i: nat)
    requires i < |L| && L[i] == k
    ensures CountTo(L, k, i + 1) == CountTo(L, k, i) + 1
  {
  }

  lemma ThreeEnds(L: seq<int>, a: nat, b: nat)
    requires Count(L, 1) == a && Count(L, 2) == b
    ensures FirstCode(L, 1) == 0 && FirstCode(L, 2) == 2 * a && FirstCode(L, 3) == 2 * (2 * a + b)
  {
    assert End(L, 0) == 0 && End(L, 1) == a && End(L, 2) == 2 * a + b;
  }

  lemma BitCodes()
    ensures Code(BIT_LENGTHS, 18) == 0 && Code(BIT_LENGTHS, 1) == 2 && Code(BIT_LENGTHS, 2) == 6
        && Code(BIT_LENGTHS, 3) == 7
    ensures Usable(BIT_LENGTHS)
  {
    hide CountTo, FirstCode, KraftSum, Pow2;
    var B := BIT_LENGTHS;
    assert CountTo(B, 1, 0) == CountTo(B, 2, 0) == CountTo(B, 3, 0) == 0 by { NothingCounted(B); }
    CountSkips(B, 1, 0, 18);
    CountHere(B, 1, 18);
    CountSkips(B, 2, 0, 1);
    CountHere(B, 2, 1);
    CountSkips(B, 2, 2, 19);
    CountSkips(B, 3, 0, 2);
    CountHere(B, 3, 2);
    ThreeEnds(B, 1, 1);
    BitsUsable();
  }

  lemma NothingCounted(L: seq<int>)
    ensures CountTo(L, 0, 0) == CountTo(L, 1, 0) == CountTo(L, 2, 0) == CountTo(L, 3, 0) == 0
  {
  }

  lemma {:induction false} KraftSkips(L: seq<int>, i: nat, j: nat)
    requires i <= j <= |L| && forall x :: i <= x < j ==> L[x] == 0
    ensures KraftSum(L, BMAX, j) == KraftSum(L, BMAX, i)
    decreases j
  {
    if i < j {
      KraftSkips(L, i, j - 1);
    }
  }

  lemma Halves()
    ensures Pow2(BMAX) == 2 * Pow2(BMAX - 1) && Pow2(BMAX - 1) == 2 * Pow2(BMAX - 2)
        && Pow2(BMAX - 2) == 2 * Pow2(BMAX - 3)
  {
  }

  lemma {:induction false} SomeCode(L: seq<int>, i: nat, n: nat)
    requires i < n <= |L| && L[i] != 0
    ensures CountTo(L, 0, n) < n
    decreases n
  {
    CountAtMost(L, 0, n - 1);
    if n - 1 > i {
      SomeCode(L, i, n - 1);
    }
  }

  lemma BitsUsable()
    ensures Usable(BIT_LENGTHS)
  {
    hide KraftSum, Pow2, CountTo;
    var B := BIT_LENGTHS;
    KraftOfNothing(B);
    Halves();
    KraftSkips(B, 0, 1);
    KraftStep(B, BMAX, 2, 2);
    KraftStep(B, BMAX, 3, 3);
    KraftStep(B, BMAX, 3, 4);
    KraftSkips(B, 4, 18);
    KraftStep(B, BMAX, 1, 19);
    SomeCode(B, 1, 19);
  }

  lemma KraftOfNothing(L: seq<int>)
    ensures KraftSum(L, BMAX, 0) == 0
  {
  }

  lemma LiteralCodes()
    ensures |Literals()| == 258 && Literals()[0] == Literals()[257] == 2 && Literals()[256] == 1
    ensures Code(Literals(), 256) == 0 && Code(Literals(), 0) == 2 && Code(Literals(), 257) == 3
    ensures Usable(Literals())
  {
    hide CountTo, FirstCode, KraftSum, Pow2;
    var L := Literals();
    NothingCounted(L);
    CountSkips(L, 1, 0, 256);
    CountHere(L, 1, 256);
    CountSkips(L, 1, 257, 258);
    CountHere(L, 2, 0);
    CountSkips(L, 2, 1, 257);
    CountHere(L, 2, 257);
    ThreeEnds(L, 1, 2);
    KraftOfNothing(L);
    Halves();
    KraftStep(L, BMAX, 2, 1);
    KraftSkips(L, 1, 256);
    KraftStep(L, BMAX, 1, 257);
    KraftStep(L, BMAX, 2, 258);
    SomeCode(L, 0, 258);
  }

  lemma DistanceCodes()
    ensures Code(DISTANCES, 0) == 0 && UsableDistances(DISTANCES, 258)
    ensures Bounded(DISTANCES, 6) && Widest(DISTANCES) == 3
  {
    hide CountTo, FirstCode, KraftSum, Pow2, Widest;
    var D := DISTANCES;
    NothingCounted(D);
    CountHere(D, 1, 0);
    CountSkips(D, 1, 1, 4);
    CountSkips(D, 2, 0, 1);
    CountHere(D, 2, 1);
    CountSkips(D, 2, 2, 4);
    ThreeEnds(D, 1, 1);
    KraftOfNothing(D);
    Halves();
    KraftStep(D, BMAX, 1, 1);
    KraftStep(D, BMAX, 2, 2);
    KraftStep(D, BMAX, 3, 3);
    KraftStep(D, BMAX, 3, 4);
    SomeCode(D, 0, 4);
    assert D[3] == 3;
    OnlyWidest(D, 3);
  }

  // ---- The header ----

  lemma BitLength(j: nat, ll: seq<int>, v: nat, c: nat)
    requires j < 18 && |ll| == 19 && 3 <= c
    ensures BORDER[j] < 19
    ensures ReadBitLengths(j, 18, ll, BitsOf(v, c))
        == ReadBitLengths(j + 1, 18, ll[BORDER[j] := v % 8], BitsOf(v / 8, c - 3))
  {
    hide ReadBits, BitsOf;
    BorderIsOrder(j);
    ReadNumber(3, v, c);
    SmallPow2();
  }

  /** The reads of zeros change nothing. */
  lemma BitZero(j: nat, ll: seq<int>, v: nat, c: nat)
    requires j < 18 && |ll| == 19 && 3 <= c && v % 8 == 0 && BORDER[j] < 19 && ll[BORDER[j]] == 0
    ensures ReadBitLengths(j, 18, ll, BitsOf(v, c)) == ReadBitLengths(j + 1, 18, ll, BitsOf(v / 8, c - 3))
  {
    hide ReadBits, BitsOf, ReadBitLengths;
    BitLength(j, ll, v, c);
    assert ll[BORDER[j] := 0] == ll;
  }

  lemma BitLengthsRead()
    ensures
      ReadBitLengths(0, 18, Repeat(0, 19), BitsOf(8659968516966446068146372672, 95))
      == Lens(BIT_LENGTHS, BitsOf(480724822003, 41))
  {
    hide ReadBits, BitsOf, ReadBitLengths;
    var z := Repeat(0, 19);
    var a := z[18 := 1];
    var b := a[3 := 3];
    var d := b[2 := 3];
    var e := d[1 := 2];
    assert e == BIT_LENGTHS;
    FirstBitLengths(z, a);
    LastBitLengths(a, b, d, e);
    AllBitLengths(e, BitsOf(480724822003, 41));
  }

  lemma AllBitLengths(ll: seq<int>, stream: seq<bool>)
    requires |ll| == 19
    ensures ReadBitLengths(18, 18, ll, stream) == Lens(ll, stream)
  {
  }

  lemma FirstBitLengths(z: seq<int>, a: seq<int>)
    requires z == Repeat(0, 19) && a == z[18 := 1]
    ensures
      ReadBitLengths(0, 18, z, BitsOf(8659968516966446068146372672, 95))
      == ReadBitLengths(9, 18, a, BitsOf(64521793402481422336, 68))
  {
    hide BitsOf, ReadBitLengths;
    OpeningBitLengths(z, a);
    BitZero(3, a, 16914001009700089976848384, 86);
    BitZero(4, a, 2114250126212511247106048, 83);
    BitZero(5, a, 264281265776563905888256, 80);
    BitZero(6, a, 33035158222070488236032, 77);
    BitZero(7, a, 4129394777758811029504, 74);
    BitZero(8, a, 516174347219851378688, 71);
  }

  lemma OpeningBitLengths(z: seq<int>, a: seq<int>)
    requires z == Repeat(0, 19) && a == z[18 := 1]
    ensures
      ReadBitLengths(0, 18, z, BitsOf(8659968516966446068146372672, 95))
      == ReadBitLengths(3, 18, a, BitsOf(16914001009700089976848384, 86))
  {
    hide BitsOf, ReadBitLengths;
    assert BORDER[0] == 16 && BORDER[1] == 17 && BORDER[2] == 18;
    BitZero(0, z, 8659968516966446068146372672, 95);
    BitZero(1, z, 1082496064620805758518296584, 92);
    BitLength(2, z, 135312008077600719814787073, 89);
  }

  lemma LastBitLengths(a: seq<int>, b: seq<int>, d: seq<int>, e: seq<int>)
    requires |a| == 19 && a == Repeat(0, 19)[18 := 1] && b == a[3 := 3] && d == b[2 := 3] && e == d[1 := 2]
    ensures
      ReadBitLengths(9, 18, a, BitsOf(64521793402481422336, 68))
      == ReadBitLengths(18, 18, e, BitsOf(480724822003, 41))
  {
    hide BitsOf, ReadBitLengths;
    MiddleBitLengths(a, b);
    assert BORDER[14] == 13 && BORDER[15] == 2 && BORDER[16] == 14 && BORDER[17] == 1;
    BitZero(14, b, 1969048870925336, 53);
    BitLength(15, b, 246131108865667, 50);
    BitZero(16, d, 30766388608208, 47);
    BitLength(17, d, 3845798576026, 44);
  }

  lemma MiddleBitLengths(a: seq<int>, b: seq<int>)
    requires |a| == 19 && a == Repeat(0, 19)[18 := 1] && b == a[3 := 3]
    ensures
      ReadBitLengths(9, 18, a, BitsOf(64521793402481422336, 68))
      == ReadBitLengths(14, 18, b, BitsOf(1969048870925336, 53))
  {
    hide BitsOf, ReadBitLengths;
    assert BORDER[9] == 5 && BORDER[10] == 11 && BORDER[11] == 4 && BORDER[12] == 12 && BORDER[13] == 3;
    BitZero(9, a, 64521793402481422336, 68);
    BitZero(10, a, 8065224175310177792, 65);
    BitZero(11, a, 1008153021913772224, 62);
    BitZero(12, a, 126019127739221528, 59);
    BitLength(13, a, 15752390967402691, 56);
  }

  /** The bits of a symbol's code, as a number, and how far they move the stream. */
  function CodeNumber(s: nat): nat { if s == 1 then 1 else if s == 2 then 3 else 7 }

  function CodeSpan(s: nat): nat { if s == 1 then 4 else 8 }

  /** One code length: a symbol below 16. */
  lemma LengthRead(acc: seq<int>, prev: int, s: nat, w: nat, c: nat)
    requires |acc| < 262 && 1 <= s <= 3
    ensures
      ReadLengths(BitCode(BIT_LENGTHS, 0, false), 262, acc, prev,
                  BitsOf(w * CodeSpan(s) + CodeNumber(s), c + BIT_LENGTHS[s]))
      == ReadLengths(BitCode(BIT_LENGTHS, 0, false), 262, acc + [s], s, BitsOf(w, c))
  {
    hide ReadLengths, ReadBitSymbol, BitsOf, Pow2, Msb, Code;
    BitCodes();
    SmallPow2();
    FewBits();
    var v, l := w * CodeSpan(s) + CodeNumber(s), BIT_LENGTHS[s];
    assert v % Pow2(l) == CodeNumber(s) && v / Pow2(l) == w;
    ReadCode(BIT_LENGTHS, s, v, c + l);
    SameSymbol(BIT_LENGTHS, 0, BitsOf(v, c + l));
    LengthsStep(BitCode(BIT_LENGTHS, 0, false), 262, acc, prev, BitsOf(v, c + l), s, BitsOf(w, c));
  }

  /** A run of zeros: symbol 18 and seven bits. */
  lemma ZerosRead(acc: seq<int>, prev: int, v: nat, c: nat)
    requires 8 <= c && v % 2 == 0 && |acc| + 11 + v / 2 % 128 <= 262
    ensures
      ReadLengths(BitCode(BIT_LENGTHS, 0, false), 262, acc, prev, BitsOf(v, c))
      == ReadLengths(BitCode(BIT_LENGTHS, 0, false), 262, acc + Repeat(0, 11 + v / 2 % 128), 0, BitsOf(v / 256, c - 8))
  {
    hide ReadLengths, ReadBitSymbol, BitsOf, Pow2, Msb, Code, ReadBits;
    BitCodes();
    SmallPow2();
    FewBits();
    ReadCode(BIT_LENGTHS, 18, v, c);
    SameSymbol(BIT_LENGTHS, 0, BitsOf(v, c));
    ReadNumber(7, v / 2, c - 1);
    LengthsStep(BitCode(BIT_LENGTHS, 0, false), 262, acc, prev, BitsOf(v, c), 18, BitsOf(v / 2, c - 1));
  }

  lemma MsbOfNothing()
    ensures Msb([]) == 0
  {
  }

  lemma FewBits()
    ensures Msb(BitsOf(1, 2)) == 2 && Msb(BitsOf(3, 2)) == 3 && Msb(BitsOf(3, 3)) == 6 && Msb(BitsOf(7, 3)) == 7
    ensures Msb(BitsOf(0, 1)) == 0
  {
    hide Msb;
    MsbSnoc([], true);
    MsbSnoc([true], false);
    MsbSnoc([true], true);
    MsbSnoc([true, true], false);
    MsbSnoc([true, true], true);
    MsbSnoc([], false);
    MsbOfNothing();
    assert BitsOf(1, 2) == [true] + [false] && BitsOf(3, 2) == [true] + [true] && BitsOf(0, 1) == [] + [false];
    assert BitsOf(3, 3) == [true, true] + [false] && BitsOf(7, 3) == [true, true] + [true];
    assert [] + [true] == [true] && [true] + [true] == [true, true];
  }

  lemma LengthsAreRead()
    ensures
      ReadLengths(BitCode(BIT_LENGTHS, 0, false), 262, [], 0, BitsOf(480724822003, 41))
      == Lens(Literals() + DISTANCES, BitsOf(13, 6))
  {
    hide ReadLengths, BitsOf;
    ZerosAreRead();
    LastLengths([2] + Repeat(0, 255));
    assert [2] + Repeat(0, 255) + [1, 2, 1, 2, 3, 3] == Literals() + DISTANCES;
  }

  lemma ZerosAreRead()
    ensures
      ReadLengths(BitCode(BIT_LENGTHS, 0, false), 262, [], 0, BitsOf(480724822003, 41))
      == ReadLengths(BitCode(BIT_LENGTHS, 0, false), 262, [2] + Repeat(0, 255), 0, BitsOf(916909, 22))
  {
    hide ReadLengths, BitsOf;
    LengthRead([], 0, 2, 60090602750, 38);
    assert [] + [2] == [2];
    ZerosRead([2], 2, 60090602750, 38);
    ZerosRead([2] + Repeat(0, 138), 0, 234728916, 30);
    assert [2] + Repeat(0, 138) + Repeat(0, 117) == [2] + Repeat(0, 255);
  }

  lemma LastLengths(acc: seq<int>)
    requires |acc| == 256
    ensures
      ReadLengths(BitCode(BIT_LENGTHS, 0, false), 262, acc, 0, BitsOf(916909, 22))
      == Lens(acc + [1, 2, 1, 2, 3, 3], BitsOf(13, 6))
  {
    hide ReadLengths, BitsOf;
    LengthRead(acc, 0, 1, 229227, 20);
    LengthRead(acc + [1], 1, 2, 28653, 17);
    LengthRead(acc + [1] + [2], 2, 1, 7163, 15);
    LengthRead(acc + [1] + [2] + [1], 1, 2, 895, 12);
    LengthRead(acc + [1] + [2] + [1] + [2], 2, 3, 111, 9);
    LengthRead(acc + [1] + [2] + [1] + [2] + [3], 3, 3, 13, 6);
    assert acc + [1] + [2] + [1] + [2] + [3] + [3] == acc + [1, 2, 1, 2, 3, 3];
    NoMore(BitCode(BIT_LENGTHS, 0, false), 262, acc + [1, 2, 1, 2, 3, 3], 3, BitsOf(13, 6));
  }

  lemma HeaderRead()
    ensures
      ReadHeader(false, false, BitsOf(141884924181978252380510169872481, 109))
      == Header(ShortCodes(Free), BIT_LENGTHS, BitsOf(13, 6))
  {
    hide ReadBits, BitsOf, ReadTables, Literals;
    SmallPow2();
    ReadNumber(5, 141884924181978252380510169872481, 109);
    ReadNumber(5, 4433903880686820386890942808515, 104);
    ReadNumber(4, 138559496271463137090341962766, 99);
    TablesAreRead();
  }

  lemma TablesAreRead()
    ensures
      ReadTables(false, false, 258, 4, 18, BitsOf(8659968516966446068146372672, 95))
      == Header(ShortCodes(Free), BIT_LENGTHS, BitsOf(13, 6))
  {
    hide BitsOf, Usable, UsableDistances, ReadBitLengths, ReadLengths, ReadTables, Literals;
    BitLengthsRead();
    LengthsAreRead();
    BitCodes();
    LiteralCodes();
    DistanceCodes();
    TablesRead(false, false, 258, 4, 18, BitsOf(8659968516966446068146372672, 95));
    var all := Literals() + DISTANCES;
    assert all[..258] == Literals() && all[258..] == DISTANCES;
  }

  // ---- The data ----

  /** The bits `1 0`, `1 1`, `0` and `0` at the end: literal, length, distance, end of block. */
  lemma SymbolsRead()
    ensures ReadSymbol(Literals(), BitsOf(13, 6)) == Field(0, BitsOf(3, 4))
    ensures ReadSymbol(Literals(), BitsOf(3, 4)) == Field(257, BitsOf(0, 2))
    ensures ReadSymbol(DISTANCES, BitsOf(0, 2)) == Field(0, BitsOf(0, 1))
    ensures ReadSymbol(Literals(), BitsOf(0, 1)) == Field(256, [])
  {
    hide ReadSymbol, Code, BitsOf, Msb, Literals, Pow2;
    LiteralCodes();
    DistanceCodes();
    SmallPow2();
    FewBits();
    ReadCode(Literals(), 0, 13, 6);
    ReadCode(Literals(), 257, 3, 4);
    ReadCode(DISTANCES, 0, 0, 2);
    ReadCode(Literals(), 256, 0, 1);
    assert BitsOf(0, 0) == [];
  }

  lemma DataReads(need: Need)
    ensures
      var C := ShortCodes(need);
      && ReadSymbol(C.ll, BitsOf(13, 6)) == Field(0, BitsOf(3, 4))
      && ReadSymbol(C.ll, BitsOf(3, 4)) == Field(257, BitsOf(0, 2))
      && ReadExtra(LengthLists(false), 0, BitsOf(0, 2)) == Field(3, BitsOf(0, 2))
      && ReadSymbol(C.dl, BitsOf(0, 2)) == Field(0, BitsOf(0, 1))
      && ReadExtra(DistanceLists(false), 0, BitsOf(0, 1)) == Field(1, BitsOf(0, 1))
      && ReadSymbol(C.ll, BitsOf(0, 1)) == Field(256, [])
  {
    hide ReadSymbol, ReadExtra, BitsOf, Literals;
    SymbolsRead();
    NoExtraBits(LengthLists(false), 0, BitsOf(0, 2));
    NoExtraBits(DistanceLists(false), 0, BitsOf(0, 1));
  }

  lemma NoExtraBits(lists: Lists, i: nat, stream: seq<bool>)
    requires i < |lists.base| && i < |lists.extra| && lists.extra[i] == 0 && lists.base[i] >= 0
    ensures ReadExtra(lists, i, stream) == Field(lists.base[i], stream)
  {
    assert stream[0..] == stream;
  }

  lemma DataMeans()
    ensures Inflated(ShortCodes(Free), BitsOf(13, 6), []) == Done([0, 0, 0, 0], [])
  {
    hide ReadSymbol, ReadExtra, Inflated, LengthLists, DistanceLists, BitsOf, Literals;
    var C := ShortCodes(Free);
    DataReads(Free);
    FreeRoom(C, BitsOf(13, 6));
    FreeRoom(C, BitsOf(3, 4));
    FreeRoom(C, BitsOf(0, 2));
    FreeRoom(C, BitsOf(0, 1));
    var text := Expand([] + [0], 1, 3);
    assert StepOf(C, BitsOf(13, 6), []) == Go(BitsOf(3, 4), [] + [0]);
    assert StepOf(C, BitsOf(3, 4), [] + [0]) == Go(BitsOf(0, 1), text);
    assert StepOf(C, BitsOf(0, 1), text) == Stop(Done(text, []));
    InflatedSteps(C, BitsOf(13, 6), []);
    InflatedSteps(C, BitsOf(3, 4), [] + [0]);
    InflatedSteps(C, BitsOf(0, 1), text);
    assert text == [0, 0, 0, 0];
  }

  /** A table of three bits cannot look the distance up when two bits are left. */
  lemma DataRefused(tl: seq<seq<Huft>>, bl: nat, td: seq<seq<Huft>>)
    requires TablesFor(td, BITS, 3, DISTANCES, DistanceLists(false))
    ensures Inflated(ShortCodes(Tables(tl, bl, td, 3)), BitsOf(13, 6), []) == Bad
  {
    hide ReadSymbol, ReadExtra, Inflated, LengthLists, DistanceLists, Enough, Decodes, Marked, LiteralRoom, BitsOf,
        Literals;
    var C := ShortCodes(Tables(tl, bl, td, 3));
    DataReads(C.need);
    WideTable(td, 3, DISTANCES, DistanceLists(false), BitsOf(0, 2));
    InflatedSteps(C, BitsOf(13, 6), []);
    InflatedSteps(C, BitsOf(3, 4), [] + [0]);
    assert StepOf(C, BitsOf(3, 4), [] + [0]) == Stop(Bad);
    assert StepOf(C, BitsOf(13, 6), []) == Stop(Bad) || StepOf(C, BitsOf(13, 6), []) == Go(BitsOf(3, 4), [] + [0]);
  }

  // ---- The stream ----

  lemma BytesStep(w: nat, b: nat, n: nat)
    requires b < 256
    ensures BytesOf(256 * w + b, n + 1) == [b] + BytesOf(w, n)
  {
  }

  lemma ShortEndBits()
    ensures AreBytes(SHORT_END) && ByteBits(SHORT_END) == BitsOf(1135079393455826019044081358979853, 112)
  {
    hide BitsOf, ByteBits, BytesOf;
    BytesAsNumber(1135079393455826019044081358979853, 14);
    FirstBytes();
    LastBytes();
    assert SHORT_END == [13, 195, 129, 0, 0, 0, 0] + [195, 160, 249, 83, 183, 246, 55];
  }

  lemma FirstBytes()
    ensures
      BytesOf(1135079393455826019044081358979853, 14)
      == [13, 195, 129, 0, 0, 0, 0] + BytesOf(15752390967402691, 7)
  {
    hide BytesOf;
    BytesStep(4433903880686820386890942808515, 13, 13);
    BytesStep(17319937033932892136292745345, 195, 12);
    BytesStep(67656004038800359907393536, 129, 11);
    BytesStep(264281265776563905888256, 0, 10);
    BytesStep(1032348694439702757376, 0, 9);
    BytesStep(4032612087655088896, 0, 8);
    BytesStep(15752390967402691, 0, 7);
    var last := BytesOf(15752390967402691, 7);
    assert [13] + ([195] + ([129] + ([0] + ([0] + ([0] + ([0] + (last))))))) == [13, 195, 129, 0, 0, 0, 0] + last;
  }

  lemma LastBytes()
    ensures BytesOf(15752390967402691, 7) == [195, 160, 249, 83, 183, 246, 55]
  {
    hide BytesOf;
    BytesStep(61532777216416, 195, 6);
    BytesStep(240362411001, 160, 5);
    BytesStep(938915667, 249, 4);
    BytesStep(3667639, 83, 3);
    BytesStep(14326, 183, 2);
    BytesStep(55, 246, 1);
    BytesStep(0, 55, 0);
    NoBytes();
    assert [195] + ([160] + ([249] + ([83] + ([183] + ([246] + ([55] + ([]))))))) == [195, 160, 249, 83, 183, 246, 55];
  }

  lemma NoBytes()
    ensures BytesOf(0, 0) == []
  {
  }

  lemma ShortEndHead()
    ensures
      var stream, rest := BitsOf(1135079393455826019044081358979853, 112),
          BitsOf(567539696727913009522040679489926, 111);
      && ReadBits(1, stream) == Field(1, rest)
      && ReadBits(2, rest) == Field(2, BitsOf(141884924181978252380510169872481, 109))
  {
    hide BitsOf, ReadBits;
    SmallPow2();
    ReadNumber(1, 1135079393455826019044081358979853, 112);
    ReadNumber(2, 567539696727913009522040679489926, 111);
  }

  /** The stream stands for four zeros. */
  lemma ShortEndMeans()
    ensures AreBytes(SHORT_END) && Blocks(false, ByteBits(SHORT_END), []) == Done([0, 0, 0, 0], [])
  {
    hide BitsOf, ReadBits, ReadHeader, Blocks, Block, Inflated, RoomyBlocks, RoomAfter;
    ShortEndBits();
    ShortEndHead();
    HeaderRead();
    DataMeans();
    DynamicMeans(Free, false, BitsOf(141884924181978252380510169872481, 109), []);
    BlocksStep(false, ByteBits(SHORT_END), []);
  }

  lemma ShortHeaderLooked()
    ensures
      ReadHeader(true, false, BitsOf(141884924181978252380510169872481, 109))
      == Header(ShortCodes(Free), BIT_LENGTHS, BitsOf(13, 6))
  {
    hide BitsOf, ReadHeader;
    HeaderRead();
    HeaderLooked(false, BitsOf(141884924181978252380510169872481, 109));
    assert LengthsRoom(Header(ShortCodes(Free), BIT_LENGTHS, BitsOf(13, 6)));
  }

  /** With the tables made for its block it is not looked up to the end. */
  lemma ShortEndLooked(needs: seq<Need>)
    requires AreBytes(SHORT_END) && NeedsBuilt(needs, false, ByteBits(SHORT_END), [])
    ensures BlocksLooked(needs, false, ByteBits(SHORT_END), []) == Bad
  {
    hide BitsOf, ReadBits, ReadHeader, Block, Inflated, TablesFor, LengthLists, DistanceLists, Widest, Literals;
    ShortEndBits();
    ShortEndHead();
    if needs != [] {
      var block := BitsOf(141884924181978252380510169872481, 109);
      assert NeedBuilt(needs[0], 2, false, block);
      ShortHeaderLooked();
      DynamicMeans(needs[0], false, block, []);
      DistanceCodes();
      LiteralCodes();
      DataRefused(needs[0].tl, needs[0].bl, needs[0].td);
    }
  }

  /** `zipinflate` refuses it. */
  method ShortEnd() returns (r: int, out: seq<int>)
    ensures AreBytes(SHORT_END) && Blocks(false, ByteBits(SHORT_END), []) == Done([0, 0, 0, 0], [])
    ensures r != 0
  {
    hide Blocks, BlocksLooked, NeedsBuilt, ByteBits, RoomyBlocks;
    ShortEndMeans();
    ghost var needs;
    r, out, needs := ZipInflate(SHORT_END, false);
    ShortEndLooked(needs);
  }
}
