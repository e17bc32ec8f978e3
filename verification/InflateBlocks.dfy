/** Whole deflate streams: stored, fixed and dynamic blocks up to the last one. */
module InflateBlocks {
  import opened Wrappers
  import opened Arith
  import opened Bits
  import opened BitBuffer
  import opened Canonical
  import opened HuftBits
  import opened HuftTables
  import opened HuftLists
  import opened HuftDriver
  import opened Inflate
  import opened InflateRoom

  const MAXLITLENS: nat := 288
  const MAXDISTS: nat := 32

  /** The order in which the lengths of the bit length codes are sent, and where each is in it. */
  const BORDER: seq<nat> := [16, 17, 18, 0, 8, 7, 9, 6, 10, 5, 11, 4, 12, 3, 13, 2, 14, 1, 15]
  const PLACE: seq<nat> := [3, 17, 15, 13, 11, 9, 7, 5, 4, 6, 8, 10, 12, 14, 16, 18, 0, 1, 2]

  lemma BorderIsOrder(i: nat)
    requires i < 19
    ensures |BORDER| == |PLACE| == 19 && BORDER[i] < 19 && PLACE[i] < 19
    ensures PLACE[BORDER[i]] == i && BORDER[PLACE[i]] == i
  {
  }

  // ---- The reference ----

  /** Code lengths the decoder takes: a complete set, or one with codes of a single bit only. */
  ghost predicate Usable(L: seq<int>) {
    && Count(L, 0) < |L|
    && (KraftSum(L, BMAX, |L|) == Pow2(BMAX) || (KraftSum(L, BMAX, |L|) < Pow2(BMAX) && Bounded(L, 1)))
  }

  /** Distances may be incomplete, and absent if there is no length either. */
  ghost predicate UsableDistances(D: seq<int>, nl: nat) {
    if Count(D, 0) == |D| then nl <= 257 else KraftSum(D, BMAX, |D|) <= Pow2(BMAX)
  }

  datatype Lens = Lens(ll: seq<int>, rest: seq<bool>) | NoLens

  /** Three bits for each of the first `nb` bit length codes, in their order. */
  ghost function ReadBitLengths(j: nat, nb: nat, ll: seq<int>, stream: seq<bool>): (r: Lens)
    requires |ll| == 19 && nb <= 19
    ensures r.Lens? ==> |r.ll| == 19 && |r.rest| <= |stream|
    decreases nb - j
  {
    if j >= nb then Lens(ll, stream)
    else
      BorderIsOrder(j);
      var f := ReadBits(3, stream);
      if f.NoField? then NoLens else ReadBitLengths(j + 1, nb, ll[BORDER[j] := f.value], f.rest)
  }

  /** Symbols 16 to 18 repeat a length: so many bits tell how often, beyond so many times. */
  function RunBits(s: nat): nat { if s == 16 then 2 else if s == 17 then 3 else 7 }

  function RunBase(s: nat): nat { if s <= 17 then 3 else 11 }

  /** A bit length code, how many bits a lookup asks for, and whether a lone symbol is also read from the
      bit that is not its code. The reference asks for none and takes only codes. */
  datatype BitCode = BitCode(B: seq<int>, need: nat, either: bool)

  ghost function ReadBitSymbol(R: BitCode, stream: seq<bool>): (f: Field)
    ensures f.Field? ==> |f.rest| < |stream|
  {
    hide ReadSymbol, Lone;
    SymbolShrinks(R.B, stream);
    if |stream| < R.need then NoField
    else if ReadSymbol(R.B, stream).Field? then ReadSymbol(R.B, stream)
    else if R.either && stream != [] && exists s: nat :: Lone(R.B, s) then
      var s: nat :| Lone(R.B, s);
      Field(s, stream[1..])
    else NoField
  }

  /** `n` code lengths, sent as symbols of the bit length code; 16 repeats the last one. */
  ghost function ReadLengths(R: BitCode, n: nat, acc: seq<int>, prev: int, stream: seq<bool>): (r: Lens)
    ensures r.Lens? ==> |r.rest| <= |stream| && |acc| <= |r.ll| && (|acc| <= n ==> |r.ll| == n)
    decreases |stream|
  {
    hide ReadBitSymbol, ReadBits;
    if |acc| >= n then Lens(acc, stream)
    else
      var f := ReadBitSymbol(R, stream);
      if f.NoField? then NoLens
      else if f.value < 16 then ReadLengths(R, n, acc + [f.value], f.value, f.rest)
      else
        BitsShrink(RunBits(f.value), f.rest);
        var v := ReadBits(RunBits(f.value), f.rest);
        if v.NoField? || |acc| + RunBase(f.value) + v.value > n then NoLens
        else
          var again := if f.value == 16 then prev else 0;
          ReadLengths(R, n, acc + Repeat(again, RunBase(f.value) + v.value), again, v.rest)
  }

  lemma BitsShrink(n: nat, stream: seq<bool>)
    ensures ReadBits(n, stream).Field? ==> |ReadBits(n, stream).rest| == |stream| - n
    ensures ReadBits(n, stream).NoField? <==> |stream| < n
  {
  }

  datatype Header = Header(codes: Codes, bits: seq<int>, rest: seq<bool>) | NoCodes

  /** The greatest of the lengths. */
  function Widest(B: seq<int>): (w: nat) {
    if B == [] then 0
    else
      var front, b := Widest(B[..|B| - 1]), B[|B| - 1];
      if b > front then b else front
  }

  /** The bit length code as it is sent, or as a table as wide as its longest code looks it up. */
  function BitCodeFor(B: seq<int>, looked: bool): BitCode { BitCode(B, if looked then Widest(B) else 0, looked) }

  /** The counts, the bit length code and the code lengths at the head of a dynamic block, as they are
      sent or as they are looked up. */
  ghost function ReadHeader(looked: bool, defl64: bool, stream: seq<bool>): (h: Header)
    ensures h.Header? ==> |h.rest| <= |stream|
  {
    hide ReadBits, Usable, UsableDistances, ReadBitLengths, ReadLengths;
    BitsShrink(5, stream);
    var f := ReadBits(5, stream);
    if f.NoField? then NoCodes
    else
      BitsShrink(5, f.rest);
      var d := ReadBits(5, f.rest);
      if d.NoField? then NoCodes
      else
        BitsShrink(4, d.rest);
        var b := ReadBits(4, d.rest);
        if b.NoField? then NoCodes
        else ReadTables(looked, defl64, 257 + f.value, 1 + d.value, 4 + b.value, b.rest)
  }

  ghost function ReadTables(looked: bool, defl64: bool, nl: nat, nd: nat, nb: nat, stream: seq<bool>): (h: Header)
    ensures h.Header? ==> |h.rest| <= |stream|
  {
    hide Usable, UsableDistances, ReadBitLengths, ReadLengths;
    if nl > MAXLITLENS || nd > MAXDISTS || nb > 19 then NoCodes
    else
      var bl := ReadBitLengths(0, nb, Repeat(0, 19), stream);
      if bl.NoLens? || !Usable(bl.ll) then NoCodes
      else
        var ll := ReadLengths(BitCodeFor(bl.ll, looked), nl + nd, [], 0, bl.rest);
        if ll.NoLens? || !Usable(ll.ll[..nl]) || !UsableDistances(ll.ll[nl..], nl) then NoCodes
        else Header(Codes(ll.ll[..nl], ll.ll[nl..], defl64, Free), bl.ll, ll.rest)
  }

  /** The codes of a fixed block. */
  function FixedCodes(defl64: bool): Codes {
    Codes(Repeat(8, 144) + Repeat(9, 112) + Repeat(7, 24) + Repeat(8, 8), Repeat(5, MAXDISTS), defl64, Free)
  }

  ghost function StoredBytes(n: nat, stream: seq<bool>, text: seq<int>): (r: Result)
    ensures r.Done? ==> |r.rest| <= |stream|
  {
    if n == 0 then Done(text, stream)
    else
      var f := ReadBits(8, stream);
      if f.NoField? then Bad else StoredBytes(n - 1, f.rest, text + [f.value])
  }

  /** From the next byte border: a length, its complement, and so many bytes. */
  ghost function Stored(stream: seq<bool>, text: seq<int>): (r: Result)
    ensures r.Done? ==> |r.rest| <= |stream|
  {
    var n := ReadBits(16, stream[|stream| % 8..]);
    if n.NoField? then Bad
    else
      var c := ReadBits(16, n.rest);
      if c.NoField? || n.value + c.value != 0xffff then Bad else StoredBytes(n.value, c.rest, text)
  }

  /** One block without its first three bits, its codes looked up as `need` says. */
  ghost function Block(need: Need, kind: nat, defl64: bool, stream: seq<bool>, text: seq<int>): (r: Result)
    ensures r.Done? ==> |r.rest| <= |stream|
  {
    hide Stored, ReadHeader, FixedCodes;
    if kind == 0 then Stored(stream, text)
    else if kind == 1 then
      InflatedShrinks(FixedCodes(defl64), stream, text);
      Inflated(FixedCodes(defl64), stream, text)
    else if kind == 2 then
      var h := ReadHeader(need.Tables?, defl64, stream);
      if h.NoCodes? then Bad
      else
        InflatedShrinks(h.codes.(need := need), h.rest, text);
        Inflated(h.codes.(need := need), h.rest, text)
    else Bad
  }

  /** The meaning of a deflate stream: its blocks one after the other, up to the one marked last. */
  ghost function Blocks(defl64: bool, stream: seq<bool>, text: seq<int>): (r: Result)
    ensures r.Done? ==> |r.rest| <= |stream|
    decreases |stream|
  {
    hide Block, ReadBits;
    BitsShrink(1, stream);
    var e := ReadBits(1, stream);
    if e.NoField? then Bad
    else
      BitsShrink(2, e.rest);
      var kind := ReadBits(2, e.rest);
      if kind.NoField? then Bad
      else
        var r := Block(Free, kind.value, defl64, kind.rest, text);
        if r.Bad? || e.value == 1 then r else Blocks(defl64, r.rest, r.text)
  }

  /** The same with the tables of each block: what comes out when codes are looked up with these. */
  ghost function BlocksLooked(needs: seq<Need>, defl64: bool, stream: seq<bool>, text: seq<int>): Result
    decreases |needs|
  {
    if needs == [] then Bad
    else
      var e := ReadBits(1, stream);
      if e.NoField? then Bad
      else
        var kind := ReadBits(2, e.rest);
        if kind.NoField? then Bad
        else
          var r := Block(needs[0], kind.value, defl64, kind.rest, text);
          if r.Bad? || e.value == 1 then r else BlocksLooked(needs[1..], defl64, r.rest, r.text)
  }

  /** A dynamic block's tables were built for its codes. */
  ghost predicate NeedBuilt(need: Need, kind: nat, defl64: bool, stream: seq<bool>) {
    kind == 2 ==>
      && need.Tables?
      && var h := ReadHeader(true, defl64, stream);
      h.Header? ==>
        && Built(h.codes.(need := need))
        && (|h.codes.ll| > 257 && Bounded(h.codes.dl, 6) ==> need.bd == Widest(h.codes.dl))
  }

  ghost predicate NeedsBuilt(needs: seq<Need>, defl64: bool, stream: seq<bool>, text: seq<int>)
    decreases |needs|
  {
    needs == [] ||
    var e := ReadBits(1, stream);
    e.NoField? ||
    var kind := ReadBits(2, e.rest);
    kind.NoField? ||
    (&& NeedBuilt(needs[0], kind.value, defl64, kind.rest)
     && var r := Block(needs[0], kind.value, defl64, kind.rest, text);
     r.Bad? || e.value == 1 || NeedsBuilt(needs[1..], defl64, r.rest, r.text))
  }

  // ---- Room for lookups ----

  /** With `n` bits behind the block, no lookup reaches past them. */
  ghost predicate HeaderRoom(h: Header, n: nat)
    requires h.Header?
  {
    && Roomy(h.codes, n)
    && forall s, i :: 0 <= s < |h.bits| && h.bits[s] > 0 && 0 <= i < |h.bits| ==>
        h.bits[i] <= h.bits[s] + h.codes.ll[256] + n
  }

  /** No lookup of a dynamic block reaches past what follows the block. */
  ghost predicate RoomAfter(kind: nat, defl64: bool, stream: seq<bool>, r: Result) {
    kind == 2 && r.Done? ==>
      var h := ReadHeader(false, defl64, stream);
      h.Header? ==> HeaderRoom(h, |r.rest|)
  }

  /** The same of every block of a stream: a test on the code lengths and on the number of bits left. */
  ghost predicate RoomyBlocks(defl64: bool, stream: seq<bool>, text: seq<int>)
    decreases |stream|
  {
    hide Block, ReadBits, RoomAfter;
    BitsShrink(1, stream);
    var e := ReadBits(1, stream);
    e.Field? ==>
      (BitsShrink(2, e.rest);
      var kind := ReadBits(2, e.rest);
      kind.Field? ==>
        var r := Block(Free, kind.value, defl64, kind.rest, text);
        r.Done? ==>
            RoomAfter(kind.value, defl64, kind.rest, r) && (e.value == 1 || RoomyBlocks(defl64, r.rest, r.text)))
  }

  // ---- Stored blocks ----

  lemma {:induction false} ByteBitsLength(bytes: seq<int>)
    requires AreBytes(bytes)
    ensures |ByteBits(bytes)| == 8 * |bytes|
  {
    if bytes != [] {
      ByteBitsLength(bytes[1..]);
    }
  }

  /** The buffer holds as many odd bits as the stream. */
  lemma OddBits(val: nat, cnt: nat, rest: seq<int>)
    requires AreBytes(rest)
    ensures |Pending(val, cnt, rest)| % 8 == cnt % 8
  {
    ByteBitsLength(rest);
  }

  /** `inflate_stored`. */
  method StoredBlock(g: Inflater) returns (retval: int)
    requires g.Buffered() && g.s.Valid()
    modifies g`bytes, g`b, g`k, g.s, g.s.slide
    ensures g.Buffered() && g.s.Valid() && g.s.slide == old(g.s.slide)
    ensures retval == 0 ==> Stored(old(g.Stream()), old(g.s.Text())) == Done(g.s.Text(), g.Stream())
    ensures retval != 0 ==> Stored(old(g.Stream()), old(g.s.Text())) == Bad
  {
    hide ReadBits, Pending;
    OddBits(g.b, g.k, g.bytes);
    var n := g.k % 8;
    g.DumpBits(n);
    var len := g.GetBits(16);
    if len.None? {
      BitsShrink(16, g.Stream());
      return 1;
    }
    ghost var before := g.Stream();
    var complement := g.GetBits(16);
    if complement.None? {
      BitsShrink(16, before);
      return 1;
    }
    if len.value != 0xffff - complement.value {
      return 1;
    }
    retval := CopyBytes(g, len.value);
  }

  method CopyBytes(g: Inflater, n0: nat) returns (retval: int)
    requires g.Buffered() && g.s.Valid()
    modifies g`bytes, g`b, g`k, g.s, g.s.slide
    ensures g.Buffered() && g.s.Valid() && g.s.slide == old(g.s.slide)
    ensures retval == 0 ==> StoredBytes(n0, old(g.Stream()), old(g.s.Text())) == Done(g.s.Text(), g.Stream())
    ensures retval != 0 ==> StoredBytes(n0, old(g.Stream()), old(g.s.Text())) == Bad
  {
    hide ReadBits, Pending;
    var n := n0;
    ghost var whole := StoredBytes(n, g.Stream(), g.s.Text());
    while n > 0
      invariant g.Buffered() && g.s.Valid() && g.s.slide == old(g.s.slide)
      invariant StoredBytes(n, g.Stream(), g.s.Text()) == whole
      decreases n
    {
      ghost var stream := g.Stream();
      var byte := g.GetBits(8);
      if byte.None? {
        BitsShrink(8, stream);
        return 1;
      }
      ghost var rest := g.Stream();
      g.s.PutByte(byte.value);
      assert g.Stream() == rest;
      n := n - 1;
    }
    retval := 0;
  }

  // ---- Fixed blocks ----

  /** Every symbol has a code, and the set is complete. */
  ghost predicate CompleteSet(L: seq<int>) {
    Bounded(L, BMAX) && Count(L, 0) == 0 && KraftSum(L, BMAX, |L|) == Pow2(BMAX)
  }

  lemma Shares()
    ensures Pow2(7) == 128 && Pow2(8) == 256 && Pow2(9) == 512 && Pow2(11) == 2048 && Pow2(16) == 65536
  {
    assert Pow2(14) == 16384;
  }

  lemma FixedLiterals(L: seq<int>)
    requires L == Repeat(8, 144) + Repeat(9, 112) + Repeat(7, 24) + Repeat(8, 8)
    ensures |L| == 288 && CompleteSet(L)
  {
    hide KraftSum, Pow2;
    var none: seq<int> := [];
    KraftOfNone();
    Shares();
    KraftOfRepeat(none, BMAX, 8, 144);
    assert none + Repeat(8, 144) == Repeat(8, 144);
    KraftOfRepeat(Repeat(8, 144), BMAX, 9, 112);
    KraftOfRepeat(Repeat(8, 144) + Repeat(9, 112), BMAX, 7, 24);
    KraftOfRepeat(Repeat(8, 144) + Repeat(9, 112) + Repeat(7, 24), BMAX, 8, 8);
    NoneAbsent(L, 288);
  }

  lemma FixedDistances(L: seq<int>)
    requires L == Repeat(5, MAXDISTS)
    ensures |L| == MAXDISTS && CompleteSet(L)
  {
    hide KraftSum, Pow2;
    var none: seq<int> := [];
    KraftOfNone();
    Shares();
    KraftOfRepeat(none, BMAX, 5, MAXDISTS);
    assert none + Repeat(5, MAXDISTS) == Repeat(5, MAXDISTS);
    NoneAbsent(L, MAXDISTS);
  }

  lemma KraftOfNone()
    ensures KraftSum([], BMAX, 0) == 0
  {
  }

  lemma ListsCover(L: seq<int>, defl64: bool)
    ensures |L| <= MAXLITLENS ==> Covers(LengthLists(defl64), L)
    ensures |L| <= MAXDISTS ==> Covers(DistanceLists(defl64), L)
  {
    ListShapes(defl64);
  }

  lemma CompleteIsBuilt(L: seq<int>)
    requires CompleteSet(L) && L != []
    ensures Bounded(L, BMAX) && Count(L, 0) < |L| && KraftSum(L, BMAX, |L|) == Pow2(BMAX)
  {
  }

  method FixedLiteralTable(defl64: bool) returns (tl: seq<seq<Huft>>, bl: nat)
    ensures TablesFor(tl, BITS, bl, FixedCodes(defl64).ll, LengthLists(defl64))
  {
    hide Decodes, Marked, KraftSum, Pow2, Bounded, Covers, SingleLevel, LengthLists, CompleteSet;
    var l := new int[288];
    forall i | 0 <= i < 144 { l[i] := 8; }
    forall i | 144 <= i < 256 { l[i] := 9; }
    forall i | 256 <= i < 280 { l[i] := 7; }
    forall i | 280 <= i < 288 { l[i] := 8; }
    var L := l[..];
    assert L == FixedCodes(defl64).ll;
    FixedLiterals(L);
    CompleteIsBuilt(L);
    ListsCover(L, defl64);
    var rc;
    rc, tl, bl := HuftBuild(L, LengthLists(defl64), 7, BITS);
    assert rc == 0;
  }

  method FixedDistanceTable(defl64: bool) returns (td: seq<seq<Huft>>, bd: nat)
    ensures TablesFor(td, BITS, bd, FixedCodes(defl64).dl, DistanceLists(defl64))
  {
    hide Decodes, Marked, KraftSum, Pow2, Bounded, Covers, SingleLevel, DistanceLists, CompleteSet;
    var l := new int[MAXDISTS];
    forall i | 0 <= i < MAXDISTS { l[i] := 5; }
    var L := l[..];
    assert L == FixedCodes(defl64).dl;
    FixedDistances(L);
    CompleteIsBuilt(L);
    ListsCover(L, defl64);
    var rc;
    rc, td, bd := HuftBuild(L, DistanceLists(defl64), 5, BITS);
    assert rc == 0;
  }

  lemma FixedIsRoomy(defl64: bool, n: nat)
    ensures Roomy(FixedCodes(defl64), n)
  {
    var L := FixedCodes(defl64).ll;
    forall s | 0 <= s < |L| ensures 7 <= L[s] <= 9 {
    }
    assert L[256] == 7;
  }

  lemma FixedBounded(defl64: bool)
    ensures Bounded(FixedCodes(defl64).ll, BMAX) && Bounded(FixedCodes(defl64).dl, BMAX)
  {
  }

  /** `inflate_fixed`; the code keeps its tables for further blocks. */
  method FixedBlock(g: Inflater, defl64: bool) returns (retval: int)
    requires g.Buffered() && g.s.Valid()
    modifies g`bytes, g`b, g`k, g.s, g.s.slide
    ensures g.Buffered() && g.s.Valid() && g.s.slide == old(g.s.slide)
    ensures retval == 0 ==>
        Inflated(FixedCodes(defl64), old(g.Stream()), old(g.s.Text())) == Done(g.s.Text(), g.Stream())
    ensures retval != 0 ==> Inflated(FixedCodes(defl64), old(g.Stream()), old(g.s.Text())) == Bad
  {
    hide Inflated, TablesFor, LengthLists, DistanceLists, Pending, Roomy, FixedCodes, Bounded;
    ghost var stream, text := g.Stream(), g.s.Text();
    var tl, bl := FixedLiteralTable(defl64);
    var td, bd := FixedDistanceTable(defl64);
    assert g.Stream() == stream && g.s.Text() == text;
    ghost var F := FixedCodes(defl64);
    ghost var C := F.(need := Tables(tl, bl, td, bd));
    FixedFree(defl64);
    FixedBounded(defl64);
    retval := g.InflateCodes(tl, td, bl, bd, C);
    TablesMean(C, stream, text);
    RoomSuffices(C, stream, text);
    ghost var r := Inflated(F, stream, text);
    if r.Done? {
      FixedIsRoomy(defl64, |r.rest|);
      SameRoom(C, |r.rest|);
    }
  }

  lemma FixedFree(defl64: bool)
    ensures FixedCodes(defl64).need == Free && FixedCodes(defl64).defl64 == defl64
  {
  }

  lemma SameRoom(C: Codes, n: nat)
    ensures Roomy(C, n) <==> Roomy(Freed(C), n)
  {
  }

  // ---- Dynamic blocks ----

  /** The bit lengths received so far are in their cells; the others are still to be cleared. */
  ghost predicate Placed(ll: seq<int>, acc: seq<int>, j: nat) {
    && |ll| == MAXLITLENS + MAXDISTS && |acc| == 19 && j <= 19
    && (forall i :: 0 <= i < 19 ==>
        0 <= acc[i] < 8 && (PLACE[i] < j ==> ll[i] == acc[i]) && (PLACE[i] >= j ==> acc[i] == 0))
  }

  lemma PlaceOne(ll: seq<int>, acc: seq<int>, j: nat, v: int)
    requires Placed(ll, acc, j) && j < 19 && 0 <= v < 8
    ensures BORDER[j] < 19 && Placed(ll[BORDER[j] := v], acc[BORDER[j] := v], j + 1)
    ensures Placed(ll[BORDER[j] := 0], acc, j + 1)
  {
    BorderIsOrder(j);
    forall i | 0 <= i < 19 && i != BORDER[j] ensures PLACE[i] != j {
      BorderIsOrder(i);
    }
  }

  lemma PlaceNone(ll: seq<int>)
    requires |ll| == MAXLITLENS + MAXDISTS
    ensures Placed(ll, Repeat(0, 19), 0)
  {
  }

  lemma PlacedAll(ll: seq<int>, acc: seq<int>)
    requires Placed(ll, acc, 19)
    ensures ll[..19] == acc && Bounded(acc, 7)
  {
    forall i | 0 <= i < 19 ensures ll[i] == acc[i] {
      BorderIsOrder(i);
    }
  }

  lemma LsbSmall(n: nat, stream: seq<bool>)
    ensures ReadBits(n, stream).Field? ==> ReadBits(n, stream).value < Pow2(n)
  {
    if n <= |stream| {
      BitsOfLsb(stream[..n]);
    }
  }

  /** The lengths of the bit length codes. */
  method BitLengths(g: Inflater, ll: array<int>, nb: nat) returns (ok: bool)
    requires g.Buffered() && ll.Length == MAXLITLENS + MAXDISTS && nb <= 19
    modifies g`bytes, g`b, g`k, ll
    ensures g.Buffered()
    ensures ok ==>
        ReadBitLengths(0, nb, Repeat(0, 19), old(g.Stream())) == Lens(ll[..19], g.Stream()) && Bounded(ll[..19], 7)
    ensures !ok ==> ReadBitLengths(0, nb, Repeat(0, 19), old(g.Stream())) == NoLens
  {
    hide ReadBits, Placed, Pending, Bounded;
    ghost var acc := Repeat(0, 19);
    ghost var whole := ReadBitLengths(0, nb, acc, g.Stream());
    PlaceNone(ll[..]);
    var j := 0;
    while j < nb
      invariant g.Buffered() && j <= nb && |acc| == 19 && Placed(ll[..], acc, j)
      invariant ReadBitLengths(j, nb, acc, g.Stream()) == whole
    {
      BorderIsOrder(j);
      ghost var stream, cells := g.Stream(), ll[..];
      var v := g.GetBits(3);
      if v.None? {
        BitsShrink(3, stream);
        return false;
      }
      LsbSmall(3, stream);
      assert Pow2(3) == 8;
      PlaceOne(ll[..], acc, j, v.value);
      ll[BORDER[j]] := v.value;
      assert ll[..] == cells[BORDER[j] := v.value];
      acc := acc[BORDER[j] := v.value];
      j := j + 1;
    }
    ghost var rest := g.Stream();
    while j < 19
      invariant g.Buffered() && nb <= j <= 19 && |acc| == 19 && Placed(ll[..], acc, j) && g.Stream() == rest
    {
      BorderIsOrder(j);
      ghost var cells := ll[..];
      PlaceOne(ll[..], acc, j, 0);
      ll[BORDER[j]] := 0;
      assert ll[..] == cells[BORDER[j] := 0];
      j := j + 1;
    }
    PlacedAll(ll[..], acc);
    assert ll[..][..19] == ll[..19];
    ok := true;
  }

  function BitLengthLists(): Lists { Lists(19, [], [], NOB, EOB) }

  /** The table of the bit length code looks up every symbol at once; its width is that of the longest code. */
  ghost predicate BitTable(tl: seq<seq<Huft>>, bl: nat, B: seq<int>) {
    && |B| == 19 && Bounded(B, bl) && bl <= 7 && (exists i :: 0 <= i < 19 && B[i] == bl) && Usable(B)
    && TablesFor(tl, BITS, bl, B, BitLengthLists()) && SingleLevel(tl)
    && forall s: nat :: Lone(B, s) ==> AllHold(tl, s)
  }

  // ---- Bit length codes with a lone symbol ----

  lemma {:induction false} KraftOfBits(L: seq<int>, n: nat)
    requires n <= |L| && Bounded(L, 1)
    ensures KraftSum(L, BMAX, n) == CountTo(L, 1, n) * Pow2(BMAX - 1) && CountTo(L, 0, n) + CountTo(L, 1, n) == n
  {
    hide Pow2;
    if n > 0 {
      KraftOfBits(L, n - 1);
      MulAdd(CountTo(L, 1, n - 1), 1, Pow2(BMAX - 1));
    }
  }

  lemma {:induction false} CountGrows(L: seq<int>, k: int, m: nat, n: nat)
    requires m <= n <= |L|
    ensures CountTo(L, k, m) <= CountTo(L, k, n)
    decreases n
  {
    if m < n {
      CountGrows(L, k, m, n - 1);
    }
  }

  lemma TwoCounted(L: seq<int>, k: int, a: nat, b: nat)
    requires a < b < |L| && L[a] == L[b] == k
    ensures Count(L, k) >= 2
  {
    CountGrows(L, k, a + 1, b);
    CountGrows(L, k, b + 1, |L|);
    assert CountTo(L, k, a + 1) == CountTo(L, k, a) + 1 && CountTo(L, k, b + 1) == CountTo(L, k, b) + 1;
  }

  /** A usable set that is not complete has a lone symbol. */
  lemma UsableOrLone(L: seq<int>) returns (s: nat)
    requires Usable(L) && KraftSum(L, BMAX, |L|) != Pow2(BMAX)
    ensures Lone(L, s)
  {
    hide KraftSum;
    KraftOfBits(L, |L|);
    assert Pow2(BMAX) == 2 * Pow2(BMAX - 1);
    if Count(L, 1) >= 2 {
      MulMono(2, Count(L, 1), Pow2(BMAX - 1));
    }
    s := SymbolOfRank(L, 1, 0, |L|);
    forall i | 0 <= i < |L| && i != s ensures L[i] == 0 {
      if L[i] == 1 {
        TwoCounted(L, 1, if i < s then i else s, if i < s then s else i);
      }
    }
  }

  /** The lengths a lone symbol stands for. */
  function LoneLength(s: nat): nat { if s < 16 then s else 0 }

  lemma LoneSymbol(R: BitCode, s: nat, stream: seq<bool>)
    requires Lone(R.B, s)
    ensures ReadBitSymbol(R, stream).Field? ==> ReadBitSymbol(R, stream).value == s
  {
    if ReadSymbol(R.B, stream).Field? {
      assert StartsWith(R.B, stream, ReadSymbol(R.B, stream).value);
    }
  }

  /** With a lone symbol all code lengths are the same. */
  lemma {:induction false} LoneLengths(R: BitCode, s: nat, n: nat, acc: seq<int>, prev: int, stream: seq<bool>)
    requires Lone(R.B, s) && (forall i :: 0 <= i < |acc| ==> acc[i] == LoneLength(s)) && (s == 16 ==> prev == 0)
    ensures ReadLengths(R, n, acc, prev, stream).Lens? ==>
      forall i :: 0 <= i < |ReadLengths(R, n, acc, prev, stream).ll| ==>
          ReadLengths(R, n, acc, prev, stream).ll[i] == LoneLength(s)
    decreases |stream|
  {
    hide ReadBitSymbol, ReadBits, Lone, ReadLengths;
    LoneSymbol(R, s, stream);
    if |acc| >= n {
      NoMore(R, n, acc, prev, stream);
    } else {
      var f := ReadBitSymbol(R, stream);
      if f.NoField? {
        NoSymbol(R, n, acc, prev, stream);
      } else {
        LengthsStep(R, n, acc, prev, stream, s, f.rest);
        if s < 16 {
          LoneLengths(R, s, n, acc + [s], s, f.rest);
        } else {
          BitsShrink(RunBits(s), f.rest);
          var v := ReadBits(RunBits(s), f.rest);
          if v.Field? && |acc| + RunBase(s) + v.value <= n {
            LoneLengths(R, s, n, acc + Repeat(0, RunBase(s) + v.value), 0, v.rest);
          }
        }
      }
    }
  }

  /** So many symbols with codes of the same length cannot be used: their number is no power of two. */
  lemma EqualUnusable(L: seq<int>, c: nat)
    requires 257 <= |L| <= MAXLITLENS && c < 16 && forall i :: 0 <= i < |L| ==> L[i] == c
    ensures !Usable(L)
  {
    hide KraftSum, Pow2;
    if c == 0 {
      AllZero(L, |L|);
    } else {
      var none: seq<int> := [];
      assert L == none + Repeat(c, |L|);
      KraftOfNone();
      KraftOfRepeat(none, BMAX, c, |L|);
      Pow2Adds(c, BMAX - c);
      Shares();
      if c <= 8 {
        Pow2Monotone(c, 8);
        MulMono(Pow2(c) + 1, |L|, Pow2(BMAX - c));
        MulAdd(Pow2(c), 1, Pow2(BMAX - c));
      } else {
        Pow2Monotone(9, c);
        MulMono(|L| + 1, Pow2(c), Pow2(BMAX - c));
        MulAdd(|L|, 1, Pow2(BMAX - c));
        assert L[0] == c;
      }
    }
  }

  lemma {:induction false} AllZero(L: seq<int>, n: nat)
    requires n <= |L| && forall i :: 0 <= i < |L| ==> L[i] == 0
    ensures CountTo(L, 0, n) == n
  {
    if n > 0 {
      AllZero(L, n - 1);
    }
  }

  /** Whatever is read with a lone bit length symbol, from its code or from the other bit, is refused. */
  lemma LoneRefused(R: BitCode, s: nat, nl: nat, nd: nat, stream: seq<bool>)
    requires Lone(R.B, s) && s < 19 && 257 <= nl <= MAXLITLENS
    ensures
      var r := ReadLengths(R, nl + nd, [], 0, stream);
      r.Lens? ==> |r.ll| == nl + nd && !Usable(r.ll[..nl])
  {
    hide ReadLengths, Usable, Lone;
    LoneLengths(R, s, nl + nd, [], 0, stream);
    var r := ReadLengths(R, nl + nd, [], 0, stream);
    if r.Lens? {
      LengthsMany(R, nl + nd, stream);
      EqualUnusable(r.ll[..nl], LoneLength(s));
    }
  }

  lemma LengthsMany(R: BitCode, n: nat, stream: seq<bool>)
    ensures var r := ReadLengths(R, n, [], 0, stream); r.Lens? ==> |r.ll| == n
  {
  }

  // ---- Looking up bit length codes ----

  /** The code's reading of a symbol where it is the reference's. */
  lemma SameSymbol(B: seq<int>, need: nat, stream: seq<bool>)
    ensures ReadBitSymbol(BitCode(B, 0, false), stream) == ReadSymbol(B, stream)
    ensures ReadSymbol(B, stream).Field? && |stream| >= need ==>
        ReadBitSymbol(BitCode(B, need, true), stream) == ReadSymbol(B, stream)
    ensures (forall s: nat :: !Lone(B, s)) && ReadBitSymbol(BitCode(B, need, true), stream).Field? ==>
      ReadBitSymbol(BitCode(B, need, true), stream) == ReadSymbol(B, stream)
  {
    hide ReadSymbol, Lone;
  }

  lemma SymbolLength(B: seq<int>, stream: seq<bool>)
    ensures
      var f := ReadSymbol(B, stream);
      f.Field? ==> f.value < |B| && B[f.value] > 0 && |stream| == B[f.value] + |f.rest|
  {
  }

  /** Where enough bits follow, lookups of `need` bits read what the codes say. */
  lemma {:induction false} NeedSuffices(B: seq<int>, need: nat, n: nat, acc: seq<int>, prev: int, stream: seq<bool>)
    ensures
      var r := ReadLengths(BitCode(B, 0, false), n, acc, prev, stream);
      r.Lens? && (forall s :: 0 <= s < |B| && B[s] > 0 ==> need <= B[s] + |r.rest|) ==>
        ReadLengths(BitCode(B, need, true), n, acc, prev, stream) == r
    decreases |stream|
  {
    hide ReadBitSymbol, ReadSymbol, ReadBits;
    var R := BitCode(B, 0, false);
    SameSymbol(B, need, stream);
    SymbolLength(B, stream);
    if |acc| < n {
      var f := ReadBitSymbol(R, stream);
      if f.Field? && f.value < 16 {
        NeedSuffices(B, need, n, acc + [f.value], f.value, f.rest);
      } else if f.Field? {
        BitsShrink(RunBits(f.value), f.rest);
        var v := ReadBits(RunBits(f.value), f.rest);
        if v.Field? && |acc| + RunBase(f.value) + v.value <= n {
          var again := if f.value == 16 then prev else 0;
          NeedSuffices(B, need, n, acc + Repeat(again, RunBase(f.value) + v.value), again, v.rest);
        }
      }
    }
  }

  /** Without a lone symbol, what lookups read is what the codes say. */
  lemma {:induction false} CodesOnly(B: seq<int>, need: nat, n: nat, acc: seq<int>, prev: int, stream: seq<bool>)
    requires forall s: nat :: !Lone(B, s)
    ensures
      var r := ReadLengths(BitCode(B, need, true), n, acc, prev, stream);
      r.Lens? ==> ReadLengths(BitCode(B, 0, false), n, acc, prev, stream) == r
    decreases |stream|
  {
    hide ReadBitSymbol, ReadSymbol, ReadBits, Lone;
    var R := BitCode(B, need, true);
    SameSymbol(B, need, stream);
    if |acc| < n {
      var f := ReadBitSymbol(R, stream);
      if f.Field? && f.value < 16 {
        CodesOnly(B, need, n, acc + [f.value], f.value, f.rest);
      } else if f.Field? {
        BitsShrink(RunBits(f.value), f.rest);
        var v := ReadBits(RunBits(f.value), f.rest);
        if v.Field? && |acc| + RunBase(f.value) + v.value <= n {
          var again := if f.value == 16 then prev else 0;
          CodesOnly(B, need, n, acc + Repeat(again, RunBase(f.value) + v.value), again, v.rest);
        }
      }
    }
  }

  /** The entry at hand is that of the next symbol; with a lone symbol both entries are its. */
  lemma BitEntry(tl: seq<seq<Huft>>, bl: nat, B: seq<int>, b: nat, k: nat, bytes: seq<int>)
    requires BitTable(tl, bl, B) && AreBytes(bytes) && b < Pow2(k) && bl <= k
    ensures
      var stream := Pending(b, k, bytes);
      && tl != [] && Low(b, bl) < |tl[0]| && tl[0][Low(b, bl)].Entry?
      && var entry := tl[0][Low(b, bl)];
      && 0 < entry.b <= bl && 0 <= entry.n < 19
      && ReadBitSymbol(BitCode(B, bl, true), stream) == Field(entry.n, stream[entry.b..])
  {
    hide StartsWith, Decodes, Pow2, Pending, Usable;
    var stream := Pending(b, k, bytes);
    LookAt(tl, BITS, 0, bl, b, k, bytes);
    var j := Low(b, bl);
    var entry := tl[0][j];
    assert EntryMarked(tl, BITS, |tl[0]|, tl[0][j], B, BitLengthLists());
    Pow2Reflects(entry.b, bl);
    WalkGoesOn(tl, BITS, 0, bl, stream, j);
    WalkMeans(tl, bl, B, BitLengthLists(), stream);
    if entry.e == INVALID_CODE {
      OtherBit(tl, bl, B, stream, entry);
    }
  }

  /** Only a lone symbol leaves a pattern without a code: the other bit. */
  lemma OtherBit(tl: seq<seq<Huft>>, bl: nat, B: seq<int>, stream: seq<bool>, entry: Huft)
    requires BitTable(tl, bl, B) && !Starts(B, stream) && |stream| >= bl
    requires tl != [] && entry in tl[0] && entry.Entry? && 0 < entry.b <= bl
    ensures 0 <= entry.n < 19 && ReadBitSymbol(BitCode(B, bl, true), stream) == Field(entry.n, stream[entry.b..])
  {
    hide StartsWith, Decodes, Pow2, KraftSum, TablesFor, SingleLevel;
    if KraftSum(B, BMAX, |B|) == Pow2(BMAX) {
      LeftAtTop(B, bl);
      var s := FullSetDecodes(B, stream, bl);
    }
    var s := UsableOrLone(B);
    assert AllHold(tl, s);
    var j :| 0 <= j < |tl[0]| && tl[0][j] == entry;
    assert tl[0][j].n == s;
    var i :| 0 <= i < 19 && B[i] == bl;
    assert bl == 1;
    LoneSymbol(BitCode(B, bl, true), s, stream);
  }

  /** The next symbol of the bit length code. */
  method BitSymbol(g: Inflater, tl: seq<seq<Huft>>, bl: nat, ghost B: seq<int>) returns (ok: bool, j: int)
    requires g.Buffered() && BitTable(tl, bl, B)
    modifies g`bytes, g`b, g`k
    ensures g.Buffered()
    ensures !ok ==> ReadBitSymbol(BitCode(B, bl, true), old(g.Stream())) == NoField
    ensures ok ==> 0 <= j < 19 && ReadBitSymbol(BitCode(B, bl, true), old(g.Stream())) == Field(j, g.Stream())
  {
    hide ReadSymbol, BitTable, Pow2, Pending, Bounded;
    ghost var stream := g.Stream();
    ok := g.NeedBits(bl);
    if !ok {
      return false, 0;
    }
    BitEntry(tl, bl, B, g.b, g.k, g.bytes);
    var td := tl[0][Low(g.b, bl)];
    g.DumpBits(td.b);
    j := td.n;
  }

  /** What one symbol does to the list of code lengths. */
  lemma LengthsStep(R: BitCode, n: nat, acc: seq<int>, prev: int, stream: seq<bool>, j: int, rest: seq<bool>)
    requires |acc| < n && j >= 0 && ReadBitSymbol(R, stream) == Field(j, rest)
    ensures j < 16 ==> ReadLengths(R, n, acc, prev, stream) == ReadLengths(R, n, acc + [j], j, rest)
    ensures j >= 16 ==>
      var v := ReadBits(RunBits(j), rest);
      if v.NoField? || |acc| + RunBase(j) + v.value > n then ReadLengths(R, n, acc, prev, stream) == NoLens
      else
        var again := if j == 16 then prev else 0;
        ReadLengths(R, n, acc, prev, stream)
            == ReadLengths(R, n, acc + Repeat(again, RunBase(j) + v.value), again, v.rest)
  {
    hide ReadBitSymbol, ReadBits, Repeat;
  }

  lemma NoSymbol(R: BitCode, n: nat, acc: seq<int>, prev: int, stream: seq<bool>)
    requires |acc| < n && ReadBitSymbol(R, stream) == NoField
    ensures ReadLengths(R, n, acc, prev, stream) == NoLens
  {
    hide ReadBitSymbol, ReadBits, Repeat;
  }

  lemma NoMore(R: BitCode, n: nat, acc: seq<int>, prev: int, stream: seq<bool>)
    requires |acc| >= n
    ensures ReadLengths(R, n, acc, prev, stream) == Lens(acc, stream)
  {
  }

  /** `j` times `v` from cell `i` on. */
  method Fill(ll: array<int>, i: nat, j: nat, v: int)
    requires i + j <= ll.Length
    modifies ll
    ensures ll[..i + j] == old(ll[..i]) + Repeat(v, j)
  {
    var k := 0;
    while k < j
      invariant k <= j && ll[..i + k] == old(ll[..i]) + Repeat(v, k)
    {
      ll[i + k] := v;
      k := k + 1;
      assert ll[..i + k] == ll[..i + k - 1] + [v];
    }
  }

  ghost predicate AreLengths(L: seq<int>) {
    forall i :: 0 <= i < |L| ==> 0 <= L[i] < 16
  }

  /** One symbol of the code lengths. */
  method CodeLength(g: Inflater, ll: array<int>, n: nat, i: nat, l: int, tl: seq<seq<Huft>>, bl: nat, ghost B: seq<int>)
    returns (i': nat, l': int, ok: bool)
    requires g.Buffered() && ll.Length == MAXLITLENS + MAXDISTS && i < n <= ll.Length && BitTable(tl, bl, B)
    requires AreLengths(ll[..i]) && 0 <= l < 16
    modifies g`bytes, g`b, g`k, ll
    ensures g.Buffered()
    ensures !ok ==> ReadLengths(BitCode(B, bl, true), n, old(ll[..i]), l, old(g.Stream())) == NoLens
    ensures ok ==>
      && i < i' <= n && 0 <= l' < 16 && AreLengths(ll[..i'])
      && ReadLengths(BitCode(B, bl, true), n, ll[..i'], l', g.Stream())
         == ReadLengths(BitCode(B, bl, true), n, old(ll[..i]), l, old(g.Stream()))
  {
    hide ReadLengths, ReadBitSymbol, ReadBits, BitTable, Pending, Repeat;
    ghost var stream, acc, R := g.Stream(), ll[..i], BitCode(B, bl, true);
    i', l' := i, l;
    var j;
    ok, j := BitSymbol(g, tl, bl, B);
    if !ok {
      NoSymbol(R, n, acc, l, stream);
      return;
    }
    ghost var rest := g.Stream();
    LengthsStep(R, n, acc, l, stream, j, rest);
    if j < 16 {
      ll[i] := j;
      assert ll[..i + 1] == acc + [j];
      return i + 1, j, true;
    }
    var v := g.GetBits(RunBits(j));
    if v.None? {
      BitsShrink(RunBits(j), rest);
      return i, l, false;
    }
    var times := RunBase(j) + v.value;
    if i + times > n {
      return i, l, false;
    }
    l' := if j == 16 then l else 0;
    Fill(ll, i, times, l');
    i' := i + times;
  }

  /** The code lengths of both alphabets. */
  method CodeLengths(g: Inflater, ll: array<int>, n: nat, tl: seq<seq<Huft>>, bl: nat, ghost B: seq<int>)
    returns (retval: int)
    requires g.Buffered() && ll.Length == MAXLITLENS + MAXDISTS && n <= ll.Length && BitTable(tl, bl, B)
    modifies g`bytes, g`b, g`k, ll
    ensures g.Buffered()
    ensures retval == 0 ==>
      ReadLengths(BitCode(B, bl, true), n, [], 0, old(g.Stream())) == Lens(ll[..n], g.Stream()) && AreLengths(ll[..n])
    ensures retval != 0 ==> ReadLengths(BitCode(B, bl, true), n, [], 0, old(g.Stream())) == NoLens
  {
    hide ReadLengths, BitTable, Pending;
    ghost var R := BitCode(B, bl, true);
    ghost var whole := ReadLengths(R, n, [], 0, g.Stream());
    var i, l := 0, 0;
    assert ll[..0] == [];
    while i < n
      invariant g.Buffered() && i <= n && 0 <= l < 16 && AreLengths(ll[..i])
      invariant ReadLengths(R, n, ll[..i], l, g.Stream()) == whole
      decreases n - i
    {
      var ok;
      i, l, ok := CodeLength(g, ll, n, i, l, tl, bl, B);
      if !ok {
        return 1;
      }
    }
    NoMore(R, n, ll[..i], l, g.Stream());
    return 0;
  }

  // ---- The tables of a dynamic block ----

  lemma LengthsBounded(L: seq<int>)
    requires AreLengths(L)
    ensures Bounded(L, BMAX)
  {
  }

  /** Literals and lengths: `huft_build` and the tests after it. */
  method LiteralTable(L: seq<int>, defl64: bool) returns (retval: int, tl: seq<seq<Huft>>, bl: nat)
    requires 0 < |L| <= MAXLITLENS && AreLengths(L)
    ensures retval == 0 <==> Usable(L)
    ensures retval == 0 ==> TablesFor(tl, BITS, bl, L, LengthLists(defl64))
  {
    hide Decodes, Marked, KraftSum, Pow2, Covers, SingleLevel, LengthLists;
    LengthsBounded(L);
    ListsCover(L, defl64);
    SumSign(L);
    retval, tl, bl := HuftBuild(L, LengthLists(defl64), 9, BITS);
    if bl == 0 {
      retval := 1;
    }
    WidthPositive(tl, bl, L, LengthLists(defl64));
  }

  lemma WidthPositive(pool: seq<seq<Huft>>, m: nat, L: seq<int>, lists: Lists)
    ensures Marked(pool, BITS, m, L, lists) ==> m > 0
  {
  }

  lemma SumSign(L: seq<int>)
    ensures Count(L, 0) <= |L|
  {
    CountAtMost(L, 0, |L|);
  }

  lemma {:induction false} CountAtMost(L: seq<int>, k: int, n: nat)
    requires n <= |L|
    ensures CountTo(L, k, n) <= n
  {
    if n > 0 {
      CountAtMost(L, k, n - 1);
    }
  }

  method DistanceTable(D: seq<int>, nl: nat, defl64: bool) returns (retval: int, td: seq<seq<Huft>>, bd: nat)
    requires 0 < |D| <= MAXDISTS && AreLengths(D)
    ensures retval == 0 <==> UsableDistances(D, nl)
    ensures retval == 0 && nl > 257 ==> TablesFor(td, BITS, bd, D, DistanceLists(defl64))
    ensures retval == 0 && nl > 257 && Bounded(D, 6) ==> bd == Widest(D)
  {
    hide Decodes, Marked, KraftSum, Pow2, Covers, SingleLevel, DistanceLists, Widest;
    LengthsBounded(D);
    ListsCover(D, defl64);
    SumSign(D);
    retval, td, bd := HuftBuild(D, DistanceLists(defl64), 6, BITS);
    if retval == 1 {
      retval := 0;
    }
    if bd == 0 && nl > 257 {
      retval := 1;
    }
    if retval == 0 && nl > 257 && Bounded(D, 6) {
      OnlyWidest(D, bd);
    }
    WidthPositive(td, bd, D, DistanceLists(defl64));
  }

  method BitLengthTable(B: seq<int>) returns (retval: int, tl: seq<seq<Huft>>, bl: nat)
    requires |B| == 19 && Bounded(B, 7)
    ensures retval == 0 <==> Usable(B)
    ensures retval == 0 ==> BitTable(tl, bl, B)
  {
    hide Decodes, Marked, KraftSum, Pow2, SingleLevel, AllHold;
    SumSign(B);
    retval, tl, bl := HuftBuild(B, BitLengthLists(), 7, BITS);
    if bl == 0 {
      retval := 1;
    }
    WidthPositive(tl, bl, B, BitLengthLists());
  }

  /** The counts at the head of a dynamic block; five bits cannot exceed what the arrays hold. */
  method Counts(g: Inflater) returns (ok: bool, nl: nat, nd: nat, nb: nat)
    requires g.Buffered()
    modifies g`bytes, g`b, g`k
    ensures g.Buffered()
    ensures !ok ==> forall looked, defl64 :: ReadHeader(looked, defl64, old(g.Stream())) == NoCodes
    ensures ok ==> 257 <= nl <= MAXLITLENS && 1 <= nd <= MAXDISTS && 4 <= nb <= 19
    ensures ok ==> forall looked, defl64 ::
      ReadHeader(looked, defl64, old(g.Stream())) == ReadTables(looked, defl64, nl, nd, nb, g.Stream())
  {
    hide ReadBits, ReadTables, Pending;
    ok, nl, nd, nb := false, 0, 0, 0;
    var f := g.GetBits(5);
    if f.None? {
      BitsShrink(5, old(g.Stream()));
      return;
    }
    ghost var s1 := g.Stream();
    LsbSmall(5, old(g.Stream()));
    nl := 257 + f.value;
    var d := g.GetBits(5);
    if d.None? {
      BitsShrink(5, s1);
      return;
    }
    ghost var s2 := g.Stream();
    LsbSmall(5, s1);
    nd := 1 + d.value;
    var b := g.GetBits(4);
    if b.None? {
      BitsShrink(4, s2);
      return;
    }
    LsbSmall(4, s2);
    nb := 4 + b.value;
    assert Pow2(4) == 16 && Pow2(5) == 32;
    ok := true;
  }

  lemma TablesRead(looked: bool, defl64: bool, nl: nat, nd: nat, nb: nat, stream: seq<bool>)
    requires nl <= MAXLITLENS && nd <= MAXDISTS && nb <= 19
    ensures
      var bl := ReadBitLengths(0, nb, Repeat(0, 19), stream);
      if bl.NoLens? || !Usable(bl.ll) then ReadTables(looked, defl64, nl, nd, nb, stream) == NoCodes
      else
        var ll := ReadLengths(BitCodeFor(bl.ll, looked), nl + nd, [], 0, bl.rest);
        if ll.NoLens? || !Usable(ll.ll[..nl]) || !UsableDistances(ll.ll[nl..], nl) then
          ReadTables(looked, defl64, nl, nd, nb, stream) == NoCodes
        else
          ReadTables(looked, defl64, nl, nd, nb, stream)
              == Header(Codes(ll.ll[..nl], ll.ll[nl..], defl64, Free), bl.ll, ll.rest)
  {
    hide Usable, UsableDistances, ReadBitLengths, ReadLengths;
  }

  /** The lookups of code lengths do not reach past what follows the header. */
  ghost predicate LengthsRoom(h: Header)
    requires h.Header?
  {
    forall s, i :: 0 <= s < |h.bits| && h.bits[s] > 0 && 0 <= i < |h.bits| ==> h.bits[i] <= h.bits[s] + |h.rest|
  }

  lemma {:induction false} WidestIs(B: seq<int>)
    ensures forall i :: 0 <= i < |B| ==> B[i] <= Widest(B)
    ensures Widest(B) > 0 ==> exists i :: 0 <= i < |B| && B[i] == Widest(B)
  {
    if B != [] {
      var n := |B| - 1;
      WidestIs(B[..n]);
      forall i | 0 <= i < |B| ensures B[i] <= Widest(B) {
        if i < n {
          assert B[..n][i] == B[i];
        }
      }
      if Widest(B) > 0 {
        if B[n] > Widest(B[..n]) {
          assert B[n] == Widest(B);
        } else {
          var i :| 0 <= i < n && B[..n][i] == Widest(B[..n]);
          assert B[i] == Widest(B);
        }
      }
    }
  }

  /** A width that some code has and none exceeds is the greatest length. */
  lemma OnlyWidest(B: seq<int>, bl: nat)
    requires Bounded(B, bl) && exists i :: 0 <= i < |B| && B[i] == bl
    ensures Widest(B) == bl
  {
    WidestIs(B);
    var i :| 0 <= i < |B| && B[i] == bl;
    assert B[i] <= Widest(B);
  }

  /** What looking code lengths up has to do with the code lengths sent. */
  lemma LengthsCoded(B: seq<int>, nl: nat, nd: nat, stream: seq<bool>)
    requires |B| == 19 && 257 <= nl <= MAXLITLENS
    ensures
      var coded, sent := ReadLengths(BitCodeFor(B, true), nl + nd, [], 0, stream),
          ReadLengths(BitCodeFor(B, false), nl + nd, [], 0, stream);
      && (coded.Lens? && sent != coded ==>
            |coded.ll| == nl + nd && !Usable(coded.ll[..nl])
                && (sent.Lens? ==> |sent.ll| == nl + nd && !Usable(sent.ll[..nl])))
      && (sent.Lens? && coded.NoLens? ==> exists s, i ::
          0 <= s < |B| && B[s] > 0 && 0 <= i < |B| && B[i] > B[s] + |sent.rest|)
  {
    hide ReadLengths, Usable, Lone, Widest;
    var bl := Widest(B);
    var coded, sent := ReadLengths(BitCode(B, bl, true), nl + nd, [], 0, stream),
        ReadLengths(BitCode(B, 0, false), nl + nd, [], 0, stream);
    NeedSuffices(B, bl, nl + nd, [], 0, stream);
    if lone: nat :| Lone(B, lone) {
      LoneBelow(B, lone);
      LoneRefused(BitCode(B, bl, true), lone, nl, nd, stream);
      LoneRefused(BitCode(B, 0, false), lone, nl, nd, stream);
    } else {
      CodesOnly(B, bl, nl + nd, [], 0, stream);
    }
    if sent.Lens? && coded.NoLens? {
      WidestIs(B);
      var s :| 0 <= s < |B| && B[s] > 0 && bl > B[s] + |sent.rest|;
      var i :| 0 <= i < |B| && B[i] == bl;
    }
  }

  lemma LoneBelow(B: seq<int>, s: nat)
    requires Lone(B, s)
    ensures s < |B|
  {
  }

  /** Looking code lengths up gives the codes that are sent, and all of them where there is room. */
  lemma TablesLooked(defl64: bool, nl: nat, nd: nat, nb: nat, stream: seq<bool>)
    requires 257 <= nl <= MAXLITLENS && nd <= MAXDISTS && nb <= 19
    ensures
      var coded, sent := ReadTables(true, defl64, nl, nd, nb, stream), ReadTables(false, defl64, nl, nd, nb, stream);
      && (coded.Header? ==> sent == coded)
      && (sent.Header? && LengthsRoom(sent) ==> coded == sent)
  {
    hide Usable, UsableDistances, ReadBitLengths, ReadLengths, ReadTables, Widest;
    TablesRead(true, defl64, nl, nd, nb, stream);
    TablesRead(false, defl64, nl, nd, nb, stream);
    var bl := ReadBitLengths(0, nb, Repeat(0, 19), stream);
    if bl.Lens? {
      LengthsCoded(bl.ll, nl, nd, bl.rest);
    }
  }

  lemma HeaderLooked(defl64: bool, stream: seq<bool>)
    ensures
      var coded, sent := ReadHeader(true, defl64, stream), ReadHeader(false, defl64, stream);
      && (coded.Header? ==> sent == coded)
      && (sent.Header? && LengthsRoom(sent) ==> coded == sent)
  {
    hide ReadBits, ReadTables, LengthsRoom;
    BitsShrink(5, stream);
    var f := ReadBits(5, stream);
    if f.Field? {
      BitsShrink(5, f.rest);
      var d := ReadBits(5, f.rest);
      if d.Field? {
        BitsShrink(4, d.rest);
        var b := ReadBits(4, d.rest);
        if b.Field? {
          LsbSmall(4, d.rest);
          assert Pow2(4) == 16;
          TablesTooMany(defl64, 257 + f.value, 1 + d.value, 4 + b.value, b.rest);
          if 257 + f.value <= MAXLITLENS && 1 + d.value <= MAXDISTS {
            TablesLooked(defl64, 257 + f.value, 1 + d.value, 4 + b.value, b.rest);
          }
        }
      }
    }
  }

  lemma TablesTooMany(defl64: bool, nl: nat, nd: nat, nb: nat, stream: seq<bool>)
    ensures nl > MAXLITLENS || nd > MAXDISTS ==>
      ReadTables(true, defl64, nl, nd, nb, stream) == ReadTables(false, defl64, nl, nd, nb, stream) == NoCodes
  {
  }

  /** All code lengths of a dynamic block, in the cells of `ll`. */
  method ReadInTables(g: Inflater, ll: array<int>, nl: nat, nd: nat, nb: nat, ghost defl64: bool)
    returns (retval: int, ghost B: seq<int>)
    requires g.Buffered() && ll.Length == MAXLITLENS + MAXDISTS && 257 <= nl <= MAXLITLENS && nd <= MAXDISTS && nb <= 19
    modifies g`bytes, g`b, g`k, ll
    ensures g.Buffered()
    ensures retval == 0 ==>
      && AreLengths(ll[..nl + nd])
      && ReadTables(true, defl64, nl, nd, nb, old(g.Stream()))
         == if Usable(ll[..nl]) && UsableDistances(ll[nl..nl + nd], nl)
             then Header(Codes(ll[..nl], ll[nl..nl + nd], defl64, Free), B, g.Stream())
            else NoCodes
    ensures retval != 0 ==> ReadTables(true, defl64, nl, nd, nb, old(g.Stream())) == NoCodes
  {
    hide Usable, UsableDistances, ReadBitLengths, ReadLengths, ReadTables, BitTable, Pending, Bounded, AreLengths,
        Widest;
    TablesRead(true, defl64, nl, nd, nb, g.Stream());
    B := [];
    var ok := BitLengths(g, ll, nb);
    if !ok {
      return 1, [];
    }
    var bits := ll[..19];
    B := bits;
    var tl, bl;
    retval, tl, bl := BitLengthTable(bits);
    if retval != 0 {
      return;
    }
    BitTableWidth(tl, bl, B);
    retval := CodeLengths(g, ll, nl + nd, tl, bl, B);
    if retval == 0 {
      ghost var all := ll[..nl + nd];
      assert all[..nl] == ll[..nl] && all[nl..] == ll[nl..nl + nd];
    }
  }

  lemma BitTableWidth(tl: seq<seq<Huft>>, bl: nat, B: seq<int>)
    requires BitTable(tl, bl, B)
    ensures Widest(B) == bl
  {
    hide Usable, TablesFor, SingleLevel, AllHold, Lone, Widest;
    OnlyWidest(B, bl);
  }

  lemma RoomForLengths(h: Header, text: seq<int>)
    requires h.Header?
    ensures
      var r := Inflated(h.codes, h.rest, text);
      r.Done? && HeaderRoom(h, |r.rest|) ==> LengthsRoom(h)
  {
    hide Inflated, Roomy;
    EndsAfter(h.codes, h.rest, text);
    var r := Inflated(h.codes, h.rest, text);
    if r.Done? && HeaderRoom(h, |r.rest|) {
      forall s, i | 0 <= s < |h.bits| && h.bits[s] > 0 && 0 <= i < |h.bits| ensures h.bits[i] <= h.bits[s] + |h.rest| {
        assert h.bits[i] <= h.bits[s] + h.codes.ll[256] + |r.rest|;
      }
    }
  }

  /** `inflate_dynamic`. `need` are the tables it makes; with them the block is refused exactly if its codes
      are no codes or some lookup lacks its bits. */
  method DynamicBlock(g: Inflater, defl64: bool) returns (retval: int, ghost need: Need)
    requires g.Buffered() && g.s.Valid()
    modifies g`bytes, g`b, g`k, g.s, g.s.slide
    ensures g.Buffered() && g.s.Valid() && g.s.slide == old(g.s.slide)
    ensures NeedBuilt(need, 2, defl64, old(g.Stream()))
    ensures retval == 0 ==> Block(need, 2, defl64, old(g.Stream()), old(g.s.Text())) == Done(g.s.Text(), g.Stream())
    ensures retval != 0 ==> Block(need, 2, defl64, old(g.Stream()), old(g.s.Text())) == Bad
  {
    hide Usable, UsableDistances, ReadTables, ReadHeader, TablesFor, Pending, AreLengths, LengthLists, DistanceLists,
        Block, Inflated, Bounded, Widest;
    ghost var stream, text := g.Stream(), g.s.Text();
    need := Tables([], 0, [], 0);
    DynamicMeans(need, defl64, stream, text);
    var ok, nl, nd, nb := Counts(g);
    assert g.s.Valid() && g.s.Text() == text;
    if !ok {
      return 1, need;
    }
    var ll := new int[MAXLITLENS + MAXDISTS];
    ghost var B;
    retval, B := ReadInTables(g, ll, nl, nd, nb, defl64);
    if retval != 0 {
      return;
    }
    var L, D := ll[..nl], ll[nl..nl + nd];
    PartLengths(ll[..nl + nd], nl, L, D);
    var tl, td, bl, bd;
    retval, tl, bl := LiteralTable(L, defl64);
    if retval != 0 {
      return;
    }
    retval, td, bd := DistanceTable(D, nl, defl64);
    if retval != 0 {
      return;
    }
    need := Tables(tl, bl, td, bd);
    DynamicMeans(need, defl64, stream, text);
    LengthsBounded(L);
    LengthsBounded(D);
    retval := g.InflateCodes(tl, td, bl, bd, Codes(L, D, defl64, need));
  }

  lemma PartLengths(all: seq<int>, nl: nat, L: seq<int>, D: seq<int>)
    requires nl <= |all| && AreLengths(all) && L == all[..nl] && D == all[nl..]
    ensures AreLengths(L) && AreLengths(D)
  {
  }

  lemma DynamicMeans(need: Need, defl64: bool, stream: seq<bool>, text: seq<int>)
    ensures
      var h := ReadHeader(need.Tables?, defl64, stream);
      Block(need, 2, defl64, stream, text) == if h.NoCodes? then Bad else Inflated(h.codes.(need := need), h.rest, text)
  {
    hide ReadHeader, Inflated;
  }

  /** What is looked up is what the block means; and all of it, where there is room behind the block. */
  lemma BlockLooked(need: Need, kind: nat, defl64: bool, stream: seq<bool>, text: seq<int>)
    requires NeedBuilt(need, kind, defl64, stream)
    ensures
      var looked, r := Block(need, kind, defl64, stream, text), Block(Free, kind, defl64, stream, text);
      && (looked.Done? ==> r == looked)
      && (r.Done? && RoomAfter(kind, defl64, stream, r) ==> looked == r)
  {
    hide ReadHeader, Inflated, LengthsRoom, Roomy, Built, Stored, FixedCodes;
    if kind == 2 {
      HeaderLooked(defl64, stream);
      DynamicMeans(need, defl64, stream, text);
      DynamicMeans(Free, defl64, stream, text);
      var coded, h := ReadHeader(true, defl64, stream), ReadHeader(false, defl64, stream);
      if h.Header? {
        HeaderFree(false, defl64, stream);
        InflatedShrinks(h.codes, h.rest, text);
        RoomForLengths(h, text);
        TablesMean(h.codes.(need := need), h.rest, text);
        if coded == h {
          RoomSuffices(h.codes.(need := need), h.rest, text);
          var r := Inflated(h.codes, h.rest, text);
          if r.Done? {
            SameRoom(h.codes.(need := need), |r.rest|);
          }
        }
      }
    }
  }

  lemma HeaderFree(looked: bool, defl64: bool, stream: seq<bool>)
    ensures var h := ReadHeader(looked, defl64, stream); h.Header? ==> h.codes.need == Free
  {
    hide ReadBits, Usable, UsableDistances, ReadBitLengths, ReadLengths;
  }

  // ---- Blocks one after the other ----

  lemma BlockKinds(need: Need, defl64: bool, stream: seq<bool>, text: seq<int>)
    ensures Block(need, 0, defl64, stream, text) == Stored(stream, text)
    ensures Block(need, 1, defl64, stream, text) == Inflated(FixedCodes(defl64), stream, text)
    ensures Block(need, 3, defl64, stream, text) == Bad
  {
    hide Stored, Inflated, FixedCodes, ReadHeader;
  }

  lemma BlocksStep(defl64: bool, stream: seq<bool>, text: seq<int>)
    ensures
      var e := ReadBits(1, stream);
      if e.NoField? then Blocks(defl64, stream, text) == Bad
      else
        var kind := ReadBits(2, e.rest);
        if kind.NoField? then Blocks(defl64, stream, text) == Bad
        else
          var r := Block(Free, kind.value, defl64, kind.rest, text);
          && (r.Bad? || e.value == 1 ==> Blocks(defl64, stream, text) == r)
          && (r.Done? && !RoomAfter(kind.value, defl64, kind.rest, r) ==> !RoomyBlocks(defl64, stream, text))
          && (r.Done? && e.value != 1 ==>
                && |r.rest| < |stream| && Blocks(defl64, stream, text) == Blocks(defl64, r.rest, r.text)
                && (!RoomyBlocks(defl64, r.rest, r.text) ==> !RoomyBlocks(defl64, stream, text)))
  {
    hide ReadBits, Block, RoomAfter;
    BitsShrink(1, stream);
    var e := ReadBits(1, stream);
    if e.Field? {
      BitsShrink(2, e.rest);
    }
  }

  /** What is looked up with tables made for the blocks is what the stream means. */
  lemma {:induction false} LookedMeans(needs: seq<Need>, defl64: bool, stream: seq<bool>, text: seq<int>)
    requires NeedsBuilt(needs, defl64, stream, text)
    ensures var looked := BlocksLooked(needs, defl64, stream, text); looked.Done? ==>
        Blocks(defl64, stream, text) == looked
    decreases |needs|
  {
    hide ReadBits, Block, RoomAfter, NeedBuilt, Blocks, RoomyBlocks;
    BlocksStep(defl64, stream, text);
    if needs != [] {
      var e := ReadBits(1, stream);
      if e.Field? {
        var kind := ReadBits(2, e.rest);
        if kind.Field? {
          BlockLooked(needs[0], kind.value, defl64, kind.rest, text);
          var r := Block(needs[0], kind.value, defl64, kind.rest, text);
          if r.Done? && e.value != 1 {
            LookedMeans(needs[1..], defl64, r.rest, r.text);
          }
        }
      }
    }
  }

  /** The body of one block, by its kind. */
  method BlockBody(g: Inflater, kind: nat, defl64: bool) returns (retval: int, ghost need: Need)
    requires g.Buffered() && g.s.Valid() && kind < 4
    modifies g`bytes, g`b, g`k, g.s, g.s.slide
    ensures g.Buffered() && g.s.Valid() && g.s.slide == old(g.s.slide)
    ensures NeedBuilt(need, kind, defl64, old(g.Stream()))
    ensures retval == 0 ==> Block(need, kind, defl64, old(g.Stream()), old(g.s.Text())) == Done(g.s.Text(), g.Stream())
    ensures retval != 0 ==> Block(need, kind, defl64, old(g.Stream()), old(g.s.Text())) == Bad
  {
    hide Block, Stored, Inflated, FixedCodes, Pending, Built, ReadHeader;
    BlockKinds(Free, defl64, g.Stream(), g.s.Text());
    need := Free;
    if kind == 2 {
      retval, need := DynamicBlock(g, defl64);
    } else if kind == 0 {
      retval := StoredBlock(g);
    } else if kind == 1 {
      retval := FixedBlock(g, defl64);
    } else {
      retval := 2;
    }
  }

  /** What one block does to the whole: `done` tells that the stream's end, or its refusal, has been reached. */
  ghost predicate OneBlock(need: Need, defl64: bool, stream: seq<bool>, text: seq<int>, done: bool, r: Result) {
    && (forall more: seq<Need> {:trigger [need] + more} ::
          BlocksLooked([need] + more, defl64, stream, text)
          == if done || r.Bad? then r else BlocksLooked(more, defl64, r.rest, r.text))
    && (forall more: seq<Need> {:trigger [need] + more} ::
          done || r.Bad? || NeedsBuilt(more, defl64, r.rest, r.text) ==>
              NeedsBuilt([need] + more, defl64, stream, text))
    && (if done || r.Bad? then r.Bad? || Blocks(defl64, stream, text) == r
        else |r.rest| < |stream| && Blocks(defl64, stream, text) == Blocks(defl64, r.rest, r.text)
             && (!RoomyBlocks(defl64, r.rest, r.text) ==> !RoomyBlocks(defl64, stream, text)))
    && (r.Bad? ==> Blocks(defl64, stream, text) == Bad || !RoomyBlocks(defl64, stream, text))
  }

  lemma NoHeadBits(defl64: bool, stream: seq<bool>, text: seq<int>)
    requires |stream| < 3
    ensures OneBlock(Free, defl64, stream, text, true, Bad)
  {
    hide ReadBits, Block, RoomAfter, NeedBuilt;
    BlocksStep(defl64, stream, text);
    BitsShrink(1, stream);
    if |stream| > 0 {
      BitsShrink(2, ReadBits(1, stream).rest);
    }
  }

  lemma BlockCounts(need: Need, defl64: bool, stream: seq<bool>, text: seq<int>)
    ensures
      var e := ReadBits(1, stream);
      e.Field? ==>
        var kind := ReadBits(2, e.rest);
        kind.Field? && NeedBuilt(need, kind.value, defl64, kind.rest) ==>
          OneBlock(need, defl64, stream, text, e.value == 1, Block(need, kind.value, defl64, kind.rest, text))
  {
    hide ReadBits, Block, RoomAfter, NeedBuilt, Blocks, RoomyBlocks;
    BlocksStep(defl64, stream, text);
    var e := ReadBits(1, stream);
    if e.Field? {
      var kind := ReadBits(2, e.rest);
      if kind.Field? && NeedBuilt(need, kind.value, defl64, kind.rest) {
        BlockLooked(need, kind.value, defl64, kind.rest, text);
        forall more: seq<Need> {:trigger [need] + more}
            ensures ([need] + more)[0] == need && ([need] + more)[1..] == more {
        }
      }
    }
  }

  /** `inflate_block`. */
  method InflateBlock(g: Inflater, defl64: bool) returns (retval: int, last: bool, ghost need: Need)
    requires g.Buffered() && g.s.Valid()
    modifies g`bytes, g`b, g`k, g.s, g.s.slide
    ensures g.Buffered() && g.s.Valid() && g.s.slide == old(g.s.slide)
    ensures OneBlock(need, defl64, old(g.Stream()), old(g.s.Text()), last, if retval != 0 then Bad
        else Done(g.s.Text(), g.Stream()))
  {
    hide Block, ReadBits, Pending, OneBlock, NeedBuilt;
    ghost var stream, text := g.Stream(), g.s.Text();
    need := Free;
    var e := g.GetBits(1);
    if e.None? {
      BitsShrink(1, stream);
      NoHeadBits(defl64, stream, text);
      return 1, true, need;
    }
    last := e.value == 1;
    ghost var rest := g.Stream();
    BitsShrink(1, stream);
    var t := g.GetBits(2);
    if t.None? {
      BitsShrink(2, rest);
      NoHeadBits(defl64, stream, text);
      return 1, true, need;
    }
    LsbSmall(2, rest);
    assert Pow2(2) == 4;
    assert g.s.Text() == text;
    retval, need := BlockBody(g, t.value, defl64);
    BlockCounts(need, defl64, stream, text);
  }

  /** All blocks so far, as one. */
  ghost predicate AllBlocks(needs: seq<Need>, defl64: bool, start: seq<bool>, stream: seq<bool>, text: seq<int>) {
    && (forall more: seq<Need> {:trigger needs + more} ::
          BlocksLooked(needs + more, defl64, start, []) == BlocksLooked(more, defl64, stream, text))
    && (forall more: seq<Need> {:trigger needs + more} ::
          NeedsBuilt(more, defl64, stream, text) ==> NeedsBuilt(needs + more, defl64, start, []))
    && Blocks(defl64, stream, text) == Blocks(defl64, start, [])
    && (!RoomyBlocks(defl64, stream, text) ==> !RoomyBlocks(defl64, start, []))
  }

  lemma NoBlocks(defl64: bool, start: seq<bool>)
    ensures AllBlocks([], defl64, start, start, [])
  {
    hide BlocksLooked, NeedsBuilt, Blocks, RoomyBlocks;
    forall more: seq<Need> ensures [] + more == more {
    }
  }

  lemma OneMore(needs: seq<Need>, need: Need, defl64: bool, start: seq<bool>, stream: seq<bool>, text: seq<int>,
                rest: seq<bool>, text': seq<int>)
    requires AllBlocks(needs, defl64, start, stream, text)
        && OneBlock(need, defl64, stream, text, false, Done(text', rest))
    ensures |rest| < |stream| && AllBlocks(needs + [need], defl64, start, rest, text')
  {
    hide BlocksLooked, NeedsBuilt, Blocks, RoomyBlocks;
    forall more: seq<Need> ensures needs + [need] + more == needs + ([need] + more) {
    }
  }

  lemma LastOne(needs: seq<Need>, need: Need, defl64: bool, start: seq<bool>, stream: seq<bool>, text: seq<int>,
                r: Result, done: bool)
    requires AllBlocks(needs, defl64, start, stream, text) && OneBlock(need, defl64, stream, text, done, r)
        && (done || r.Bad?)
    ensures BlocksLooked(needs + [need], defl64, start, []) == r && NeedsBuilt(needs + [need], defl64, start, [])
    ensures r.Bad? ==> Blocks(defl64, start, []) == Bad || !RoomyBlocks(defl64, start, [])
    ensures r.Done? ==> Blocks(defl64, start, []) == r && |r.rest| <= |stream|
  {
    hide BlocksLooked, NeedsBuilt, Blocks, RoomyBlocks;
    assert [need] + [] == [need];
    NoneNeeded(defl64, stream, text);
  }

  lemma NoneNeeded(defl64: bool, stream: seq<bool>, text: seq<int>)
    ensures NeedsBuilt([], defl64, stream, text)
  {
  }

  /** `zipinflate`: blocks up to the last one. `needs` are the tables made for them; the stream is refused
      exactly if they cannot look it up to its end. On success the output is the meaning of the stream; success
      is certain if the stream has a meaning and there is room behind its dynamic blocks. */
  method ZipInflate(bytes: seq<int>, defl64: bool) returns (r: int, out: seq<int>, ghost needs: seq<Need>)
    requires AreBytes(bytes)
    ensures NeedsBuilt(needs, defl64, ByteBits(bytes), [])
    ensures r == 0 <==> BlocksLooked(needs, defl64, ByteBits(bytes), []).Done?
    ensures r == 0 ==> Blocks(defl64, ByteBits(bytes), []).Done? && Blocks(defl64, ByteBits(bytes), []).text == out
    ensures r != 0 ==> Blocks(defl64, ByteBits(bytes), []) == Bad || !RoomyBlocks(defl64, ByteBits(bytes), [])
  {
    hide Blocks, Pending, RoomyBlocks, OneBlock, AllBlocks, BlocksLooked, NeedsBuilt;
    var g := new Inflater(bytes);
    ghost var start := ByteBits(bytes);
    var last := false;
    r, out, needs := 0, [], [];
    NoBlocks(defl64, start);
    while !last
      invariant fresh(g) && fresh(g.s) && fresh(g.s.slide) && g.Buffered() && g.s.Valid()
      invariant r == 0
      invariant !last ==> AllBlocks(needs, defl64, start, g.Stream(), g.s.Text())
      invariant last ==> NeedsBuilt(needs, defl64, start, [])
      invariant last ==>
          BlocksLooked(needs, defl64, start, []) == Blocks(defl64, start, []) == Done(g.s.Text(), g.Stream())
      decreases |g.Stream()|, !last
    {
      ghost var stream, text, need := g.Stream(), g.s.Text(), Free;
      r, last, need := InflateBlock(g, defl64);
      if r != 0 {
        LastOne(needs, need, defl64, start, stream, text, Bad, last);
        return -1, [], needs + [need];
      }
      if last {
        LastOne(needs, need, defl64, start, stream, text, Done(g.s.Text(), g.Stream()), last);
      } else {
        OneMore(needs, need, defl64, start, stream, text, g.Stream(), g.s.Text());
      }
      needs := needs + [need];
    }
    out := g.s.written + g.s.slide[..g.s.w];
  }
}
