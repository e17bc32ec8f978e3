/** Decompressing the blocks of RFC 1951 from the tables `huft_build` makes, against a decoder that
    knows only the canonical codes and unbounded output. */
module Inflate {
  import opened Wrappers
  import opened Arith
  import opened Bits
  import opened BitBuffer
  import opened Canonical
  import opened Window
  import opened HuftBits
  import opened HuftTables
  import opened HuftLists
  import opened HuftDriver

  const BITS: nat := 32
  const NOB: nat := 32
  const EOB: nat := 31

  // ---- Lengths and distances ----

  const CPLENS64: seq<int> := [
    3, 4, 5, 6, 7, 8, 9, 10, 11, 13, 15, 17, 19, 23, 27, 31,
    35, 43, 51, 59, 67, 83, 99, 115, 131, 163, 195, 227, 3, 0, 0]
  const CPLENS32: seq<int> := [
    3, 4, 5, 6, 7, 8, 9, 10, 11, 13, 15, 17, 19, 23, 27, 31,
    35, 43, 51, 59, 67, 83, 99, 115, 131, 163, 195, 227, 258, 0, 0]
  const CPLEXT64: seq<int> := [
    0, 0, 0, 0, 0, 0, 0, 0, 1, 1, 1, 1, 2, 2, 2, 2,
    3, 3, 3, 3, 4, 4, 4, 4, 5, 5, 5, 5, 16, INVALID_CODE, INVALID_CODE]
  const CPLEXT32: seq<int> := [
    0, 0, 0, 0, 0, 0, 0, 0, 1, 1, 1, 1, 2, 2, 2, 2,
    3, 3, 3, 3, 4, 4, 4, 4, 5, 5, 5, 5, 0, INVALID_CODE, INVALID_CODE]
  const CPDIST: seq<int> := [
    1, 2, 3, 4, 5, 7, 9, 13, 17, 25, 33, 49, 65, 97, 129, 193,
    257, 385, 513, 769, 1025, 1537, 2049, 3073, 4097, 6145,
    8193, 12289, 16385, 24577, 32769, 49153]
  const CPDEXT64: seq<int> := [
    0, 0, 0, 0, 1, 1, 2, 2, 3, 3, 4, 4, 5, 5, 6, 6,
    7, 7, 8, 8, 9, 9, 10, 10, 11, 11,
    12, 12, 13, 13, 14, 14]
  const CPDEXT32: seq<int> := [
    0, 0, 0, 0, 1, 1, 2, 2, 3, 3, 4, 4, 5, 5, 6, 6,
    7, 7, 8, 8, 9, 9, 10, 10, 11, 11,
    12, 12, 13, 13, INVALID_CODE, INVALID_CODE]

  /** The lists of deflate and of deflate64. */
  function LengthLists(defl64: bool): Lists {
    Lists(257, if defl64 then CPLENS64 else CPLENS32, if defl64 then CPLEXT64 else CPLEXT32, NOB, EOB)
  }

  function DistanceLists(defl64: bool): Lists {
    Lists(0, CPDIST, if defl64 then CPDEXT64 else CPDEXT32, NOB, EOB)
  }

  lemma ListShapes(defl64: bool)
    ensures LengthLists(defl64).simple == 257 && LengthLists(defl64).nob == NOB && LengthLists(defl64).eob == EOB
    ensures DistanceLists(defl64).simple == 0
    ensures |LengthLists(defl64).base| == |LengthLists(defl64).extra| == 31
    ensures |DistanceLists(defl64).base| == |DistanceLists(defl64).extra| == 32
  {
  }

  lemma LengthsFit(defl64: bool, i: nat)
    requires i < 31
    ensures |LengthLists(defl64).base| == |LengthLists(defl64).extra| == 31
    ensures
      var e := LengthLists(defl64).extra[i];
      e == INVALID_CODE || (0 <= e <= BMAX && LengthLists(defl64).base[i] >= 3)
  {
    assert CPLEXT32[i] == INVALID_CODE || (0 <= CPLEXT32[i] <= BMAX && CPLENS32[i] >= 3);
    assert CPLEXT64[i] == INVALID_CODE || (0 <= CPLEXT64[i] <= BMAX && CPLENS64[i] >= 3);
  }

  /** Distances that an entry of the lists can stand for stay within the window. */
  ghost predicate DistanceFits(base: int, extra: int) {
    extra == INVALID_CODE || (0 <= extra <= 14 && base >= 1 && base + Pow2(extra) <= WSIZE + 1)
  }

  lemma ShortDistancesFit(i: nat)
    requires i < 18
    ensures DistanceFits(CPDIST[i], CPDEXT64[i]) && CPDEXT32[i] == CPDEXT64[i]
  {
    assert Pow2(2) == 4;
    assert Pow2(4) == 16;
    assert Pow2(6) == 64;
    assert Pow2(8) == 256;
  }

  lemma LongDistancesFit(i: nat)
    requires 18 <= i < 32
    ensures DistanceFits(CPDIST[i], CPDEXT64[i]) && (CPDEXT32[i] == CPDEXT64[i] || CPDEXT32[i] == INVALID_CODE)
  {
    assert Pow2(8) == 256;
    assert Pow2(10) == 1024;
    assert Pow2(12) == 4096;
    assert Pow2(14) == 16384;
  }

  lemma DistancesFit(defl64: bool, i: nat)
    requires i < 32
    ensures |DistanceLists(defl64).base| == |DistanceLists(defl64).extra| == 32
    ensures DistanceFits(DistanceLists(defl64).base[i], DistanceLists(defl64).extra[i])
  {
    hide DistanceFits;
    assert |CPDIST| == |CPDEXT64| == |CPDEXT32| == 32;
    if i < 18 {
      ShortDistancesFit(i);
    } else {
      LongDistancesFit(i);
      InvalidFits(CPDIST[i]);
    }
  }

  lemma InvalidFits(base: int)
    ensures DistanceFits(base, INVALID_CODE)
  {
  }

  // ---- The reference ----

  /** What a lookup asks for: no more than the code, or as many bits as the tables index with. */
  datatype Need = Free | Tables(tl: seq<seq<Huft>>, bl: nat, td: seq<seq<Huft>>, bd: nat)

  /** Code lengths of the two alphabets of a block, and how they are looked up. */
  datatype Codes = Codes(ll: seq<int>, dl: seq<int>, defl64: bool, need: Need)

  /** The bits a walk looks at on a long enough stream: those dropped on the way and the width of the last table. */
  ghost function Looks(pool: seq<seq<Huft>>, bits: int, t: int, l: int, stream: seq<bool>): nat
    decreases |stream|
  {
    if !(0 <= t < |pool| && 0 < l <= |stream| && Lsb(stream[..l]) < |pool[t]|) then 0
    else
      match pool[t][Lsb(stream[..l])]
      case Pointer(e, b, u) =>
        if 0 < b <= |stream| then
          var deeper := b + Looks(pool, bits, u, e - bits, stream[b..]);
          if deeper < l then l else deeper
        else l
      case _ => l
  }

  /** Enough bits are left for the tables to look up the next code. */
  ghost predicate Enough(pool: seq<seq<Huft>>, m: int, stream: seq<bool>) {
    Looks(pool, BITS, 0, m, stream + Falses(BMAX)) <= |stream|
  }

  ghost predicate LiteralRoom(C: Codes, stream: seq<bool>) { C.need.Free? || Enough(C.need.tl, C.need.bl, stream) }

  ghost predicate DistanceRoom(C: Codes, stream: seq<bool>) { C.need.Free? || Enough(C.need.td, C.need.bd, stream) }

  ghost predicate Starts(L: seq<int>, stream: seq<bool>) {
    exists s :: StartsWith(L, stream, s)
  }

  /** The symbol whose code starts the stream. */
  ghost function FirstSymbol(L: seq<int>, stream: seq<bool>): (s: int)
    requires Starts(L, stream)
    ensures StartsWith(L, stream, s)
  {
    var s :| StartsWith(L, stream, s);
    s
  }

  /** A symbol of the alphabet. */
  ghost function ReadSymbol(L: seq<int>, stream: seq<bool>): Field {
    if Starts(L, stream) then
      var s := FirstSymbol(L, stream);
      Field(s, stream[L[s]..])
    else NoField
  }

  /** A base value and its extra bits. */
  ghost function ReadExtra(lists: Lists, i: nat, stream: seq<bool>): Field {
    if i < |lists.base| && i < |lists.extra| && 0 <= lists.extra[i] != INVALID_CODE && lists.base[i] >= 0 then
      match ReadBits(lists.extra[i], stream)
      case Field(v, rest) => Field(lists.base[i] + v, rest)
      case NoField => NoField
    else NoField
  }

  ghost function ReadLiteral(C: Codes, stream: seq<bool>): Field {
    if LiteralRoom(C, stream) then ReadSymbol(C.ll, stream) else NoField
  }

  ghost function ReadDistance(C: Codes, stream: seq<bool>): Field {
    match if DistanceRoom(C, stream) then ReadSymbol(C.dl, stream) else NoField
    case Field(s, rest) => ReadExtra(DistanceLists(C.defl64), s, rest)
    case NoField => NoField
  }

  datatype Result = Done(text: seq<int>, rest: seq<bool>) | Bad

  lemma SymbolShrinks(L: seq<int>, stream: seq<bool>)
    ensures ReadSymbol(L, stream).Field? ==> |ReadSymbol(L, stream).rest| < |stream|
  {
  }

  lemma LiteralShrinks(C: Codes, stream: seq<bool>)
    ensures ReadLiteral(C, stream).Field? ==> |ReadLiteral(C, stream).rest| < |stream|
  {
  }

  /** What a compressed block means: literals are appended, length/distance pairs expanded, up to the
      end-of-block code; `Bad` when a code is missing or invalid, or the bits run out before, also those
      that the tables, if there are any, would look at. */
  ghost function Inflated(C: Codes, stream: seq<bool>, text: seq<int>): Result
    decreases |stream|
  {
    match ReadLiteral(C, stream)
    case NoField => Bad
    case Field(s, rest) =>
      LiteralShrinks(C, stream);
      if s < 256 then Inflated(C, rest, text + [s])
      else if s == 256 then Done(text, rest)
      else
        match ReadExtra(LengthLists(C.defl64), s - 257, rest)
        case NoField => Bad
        case Field(len, rest') =>
          match ReadDistance(C, rest')
          case NoField => Bad
          case Field(dist, rest'') =>
            if dist > 0 && |rest''| < |stream| then Inflated(C, rest'', Expand(text, dist, len)) else Bad
  }

  /** One step of it. */
  datatype Step = Stop(r: Result) | Go(rest: seq<bool>, text: seq<int>)

  ghost function StepOf(C: Codes, stream: seq<bool>, text: seq<int>): (st: Step)
    ensures st.Go? ==> |st.rest| < |stream|
  {
    hide LengthLists, ReadExtra, ReadDistance, ReadLiteral;
    LiteralShrinks(C, stream);
    match ReadLiteral(C, stream)
    case NoField => Stop(Bad)
    case Field(s, rest) =>
      if s < 256 then Go(rest, text + [s])
      else if s == 256 then Stop(Done(text, rest))
      else
        match ReadExtra(LengthLists(C.defl64), s - 257, rest)
        case NoField => Stop(Bad)
        case Field(len, rest') =>
          match ReadDistance(C, rest')
          case NoField => Stop(Bad)
          case Field(dist, rest'') =>
            if dist > 0 && |rest''| < |stream| then Go(rest'', Expand(text, dist, len)) else Stop(Bad)
  }

  lemma InflatedSteps(C: Codes, stream: seq<bool>, text: seq<int>)
    ensures Inflated(C, stream, text) ==
      match StepOf(C, stream, text)
      case Stop(r) => r
      case Go(rest, text') => Inflated(C, rest, text')
  {
    hide LengthLists, ReadExtra, ReadDistance, ReadLiteral;
    LiteralShrinks(C, stream);
  }

  lemma StopShrinks(C: Codes, stream: seq<bool>, text: seq<int>)
    ensures
      var st := StepOf(C, stream, text);
      st.Stop? && st.r.Done? ==> |st.r.rest| < |stream|
  {
    hide LengthLists, ReadExtra, ReadDistance, ReadLiteral;
    LiteralShrinks(C, stream);
  }

  lemma {:induction false} InflatedShrinks(C: Codes, stream: seq<bool>, text: seq<int>)
    ensures Inflated(C, stream, text).Done? ==> |Inflated(C, stream, text).rest| < |stream|
    decreases |stream|
  {
    hide Inflated, StepOf;
    InflatedSteps(C, stream, text);
    StopShrinks(C, stream, text);
    match StepOf(C, stream, text) {
      case Stop(_) =>
      case Go(rest, text') => InflatedShrinks(C, rest, text');
    }
  }

  // ---- Walking tables over a stream ----

  lemma {:induction false} WalkLonger(pool: seq<seq<Huft>>, bits: int, t: int, l: int, stream: seq<bool>,
                                      more: seq<bool>)
    requires Walk(pool, bits, t, l, stream).Some?
    ensures Walk(pool, bits, t, l, stream + more) == Walk(pool, bits, t, l, stream)
    decreases |stream|
  {
    var longer := stream + more;
    assert longer[..l] == stream[..l];
    match pool[t][Lsb(stream[..l])] {
      case Pointer(e, b, u) =>
        assert longer[b..] == stream[b..] + more;
        WalkLonger(pool, bits, u, e - bits, stream[b..], more);
      case _ =>
    }
  }

  /** What the decoder may conclude from the entry it arrives at. */
  lemma WalkMeans(pool: seq<seq<Huft>>, m: int, L: seq<int>, lists: Lists, stream: seq<bool>)
    requires Decodes(pool, BITS, m, L, lists)
    requires Walk(pool, BITS, 0, m, stream).Some? && Walk(pool, BITS, 0, m, stream).value.1 <= |stream|
    ensures
      var r := Walk(pool, BITS, 0, m, stream);
      if Starts(L, stream) then DecodedAs(L, lists, r, FirstSymbol(L, stream))
      else r.value.0.Entry? && r.value.0.e == INVALID_CODE
  {
    hide Walk, DecodedAs, StartsWith;
    var longer := stream + Falses(BMAX);
    var r := Walk(pool, BITS, 0, m, stream);
    WalkLonger(pool, BITS, 0, m, stream, Falses(BMAX));
    if Starts(L, longer) {
      var s := FirstSymbol(L, longer);
      assert DecodedAs(L, lists, r, s);
      LongEnough(L, lists, stream, r, s);
    } else if Starts(L, stream) {
      LongerStarts(L, stream, Falses(BMAX), FirstSymbol(L, stream));
      assert false;
    }
  }

  lemma LongEnough(L: seq<int>, lists: Lists, stream: seq<bool>, r: Option<(Huft, nat)>, s: int)
    requires StartsWith(L, stream + Falses(BMAX), s) && DecodedAs(L, lists, r, s) && r.value.1 <= |stream|
    ensures Starts(L, stream) && FirstSymbol(L, stream) == s
  {
    assert (stream + Falses(BMAX))[..L[s]] == stream[..L[s]];
    assert StartsWith(L, stream, s);
    PrefixFree(L, stream, s, FirstSymbol(L, stream));
  }

  lemma {:induction false} Pow2Reflects(m: nat, n: nat)
    requires Pow2(m) <= Pow2(n)
    ensures m <= n
  {
    if m > n {
      Pow2Monotone(n + 1, m);
    }
  }

  /** The bits at hand select the entry that the walk looks at. */
  lemma LookAt(pool: seq<seq<Huft>>, bits: int, t: nat, l: nat, b: nat, k: nat, bytes: seq<int>)
    requires AreBytes(bytes) && b < Pow2(k) && 0 < l <= k && t < |pool| && |pool[t]| == Pow2(l)
    ensures l <= |Pending(b, k, bytes)| && Lsb(Pending(b, k, bytes)[..l]) == Low(b, l) < |pool[t]|
  {
    DropBits(b, k, l, bytes);
    LsbOfBits(Low(b, l), l);
  }

  /** What is left of the walk after an entry whose bits have been dropped. */
  ghost function Onwards(pool: seq<seq<Huft>>, bits: int, entry: Huft, stream: seq<bool>, dropped: nat): Option<(Huft,
      nat)> {
    match entry
    case Garbage => None
    case Entry(e, b, n) => Some((entry, dropped))
    case Pointer(e, b, u) =>
      match Walk(pool, bits, u, e - bits, stream)
      case None => None
      case Some(r) => Some((r.0, r.1 + dropped))
  }

  lemma WalkGoesOn(pool: seq<seq<Huft>>, bits: int, t: nat, l: nat, stream: seq<bool>, j: nat)
    requires t < |pool| && 0 < l <= |stream| && j == Lsb(stream[..l]) < |pool[t]|
    requires pool[t][j] != Garbage && 0 < pool[t][j].b <= |stream|
    ensures Walk(pool, bits, t, l, stream) == Onwards(pool, bits, pool[t][j], stream[pool[t][j].b..], pool[t][j].b)
  {
  }

  // ---- A block of codes ----

  lemma ListsAreMarked(defl64: bool)
    ensures ListsMarked(LengthLists(defl64), BITS) && ListsMarked(DistanceLists(defl64), BITS)
  {
    forall i | 0 <= i < 31
        ensures LengthLists(defl64).extra[i] == INVALID_CODE || 0 <= LengthLists(defl64).extra[i] < BITS {
      LengthsFit(defl64, i);
    }
    forall i | 0 <= i < 32
        ensures DistanceLists(defl64).extra[i] == INVALID_CODE || 0 <= DistanceLists(defl64).extra[i] < BITS {
      DistancesFit(defl64, i);
    }
  }

  /** A walk finds its entry if and only if as many bits are left as it looks at. */
  lemma {:induction false} LooksExact(pool: seq<seq<Huft>>, bits: int, t: int, l: int, stream: seq<bool>,
                                      more: seq<bool>)
    requires Walk(pool, bits, t, l, stream + more).Some?
    ensures Walk(pool, bits, t, l, stream).Some? <==> Looks(pool, bits, t, l, stream + more) <= |stream|
    decreases |stream|
  {
    hide Lsb;
    var longer := stream + more;
    if 0 < l <= |stream| {
      assert longer[..l] == stream[..l];
      match pool[t][Lsb(longer[..l])] {
        case Pointer(e, b, u) =>
          if b <= |stream| {
            assert longer[b..] == stream[b..] + more;
            LooksExact(pool, bits, u, e - bits, stream[b..], more);
          }
        case _ =>
      }
    }
  }

  lemma EnoughIs(pool: seq<seq<Huft>>, m: nat, L: seq<int>, lists: Lists, stream: seq<bool>)
    requires Decodes(pool, BITS, m, L, lists)
    ensures Walk(pool, BITS, 0, m, stream).Some? <==> Enough(pool, m, stream)
  {
    hide Walk, StartsWith, Looks;
    var longer := stream + Falses(BMAX);
    assert Ample(L, |longer|);
    if Starts(L, longer) {
      assert StartsWith(L, longer, FirstSymbol(L, longer));
    }
    LooksExact(pool, BITS, 0, m, stream, Falses(BMAX));
  }

  /** The entry of a literal or length code and the symbol it stands for. */
  lemma LiteralEntry(C: Codes, stream: seq<bool>, r: Option<(Huft, nat)>) returns (sym: nat)
    requires r.Some? && r.value.1 <= |stream|
    requires if Starts(C.ll, stream) then DecodedAs(C.ll, LengthLists(C.defl64), r, FirstSymbol(C.ll, stream))
             else r.value.0.Entry? && r.value.0.e == INVALID_CODE
    requires LiteralRoom(C, stream)
    ensures
      var entry, rest, lists := r.value.0, stream[r.value.1..], LengthLists(C.defl64);
      && entry.Entry?
      && (entry.e != INVALID_CODE ==> ReadLiteral(C, stream) == Field(sym, rest))
      && (entry.e == NOB ==> sym < 256 && entry.n == sym)
      && (entry.e == EOB ==> sym == 256)
      && (entry.e < EOB ==>
          257 <= sym < 288 && 0 <= entry.e == lists.extra[sym - 257] <= BMAX && 3 <= entry.n == lists.base[sym - 257])
      && (entry.e != INVALID_CODE ==> entry.e <= NOB)
      && (entry.e == INVALID_CODE ==> forall text :: Inflated(C, stream, text) == Bad)
  {
    hide StartsWith, LengthLists, DistanceLists, LiteralRoom;
    ListShapes(C.defl64);
    sym := 0;
    if Starts(C.ll, stream) {
      sym := FirstSymbol(C.ll, stream);
      SymbolTakes(C.ll, stream);
      if sym >= 257 {
        LengthsFit(C.defl64, sym - 257);
      }
    }
  }

  lemma SymbolTakes(L: seq<int>, stream: seq<bool>)
    requires Starts(L, stream)
    ensures 0 <= FirstSymbol(L, stream) < |L| && 0 < L[FirstSymbol(L, stream)] <= |stream|
  {
  }

  lemma SymbolInRange(L: seq<int>, stream: seq<bool>)
    ensures ReadSymbol(L, stream).Field? ==> ReadSymbol(L, stream).value < |L|
  {
  }

  /** The entry of a distance code and what it stands for. */
  lemma DistanceEntry(C: Codes, stream: seq<bool>, r: Option<(Huft, nat)>) returns (sym: nat)
    requires r.Some? && r.value.1 <= |stream|
    requires if Starts(C.dl, stream) then DecodedAs(C.dl, DistanceLists(C.defl64), r, FirstSymbol(C.dl, stream))
             else r.value.0.Entry? && r.value.0.e == INVALID_CODE
    requires DistanceRoom(C, stream)
    ensures
      var entry, rest, lists := r.value.0, stream[r.value.1..], DistanceLists(C.defl64);
      && entry.Entry?
      && (entry.e != INVALID_CODE ==>
            && ReadSymbol(C.dl, stream) == Field(sym, rest)
            && sym < 32 && 0 <= entry.e == lists.extra[sym] <= 14 && 1 <= entry.n == lists.base[sym]
            && entry.n + Pow2(entry.e) <= WSIZE + 1)
      && (entry.e == INVALID_CODE ==> ReadDistance(C, stream) == NoField)
  {
    hide StartsWith, LengthLists, DistanceLists, DistanceRoom;
    ListShapes(C.defl64);
    sym := 0;
    if Starts(C.dl, stream) {
      sym := FirstSymbol(C.dl, stream);
      SymbolTakes(C.dl, stream);
      DistancesFit(C.defl64, sym);
    }
  }

  lemma InflatedCopy(C: Codes, stream: seq<bool>, text: seq<int>, sym: nat, rest: seq<bool>, len: nat, rest': seq<bool>)
    requires ReadLiteral(C, stream) == Field(sym, rest) && sym > 256
    requires ReadExtra(LengthLists(C.defl64), sym - 257, rest) == Field(len, rest')
    ensures ReadDistance(C, rest') == NoField ==> Inflated(C, stream, text) == Bad
    ensures
      var r := ReadDistance(C, rest');
      r.Field? && r.value > 0 ==>
          Inflated(C, stream, text) == Inflated(C, r.rest, Expand(text, r.value, len)) && |r.rest| < |stream|
  {
    hide ReadLiteral, ReadDistance, LengthLists, ReadBits;
    LiteralShrinks(C, stream);
    ExtraShrinks(LengthLists(C.defl64), sym - 257, rest);
    DistanceShrinks(C, rest');
  }

  lemma ExtraShrinks(lists: Lists, i: nat, stream: seq<bool>)
    ensures ReadExtra(lists, i, stream).Field? ==> |ReadExtra(lists, i, stream).rest| <= |stream|
  {
  }

  lemma DistanceShrinks(C: Codes, stream: seq<bool>)
    ensures ReadDistance(C, stream).Field? ==> |ReadDistance(C, stream).rest| <= |stream|
  {
    hide ReadSymbol, ReadExtra, DistanceLists, DistanceRoom;
    SymbolShrinks(C.dl, stream);
    match ReadSymbol(C.dl, stream) {
      case NoField =>
      case Field(s, rest) => ExtraShrinks(DistanceLists(C.defl64), s, rest);
    }
  }

  lemma NoExtra(C: Codes, stream: seq<bool>, text: seq<int>, sym: nat, rest: seq<bool>)
    requires ReadLiteral(C, stream) == Field(sym, rest) && sym > 256
    requires ReadExtra(LengthLists(C.defl64), sym - 257, rest) == NoField
    ensures Inflated(C, stream, text) == Bad
  {
    hide ReadLiteral, ReadDistance, LengthLists, ReadExtra;
  }

  lemma LengthRead(C: Codes, sym: nat, e: nat, n: nat, rest: seq<bool>)
    requires 257 <= sym < 288 && |LengthLists(C.defl64).extra| == |LengthLists(C.defl64).base| == 31
    requires e == LengthLists(C.defl64).extra[sym - 257] <= BMAX && n == LengthLists(C.defl64).base[sym - 257]
    ensures ReadExtra(LengthLists(C.defl64), sym - 257, rest) ==
      match ReadBits(e, rest)
      case NoField => NoField
      case Field(v, rest') => Field(n + v, rest')
  {
    hide LengthLists;
  }

  lemma LsbBelow(bs: seq<bool>)
    ensures Lsb(bs) < Pow2(|bs|)
  {
    BitsOfLsb(bs);
  }

  class Inflater {
    var bytes: seq<int>   // compressed input not yet taken
    var b: nat            // bit buffer
    var k: nat            // number of bits in it
    const s: Slide

    ghost predicate Buffered()
      reads this
    {
      AreBytes(bytes) && b < Pow2(k)
    }

    ghost function Stream(): seq<bool>
      reads this
      requires Buffered()
    {
      Pending(b, k, bytes)
    }

    constructor (bytes: seq<int>)
      requires AreBytes(bytes)
      ensures Buffered() && Stream() == ByteBits(bytes) && s.Valid() && s.Text() == [] && fresh(s) && fresh(s.slide)
    {
      this.bytes, b, k := bytes, 0, 0;
      s := new Slide();
    }

    method NeedBits(n: nat) returns (ok: bool)
      requires Buffered()
      modifies `bytes, `b, `k
      ensures Buffered() && Stream() == old(Stream())
      ensures if ok then n <= k else |Stream()| < n
    {
      while k < n
        invariant Buffered() && Stream() == old(Stream())
        decreases n - k
      {
        if bytes == [] {
          return false;
        }
        TakeByte(b, k, bytes, bytes[0]);
        b, k, bytes := OrAbove(b, k, bytes[0]), k + 8, bytes[1..];
      }
      ok := true;
    }

    method DumpBits(n: nat)
      requires Buffered() && n <= k
      modifies `b, `k
      ensures Buffered() && n <= |old(Stream())| && Stream() == old(Stream())[n..]
    {
      DropBits(b, k, n, bytes);
      b, k := Shr(b, n), k - n;
    }

    /** `n` bits as a number. */
    method GetBits(n: nat) returns (v: Option<nat>)
      requires Buffered()
      modifies `bytes, `b, `k
      ensures Buffered()
      ensures match v
              case Some(x) => ReadBits(n, old(Stream())) == Field(x, Stream())
              case None => |Stream()| < n && Stream() == old(Stream())
    {
      var ok := NeedBits(n);
      if !ok {
        return None;
      }
      DropBits(b, k, n, bytes);
      LsbOfBits(Low(b, n), n);
      v := Some(Low(b, n));
      DumpBits(n);
    }

    /** The entry that the next `l` bits select in table `t`; its own bits are dropped. */
    method TakeEntry(pool: seq<seq<Huft>>, t: nat, l: nat, ghost m: int, ghost L: seq<int>, ghost lists: Lists)
      returns (r: Option<Huft>)
      requires Buffered() && Marked(pool, BITS, m, L, lists) && t < |pool| && 0 < l && |pool[t]| == Pow2(l)
      modifies `bytes, `b, `k
      ensures Buffered()
      ensures match r
              case None => Walk(pool, BITS, t, l, old(Stream())) == None
              case Some(entry) =>
                && EntryMarked(pool, BITS, Pow2(l), entry, L, lists) && entry != Garbage && |Stream()| < |old(Stream())|
                && 0 < entry.b <= |old(Stream())| && Stream() == old(Stream())[entry.b..]
                && Walk(pool, BITS, t, l, old(Stream())) == Onwards(pool, BITS, entry, Stream(), entry.b)
    {
      hide Onwards, Pending, Lsb, Pow2, BitsOf;
      ghost var stream := Stream();
      var ok := NeedBits(l);
      if !ok {
        return None;
      }
      LookAt(pool, BITS, t, l, b, k, bytes);
      ghost var j := Low(b, l);
      var entry := pool[t][Low(b, l)];
      assert EntryMarked(pool, BITS, |pool[t]|, pool[t][j], L, lists);
      Pow2Reflects(entry.b, l);
      WalkGoesOn(pool, BITS, t, l, stream, j);
      DumpBits(entry.b);
      r := Some(entry);
    }

    /** Follows the tables to a symbol's entry. */
    method Lookup(pool: seq<seq<Huft>>, m: nat, ghost L: seq<int>, ghost lists: Lists) returns (r: Option<Huft>)
      requires Buffered() && Marked(pool, BITS, m, L, lists) && ListsMarked(lists, BITS)
      modifies `bytes, `b, `k
      ensures Buffered()
      ensures
        var w := Walk(pool, BITS, 0, m, old(Stream()));
        match r
        case None => w == None
        case Some(entry) =>
          && w.Some? && w.value.0 == entry && entry.Entry? && w.value.1 <= |old(Stream())|
          && Stream() == old(Stream())[w.value.1..]
    {
      hide Walk, Pending, Pow2, ListsMarked;
      ghost var stream := Stream();
      r := TakeEntry(pool, 0, m, m, L, lists);
      if r.None? {
        return;
      }
      ghost var dropped: nat, size := r.value.b, Pow2(m);
      MarkTells(pool, BITS, size, r.value, L, lists);
      while r.value.e > NOB && r.value.e != INVALID_CODE
        invariant Buffered() && r.Some? && EntryMarked(pool, BITS, size, r.value, L, lists)
        invariant r.value != Garbage && (r.value.Pointer? <==> r.value.e > NOB && r.value.e != INVALID_CODE)
        invariant dropped <= |stream| && Stream() == stream[dropped..]
        invariant Walk(pool, BITS, 0, m, stream) == Onwards(pool, BITS, r.value, Stream(), dropped)
        decreases |Stream()|
      {
        var l := r.value.e % 32;
        size := Pow2(l);
        r := TakeEntry(pool, r.value.t, l, m, L, lists);
        if r.None? {
          return;
        }
        dropped := dropped + r.value.b;
        MarkTells(pool, BITS, size, r.value, L, lists);
      }
    }

    /** The distance of a copy: its code, then its extra bits. */
    method GetDistance(td: seq<seq<Huft>>, bd: nat, ghost C: Codes) returns (dist: Option<nat>)
      requires Buffered() && TablesFor(td, BITS, bd, C.dl, DistanceLists(C.defl64)) && C.need.Tables? && C.need.td == td
          && C.need.bd == bd
      modifies `bytes, `b, `k
      ensures Buffered()
      ensures match dist
              case Some(d) => 1 <= d <= WSIZE && ReadDistance(C, old(Stream())) == Field(d, Stream())
              case None => ReadDistance(C, old(Stream())) == NoField
    {
      hide Walk, Decodes, Marked, Pending, LengthLists, DistanceLists, Starts, DecodedAs, Enough;
      ghost var stream := Stream();
      ListShapes(C.defl64);
      ListsAreMarked(C.defl64);
      EnoughIs(td, bd, C.dl, DistanceLists(C.defl64), stream);
      var t := Lookup(td, bd, C.dl, DistanceLists(C.defl64));
      if t.None? {
        return None;
      }
      WalkMeans(td, bd, C.dl, DistanceLists(C.defl64), stream);
      ghost var sym := DistanceEntry(C, stream, Walk(td, BITS, 0, bd, stream));
      var e := t.value.e;
      if e == INVALID_CODE {
        return None;
      }
      ghost var rest := Stream();
      var v := GetBits(e);
      if v.None? {
        return None;
      }
      LsbBelow(rest[..e]);
      dist := Some(t.value.n + v.value);
    }

    /** A length/distance pair whose length code has been taken from `stream`. */
    method InflateCopy(td: seq<seq<Huft>>, bd: nat, e: nat, n: nat, ghost C: Codes, ghost stream: seq<bool>,
                       ghost sym: nat)
      returns (ok: bool)
      requires Buffered() && s.Valid() && TablesFor(td, BITS, bd, C.dl, DistanceLists(C.defl64))
      requires C.need.Tables? && C.need.td == td && C.need.bd == bd
      requires ReadLiteral(C, stream) == Field(sym, Stream()) && 257 <= sym < 288
      requires e == LengthLists(C.defl64).extra[sym - 257] <= BMAX && 3 <= n == LengthLists(C.defl64).base[sym - 257]
      modifies `bytes, `b, `k, s, s.slide
      ensures Buffered() && s.Valid() && s.slide == old(s.slide)
      ensures ok ==> |Stream()| < |stream| && Inflated(C, Stream(), s.Text()) == Inflated(C, stream, old(s.Text()))
      ensures !ok ==> Inflated(C, stream, old(s.Text())) == Bad
    {
      hide TablesFor, Pending, Expand, LengthLists, DistanceLists, Inflated, ReadLiteral, ReadDistance, ReadExtra;
      LiteralShrinks(C, stream);
      ListShapes(C.defl64);
      ghost var rest := Stream();
      var v := GetBits(e);
      LengthRead(C, sym, e, n, rest);
      if v.None? {
        NoExtra(C, stream, s.Text(), sym, rest);
        return false;
      }
      ghost var rest' := Stream();
      InflatedCopy(C, stream, s.Text(), sym, rest, n + v.value, rest');
      var d := GetDistance(td, bd, C);
      if d.None? {
        return false;
      }
      DistanceShrinks(C, rest');
      s.Copy(d.value, n + v.value);
      ok := true;
    }

    /** One code of the block; `go` tells whether more are to come. */
    method InflateCode(tl: seq<seq<Huft>>, td: seq<seq<Huft>>, bl: nat, bd: nat, ghost C: Codes)
      returns (retval: int, go: bool)
      requires Buffered() && s.Valid() && TablesFor(tl, BITS, bl, C.ll, LengthLists(C.defl64))
          && C.need == Tables(tl, bl, td, bd)
      requires |C.ll| <= 257 || TablesFor(td, BITS, bd, C.dl, DistanceLists(C.defl64))
      modifies `bytes, `b, `k, s, s.slide
      ensures Buffered() && s.Valid() && s.slide == old(s.slide)
      ensures go ==>
          |Stream()| < |old(Stream())| && Inflated(C, Stream(), s.Text()) == Inflated(C, old(Stream()), old(s.Text()))
      ensures !go && retval == 0 ==> Inflated(C, old(Stream()), old(s.Text())) == Done(s.Text(), Stream())
      ensures !go && retval != 0 ==> Inflated(C, old(Stream()), old(s.Text())) == Bad
    {
      hide Walk, Decodes, Marked, Pending, Starts, DecodedAs, LengthLists, DistanceLists, ListsMarked, Enough;
      ghost var stream := Stream();
      ListsAreMarked(C.defl64);
      EnoughIs(tl, bl, C.ll, LengthLists(C.defl64), stream);
      var t := Lookup(tl, bl, C.ll, LengthLists(C.defl64));
      if t.None? {
        return 1, false;
      }
      WalkMeans(tl, bl, C.ll, LengthLists(C.defl64), stream);
      ghost var sym := LiteralEntry(C, stream, Walk(tl, BITS, 0, bl, stream));
      LiteralShrinks(C, stream);
      var e := t.value.e;
      if e == NOB {
        s.PutByte(t.value.n);
        return 0, true;
      }
      if e < EOB {
        SymbolInRange(C.ll, stream);
        var ok := InflateCopy(td, bd, e, t.value.n, C, stream, sym);
        return if ok then 0 else 1, ok;
      }
      if e == EOB {
        return 0, false;
      }
      return 1, false;
    }

    /** Decompresses up to the end-of-block code; 0 if all goes well, 1 for bad or exhausted input. */
    method InflateCodes(tl: seq<seq<Huft>>, td: seq<seq<Huft>>, bl: nat, bd: nat, ghost C: Codes) returns (retval: int)
      requires Buffered() && s.Valid() && TablesFor(tl, BITS, bl, C.ll, LengthLists(C.defl64))
          && C.need == Tables(tl, bl, td, bd)
      requires |C.ll| <= 257 || TablesFor(td, BITS, bd, C.dl, DistanceLists(C.defl64))
      modifies `bytes, `b, `k, s, s.slide
      ensures Buffered() && s.Valid() && s.slide == old(s.slide)
      ensures retval == 0 ==> Inflated(C, old(Stream()), old(s.Text())) == Done(s.Text(), Stream())
      ensures retval != 0 ==> Inflated(C, old(Stream()), old(s.Text())) == Bad
    {
      ghost var whole := Inflated(C, Stream(), s.Text());
      while true
        invariant Buffered() && s.Valid() && s.slide == old(s.slide)
        invariant Inflated(C, Stream(), s.Text()) == whole
        decreases |Stream()|
      {
        var go;
        retval, go := InflateCode(tl, td, bl, bd, C);
        if !go {
          return;
        }
      }
    }
  }
}
