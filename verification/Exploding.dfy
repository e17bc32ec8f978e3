/** `explode_*` and `zipexplode`: decoding imploded data with tables made by `huft_build`. The four
    `explode_*` functions differ only in whether literals are coded and in how many low bits of a
    distance are sent plainly, and are one here. */
module Exploding {
  import opened Wrappers
  import opened Arith
  import opened Bits
  import opened BitBuffer
  import opened Canonical
  import opened Window
  import opened HuftBits
  import opened HuftTables
  import opened HuftLists
  import opened HuftDriver
  import opened ExplodeTables
  import opened Explode
  import Inflate

  const BITS: nat := 16
  const NOB: nat := 16
  const EOB: nat := 15

  // ---- Lists of values ----

  const LITERALS: Lists := Lists(256, [], [], NOB, EOB)

  function LengthLists(coded: bool): Lists { Lists(0, if coded then CPLEN3 else CPLEN2, EXTRA, NOB, EOB) }

  function DistanceLists(far: bool): Lists { Lists(0, if far then CPDIST8 else CPDIST4, EXTRA, NOB, EOB) }

  // ---- Walking tables over inverted bits ----

  function Plus(r: Option<(Huft, nat)>, d: nat): Option<(Huft, nat)> {
    match r
    case None => None
    case Some(x) => Some((x.0, x.1 + d))
  }

  lemma PlusNone(r: Option<(Huft, nat)>)
    ensures Plus(r, 0) == r
  {
  }

  /** Where a walk that arrives at `rest` goes from an entry it looks at. */
  ghost predicate Goes(pool: seq<seq<Huft>>, rest: Option<(Huft, nat)>, stream: seq<bool>, entry: Huft) {
    match entry
    case Garbage => false
    case Entry(e, b, n) => b >= 0 && rest == Some((entry, b))
    case Pointer(e, b, u) =>
      && 0 < b <= |stream| && Walk(pool, BITS, u, e - BITS, stream[b..]).Some?
      && rest == Plus(Walk(pool, BITS, u, e - BITS, stream[b..]), b)
  }

  lemma GoesOn(pool: seq<seq<Huft>>, whole: Option<(Huft, nat)>, rest: Option<(Huft, nat)>, stream: seq<bool>, d: nat,
               entry: Huft)
    requires d <= |stream| && Goes(pool, rest, stream[d..], entry) && whole == Plus(rest, d)
    ensures entry.Entry? ==> entry.b >= 0 && whole == Some((entry, d + entry.b))
    ensures entry.Pointer? ==>
      && 0 < entry.b <= |stream| - d
      && var next := Walk(pool, BITS, entry.t, entry.e - BITS, stream[d + entry.b..]);
      next.Some? && whole == Plus(next, d + entry.b)
  {
    hide Walk;
    if entry.Pointer? {
      assert stream[d..][entry.b..] == stream[d + entry.b..];
    }
  }

  ghost predicate Reached(pool: seq<seq<Huft>>, t: int, l: int, stream: seq<bool>, entry: Huft) {
    Goes(pool, Walk(pool, BITS, t, l, stream), stream, entry)
  }

  /** What a walk looks at first, and where it goes on from a pointer. */
  lemma WalkLooks(pool: seq<seq<Huft>>, t: int, l: int, stream: seq<bool>)
    requires Walk(pool, BITS, t, l, stream).Some?
    ensures 0 <= t < |pool| && 0 < l <= |stream| && Lsb(stream[..l]) < |pool[t]|
    ensures Reached(pool, t, l, stream, pool[t][Lsb(stream[..l])])
  {
    hide Lsb;
  }

  /** Every symbol of the lists has a value, and it can be told from a pointer. */
  ghost predicate Proper(lists: Lists) {
    ListsMarked(lists, BITS) && forall i :: 0 <= i < |lists.extra| ==> lists.extra[i] != INVALID_CODE
  }

  ghost predicate TreeFor(pool: seq<seq<Huft>>, m: nat, L: seq<int>, lists: Lists) {
    TablesFor(pool, BITS, m, L, lists) && Proper(lists)
  }

  /** What the whole walk over the bits ahead arrives at. */
  lemma WholeWalk(pool: seq<seq<Huft>>, m: nat, L: seq<int>, lists: Lists, bits: seq<bool>, p: nat)
    requires TreeFor(pool, m, L, lists)
    ensures
      var r := Walk(pool, BITS, 0, m, CodeBits(bits, p));
      if HasCode(L, bits, p) then DecodedAs(L, lists, r, CodeAt(L, bits, p))
      else r.Some? && r.value.0.Entry? && r.value.0.e == INVALID_CODE
  {
    hide Walk, StartsWith, CodeBits;
    var stream := CodeBits(bits, p);
    if HasCode(L, bits, p) {
      assert StartsWith(L, stream, CodeAt(L, bits, p));
    } else {
      assert forall s :: !StartsWith(L, stream, s);
    }
  }

  lemma CodeMarked(L: seq<int>, lists: Lists, r: Option<(Huft, nat)>, s: int)
    requires Proper(lists) && DecodedAs(L, lists, r, s)
    ensures r.value.0.e <= NOB
  {
  }

  // ---- The bit buffer ----

  lemma TakeMore(all: seq<int>, p: nat, b: nat, k: nat, q: nat, c: int)
    requires AreBytes(all) && p + k == 8 * q && b < Pow2(k) && c == ByteAt(all, q)
    requires BitsOf(b, k) == Ahead(ByteBits(all), p, k)
    ensures 0 <= c % 256 && OrAbove(b, k, c % 256) < Pow2(k + 8)
    ensures BitsOf(OrAbove(b, k, c % 256), k + 8) == Ahead(ByteBits(all), p, k + 8)
  {
    hide Pow2, BitsOf, Ahead;
    ByteRange(all, q);
    ByteAhead(all, q);
    BytePower();
    BitsOfJoin(b, k, c % 256, 8);
    AheadSplits(ByteBits(all), p, k, 8);
    Pow2Adds(k, 8);
    MulAdd(c % 256, 1, Pow2(k));
    MulMono(c % 256 + 1, 256, Pow2(k));
  }

  lemma TakeLess(bits: seq<bool>, p: nat, b: nat, k: nat, n: nat)
    requires n <= k && b < Pow2(k) && BitsOf(b, k) == Ahead(bits, p, k)
    ensures Shr(b, n) < Pow2(k - n) && BitsOf(Shr(b, n), k - n) == Ahead(bits, p + n, k - n)
    ensures BitsOf(Low(b, n), n) == Ahead(bits, p, n) && Low(b, n) == Number(bits, p, n)
  {
    hide Pow2, BitsOf, Ahead;
    BitsOfSplit(b, k, n);
    ShrBelow(b, k, n);
    AheadSplits(bits, p, n, k - n);
    LsbOfBits(Low(b, n), n);
  }

  /** Bits `d` to `d + l` of those a code is looked for in. */
  lemma CodeBitsAt(bits: seq<bool>, p: nat, d: nat, l: nat)
    requires d + l <= BMAX
    ensures |CodeBits(bits, p)| == BMAX && CodeBits(bits, p)[d..][..l] == Inverted(Ahead(bits, p + d, l))
  {
    AheadSplits(bits, p, d, BMAX - d);
    AheadSplits(bits, p + d, l, BMAX - d - l);
    InvertedSplits(Ahead(bits, p, BMAX), d);
    InvertedSplits(Ahead(bits, p + d, BMAX - d), l);
  }

  /** Where the data end: in the last byte, or in the last byte asked for, where that is the last of a full buffer. */
  ghost predicate InLastByte(all: seq<int>, p: nat) { p <= 8 * |all| < p + 8 }

  ghost predicate AtBufferEnd(all: seq<int>, p: nat,
                              asked: nat) { p <= 8 * |all| && 8 * asked < p + 8 && asked % INBUF == 0 }

  class Exploder {
    const src: Source
    ghost const bits: seq<bool>
    var b: nat         // bit buffer
    var k: nat         // number of bits in it
    ghost var p: nat   // bits used up
    const s: Slide
    var u: bool        // true if unflushed

    ghost predicate Valid()
      reads `b, `k, `p, src
    {
      && src.Valid() && b < Pow2(k) && p + k == 8 * src.Asked()
      && bits == ByteBits(src.all) && BitsOf(b, k) == Ahead(bits, p, k)
    }

    ghost predicate Ready()
      reads this, src, s, s.slide
    {
      Valid() && s.Valid() && u == (s.written == [])
    }

    constructor (src: Source)
      requires src.Valid()
      ensures Ready() && bits == ByteBits(src.all) && p == 8 * src.Asked() && s.Text() == [] && fresh(s)
          && fresh(s.slide) && this.src == src
    {
      this.src, b, k, p, u := src, 0, 0, 8 * src.Asked(), true;
      bits := ByteBits(src.all);
      s := new Slide();
      new;
      assert s.written == [];
    }

    method FetchByte()
      requires Valid()
      modifies `b, `k, src
      ensures Valid() && k == old(k) + 8
    {
      hide Source.Valid, Source.Asked, Pow2, BitsOf, Ahead, OrAbove;
      ghost var q := src.Asked();
      var c := src.NextByte();
      TakeMore(src.all, p, b, k, q, c);
      b, k := OrAbove(b, k, c % 256), k + 8;
    }

    lemma Held(n: nat)
      requires Valid() && n <= k
      ensures Low(b, n) == Number(bits, p, n)
    {
      TakeLess(bits, p, b, k, n);
    }

    method NeedBits(n: nat)
      requires Valid()
      modifies `b, `k, src
      ensures Valid() && n <= k && Low(b, n) == Number(bits, p, n)
    {
      hide Exploder.Valid, Number, Low;
      while k < n
        invariant Valid()
        decreases n - k
      {
        FetchByte();
      }
      Held(n);
    }

    method DumpBits(n: nat)
      requires Valid() && n <= k
      modifies `b, `k, `p
      ensures Valid() && p == old(p) + n
    {
      hide Source.Valid, Source.Asked, Pow2, BitsOf, Ahead, Shr, Low;
      TakeLess(bits, p, b, k, n);
      b, k, p := Shr(b, n), k - n, p + n;
    }

    /** `n` bits as a number. */
    method GetBits(n: nat) returns (v: nat)
      requires Valid()
      modifies `b, `k, `p, src
      ensures Valid() && p == old(p) + n && v == Number(bits, old(p), n)
    {
      hide Exploder.Valid, Number, Low;
      NeedBits(n);
      v := Low(b, n);
      DumpBits(n);
    }

    /** The entry that the next `l` bits, inverted, select in table `t`; `d` bits of its code are used up. */
    method TakeEntry(pool: seq<seq<Huft>>, t: nat, l: nat, ghost m: int, ghost L: seq<int>, ghost lists: Lists,
                     ghost p0: nat, ghost d: nat)
      returns (entry: Huft)
      requires Valid() && t < |pool| && |pool[t]| == Pow2(l)
      requires Marked(pool, BITS, m, L, lists) && Proper(lists)
      requires d <= BMAX && p == p0 + d && Walk(pool, BITS, t, l, CodeBits(bits, p0)[d..]).Some?
      modifies `b, `k, src
      ensures Valid()
      ensures Reached(pool, t, l, CodeBits(bits, p0)[d..], entry) && entry != Garbage && 0 < entry.b <= k
      ensures entry.Pointer? ==>
          entry.e > NOB && entry.e != INVALID_CODE && 0 <= entry.t < |pool| && |pool[entry.t]| == Pow2(entry.e - BITS)
      ensures entry.Entry? ==> entry.e == INVALID_CODE || entry.e <= NOB
    {
      hide Exploder.Valid, Pow2, Ahead, Lsb, Inverted, CodeBits, Walk, ListsMarked, Goes, Low;
      ghost var stream := CodeBits(bits, p0);
      WalkLooks(pool, t, l, stream[d..]);
      CodeBitsAt(bits, p0, d, l);
      NeedBits(l);
      LsbOfInverted(Ahead(bits, p, l));
      ghost var j := Pow2(l) - 1 - Low(b, l);
      entry := pool[t][Pow2(l) - 1 - Low(b, l)];
      assert EntryMarked(pool, BITS, |pool[t]|, pool[t][j], L, lists);
      MarkTells(pool, BITS, |pool[t]|, entry, L, lists);
      Inflate.Pow2Reflects(entry.b, l);
    }

    /** Follows the tables to the entry of a code, or to none. */
    method Lookup(pool: seq<seq<Huft>>, m: nat, ghost L: seq<int>, ghost lists: Lists) returns (r: Option<Huft>)
      requires Valid() && TreeFor(pool, m, L, lists)
      modifies `b, `k, `p, src
      ensures Valid()
      ensures r.Some? <==> HasCode(L, bits, old(p))
      ensures r.Some? ==>
        && p == old(p) + L[CodeAt(L, bits, old(p))]
        && DecodedAs(L, lists, Some((r.value, L[CodeAt(L, bits, old(p))])), CodeAt(L, bits, old(p)))
    {
      hide Exploder.Valid, Walk, Pow2, CodeBits, HasCode, CodeAt, Decodes, Proper, Plus, Goes;
      ghost var stream, p0, d := CodeBits(bits, p), p, 0;
      WholeWalk(pool, m, L, lists, bits, p);
      ghost var whole := Walk(pool, BITS, 0, m, stream);
      ghost var rest := whole;
      assert stream[0..] == stream;
      PlusNone(whole);
      var entry := TakeEntry(pool, 0, m, m, L, lists, p0, 0);
      while entry.e > NOB
        invariant Valid() && d <= BMAX && p == p0 + d && whole == Plus(rest, d)
        invariant Goes(pool, rest, stream[d..], entry) && entry != Garbage && 0 < entry.b <= k
        invariant entry.Pointer? ==>
            entry.e > NOB && entry.e != INVALID_CODE && 0 <= entry.t < |pool| && |pool[entry.t]| == Pow2(entry.e - BITS)
        invariant entry.Entry? ==> entry.e == INVALID_CODE || entry.e <= NOB
        decreases BMAX - d
      {
        GoesOn(pool, whole, rest, stream, d, entry);
        if entry.e == INVALID_CODE {
          if HasCode(L, bits, p0) {
            CodeMarked(L, lists, whole, CodeAt(L, bits, p0));
          }
          return None;
        }
        DumpBits(entry.b);
        d := d + entry.b;
        var e := entry.e - 16;
        rest := Walk(pool, BITS, entry.t, e, stream[d..]);
        entry := TakeEntry(pool, entry.t, e, m, L, lists, p0, d);
      }
      GoesOn(pool, whole, rest, stream, d, entry);
      DumpBits(entry.b);
      r := Some(entry);
    }

    // ---- Literals and copies ----

    /** A literal behind its one bit, coded or plain. */
    method PutLiteral(coded: bool, tb: seq<seq<Huft>>, bb: nat, ghost T: Trees) returns (ok: bool)
      requires Ready() && T.Valid() && coded == (T.lb != []) && (coded ==> TreeFor(tb, bb, T.lb, LITERALS))
      modifies `b, `k, `p, `u, src, s, s.slide
      ensures Ready() && s.slide == old(s.slide)
      ensures
        if T.lb == [] then ok && p == old(p) + 8 && s.Text() == old(s.Text()) + [Number(bits, old(p), 8)]
        else if HasCode(T.lb, bits, old(p)) then
          ok && p == old(p) + T.lb[CodeAt(T.lb, bits, old(p))]
              && s.Text() == old(s.Text()) + [CodeAt(T.lb, bits, old(p))]
        else !ok
    {
      hide Exploder.Valid, TreeFor, HasCode, CodeAt, Number;
      var v: int;
      if coded {
        var t := Lookup(tb, bb, T.lb, LITERALS);
        if t.None? {
          return false;
        }
        v := t.value.n;
      } else {
        v := GetBits(8);
      }
      s.PutByte(v);
      if s.w == 0 {
        u := false;
      }
      ok := true;
    }

    /** A length and distance behind their zero bit, and the copy. */
    method PutCopy(low: nat, tl: seq<seq<Huft>>, td: seq<seq<Huft>>, bl: nat, bd: nat, ghost T: Trees)
      returns (ok: bool, n: nat)
      requires Ready() && T.Valid() && low == T.low
      requires TreeFor(tl, bl, T.ll, LengthLists(T.lb != [])) && TreeFor(td, bd, T.ld, DistanceLists(T.low == 7))
      modifies `b, `k, `p, `u, src, s, s.slide
      ensures Ready() && s.slide == old(s.slide)
      ensures
        var c := CopyAt(T, bits, old(p));
        if c.Copy? then ok && n == c.n && p == c.p && s.Text() == Expand(old(s.Text()), c.dist, c.n) else !ok
    {
      hide Exploder.Valid, TreeFor, HasCode, CodeAt, Number, LengthLists, DistanceLists, Expand, DecodedAs, Pow2;
      n := 0;
      ghost var p0 := p;
      var d := GetBits(low);
      ghost var p1 := p;
      var t := Lookup(td, bd, T.ld, DistanceLists(T.low == 7));
      if t.None? {
        return false, 0;
      }
      DistanceEntry(T, bits, p1, t.value);
      d := d + t.value.n;
      ghost var p2 := p;
      t := Lookup(tl, bl, T.ll, LengthLists(T.lb != []));
      if t.None? {
        return false, 0;
      }
      LengthEntry(T, bits, p2, t.value);
      n := t.value.n;
      if t.value.e != 0 {
        var v := GetBits(8);
        n := n + v;
      }
      assert CopyAt(T, bits, p0) == Copy(d, n, p);
      u := s.ExplodeCopy(d, n, u);
      ok := true;
    }

    /** One literal or one copy. */
    method ExplodeOne(coded: bool, low: nat, tb: seq<seq<Huft>>, tl: seq<seq<Huft>>, td: seq<seq<Huft>>,
                      bb: nat, bl: nat, bd: nat, left0: int, ghost T: Trees)
      returns (ok: bool, left: int)
      requires Ready() && T.Valid() && coded == (T.lb != []) && low == T.low && left0 > 0
      requires coded ==> TreeFor(tb, bb, T.lb, LITERALS)
      requires TreeFor(tl, bl, T.ll, LengthLists(T.lb != [])) && TreeFor(td, bd, T.ld, DistanceLists(T.low == 7))
      modifies `b, `k, `p, `u, src, s, s.slide
      ensures Ready() && s.slide == old(s.slide)
      ensures
        var was := Exploded(T, bits, old(p), left0, old(s.Text()));
        if ok then left < left0 && Exploded(T, bits, p, left, s.Text()) == was else was == Bad
    {
      hide Exploder.Valid, Exploded, TreeFor, CopyAt, HasCode, CodeAt, Number, LengthLists, DistanceLists, Expand;
      ghost var p0, text := p, s.Text();
      var flag := GetBits(1);
      if flag == 1 {
        ExplodedLiteral(T, bits, p0, left0, text);
        ok := PutLiteral(coded, tb, bb, T);
        left := left0 - 1;
      } else {
        ExplodedCopy(T, bits, p0, left0, text);
        var n;
        ok, n := PutCopy(low, tl, td, bl, bd, T);
        left := left0 - n;
      }
    }

    /** `explode_lit8`, `explode_lit4`, `explode_nolit8` and `explode_nolit4`: 0 or 5 for data that make
        sense, 5 if they do not end where the input does. */
    method ExplodeData(coded: bool, low: nat, tb: seq<seq<Huft>>, tl: seq<seq<Huft>>, td: seq<seq<Huft>>,
                       bb: nat, bl: nat, bd: nat, ucsize: int, ghost T: Trees)
      returns (retval: int)
      requires Ready() && T.Valid() && coded == (T.lb != []) && low == T.low
      requires coded ==> TreeFor(tb, bb, T.lb, LITERALS)
      requires TreeFor(tl, bl, T.ll, LengthLists(T.lb != [])) && TreeFor(td, bd, T.ld, DistanceLists(T.low == 7))
      modifies `b, `k, `p, `u, src, s, s.slide
      ensures Ready() && s.slide == old(s.slide)
      ensures
        match Exploded(T, bits, old(p), ucsize, old(s.Text()))
        case Bad => retval == 1
        case Text(text, end) =>
            s.Text() == text && p == end && (retval == 0 || retval == 5) && Ends(src.all, end, src.Asked(), retval == 0)
    {
      hide Exploder.Valid, Exploded, TreeFor, LengthLists, DistanceLists, Ends;
      ghost var whole := Exploded(T, bits, p, ucsize, s.Text());
      var left := ucsize;
      while left > 0
        invariant Ready() && s.slide == old(s.slide)
        invariant Exploded(T, bits, p, left, s.Text()) == whole
        decreases left
      {
        var ok;
        ok, left := ExplodeOne(coded, low, tb, tl, td, bb, bl, bd, left, T);
        if !ok {
          return 1;
        }
      }
      ExplodedDone(T, bits, p, left, s.Text());
      EndsAs();
      retval := if src.incnt + k / 8 != 0 then 5 else 0;
    }

    lemma EndsAs()
      requires Valid()
      ensures Ends(src.all, p, src.Asked(), src.incnt + k / 8 == 0)
    {
    }
  }

  /** What the final check can tell from the position behind the data: they are said to end well exactly
      if they end in the last byte, or in the last byte of a full buffer, whatever follows it. */
  ghost predicate Ends(all: seq<int>, p: nat, asked: nat, well: bool) {
    well <==> InLastByte(all, p) || AtBufferEnd(all, p, asked)
  }

  lemma DistanceBase(low: nat, i: nat)
    requires (low == 6 || low == 7) && i < 64
    ensures |DistanceLists(low == 7).base| == 64 && DistanceLists(low == 7).base[i] == i * Pow2(low) + 1
    ensures DistanceLists(low == 7).simple == 0
  {
    hide Pow2;
    LowPowers();
    if low == 6 {
      NearDistances(i);
    } else {
      FarDistances(i);
    }
  }

  lemma DistanceEntry(T: Trees, bits: seq<bool>, p: nat, entry: Huft)
    requires T.Valid() && HasCode(T.ld, bits, p)
    requires DecodedAs(T.ld, DistanceLists(T.low == 7), Some((entry, T.ld[CodeAt(T.ld, bits, p)])),
                       CodeAt(T.ld, bits, p))
    ensures entry.Entry? && entry.n == CodeAt(T.ld, bits, p) * Pow2(T.low) + 1
  {
    hide Pow2, HasCode, CodeAt, DistanceLists;
    DistanceBase(T.low, CodeAt(T.ld, bits, p));
  }

  lemma LengthEntry(T: Trees, bits: seq<bool>, p: nat, entry: Huft)
    requires T.Valid() && HasCode(T.ll, bits, p)
    requires DecodedAs(T.ll, LengthLists(T.lb != []), Some((entry, T.ll[CodeAt(T.ll, bits, p)])), CodeAt(T.ll, bits, p))
    ensures entry.Entry? && entry.n == CodeAt(T.ll, bits, p) + T.Shortest()
        && entry.e == if CodeAt(T.ll, bits, p) == 63 then 8 else 0
  {
    hide HasCode, CodeAt;
    ShortLengths(CodeAt(T.ll, bits, p));
    LongLengths(CodeAt(T.ll, bits, p));
    ExtraBits(CodeAt(T.ll, bits, p));
  }

  // ---- Whole files ----

  /** What `huft_build` says about lengths that are all present. */
  ghost function Verdict(L: seq<int>): int {
    var sum, one := KraftSum(L, BMAX, |L|), Pow2(BMAX);
    if sum > one then 2 else if sum < one then 1 else 0
  }

  datatype Head = Head(T: Trees, q: nat) | Refused(rc: int)

  /** The trees at the head of the data and the byte behind them, or why they are refused. */
  ghost function HeadAt(all: seq<int>, coded: bool, far: bool): Head
    requires AreBytes(all)
  {
    if !coded then LaterTrees(all, 0, [], far)
    else
      var lb := TreeAt(all, 0);
      if |lb| != 256 then Refused(4)
      else if Verdict(lb) != 0 then Refused(Verdict(lb))
      else LaterTrees(all, 1 + Pairs(all, 0), lb, far)
  }

  ghost function LaterTrees(all: seq<int>, q: nat, lb: seq<int>, far: bool): Head
    requires AreBytes(all)
  {
    var ll, q1 := TreeAt(all, q), q + 1 + Pairs(all, q);
    if |ll| != 64 then Refused(4)
    else if Verdict(ll) != 0 then Refused(Verdict(ll))
    else
      var ld, q2 := TreeAt(all, q1), q1 + 1 + Pairs(all, q1);
      if |ld| != 64 then Refused(4)
      else if Verdict(ld) != 0 then Refused(Verdict(ld))
      else Head(Trees(lb, ll, ld, if far then 7 else 6), q2)
  }

  ghost predicate Present(L: seq<int>) {
    forall i :: 0 <= i < |L| ==> 1 <= L[i] <= BMAX
  }

  lemma Half()
    ensures Pow2(BMAX) == 2 * Pow2(BMAX - 1)
  {
  }

  /** Three or more codes of one bit are too many. */
  lemma NotAllShort(L: seq<int>)
    requires Present(L) && |L| >= 3 && Bounded(L, 1)
    ensures KraftSum(L, BMAX, |L|) > Pow2(BMAX)
  {
    hide Pow2;
    var none: seq<int> := [];
    assert none + Repeat(1, |L|) == L;
    KraftOfRepeat(none, BMAX, 1, |L|);
    Half();
    MulMono(3, |L|, Pow2(BMAX - 1));
  }

  method BuildTree(L: seq<int>, lists: Lists, m0: nat) returns (rc: int, pool: seq<seq<Huft>>, m: nat)
    requires Present(L) && 3 <= |L| <= N_MAX && Covers(lists, L) && Proper(lists)
    ensures rc == Verdict(L)
    ensures rc == 0 ==> TreeFor(pool, m, L, lists)
  {
    hide KraftSum, Pow2, Decodes, Marked, SingleLevel, Proper, Covers;
    NoneAbsent(L, |L|);
    if Bounded(L, 1) {
      NotAllShort(L);
    }
    rc, pool, m := HuftBuild(L, lists, m0, BITS);
  }

  lemma ListsFit(coded: bool, far: bool)
    ensures Proper(LITERALS) && Proper(LengthLists(coded)) && Proper(DistanceLists(far))
    ensures |LengthLists(coded).base| == |LengthLists(coded).extra| == 64
    ensures |DistanceLists(far).base| == |DistanceLists(far).extra| == 64
  {
    forall i | 0 <= i < 64 ensures 0 <= EXTRA[i] < BITS {
      ExtraBits(i);
    }
  }

  ghost predicate Complete(L: seq<int>) { Present(L) && KraftSum(L, BMAX, |L|) == Pow2(BMAX) }

  /** With a complete set of codes, any bits are some code. */
  lemma CompleteHasCode(L: seq<int>, bits: seq<bool>, p: nat)
    requires Complete(L)
    ensures HasCode(L, bits, p)
  {
    hide KraftSum, Pow2;
    LeftIsKraft(L, BMAX, |L|);
    var s := FullSetDecodes(L, CodeBits(bits, p), BMAX);
  }

  /** Once the trees are accepted, data cannot be bad: whatever follows them means something. */
  lemma {:induction false} AlwaysText(T: Trees, bits: seq<bool>, p: nat, left: int, text: seq<int>)
    requires T.Valid() && (T.lb != [] ==> Complete(T.lb)) && Complete(T.ll) && Complete(T.ld)
    ensures Exploded(T, bits, p, left, text).Text?
    decreases left
  {
    hide Exploded, Complete, HasCode, CodeAt, Number, Expand;
    if left <= 0 {
      ExplodedDone(T, bits, p, left, text);
    } else if Number(bits, p, 1) == 1 {
      ExplodedLiteral(T, bits, p, left, text);
      if T.lb == [] {
        AlwaysText(T, bits, p + 9, left - 1, text + [Number(bits, p + 1, 8)]);
      } else {
        CompleteHasCode(T.lb, bits, p + 1);
        var s := CodeAt(T.lb, bits, p + 1);
        AlwaysText(T, bits, p + 1 + T.lb[s], left - 1, text + [s]);
      }
    } else {
      ExplodedCopy(T, bits, p, left, text);
      CompleteHasCode(T.ld, bits, p + 1 + T.low);
      var p2 := p + 1 + T.low + T.ld[CodeAt(T.ld, bits, p + 1 + T.low)];
      CompleteHasCode(T.ll, bits, p2);
      var c := CopyAt(T, bits, p + 1);
      AlwaysText(T, bits, c.p, left - c.n, Expand(text, c.dist, c.n));
    }
  }

  /** What the trees at the head and the data behind them mean: nothing if a tree is refused; otherwise
      always a text, and a result that says how it ends. */
  ghost predicate MeansHead(all: seq<int>, head: Head, ucsize: int, r: int, out: seq<int>, asked: nat)
    requires AreBytes(all)
  {
    match head
    case Refused(rc) => r == rc && out == []
    case Head(T, q) =>
      T.Valid()
      && match Exploded(T, ByteBits(all), 8 * q, ucsize, [])
         case Bad => false
         case Text(text, p) => out == text && (r == 0 || r == 5) && Ends(all, p, asked, r == 0)
  }

  /** One tree read and its tables made; `l` holds the code lengths. */
  method TakeTree(g: Source, l: array<int>, n: nat, lists: Lists, m0: nat)
    returns (rc: int, pool: seq<seq<Huft>>, m: nat, ghost L: seq<int>)
    requires g.Valid() && l.Length == 256 && (n == 64 || n == 256) && Proper(lists)
    requires lists.simple >= n || (n <= |lists.base| && n <= |lists.extra|)
    modifies g, l
    ensures g.Valid() && L == TreeAt(g.all, old(g.Asked()))
    ensures rc == if |L| != n then 4 else Verdict(L)
    ensures rc == 0 ==>
        TreeFor(pool, m, L, lists) && g.Asked() == old(g.Asked()) + 1 + Pairs(g.all, old(g.Asked())) && Complete(L)
  {
    hide Source.Asked, TreeAt, Pairs, TreeFor, Proper, KraftSum, Pow2;
    L := TreeAt(g.all, g.Asked());
    TreePresent(g.all, g.Asked());
    rc := GetTree(g, l, n);
    if rc != 0 {
      return rc, [], 0, L;
    }
    rc, pool, m := BuildTree(l[..n], lists, m0);
  }

  lemma TreePresent(all: seq<int>, q: nat)
    requires AreBytes(all)
    ensures Present(TreeAt(all, q))
  {
  }

  /** The trees for lengths and distances, and the data behind them. */
  method ExplodeBehind(g: Source, l: array<int>, ucsize: int, coded: bool, far: bool, tb: seq<seq<Huft>>, bb: nat,
                       ghost lb: seq<int>)
    returns (r: int, out: seq<int>, ghost asked: nat)
    requires g.Valid() && l.Length == 256 && coded == (lb != [])
    requires coded ==> |lb| == 256 && Complete(lb) && TreeFor(tb, bb, lb, LITERALS)
    modifies g, l
    ensures MeansHead(g.all, LaterTrees(g.all, old(g.Asked()), lb, far), ucsize, r, out, asked)
  {
    hide Source.Valid, Source.Asked, TreeAt, Pairs, TreeFor, Proper, Complete, Exploded, Verdict, LengthLists,
        DistanceLists, Ends;
    var bl, bd := 7, 7;
    var tl, td;
    ghost var ll, ld;
    ListsFit(coded, far);
    out, asked := [], 0;
    r, tl, bl, ll := TakeTree(g, l, 64, LengthLists(coded), bl);
    if r != 0 {
      return;
    }
    r, td, bd, ld := TakeTree(g, l, 64, DistanceLists(far), bd);
    if r != 0 {
      return;
    }
    ghost var T := Trees(lb, ll, ld, if far then 7 else 6);
    var e := new Exploder(g);
    AlwaysText(T, e.bits, e.p, ucsize, []);
    r := e.ExplodeData(coded, if far then 7 else 6, tb, tl, td, bb, bl, bd, ucsize, T);
    out, asked := e.s.written + e.s.slide[..e.s.w], g.Asked();
  }

  /** `zipexplode`, up to the result `r`. `coded` and `far` are the flag bits 2 and 1; `out` is what is
      flushed, `asked` the number of bytes asked for. The check whether the data are long enough for a wider
      first table for distances looks at fields that are still zero. */
  method ZipExplode(all: seq<int>, ucsize: int, coded: bool, far: bool)
    returns (r: int, out: seq<int>, ghost asked: nat)
    requires AreBytes(all)
    ensures MeansHead(all, HeadAt(all, coded, far), ucsize, r, out, asked)
  {
    hide Source.Valid, TreeAt, Pairs, TreeFor, Proper, Complete, Verdict, MeansHead, LaterTrees;
    var g := new Source(all);
    var l := new int[256];
    var bb := 9;
    var tb;
    ghost var lb: seq<int> := [];
    ListsFit(coded, far);
    out, tb, asked := [], [], 0;
    if coded {
      r, tb, bb, lb := TakeTree(g, l, 256, LITERALS, bb);
      if r != 0 {
        MeansRefused(all, r, ucsize);
        return;
      }
    }
    r, out, asked := ExplodeBehind(g, l, ucsize, coded, far, tb, bb, lb);
  }

  lemma MeansRefused(all: seq<int>, rc: int, ucsize: int)
    requires AreBytes(all)
    ensures MeansHead(all, Refused(rc), ucsize, rc, [], 0)
  {
  }
}
