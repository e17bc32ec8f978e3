/** `huft_build`: multi-level decoding tables from a list of code lengths, and what they decode. */
module HuftDriver {
  import opened Wrappers
  import opened Arith
  import opened Bits
  import opened Canonical
  import opened HuftBits
  import opened HuftTables
  import opened HuftWork
  import opened HuftStack
  import opened HuftLists
  import opened HuftBuilder

  // ---- Handing out the codes ----

  /** The filled-up set uses code space up exactly, and not before its greatest length. */
  lemma FullEnds(code: CodeSet, L: seq<int>, lists: Lists, g: nat, y: nat, k: nat)
    requires Full(code, L, lists, g, y) && 1 <= k <= g
    ensures k == g ==> End(code.L, k) == Pow2(k)
    ensures k < g ==> End(code.L, k) < Pow2(k) && Count(code.L, k) == Count(L, k)
    ensures End(code.L, k) == 2 * End(code.L, k - 1) + Count(code.L, k)
  {
    var X := code.L;
    EndOfExtended(L, g, y, g);
    if k < g {
      CountOfFillers(L, g, y, k, y);
      LeftStep(X, g);
      LeftDrops(X, k, g - 1);
    }
  }

  /** Between two codes: `a` more codes of `k` bits are to come. */
  ghost predicate Handing(code: CodeSet, b: Builder, k: nat, a: nat)
    reads b, b.u, b.lx, b.x
  {
    && b.Valid() && b.plan.code == code
    && if a == 0 && k == b.g then Complete(b.plan, b.Here())
       else Ready(b.plan, b.Here(), k) && Msb(BitsOf(b.i, k)) + a == End(code.L, k)
  }

  /** The next code of `k` bits, for the next value in order, or for none when values have run out. */
  method HandOutCode(b: Builder, L: seq<int>, lists: Lists, y: nat, n: nat, k: nat, a: nat, p: nat, ghost code: CodeSet)
    returns (p': nat)
    requires Full(code, L, lists, b.g, y) && n == Offset(L, b.g) + Count(L, b.g) && CodeOrder(L, b.v[..])
    requires 1 <= k <= b.g && a < Count(code.L, k) && p == Min(n, Offset(L, k) + Count(code.L, k) - (a + 1))
    requires Handing(code, b, k, a + 1)
    requires code.left.Some? && p > 0 ==> b.rn == code.left.value
    requires b.Rooted() && (b.wide && b.h == -1 ==> b.WideEnough(k, a))
    modifies b, b.u, b.lx, b.x
    ensures Handing(code, b, k, a) == true && b.Rooted() && b.h >= 0
    ensures p' == Min(n, Offset(L, k) + Count(code.L, k) - a)
    ensures code.left.Some? && p' > 0 ==> b.rn == code.left.value
  {
    hide Ready, Complete, Left, Pow2, BitsOf, Msb, SpareUpTo, CodeOrder;
    FullEnds(code, L, lists, b.g, y, k);
    ghost var sym := NextSymbol(L, b.g, y, b.v[..], k, a, n);
    var e: int, val: Option<int>;
    p' := p;
    OnlyOneBit(L, lists, b.g);
    if p >= n {
      e, val := 99, None;  // out of values: invalid code
    } else {
      var s := b.v[p];
      e := EntryE(lists, s);
      val := Some(EntryN(lists, s));
      LoneLeftover(L, lists, s);
      p' := p + 1;
    }
    b.AddCode(k, a, e, val, sym);
  }

  lemma OnlyOneBit(L: seq<int>, lists: Lists, g: nat)
    requires Covers(lists, L) && Bounded(L, g) && Count(L, g) > 0 && g > 0
    ensures Leftover(L, lists).Some? ==> g == 1 && Offset(L, g) + Count(L, g) > 0
  {
    if Leftover(L, lists).Some? {
      var s := SymbolOfRank(L, g, 0, |L|);
    }
  }

  /** Goes through the bit lengths from the shortest. */
  method HandOutCodes(b: Builder, L: seq<int>, lists: Lists, y: nat, n: nat, k0: nat, ghost code: CodeSet)
    requires Full(code, L, lists, b.g, y) && n == Offset(L, b.g) + Count(L, b.g) && CodeOrder(L, b.v[..])
    requires b.Valid() && b.plan.code == code && 1 <= k0 <= b.g <= BMAX
    requires Ready(b.plan, b.Here(), k0) && b.i == 0 && b.h == -1 && b.Rooted() && Count(code.L, k0) > 0
    requires b.wide ==> b.m >= b.g && b.el >= b.g
    requires forall j :: 1 <= j < k0 ==> Count(L, j) == 0
    requires forall j :: 1 <= j <= b.g ==> b.c[j] == Count(code.L, j)
    modifies b, b.u, b.lx, b.x
    ensures b.Valid() && Complete(b.plan, b.Here()) == true && b.Rooted() && b.h >= 0
  {
    hide Ready, Complete, Left, Pow2, BitsOf, Msb, CodeOrder, Full, SpareUpTo;
    FirstCodes(code, L, lists, b.g, y, k0);
    SparePatterns(code, L, lists, b.g, y, b.c[..], k0);
    var k, p := k0, 0;
    while k <= b.g
      invariant k0 <= k <= b.g + 1 && b.Valid() && b.plan.code == code
      invariant b.Rooted() && (b.h == -1 ==> k == k0)
      invariant k <= b.g ==> p == Min(n, Offset(L, k))
      invariant code.left.Some? && p > 0 ==> b.rn == code.left.value
      invariant k <= b.g ==> Ready(b.plan, b.Here(), k) && Msb(BitsOf(b.i, k)) == 2 * End(code.L, k - 1)
      invariant k > b.g ==> Complete(b.plan, b.Here())
    {
      FullEnds(code, L, lists, b.g, y, k);
      FullNonempty(code, L, lists, b.g, y);
      var a := b.c[k];
      while a > 0
        invariant 0 <= a <= Count(code.L, k) && p == Min(n, Offset(L, k) + Count(code.L, k) - a)
        invariant Handing(code, b, k, a) == true
        invariant code.left.Some? && p > 0 ==> b.rn == code.left.value
        invariant b.Rooted() && (b.h == -1 ==> k == k0 && a == Count(code.L, k0))
      {
        a := a - 1;
        p := HandOutCode(b, L, lists, y, n, k, a, p, code);
      }
      if k < b.g {
        LengthenReady(b.plan, b.Here(), k);
      }
      k := k + 1;
    }
  }

  /** Only the greatest length uses the patterns up. */
  lemma SparePatterns(code: CodeSet, L: seq<int>, lists: Lists, g: nat, y: nat, c: seq<nat>, k: nat)
    requires Full(code, L, lists, g, y) && 1 <= k <= g < |c| && Count(code.L, k) > 0 && End(code.L, k - 1) == 0
    requires forall j :: 1 <= j <= g ==> c[j] == Count(code.L, j)
    ensures SpareUpTo(c, k, Count(code.L, k) - 1, g)
  {
    hide Full, Pow2, Left;
    forall i {:trigger Spare(c, k, Count(code.L, k) - 1, i)} | k <= i < g
        ensures Spare(c, k, Count(code.L, k) - 1, i) > 0 {
      SpareIsLeft(code.L, g, c, k, i);
      FullEnds(code, L, lists, g, y, i);
    }
  }

  lemma {:induction false} SpareIsLeft(X: seq<int>, g: nat, c: seq<nat>, k: nat, i: nat)
    requires 1 <= k <= i <= g < |c| && Count(X, k) > 0 && End(X, k - 1) == 0
    requires forall j :: 1 <= j <= g ==> c[j] == Count(X, j)
    ensures Spare(c, k, Count(X, k) - 1, i) == Pow2(i) - End(X, i)
    decreases i
  {
    if k < i {
      SpareIsLeft(X, g, c, k, i - 1);
    }
  }

  lemma FullNonempty(code: CodeSet, L: seq<int>, lists: Lists, g: nat, y: nat)
    requires Full(code, L, lists, g, y)
    ensures Count(code.L, g) > 0
  {
  }

  lemma FirstCodes(code: CodeSet, L: seq<int>, lists: Lists, g: nat, y: nat, k: nat)
    requires Full(code, L, lists, g, y) && 1 <= k <= g && forall j :: 1 <= j < k ==> Count(L, j) == 0
    ensures End(code.L, k - 1) == 0 && Offset(L, k) == 0 && Msb(BitsOf(0, k)) == 0
  {
    hide Pow2, Left, Msb, BitsOf;
    EndOfExtended(L, g, y, k - 1);
    NoneShorter(L, k - 1);
    NoOffset(L, k);
    BitsOfZero(k);
    MsbOfZeros(k);
  }

  lemma MsbOfZeros(k: nat)
    ensures Msb(Falses(k)) == 0
  {
    MsbOfFalses([], k);
    assert [] + Falses(k) == Falses(k);
  }

  lemma {:induction false} NoOffset(L: seq<int>, k: nat)
    requires forall j :: 1 <= j < k ==> Count(L, j) == 0
    ensures Offset(L, k) == 0
  {
    if k > 1 {
      NoOffset(L, k - 1);
      assert Count(L, k - 1) == 0;
    }
  }

  // ---- What the tables decode ----

  /** The walk found symbol `s` and used up just its code. */
  ghost predicate DecodedAs(L: seq<int>, lists: Lists, r: Option<(Huft, nat)>, s: int) {
    && 0 <= s < |L| && (s >= lists.simple ==> s - lists.simple < |lists.base| && s - lists.simple < |lists.extra|)
    && r.Some? && r.value.1 == L[s] && r.value.0.Entry? && r.value.0.e == EntryE(lists, s)
        && r.value.0.n == EntryN(lists, s)
  }

  /** As long as the longest code. */
  ghost predicate Ample(L: seq<int>, n: nat) { n >= BMAX || Bounded(L, n) }

  /** Every stream that is long enough starts with a code and is decoded as its symbol, or is marked
      invalid; and the end-of-block code is decoded even when nothing follows it. */
  ghost predicate Decodes(pool: seq<seq<Huft>>, bits: int, m: int, L: seq<int>, lists: Lists) {
    && (forall stream, s {:trigger StartsWith(L, stream, s)} ::
        StartsWith(L, stream, s) && (Ample(L, |stream|) || s == 256) ==>
          DecodedAs(L, lists, Walk(pool, bits, 0, m, stream), s))
    && (forall stream {:trigger Walk(pool, bits, 0, m, stream)} ::
        Ample(L, |stream|) && (forall s :: !StartsWith(L, stream, s)) ==>
          Walk(pool, bits, 0, m, stream).Some? && Walk(pool, bits, 0, m, stream).value.0.Entry?
              && Walk(pool, bits, 0, m, stream).value.0.e == 99)
  }

  lemma AmpleCovers(L: seq<int>, g: nat, n: nat)
    requires Ample(L, n) && Count(L, g) > 0 && g <= BMAX
    ensures g <= n
  {
    if n < BMAX {
      GreatestWithin(L, g, n);
    }
  }

  /** Every entry that is no pointer holds `n`. */
  ghost predicate AllHold(pool: seq<seq<Huft>>, n: int) {
    forall t, j {:trigger pool[t][j]} :: 0 <= t < |pool| && 0 <= j < |pool[t]| && pool[t][j].Entry? ==>
        pool[t][j].n == n
  }

  /** With a lone symbol, the entry for the other bit holds its value too. */
  lemma LoneHeld(P: Plan, s: Now, L: seq<int>, lists: Lists, y: nat, lone: int)
    requires Complete(P, s) && Full(P.code, L, lists, P.g, y) && Lone(L, lone)
    ensures AllHold(s.pool, EntryN(lists, lone))
  {
    hide Pow2, Code, Msb;
    LoneLeftover(L, lists, lone);
    forall t, j {:trigger s.pool[t][j]} | 0 <= t < |s.pool| && 0 <= j < |s.pool[t]| && s.pool[t][j].Entry?
      ensures s.pool[t][j].n == EntryN(lists, lone)
    {
      var m, entry := s.metas[t], s.pool[t][j];
      assert EntryRight(P.code, s.metas, P.bits, m, j, entry);
      var sym :| LeadsTo(P.code, m, j, entry.b, sym) && Represents(P.code, entry, sym);
      if sym < |L| {
        assert P.code.L[sym] == P.code.L[..|L|][sym] == L[sym];
        assert L[sym] > 0;
      }
    }
  }

  lemma LonesHeld(P: Plan, s: Now, L: seq<int>, lists: Lists, y: nat)
    requires Complete(P, s) && Full(P.code, L, lists, P.g, y)
    ensures forall lone :: Lone(L, lone) ==> AllHold(s.pool, EntryN(lists, lone))
  {
    hide Complete, Full, AllHold;
    FullCovers(P.code, L, lists, P.g, y);
    forall lone | Lone(L, lone) ensures AllHold(s.pool, EntryN(lists, lone)) {
      LoneHeld(P, s, L, lists, y, lone);
    }
  }

  lemma FullCovers(code: CodeSet, L: seq<int>, lists: Lists, g: nat, y: nat)
    requires Full(code, L, lists, g, y)
    ensures Covers(lists, L)
  {
  }

  lemma FullSymbol(code: CodeSet, L: seq<int>, lists: Lists, g: nat, y: nat, stream: seq<bool>, s: int)
    requires Full(code, L, lists, g, y)
    ensures StartsWith(L, stream, s) ==> StartsWith(code.L, stream, s) && code.L[s] == L[s] <= g
  {
    if StartsWith(L, stream, s) {
      StartsWithExtended(L, g, y, stream, s);
      CodeOfExtended(L, g, y, s);
    }
  }

  /** Right tables with enough bits to look at. */
  lemma LongWalk(P: Plan, s: Now, stream: seq<bool>, sym: int)
    requires Complete(P, s) && P.g <= |stream| && StartsWith(P.code.L, stream, sym)
    ensures Finds(P.code, Walk(s.pool, P.bits, 0, s.ls[1], stream), P.code.L[sym], sym)
  {
    hide EntryRight, Pow2, Pos, Walk;
    assert stream[0..] == stream;
    WalkFinds(P.code, s.pool, s.metas, P.bits, P.g, 0, stream, sym);
  }

  /** A walk towards a symbol looks at no bits beyond its code when no table reaches across its end. */
  lemma {:induction false} ShortWalk(P: Plan, s: Now, t: nat, stream: seq<bool>, sym: int)
    requires Complete(P, s) && t < |s.metas| && s.metas[t].pre <= stream
    requires StartsWith(P.code.L, stream, sym) && P.code.L[sym] == P.el
    ensures P.el > |s.metas[t].pre|
    ensures Finds(P.code, Walk(s.pool, P.bits, t, s.metas[t].l, stream[|s.metas[t].pre|..]), P.el - |s.metas[t].pre|,
                  sym)
    decreases BMAX - |s.metas[t].pre|
  {
    hide Pow2, Msb, Lsb, StartsWith, Represents, LeadsTo, Walk, Pos, BitsOf;
    var m, w := s.metas[t], |s.metas[t].pre|;
    var longer := stream + Falses(P.g);
    LongerStarts(P.code.L, stream, Falses(P.g), sym);
    WalkFinds(P.code, s.pool, s.metas, P.bits, P.g, t, longer, sym);
    var rest := stream[w..];
    var j := IndexFinds(m, stream);
    var entry := s.pool[t][j];
    assert EntryRight(P.code, s.metas, P.bits, m, j, entry);
    if entry.Entry? {
      EntryFinds(P.code, m, j, entry, stream, sym);
      WalkEntry(s.pool, P.bits, t, m.l, rest, j);
    } else {
      var u := entry.t;
      ShortWalk(P, s, u, stream, sym);
      assert rest[m.l..] == stream[w + m.l..];
      WalkPointer(s.pool, P.bits, t, m.l, rest, j, u, s.metas[u].l,
                  Walk(s.pool, P.bits, u, s.metas[u].l, rest[m.l..]).value);
    }
  }

  lemma LongerStarts(L: seq<int>, stream: seq<bool>, more: seq<bool>, s: int)
    requires StartsWith(L, stream, s)
    ensures StartsWith(L, stream + more, s) && L[s] <= |stream|
  {
    assert (stream + more)[..L[s]] == stream[..L[s]];
  }

  lemma CompleteRoot(P: Plan, s: Now)
    requires Complete(P, s)
    ensures |s.ls| > 1
  {
  }

  /** The finished tables decode the set they were built for. */
  lemma TablesDecode(P: Plan, s: Now, L: seq<int>, lists: Lists, y: nat)
    requires Complete(P, s) && Full(P.code, L, lists, P.g, y)
    requires P.el == if |L| > 256 then L[256] else BMAX
    ensures Decodes(s.pool, P.bits, s.ls[1], L, lists) == true
  {
    hide Complete, StartsWith;
    CompleteRoot(P, s);
    forall stream, sym {:trigger StartsWith(L, stream, sym)} | StartsWith(L, stream, sym)
        && (Ample(L, |stream|) || sym == 256)
      ensures DecodedAs(L, lists, Walk(s.pool, P.bits, 0, s.ls[1], stream), sym)
    {
      SymbolDecoded(P, s, L, lists, y, stream, sym);
    }
    forall stream {:trigger Walk(s.pool, P.bits, 0, s.ls[1], stream)}
      | Ample(L, |stream|) && forall sym :: !StartsWith(L, stream, sym)
      ensures
        var r := Walk(s.pool, P.bits, 0, s.ls[1], stream);
        r.Some? && r.value.0.Entry? && r.value.0.e == 99
    {
      FillerDecoded(P, s, L, lists, y, stream);
    }
  }

  lemma SymbolDecoded(P: Plan, s: Now, L: seq<int>, lists: Lists, y: nat, stream: seq<bool>, sym: int)
    requires Complete(P, s) && Full(P.code, L, lists, P.g, y)
    requires P.el == if |L| > 256 then L[256] else BMAX
    requires StartsWith(L, stream, sym) && (Ample(L, |stream|) || sym == 256)
    ensures DecodedAs(L, lists, Walk(s.pool, P.bits, 0, s.ls[1], stream), sym)
  {
    hide Right, Filled;
    FullSymbol(P.code, L, lists, P.g, y, stream, sym);
    if Ample(L, |stream|) {
      AmpleCovers(L, P.g, |stream|);
      LongWalk(P, s, stream, sym);
    } else {
      ShortWalk(P, s, 0, stream, sym);
      assert stream[0..] == stream;
    }
  }

  lemma FillerDecoded(P: Plan, s: Now, L: seq<int>, lists: Lists, y: nat, stream: seq<bool>)
    requires Complete(P, s) && Full(P.code, L, lists, P.g, y)
    requires Ample(L, |stream|) && forall sym :: !StartsWith(L, stream, sym)
    ensures
      var r := Walk(s.pool, P.bits, 0, s.ls[1], stream);
      r.Some? && r.value.0.Entry? && r.value.0.e == 99
  {
    hide Right, Filled, Walk;
    AmpleCovers(L, P.g, |stream|);
    EndOfExtended(L, P.g, y, P.g);
    var sym := FullSetDecodes(P.code.L, stream, P.g);
    StartsWithExtended(L, P.g, y, stream, sym);
    LongWalk(P, s, stream, sym);
  }

  /** How entries tell what they are: pointers carry more than `bits`, symbols what the lists say, and 99 marks no code.
      */
  ghost predicate Marked(pool: seq<seq<Huft>>, bits: int, m: int, L: seq<int>, lists: Lists) {
    && 0 < m <= BMAX && pool != [] && |pool[0]| == Pow2(m)
    && forall t, j {:trigger pool[t][j]} :: 0 <= t < |pool| && 0 <= j < |pool[t]| ==>
        EntryMarked(pool, bits, |pool[t]|, pool[t][j], L, lists)
  }

  ghost predicate EntryMarked(pool: seq<seq<Huft>>, bits: int, size: nat, entry: Huft, L: seq<int>, lists: Lists) {
    match entry
    case Garbage => false
    case Entry(e, b, n) =>
        0 < b && Pow2(b) <= size
        && (e == 99 || exists s {:trigger L[s]} ::
        IsSymbol(L, lists, s) && e == EntryE(lists, s) && n == EntryN(lists, s))
    case Pointer(e, b, u) =>
        0 < b && Pow2(b) <= size && 0 <= u < |pool| && bits < e <= bits + BMAX && |pool[u]| == Pow2(e - bits)
  }

  ghost predicate IsSymbol(L: seq<int>, lists: Lists, s: int) {
    0 <= s < |L| && L[s] > 0
        && (s >= lists.simple ==> s - lists.simple < |lists.base| && s - lists.simple < |lists.extra|)
  }

  const INVALID_CODE: nat := 99

  /** Values of symbols by which entries can be told from pointers. */
  ghost predicate ListsMarked(lists: Lists, bits: nat) {
    lists.nob == bits && 0 <= lists.eob < bits && forall i :: 0 <= i < |lists.extra| ==>
        lists.extra[i] == INVALID_CODE || 0 <= lists.extra[i] < bits
  }

  lemma MarkTells(pool: seq<seq<Huft>>, bits: nat, size: nat, entry: Huft, L: seq<int>, lists: Lists)
    requires ListsMarked(lists, bits) && bits + BMAX < INVALID_CODE && EntryMarked(pool, bits, size, entry, L, lists)
    ensures entry != Garbage && (entry.Pointer? <==> entry.e > bits && entry.e != INVALID_CODE)
  {
    if entry.Entry? && entry.e != INVALID_CODE {
      var s :| IsSymbol(L, lists, s) && entry.e == EntryE(lists, s) && entry.n == EntryN(lists, s);
      assert IsSymbol(L, lists, s) && entry.e == EntryE(lists, s);
    }
  }

  lemma EntryIsMarked(P: Plan, s: Now, L: seq<int>, lists: Lists, y: nat, t: nat, j: nat)
    requires Complete(P, s) && Full(P.code, L, lists, P.g, y)
    requires t < |s.pool| && j < |s.pool[t]|
    ensures EntryMarked(s.pool, P.bits, |s.pool[t]|, s.pool[t][j], L, lists)
  {
    hide Pow2, Code, Msb;
    var m, entry := s.metas[t], s.pool[t][j];
    assert EntryRight(P.code, s.metas, P.bits, m, j, entry);
    PosBelowTop(Pattern(m, j));
    Pow2Positive(BMAX - |m.pre| - m.l);
    if entry.Entry? {
      Pow2Monotone(entry.b, m.l);
      var sym :| LeadsTo(P.code, m, j, entry.b, sym) && Represents(P.code, entry, sym);
      if sym < |L| {
        assert P.code.L[sym] == P.code.L[..|L|][sym] == L[sym];
        assert L[sym] > 0 && IsSymbol(L, lists, sym);
        assert entry.e == EntryE(lists, sym) && entry.n == EntryN(lists, sym);
      }
    } else {
      assert entry.Pointer?;
      var u := entry.t;
      assert 0 < s.metas[u].l && |s.metas[u].pre| + s.metas[u].l <= BMAX && |s.pool[u]| == Pow2(s.metas[u].l);
    }
  }

  lemma TablesMarked(P: Plan, s: Now, L: seq<int>, lists: Lists, y: nat)
    requires Complete(P, s) && Full(P.code, L, lists, P.g, y)
    ensures |s.ls| > 1 && Marked(s.pool, P.bits, s.ls[1], L, lists) == true
  {
    forall t, j {:trigger s.pool[t][j]} | 0 <= t < |s.pool| && 0 <= j < |s.pool[t]|
      ensures EntryMarked(s.pool, P.bits, |s.pool[t]|, s.pool[t][j], L, lists)
    {
      EntryIsMarked(P, s, L, lists, y, t, j);
    }
    RootSize(P, s);
  }

  lemma RootSize(P: Plan, s: Now)
    requires Complete(P, s)
    ensures |s.ls| > 1 && 0 < s.ls[1] <= P.g <= BMAX && |s.pool| > 0 && |s.pool[0]| == Pow2(s.ls[1])
  {
    hide Filled, Limits, EntryRight;
    assert s.metas[0].l == s.ls[1];
    LimitsRoot(P, s);
  }

  /** A first table as wide as the longest code has no pointers. */
  lemma RootPlain(P: Plan, s: Now)
    requires Complete(P, s) && s.metas[0].l == P.g
    ensures |s.pool| > 0 && forall j {:trigger s.pool[0][j]} :: 0 <= j < |s.pool[0]| ==> !s.pool[0][j].Pointer?
  {
    hide Filled;
    forall j {:trigger s.pool[0][j]} | 0 <= j < |s.pool[0]| ensures !s.pool[0][j].Pointer? {
      assert EntryRight(P.code, s.metas, P.bits, s.metas[0], j, s.pool[0][j]);
    }
  }

  lemma LimitsRoot(P: Plan, s: Now)
    requires Complete(P, s)
    ensures |s.ls| > 1 && s.ls[1] <= P.g
  {
    hide Filled, EntryRight;
    assert s.metas[0].pre == [];
  }

  // ---- The whole ----

  /** The set of codes filled up with `y` codes of the greatest length. */
  ghost function CodeSetOf(L: seq<int>, lists: Lists, g: nat, y: nat): CodeSet
    requires Covers(lists, L)
  {
    CodeSet(Extended(L, g, y), |L|,
            seq(|L|, s requires 0 <= s < |L| => if L[s] > 0 then EntryE(lists, s) else 0),
            seq(|L|, s requires 0 <= s < |L| => if L[s] > 0 then EntryN(lists, s) else 0),
            Leftover(L, lists))
  }

  lemma CodeSetFull(L: seq<int>, lists: Lists, g: nat, y: nat)
    requires Covers(lists, L) && 0 < g <= BMAX && Bounded(L, g) && y == Left(L, g) && Count(L, g) > 0
    ensures Full(CodeSetOf(L, lists, g, y), L, lists, g, y)
    ensures forall k :: 0 <= k <= g ==> Count(CodeSetOf(L, lists, g, y).L, k) == Count(L, k) + if k == g then y else 0
  {
    forall k | 0 <= k <= g ensures Count(Extended(L, g, y), k) == Count(L, k) + if k == g then y else 0 {
      CountOfFillers(L, g, y, k, y);
    }
  }

  /** How much is left at the greatest length in use decides whether the Kraft sum exceeds one. */
  lemma LeftAtTop(L: seq<int>, g: nat)
    requires g <= BMAX && Bounded(L, g)
    ensures Left(L, g) < 0 <==> KraftSum(L, BMAX, |L|) > Pow2(BMAX)
    ensures Left(L, g) == 0 <==> KraftSum(L, BMAX, |L|) == Pow2(BMAX)
  {
    LeftIsKraft(L, BMAX, |L|);
    LeftScales(L, g, BMAX);
    Pow2Positive(BMAX - g);
    SignKept(Left(L, g), Pow2(BMAX - g));
  }

  lemma SignKept(a: int, p: nat)
    requires p > 0
    ensures (a * p < 0 <==> a < 0) && (a * p == 0 <==> a == 0)
  {
  }

  lemma {:induction false} LeftScales(L: seq<int>, g: nat, n: nat)
    requires g <= n && Bounded(L, g)
    ensures Left(L, n) == Left(L, g) * Pow2(n - g)
    decreases n
  {
    if g < n {
      LeftScales(L, g, n - 1);
      NoneLonger(L, n, |L|);
      LeftStep(L, n);
      MulTwice(Left(L, g), Pow2(n - 1 - g));
    }
  }

  lemma {:induction false} NoneLonger(L: seq<int>, k: nat, n: nat)
    requires n <= |L| && forall i :: 0 <= i < n ==> L[i] < k
    ensures CountTo(L, k, n) == 0
  {
    if n > 0 {
      NoneLonger(L, k, n - 1);
    }
  }

  /** The tables themselves, once counts, bounds, values and the number `y` of left-over patterns are known. */
  method BuildTables(L: seq<int>, lists: Lists, c: array<nat>, v: array<nat>, x: array<nat>, bits: nat, m0: nat,
                     k: nat, g: nat, el: nat, y: nat, n: nat) returns (pool: seq<seq<Huft>>, m: nat)
    requires Covers(lists, L) && c.Length == x.Length == BMAX + 1 && c != x && v != x && x[0] == 0
    requires 1 <= k <= g <= BMAX && Bounded(L, g) && Count(L, g) > 0 && forall j :: 1 <= j < k ==> Count(L, j) == 0
    requires y == Left(L, g) && n == Offset(L, g) + Count(L, g) && CodeOrder(L, v[..])
    requires forall j :: 1 <= j <= g ==> c[j] == Count(L, j) + if j == g then y else 0
    requires el == (if |L| > 256 then L[256] else BMAX) && Count(L, k) > 0
    modifies x
    ensures Decodes(pool, bits, m, L, lists) == true && Marked(pool, bits, m, L, lists) == true
    ensures m0 >= g && el >= g ==> m == g && SingleLevel(pool) == true
    ensures forall s :: Lone(L, s) ==> AllHold(pool, EntryN(lists, s))
  {
    hide Decodes, Marked, AllHold, Ready, Full, Pow2, CodeOrder, Bounded, Left, Covers, CodeSetOf, SingleLevel;
    ghost var code := CodeSetOf(L, lists, g, y);
    CodeSetFull(L, lists, g, y);
    var b := new Builder(c, v, x, bits, m0, g, el, k, code, m0 >= g && el >= g);
    HandOutCodes(b, L, lists, y, n, k, code);
    CompleteRoot(b.plan, b.Here());
    pool, m := b.pool, b.lx[1];
    TablesDecode(b.plan, b.Here(), L, lists, y);
    TablesMarked(b.plan, b.Here(), L, lists, y);
    CompleteFirst(b.plan, b.Here());
    LonesHeld(b.plan, b.Here(), L, lists, y);
  }

  /** Entries of the first table point nowhere. */
  ghost predicate SingleLevel(pool: seq<seq<Huft>>) {
    pool != [] && forall j {:trigger pool[0][j]} :: 0 <= j < |pool[0]| ==> !pool[0][j].Pointer?
  }

  lemma CompleteFirst(P: Plan, s: Now)
    requires Complete(P, s)
    ensures s.metas != [] && |s.ls| > 1 && s.metas[0].l == s.ls[1]
    ensures s.metas[0].l == P.g ==> SingleLevel(s.pool)
  {
    hide Filled, Right, Limits;
    if s.metas[0].l == P.g {
      RootPlain(P, s);
    }
  }

  /** Tables for codes of the lengths `L`; `m0` is the width wanted for the first table, `m` the one it got. */
  method HuftBuild(L: seq<int>, lists: Lists, m0: nat, bits: nat) returns (rc: int, pool: seq<seq<Huft>>, m: nat)
    requires 0 < |L| <= N_MAX && Bounded(L, BMAX) && Covers(lists, L)
    ensures Count(L, 0) == |L| ==> rc == 0 && pool == [] && m == 0
    ensures Count(L, 0) < |L| ==>
      var sum, one := KraftSum(L, BMAX, |L|), Pow2(BMAX);
      && (rc == 2 <==> sum > one)
      && (sum == one ==> rc == 0) && (rc == 1 ==> sum < one)
      && (sum < one ==> rc == if Bounded(L, 1) then 0 else 1)
      && (rc != 2 ==> Decodes(pool, bits, m, L, lists) == true && Marked(pool, bits, m, L, lists) == true)
      && (rc != 2 && |L| <= 256 && Bounded(L, m0) ==>
          Bounded(L, m) && m <= m0 && (exists i :: 0 <= i < |L| && L[i] == m) && SingleLevel(pool) == true)
      && (rc != 2 ==> forall s :: Lone(L, s) ==> AllHold(pool, EntryN(lists, s)))
  {
    hide AllHold, Decodes, Marked, KraftSum, Pow2, CodeOrder, Left, Covers, SingleLevel;
    rc, pool, m := 0, [], 0;
    var el := if |L| > 256 then L[256] else BMAX;
    var c := new nat[BMAX + 1];
    CountLengths(L, c);
    AllAbsent(L, |L|);
    if c[0] == |L| {
      return;
    }
    var k, g := FindBounds(L, c);
    m := if m0 < k then k else m0;
    m := if m > g then g else m;
    var y := Balance(L, c, k, g);
    LeftAtTop(L, g);
    if y < 0 {
      rc := 2;
      return;
    }
    c[g] := c[g] + y;
    var x := new nat[BMAX + 1](_ => 0);
    StartingOffsets(L, c, x, g);
    var v := new nat[N_MAX](_ => 0);
    var n := SortValues(L, v, x, g);
    x[0] := 0;
    pool, m := BuildTables(L, lists, c, v, x, bits, m, k, g, el, y, n);
    rc := if y != 0 && g != 1 then 1 else 0;
    BoundIsGreatest(L, g);
    if Bounded(L, m0) {
      GreatestWithin(L, g, m0);
    }
    ghost var longest := SymbolOfRank(L, g, 0, |L|);
    assert L[longest] == g;
  }

  lemma GreatestWithin(L: seq<int>, g: nat, m0: nat)
    requires Bounded(L, m0) && Count(L, g) > 0
    ensures g <= m0
  {
    var s := SymbolOfRank(L, g, 0, |L|);
  }

  lemma BoundIsGreatest(L: seq<int>, g: nat)
    requires Bounded(L, g) && Count(L, g) > 0 && g >= 1
    ensures Bounded(L, 1) <==> g == 1
  {
    var s := SymbolOfRank(L, g, 0, |L|);
  }

  /** The tables were built for these code lengths and lists. */
  ghost predicate TablesFor(pool: seq<seq<Huft>>, bits: nat, m: nat, L: seq<int>, lists: Lists) {
    Decodes(pool, bits, m, L, lists) && Marked(pool, bits, m, L, lists)
  }
}
