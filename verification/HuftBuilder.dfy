/** The main part of `huft_build`: codes are handed out in order, and tables made for them as they come. */
module HuftBuilder {
  import opened Wrappers
  import opened Arith
  import opened Bits
  import opened Canonical
  import opened HuftBits
  import opened HuftTables
  import opened HuftWork
  import opened HuftStack
  import opened HuftLists

  /** Entries `j`, `j + f`, ... of a table of size `z` become `r`. */
  method FillEntries(row: seq<Huft>, start: nat, d: nat, z: nat, r: Huft) returns (filled: seq<Huft>)
    requires z == |row| && start < Pow2(d)
    ensures |filled| == |row|
    ensures forall e {:trigger filled[e]} :: 0 <= e < |row| ==> filled[e] == if Low(e, d) == start then r else row[e]
  {
    filled := row;
    var f, j := Pow2(d), start;
    ShrSmall(start, d);
    NoneBelow(start, d);
    while j < z
      invariant Low(j, d) == start && |filled| == |row|
      invariant forall e {:trigger filled[e]} :: 0 <= e < |row| ==>
          filled[e] == if e < j && Low(e, d) == start then r else row[e]
      decreases z - j
    {
      filled := filled[j := r];
      NoneBetween(j, d);
      j := j + f;
    }
  }

  /** Those are the entries of the `k`-bit code `i` in a table that starts after `w` bits. */
  lemma EntriesOfCode(row: seq<Huft>, filled: seq<Huft>, i: nat, k: nat, w: nat, r: Huft, m: Meta)
    requires w < k <= w + m.l && i < Pow2(k) && |m.pre| == w && m.pre == BitsOf(i, k)[..w]
    requires |row| == |filled| == Pow2(m.l)
    requires forall e {:trigger filled[e]} :: 0 <= e < |row| ==>
        filled[e] == if Low(e, k - w) == Shr(i, w) then r else row[e]
    ensures Replicated(row, filled, m, BitsOf(i, k), r) == true
  {
    hide Low, Shr, BitsOf;
    TailIndex(i, k, w);
    forall e {:trigger filled[e]} | 0 <= e < |row|
      ensures filled[e] == if BitsOf(i, k) <= Pattern(m, e) then r else row[e]
    {
      SelectsPattern(m.pre, m.l, e, k - w, Shr(i, w));
      assert m.pre + BitsOf(Shr(i, w), k - w) == BitsOf(i, k);
    }
  }

  lemma NoneBelow(start: nat, d: nat)
    requires start < Pow2(d)
    ensures forall e {:trigger Low(e, d)} :: 0 <= e < start ==> Low(e, d) != start
  {
    forall e: nat {:trigger Low(e, d)} | e < start ensures Low(e, d) != start {
      ShrSmall(e, d);
    }
  }

  /** Numbers with the same low bits are that far apart. */
  lemma NoneBetween(j: nat, d: nat)
    ensures Low(j + Pow2(d), d) == Low(j, d)
    ensures forall e {:trigger Low(e, d)} :: j < e < j + Pow2(d) ==> Low(e, d) != Low(j, d)
  {
    var p := Pow2(d);
    ShrLow(j, d);
    MulAdd(Shr(j, d), 1, p);
    ShrLowUnique(j + p, d, Shr(j, d) + 1, Low(j, d));
    forall e: nat {:trigger Low(e, d)} | j < e < j + p ensures Low(e, d) != Low(j, d) {
      ShrLow(e, d);
      Apart(e, j, Shr(e, d), Shr(j, d), p);
    }
  }

  lemma Apart(e: nat, j: nat, qe: nat, qj: nat, p: nat)
    requires j < e < j + p
    ensures e - qe * p != j - qj * p
  {
    MulSub(qe, qj, p);
    if qe > qj {
      MulAtLeast(qe - qj, p);
    } else {
      MulMono(qe, qj, p);
    }
  }

  /** The code after the last one made: its rank, its symbol and the place of its value. */
  lemma NextSymbol(L: seq<int>, g: nat, y: nat, v: seq<nat>, k: nat, a: nat, n: nat) returns (s: nat)
    requires Bounded(L, g) && 1 <= k <= g && CodeOrder(L, v) && n == Offset(L, g) + Count(L, g)
    requires a < Count(Extended(L, g, y), k)
    ensures
      var X := Extended(L, g, y);
      var place := Offset(L, k) + Count(X, k) - (a + 1);
      && s < |X| && X[s] == k && Code(X, s) + a + 1 == End(X, k)
      && (s < |L| <==> place < n) && (s < |L| ==> L[s] == k && place < |v| && v[place] == s)
  {
    var X := Extended(L, g, y);
    var r := Count(X, k) - (a + 1);
    s := SymbolOfRank(X, k, r, |X|);
    if s < |L| {
      assert X[s] == X[..|L|][s] == L[s];
      CountOfPrefix(L, X, k, s);
      RankBelowCount(L, s);
      if k < g {
        OffsetGrows(L, k, g);
      }
    } else {
      CountOfFillers(L, g, y, g, s - |L|);
    }
  }

  /** Every table finished, ready to decode. */
  ghost predicate Complete(P: Plan, s: Now) {
    && 1 <= P.g <= BMAX && Right(P.code, s.pool, s.metas, P.bits) && Filled(s.pool, s.metas, Pow2(BMAX))
    && Limits(s.metas, P.g, P.el)
    && |s.metas| > 0 && |s.ls| > 1 && s.metas[0] == Meta([], s.ls[1])
  }

  lemma BackingComplete(P: Plan, s: Now, k: nat, cw: seq<bool>)
    requires Backing(P, s, k, cw) && Pos(cw) + Span(|cw|) == Pow2(BMAX)
    ensures Complete(P, s) == true
  {
    assert s.us[..s.h + 1][0] == 0;
    assert FrameOf(s.metas, s.us[0], s.ls[0 + 1], s.xs[0]);
  }

  /** The code's entries are made and the next code of its length is worked out. */
  ghost function Filling(s: Now, row: seq<Huft>, i': nat): Now
    requires 0 <= s.h < |s.us| && s.us[s.h] < |s.pool|
  {
    s.(pool := s.pool[s.us[s.h] := row], i := i')
  }

  lemma FillingFramed(s: Now, row: seq<Huft>, i': nat, k: nat)
    requires Framed(s) && Current(s, k) && s.us[s.h] < |s.pool|
    ensures Framed(Filling(s, row, i')) && Current(Filling(s, row, i'), k)
  {
    var s' := Filling(s, row, i');
    forall q {:trigger s'.us[q]} | 0 <= q <= s'.h ensures FrameOf(s'.metas, s'.us[q], s'.ls[q + 1], s'.xs[q]) {
      assert FrameOf(s.metas, s.us[q], s.ls[q + 1], s.xs[q]);
    }
  }

  lemma Assigned(P: Plan, s: Now, k: nat, row: seq<Huft>, r: Huft, sym: int, i': nat)
    requires Ready(P, s, k) && s.h >= 0 && k <= s.w + s.ls[s.h + 1] && s.us[s.h] < |s.pool|
    requires Replicated(s.pool[s.us[s.h]], row, s.metas[s.us[s.h]], BitsOf(s.i, k), r)
    requires r.Entry? && r.b == k - s.w && Represents(P.code, r, sym)
    requires 0 <= sym < |P.code.L| && P.code.L[sym] == k && Msb(BitsOf(s.i, k)) == Code(P.code.L, sym)
    requires i' < Pow2(k) && Successor(BitsOf(s.i, k), BitsOf(i', k))
    ensures Backing(P, Filling(s, row, i'), k, BitsOf(s.i, k)) == true
  {
    hide Work, Popping, Replicated, Represents, Successor, Pos, FrameOf;
    FramedTop(s);
    BeginPopping(P.code, P.bits, P.g, P.el, s.pool, s.metas, s.us[..s.h + 1], BitsOf(s.i, k), row, r, sym,
                 BitsOf(i', k));
    FillingFramed(s, row, i', k);
  }

  lemma ReadyBounds(P: Plan, s: Now, k: nat)
    requires Ready(P, s, k)
    ensures 1 <= k <= P.g <= BMAX && s.i < Pow2(k) && s.w < k && (s.h == -1 || 0 <= s.h < BMAX)
    ensures s.h == -1 ==> s.w == s.i == s.ls[0] == 0 && s.pool == []
  {
    hide Work;
  }

  lemma NextLevel(P: Plan, s: Now, k: nat)
    requires Ready(P, s, k) && k > s.w + s.ls[s.h + 1]
    ensures s.h + 1 < BMAX
  {
    if s.h >= 0 {
      LinkFits(P, s, k);
    }
  }

  lemma LinkFits(P: Plan, s: Now, k: nat)
    requires Ready(P, s, k) && s.h >= 0 && k > s.w + s.ls[s.h + 1]
    ensures |s.us| == BMAX && |s.ls| == |s.xs| == BMAX + 1 && s.h + 1 < BMAX && s.us[s.h] < |s.pool| == |s.metas|
    ensures
      var d := s.w + s.ls[s.h + 1];
      d == Depth(s.metas, s.us[..s.h + 1]) && Shr(Low(s.i, d), d - s.ls[s.h + 1]) < |s.pool[s.us[s.h]]|
  {
    hide Work;
    LinkIndexFits(P, s, k);
    FramedTop(s);
  }

  lemma ReadyTable(P: Plan, s: Now, k: nat)
    requires Ready(P, s, k) && s.h >= 0
    ensures s.us[s.h] < |s.metas| == |s.pool| && |s.pool[s.us[s.h]]| == Pow2(s.ls[s.h + 1])
    ensures s.metas[s.us[s.h]].l == s.ls[s.h + 1] && |s.metas[s.us[s.h]].pre| == s.w
    ensures s.metas[s.us[s.h]].pre == BitsOf(s.i, k)[..s.w]
    ensures s.ls[s.h + 1] > 0
  {
    hide Work;
    FramedTop(s);
    TopFacts(P.code, P.bits, P.g, P.el, s.pool, s.metas, s.us[..s.h + 1], BitsOf(s.i, k));
  }

  /** Entry `j` of table `t` becomes `r`. */
  function Connect(pool: seq<seq<Huft>>, t: nat, j: nat, r: Huft): seq<seq<Huft>>
    requires t < |pool| && j < |pool[t]|
  {
    pool[t := pool[t][j := r]]
  }

  /** `now` is `s` with a further, blank table of `l` bits below the top one, and a pointer to it there. */
  ghost predicate Joins(bits: nat, s: Now, k: nat, l: nat, now: Now) {
    && |s.us| == BMAX && |s.xs| == |s.ls| == BMAX + 1 && 0 <= s.h && s.h + 1 < BMAX && s.us[s.h] < |s.pool| == |s.metas|
    && var stack, h, d := s.us[..s.h + 1], s.h + 1, s.w + s.ls[s.h + 1];
    && s.ls[h] <= d
    && var j := Shr(Low(s.i, d), d - s.ls[h]);
    && j < |s.pool[s.us[s.h]]| && d == Depth(s.metas, stack) && d <= k
    && now.pool == Connect(s.pool + [Blank(Pow2(l))], s.us[s.h], j, Pointer(bits + l, s.ls[h], |s.pool|))
    && now.metas == NextMetas(s.metas, stack, BitsOf(s.i, k), l)
    && now.us == s.us[h := |s.pool|] && now.ls == s.ls[h + 1 := l] && now.xs == s.xs[h := s.i]
    && now.h == h && now.w == d && now.q == |s.pool| && now.z == Pow2(l) && now.i == s.i
  }

  lemma Joined(P: Plan, s: Now, k: nat, l: nat, now: Now)
    requires Ready(P, s, k) && s.h >= 0 && k > s.w + s.ls[s.h + 1]
    requires 0 < l && s.w + s.ls[s.h + 1] + l <= P.g && (s.w + s.ls[s.h + 1] < P.el ==> s.w + s.ls[s.h + 1] + l <= P.el)
    requires Joins(P.bits, s, k, l, now)
    ensures Ready(P, now, k) == true
  {
    hide Work;
    LinkIndexFits(P, s, k);
    var j := LinkIndex(s);
    var r := Pointer(P.bits + l, s.ls[s.h + 1], |s.pool|);
    assert Connect(s.pool + [Blank(Pow2(l))], s.us[s.h], j, r) == NextPool(s.pool, s.us[..s.h + 1], j, r, l);
    assert now == Push(P, s, k, l);
    PushReady(P, s, k, l);
  }

  class Builder {
    const c: array<nat>   // bit length count table
    const v: array<nat>   // values in order of bit length
    const u: array<nat>   // table stack
    const lx: array<nat>  // memory for l[-1..BMAX-1]
    const x: array<nat>   // bit offsets, then code stack
    const bits: nat
    const g: nat
    const el: nat
    const m: nat
    var pool: seq<seq<Huft>>
    ghost var metas: seq<Meta>
    var h: int
    var w: nat
    var q: nat
    var z: nat
    var i: nat
    var rn: int           // what `r.v` holds
    ghost const plan: Plan
    ghost const wide: bool  // whether the first table is to reach the greatest length

    ghost predicate Rooted()
      reads this
    {
      wide && h >= 0 ==> metas != [] && metas[0].l == g
    }

    /** The first table has reason to reach the greatest length. */
    ghost predicate WideEnough(k: nat, a: nat)
      reads c
    {
      m >= g && el >= g && SpareUpTo(c[..], k, a, g)
    }

    ghost predicate Valid()
      reads this
    {
      && c.Length == lx.Length == x.Length == BMAX + 1 && u.Length == BMAX
      && c != lx && c != x && c != u && lx != x && lx != u && x != u && v != lx && v != x && v != u
      && plan.bits == bits && plan.g == g && plan.el == el && -1 <= h < BMAX
    }

    ghost function Here(): Now
      reads this, u, lx, x
    {
      Now(pool, metas, u[..], lx[..], x[..], h, w, q, z, i)
    }

    constructor (c: array<nat>, v: array<nat>, x: array<nat>, bits: nat, m: nat, g: nat, el: nat, k: nat,
                 ghost code: CodeSet, ghost wide: bool)
      requires c.Length == x.Length == BMAX + 1 && c != x && v != x && 1 <= k <= g <= BMAX && x[0] == 0
      ensures Valid() && this.c == c && this.v == v && this.x == x && this.g == g && this.bits == bits
      ensures plan == Plan(code, bits, g, el) && fresh(u) && fresh(lx)
      ensures Ready(plan, Here(), k) && h == -1 && i == 0 && Rooted() && this.wide == wide && this.m == m
          && this.el == el
    {
      this.c, this.v, this.x, this.bits, this.m, this.g, this.el := c, v, x, bits, m, g, el;
      u := new nat[BMAX](_ => 0);
      lx := new nat[BMAX + 1](_ => 0);
      plan := Plan(code, bits, g, el);
      this.wide := wide;
      pool, metas := [], [];
      h, w, q, z, i := -1, 0, 0, 0, 0;
      rn := *;
    }

    /** The next level gets a blank table, wide enough for a code of `k` bits with `a` more to follow. */
    method PushTable(k: nat, a: nat)
      requires Valid() && k <= g <= BMAX && w + lx[h + 1] < k && h + 1 < BMAX
      requires k == g ==> Pow2(k - (w + lx[h + 1])) <= a + 1
      modifies `w, `h, `z, `q, `pool, u, lx
      ensures Valid() && h == old(h) + 1 && w == old(w + lx[h + 1]) && z == Pow2(lx[h + 1]) && q == old(|pool|)
      ensures 0 < lx[h + 1] && w + lx[h + 1] <= g && (w < el ==> w + lx[h + 1] <= el)
      ensures pool == old(pool) + [Blank(z)]
      ensures u[..] == old(u[..])[h := q] && lx[..] == old(lx[..])[h + 1 := lx[h + 1]]
      ensures w == 0 && WideEnough(k, a) ==> lx[h + 1] == g
    {
      w := w + lx[h + 1];
      h := h + 1;
      var j := ChooseWidth(c, k, w, a, g, m, el);
      z := Pow2(j);
      lx[h + 1] := j;
      q := |pool|;
      pool := pool + [Blank(z)];
      u[h] := q;
    }

    /** A further table, because the `k`-bit code `i` does not fit the one at hand; `a` codes follow it. */
    method AddTable(k: nat, a: nat)
      requires Valid() && Ready(plan, Here(), k) == true && k > w + lx[h + 1]
      requires k == g ==> Msb(BitsOf(i, k)) + a + 1 == Pow2(k)
      requires Rooted() && (wide && h == -1 ==> WideEnough(k, a))
      modifies this, u, lx, x
      ensures Valid() && Ready(plan, Here(), k) == true && i == old(i) && h >= 0 && Rooted()
      ensures w + lx[h + 1] > old(w + lx[h + 1])
      ensures g == 1 ==> rn == old(rn)
    {
      hide Ready, Blank, Pow2, BitsOf, SpareUpTo;
      ghost var s := Here();
      ReadyBounds(plan, s, k);
      if h >= 0 {
        ReadyTable(plan, s, k);
        assert lx[h + 1] == lx[..][h + 1] > 0;
      }
      if k == g {
        WidthFits(plan, s, k, a);
      }
      NextLevel(plan, s, k);
      PushTable(k, a);
      ghost var l := lx[h + 1];
      if h != 0 {
        LinkTable(s, k, l);
      } else {
        metas := [Meta([], l)];
        assert Here() == PushFirst(s, l);
        PushFirstReady(plan, s, k, l);
      }
    }

    /** Connects the new table to the last one. */
    method LinkTable(ghost s: Now, k: nat, ghost l: nat)
      requires Valid() && Ready(plan, s, k) && s.h >= 0 && k > s.w + s.ls[s.h + 1]
      requires 0 < l && s.w + s.ls[s.h + 1] + l <= plan.g
          && (s.w + s.ls[s.h + 1] < plan.el ==> s.w + s.ls[s.h + 1] + l <= plan.el)
      requires s.h + 1 < BMAX
      requires Here() == s.(h := s.h + 1, w := s.w + s.ls[s.h + 1], z := Pow2(l), q := |s.pool|,
        pool := s.pool + [Blank(Pow2(l))], us := s.us[s.h + 1 := |s.pool|], ls := s.ls[s.h + 2 := l])
      modifies `pool, `metas, `rn, x
      ensures Valid() && Ready(plan, Here(), k) == true
      ensures old(metas) <= metas
    {
      hide Ready, Framed, Blank, Connect, Shr, Low, Pow2, BitsOf;
      LinkFits(plan, s, k);
      assert lx[h] == lx[..][h] == s.ls[s.h + 1] && u[h - 1] == u[..][h - 1] == s.us[s.h]
          && lx[h + 1] == lx[..][h + 1] == l;
      metas := NextMetas(metas, s.us[..s.h + 1], BitsOf(i, k), l);
      x[h] := i;
      var r := Pointer(bits + lx[h + 1], lx[h], q);
      rn := *;
      pool := Connect(pool, u[h - 1], Shr(Low(i, w), w - lx[h]), r);
      Joined(plan, s, k, l, Here());
    }

    /** Back up over finished tables. */
    method Backup(k: nat, ghost cw: seq<bool>)
      requires Valid() && Backing(plan, Here(), k, cw) == true
      modifies `h, `w
      ensures Valid() && Backing(plan, Here(), k, cw) == true && h >= 0 && Low(i, w) == x[h]
    {
      hide Popping;
      while Low(i, w) != x[h]
        invariant Valid() && Backing(plan, Here(), k, cw) == true
        decreases h
      {
        PopBacking(plan, Here(), k, cw);
        ghost var s := Here();
        h := h - 1;
        w := w - lx[h + 1];
        assert Here() == Pop(s);
      }
    }

    /** Tables up to the level that a code of `k` bits needs. */
    method AddTables(k: nat, a: nat)
      requires Valid() && Ready(plan, Here(), k) == true
      requires k == g ==> Msb(BitsOf(i, k)) + a + 1 == Pow2(k)
      requires Rooted() && (wide && h == -1 ==> WideEnough(k, a))
      modifies this, u, lx, x
      ensures Valid() && Ready(plan, Here(), k) == true && i == old(i) && h >= 0 && k <= w + lx[h + 1] && Rooted()
      ensures g == 1 ==> rn == old(rn)
    {
      hide Ready, SpareUpTo;
      while k > w + lx[h + 1]
        invariant Valid() && Ready(plan, Here(), k) == true && i == old(i)
        invariant g == 1 ==> rn == old(rn)
        invariant Rooted() && (wide && h == -1 ==> WideEnough(k, a))
        decreases k - (w + lx[h + 1])
      {
        AddTable(k, a);
      }
      ReadyBounds(plan, Here(), k);
    }

    /** Entries for one code of `k` bits with the value `e` and what `r.v` holds, and the step to the next code. */
    method FillTable(k: nat, e: int, ghost sym: int)
      requires Valid() && Ready(plan, Here(), k) == true && h >= 0 && k <= w + lx[h + 1]
      requires forall b: nat :: Represents(plan.code, Entry(e, b, rn), sym)
      requires 0 <= sym < |plan.code.L| && plan.code.L[sym] == k && Msb(BitsOf(i, k)) == Code(plan.code.L, sym)
      modifies `pool, `i
      ensures Valid() && Backing(plan, Here(), k, BitsOf(old(i), k)) == true
      ensures i < Pow2(k) && Successor(BitsOf(old(i), k), BitsOf(i, k))
    {
      hide Work, Backing;
      var r := Entry(e, k - w, rn);
      ghost var s := Here();
      ReadyTable(plan, s, k);
      TailIndex(i, k, w);
      var row := FillEntries(pool[q], Shr(i, w), k - w, z, r);
      EntriesOfCode(pool[q], row, i, k, w, r, metas[q]);
      pool := pool[q := row];
      i := BackIncrement(i, k);
      Assigned(plan, s, k, row, r, sym, i);
      assert Here() == Filling(s, row, i);
    }

    /** Tables and entries for one code of `k` bits, whose entry has the value `e`, and `val` unless that
        keeps what was there. */
    method AddCode(k: nat, a: nat, e: int, val: Option<int>, ghost sym: int)
      requires Valid() && Ready(plan, Here(), k) == true
      requires k == g ==> Msb(BitsOf(i, k)) + a + 1 == Pow2(k)
      requires forall b: nat, n: int {:trigger Represents(plan.code, Entry(e, b, n), sym)} ::
        (if val.Some? then n == val.value else plan.code.left.Some? ==> n == plan.code.left.value) ==>
            Represents(plan.code, Entry(e, b, n), sym)
      requires plan.code.left.Some? ==> g == 1 && (val.None? ==> rn == plan.code.left.value)
      requires 0 <= sym < |plan.code.L| && plan.code.L[sym] == k && Msb(BitsOf(i, k)) == Code(plan.code.L, sym)
      requires Rooted() && (wide && h == -1 ==> WideEnough(k, a))
      modifies this, u, lx, x
      ensures Valid() && h >= 0 && Rooted()
      ensures Msb(BitsOf(old(i), k)) + 1 < Pow2(k) ==>
        Ready(plan, Here(), k) == true && Msb(BitsOf(i, k)) == Msb(BitsOf(old(i), k)) + 1
      ensures Msb(BitsOf(old(i), k)) + 1 >= Pow2(k) ==> Complete(plan, Here()) == true
      ensures val.Some? ==> rn == val.value
      ensures val.None? && g == 1 ==> rn == old(rn)
    {
      hide Ready, Complete, Backing, Represents, Pow2, BitsOf, Msb, SpareUpTo;
      ghost var cw := BitsOf(i, k);
      ReadyBounds(plan, Here(), k);
      AddTables(k, a);
      if val.Some? {
        rn := val.value;
      }
      FillTable(k, e, sym);
      Backup(k, cw);
      StretchEnds(cw);
      NextCode(plan, Here(), k, cw);
    }
  }

  lemma NextCode(P: Plan, s: Now, k: nat, cw: seq<bool>)
    requires Backing(P, s, k, cw) && Low(s.i, s.w) == s.xs[s.h]
    ensures Msb(cw) + 1 < Pow2(k) ==> Ready(P, s, k) == true && Msb(BitsOf(s.i, k)) == Msb(cw) + 1
    ensures Msb(cw) + 1 >= Pow2(k) ==> Complete(P, s) == true
    ensures s.h >= 0
  {
    hide Ready, Complete, Sound;
    StretchEnds(cw);
    BackedUp(P, s, k, cw);
    if Msb(cw) + 1 >= Pow2(k) {
      BackingComplete(P, s, k, cw);
    }
  }
}
