/** Multi-level decoding tables: what walking them means, and what keeps a half-built set of them right. */
module HuftTables {
  import opened Wrappers
  import opened Arith
  import opened Bits
  import opened Canonical
  import opened HuftBits

  /** A table entry: `b` bits to drop; `e` tells a symbol with value `n` from a pointer to a further table. */
  datatype Huft = Garbage | Entry(e: int, b: int, n: int) | Pointer(e: int, b: int, t: int)

  /** Looks up `l` bits in table `t`, follows pointers, and returns the entry reached with the number
      of bits dropped on the way. `bits` is what pointer entries add to the width they announce. */
  ghost function Walk(pool: seq<seq<Huft>>, bits: int, t: int, l: int, stream: seq<bool>): Option<(Huft, nat)>
    decreases |stream|
  {
    if !(0 <= t < |pool| && 0 < l <= |stream| && Lsb(stream[..l]) < |pool[t]|) then None
    else
      match pool[t][Lsb(stream[..l])]
      case Garbage => None
      case Entry(e, b, n) => if 0 <= b then Some((Entry(e, b, n), b)) else None
      case Pointer(e, b, u) =>
        if 0 < b <= |stream| then
          match Walk(pool, bits, u, e - bits, stream[b..])
          case None => None
          case Some(r) => Some((r.0, r.1 + b))
        else None
  }

  /** A set of codes made full: symbols from `reals` on are fillers for unassigned patterns. Symbol `s`
      is to be found with the entry values `es[s]` and `ns[s]`, a filler with `e == 99`, and with what
      is left in the entry from before if that is known. */
  datatype CodeSet = CodeSet(L: seq<int>, reals: nat, es: seq<int>, ns: seq<int>, left: Option<int>)

  ghost predicate Represents(code: CodeSet, entry: Huft, s: int) {
    && entry.Entry? && 0 <= s
    && if s < code.reals then s < |code.es| && s < |code.ns| && entry.e == code.es[s] && entry.n == code.ns[s]
       else entry.e == 99 && (code.left.Some? ==> entry.n == code.left.value)
  }

  /** What a table is for: streams that start with `pre`, of which it looks at the next `l` bits. */
  datatype Meta = Meta(pre: seq<bool>, l: nat)

  ghost function Pattern(m: Meta, j: nat): (p: seq<bool>)
    ensures |p| == |m.pre| + m.l
  {
    m.pre + BitsOf(j, m.l)
  }

  ghost predicate Shaped(pool: seq<seq<Huft>>, metas: seq<Meta>) {
    && |pool| == |metas|
    && forall t {:trigger metas[t]} :: 0 <= t < |metas| ==>
         0 < metas[t].l && |metas[t].pre| + metas[t].l <= BMAX && |pool[t]| == Pow2(metas[t].l)
  }

  ghost predicate EntryRight(code: CodeSet, metas: seq<Meta>, bits: int, m: Meta, j: nat, entry: Huft) {
    match entry
    case Garbage => true
    case Entry(e, b, n) =>
      && 0 < b <= m.l
      && exists s :: LeadsTo(code, m, j, b, s) && Represents(code, entry, s)
    case Pointer(e, b, t) =>
      && 0 <= t < |metas| && b == m.l
      && e == bits + metas[t].l && metas[t].pre == Pattern(m, j)
  }

  ghost predicate LeadsTo(code: CodeSet, m: Meta, j: nat, b: nat, s: int) {
    && b <= m.l && 0 <= s < |code.L| && code.L[s] == |m.pre| + b > 0
    && Msb(Pattern(m, j)[..|m.pre| + b]) == Code(code.L, s)
  }

  /** Every entry that has been set is right. */
  ghost predicate Right(code: CodeSet, pool: seq<seq<Huft>>, metas: seq<Meta>, bits: int) {
    && Shaped(pool, metas)
    && forall t, j {:trigger pool[t][j]} :: 0 <= t < |pool| && 0 <= j < |pool[t]| ==>
         EntryRight(code, metas, bits, metas[t], j, pool[t][j])
  }

  /** Every entry whose stretch of code space begins before `end` has been set. */
  ghost predicate Filled(pool: seq<seq<Huft>>, metas: seq<Meta>, end: int)
    requires Shaped(pool, metas)
  {
    forall t, j {:trigger pool[t][j]} :: 0 <= t < |pool| && 0 <= j < |pool[t]| && Pos(Pattern(metas[t], j)) < end ==>
        pool[t][j] != Garbage
  }

  lemma EntryFinds(code: CodeSet, m: Meta, j: nat, entry: Huft, stream: seq<bool>, s: int)
    requires entry.Entry? && 0 < entry.b <= m.l
    requires exists s' :: LeadsTo(code, m, j, entry.b, s') && Represents(code, entry, s')
    requires Pattern(m, j) <= stream && StartsWith(code.L, stream, s)
    ensures code.L[s] == |m.pre| + entry.b && Represents(code, entry, s)
  {
    var b := entry.b;
    var s' :| LeadsTo(code, m, j, b, s') && Represents(code, entry, s');
    assert Pattern(m, j)[..|m.pre| + b] == stream[..|m.pre| + b];
    PrefixFree(code.L, stream, s', s);
  }

  lemma WalkEntry(pool: seq<seq<Huft>>, bits: int, t: nat, l: nat, rest: seq<bool>, j: nat)
    requires t < |pool| && 0 < l <= |rest| && j == Lsb(rest[..l]) < |pool[t]|
    requires pool[t][j].Entry? && pool[t][j].b >= 0
    ensures Walk(pool, bits, t, l, rest) == Some((pool[t][j], pool[t][j].b))
  {
  }

  lemma WalkPointer(pool: seq<seq<Huft>>, bits: int, t: nat, l: nat, rest: seq<bool>, j: nat, u: int, l': int,
                    found: (Huft, nat))
    requires t < |pool| && 0 < l <= |rest| && j == Lsb(rest[..l]) < |pool[t]|
    requires pool[t][j] == Pointer(bits + l', l, u)
    requires Walk(pool, bits, u, l', rest[l..]) == Some(found)
    ensures Walk(pool, bits, t, l, rest) == Some((found.0, found.1 + l))
  {
  }

  /** The walk ended at the entry of symbol `s` after `len` bits. */
  ghost predicate Finds(code: CodeSet, r: Option<(Huft, nat)>, len: int, s: int) {
    r.Some? && r.value.1 == len && Represents(code, r.value.0, s)
  }

  /** Finished tables find every symbol, whatever follows its code in the stream. */
  lemma {:induction false} WalkFinds(code: CodeSet, pool: seq<seq<Huft>>, metas: seq<Meta>, bits: int, g: nat,
                                     t: nat, stream: seq<bool>, s: int)
    requires Right(code, pool, metas, bits) && Filled(pool, metas, Pow2(BMAX))
    requires forall u {:trigger metas[u]} :: 0 <= u < |metas| ==> |metas[u].pre| + metas[u].l <= g
    requires t < |pool| && metas[t].pre <= stream && g <= |stream|
    requires StartsWith(code.L, stream, s)
    ensures code.L[s] > |metas[t].pre|
    ensures Finds(code, Walk(pool, bits, t, metas[t].l, stream[|metas[t].pre|..]), code.L[s] - |metas[t].pre|, s)
    decreases BMAX - |metas[t].pre|
  {
    hide Pow2, Represents, LeadsTo, Lsb, Msb, Pos, Walk, BitsOf;
    var m, w := metas[t], |metas[t].pre|;
    var rest := stream[w..];
    var j := IndexFinds(m, stream);
    var entry := pool[t][j];
    assert EntryRight(code, metas, bits, m, j, entry);
    if entry.Entry? {
      EntryFinds(code, m, j, entry, stream, s);
      WalkEntry(pool, bits, t, m.l, rest, j);
    } else {
      assert entry.Pointer?;
      var u := entry.t;
      assert metas[u].pre == Pattern(m, j);
      WalkFinds(code, pool, metas, bits, g, u, stream, s);
      assert rest[m.l..] == stream[w + m.l..];
      var r := Walk(pool, bits, u, metas[u].l, rest[m.l..]);
      WalkPointer(pool, bits, t, m.l, rest, j, u, metas[u].l, r.value);
    }
  }

  /** The bits after a table's own code word, as many as it looks at, are an index into it. */
  lemma IndexOfNext(m: Meta, stream: seq<bool>) returns (j: nat)
    requires 0 < m.l && |m.pre| + m.l <= |stream|
    ensures j == Lsb(stream[|m.pre|..][..m.l]) < Pow2(m.l) && BitsOf(j, m.l) == stream[|m.pre|..][..m.l]
  {
    hide Pow2, Lsb;
    j := Lsb(stream[|m.pre|..][..m.l]);
    BitsOfLsb(stream[|m.pre|..][..m.l]);
  }

  /** The entry looked at is the one whose pattern the stream starts with. */
  lemma IndexFinds(m: Meta, stream: seq<bool>) returns (j: nat)
    requires 0 < m.l && |m.pre| + m.l <= BMAX && m.pre <= stream && |m.pre| + m.l <= |stream|
    ensures j == Lsb(stream[|m.pre|..][..m.l]) < Pow2(m.l)
    ensures Pattern(m, j) <= stream && Pos(Pattern(m, j)) < Pow2(BMAX)
  {
    hide Pow2, Msb, Lsb, Pos;
    j := IndexOfNext(m, stream);
    var w := |m.pre|;
    assert stream[..w + m.l] == stream[..w] + stream[w..][..m.l];
    PosBelowTop(Pattern(m, j));
    Pow2Positive(BMAX - |m.pre| - m.l);
  }

  lemma Pow2Positive(n: nat)
    ensures Pow2(n) > 0
  {
  }

  // ---- Setting entries ----

  /** Entries of table `t` whose pattern starts with the code word `cw` become `r`; the rest stays. */
  ghost predicate Replicated(before: seq<Huft>, after: seq<Huft>, m: Meta, cw: seq<bool>, r: Huft) {
    && |after| == |before|
    && forall j {:trigger after[j]} :: 0 <= j < |before| ==> after[j] == if cw <= Pattern(m, j) then r else before[j]
  }

  lemma FillKeepsRight(code: CodeSet, pool: seq<seq<Huft>>, metas: seq<Meta>, bits: int, t: nat, row: seq<Huft>,
                       cw: seq<bool>, r: Huft, s: int)
    requires Right(code, pool, metas, bits) && t < |pool| && Replicated(pool[t], row, metas[t], cw, r)
    requires r.Entry? && r.b == |cw| - |metas[t].pre| && 0 < r.b <= metas[t].l
    requires Represents(code, r, s) && 0 <= s < |code.L| && code.L[s] == |cw| && Msb(cw) == Code(code.L, s)
    ensures Right(code, pool[t := row], metas, bits)
  {
    var pool' := pool[t := row];
    forall q, j {:trigger pool'[q][j]} | 0 <= q < |pool'| && 0 <= j < |pool'[q]|
      ensures EntryRight(code, metas, bits, metas[q], j, pool'[q][j])
    {
      assert EntryRight(code, metas, bits, metas[q], j, pool[q][j]);
      if q == t && cw <= Pattern(metas[t], j) {
        assert row[j] == r;
        assert Pattern(metas[t], j)[..|metas[t].pre| + r.b] == cw;
        assert LeadsTo(code, metas[t], j, r.b, s);
      }
    }
  }

  // ---- The stack of tables under construction ----

  /** The tables on the way to the code word `cw`: each continues where the one before it stops,
      and is already pointed to. */
  ghost predicate Stacked(pool: seq<seq<Huft>>, metas: seq<Meta>, stack: seq<nat>, cw: seq<bool>)
    requires Shaped(pool, metas)
  {
    && |stack| > 0
    && (forall q {:trigger stack[q]} :: 0 <= q < |stack| ==> stack[q] < |metas| && metas[stack[q]].pre <= cw)
    && metas[stack[0]].pre == []
    && (forall q, r {:trigger stack[q], stack[r]} :: 0 <= q < r < |stack| ==>
          |metas[stack[q]].pre| + metas[stack[q]].l <= |metas[stack[r]].pre|)
    && (forall q, r {:trigger stack[q], stack[r]} :: 0 <= q < r < |stack| && r == q + 1 ==>
          Linked(pool[stack[q]], metas[stack[q]], metas[stack[r]]))
  }

  ghost predicate Linked(row: seq<Huft>, m: Meta, next: Meta) {
    && |next.pre| == |m.pre| + m.l
    && Lsb(next.pre[|m.pre|..]) < |row| && row[Lsb(next.pre[|m.pre|..])] != Garbage
  }

  /** All other tables cover only code space already assigned. */
  ghost predicate OthersDone(metas: seq<Meta>, stack: seq<nat>, end: int) {
    forall t {:trigger metas[t]} :: 0 <= t < |metas| && t !in stack && |metas[t].pre| <= BMAX ==>
      Pos(metas[t].pre) + Span(|metas[t].pre|) <= end
  }

  ghost function Top(stack: seq<nat>): nat
    requires |stack| > 0
  {
    stack[|stack| - 1]
  }

  lemma OtherTablesClear(pool: seq<seq<Huft>>, metas: seq<Meta>, stack: seq<nat>, end: int, t: nat, j: nat)
    requires Shaped(pool, metas) && OthersDone(metas, stack, end) && t < |pool| && t !in stack
    ensures Pos(Pattern(metas[t], j)) < end
  {
    PosPrefix(metas[t].pre, Pattern(metas[t], j));
    Pow2Positive(BMAX - |metas[t].pre| - metas[t].l);
  }

  /** A pattern of a lower stack table that begins within the new code's stretch is the link upwards. */
  lemma LinkAlreadySet(pool: seq<seq<Huft>>, metas: seq<Meta>, stack: seq<nat>, cw: seq<bool>, q: nat, j: nat)
    requires Shaped(pool, metas) && Stacked(pool, metas, stack, cw)
    requires q < |stack| - 1 && j < |pool[stack[q]]|
    requires |metas[Top(stack)].pre| < |cw| <= BMAX
    requires Pos(cw) <= Pos(Pattern(metas[stack[q]], j)) < Pos(cw) + Span(|cw|)
    ensures pool[stack[q]][j] != Garbage
  {
    var m, next := metas[stack[q]], metas[stack[q + 1]];
    assert Linked(pool[stack[q]], m, next);
    if q + 1 < |stack| - 1 {
      assert |next.pre| <= |metas[Top(stack)].pre|;
    }
    var p := Pattern(m, j);
    PosAround(cw, p);
    assert p == cw[..|p|] == next.pre;
    assert next.pre[|m.pre|..] == BitsOf(j, m.l);
    LsbOfBits(j, m.l);
  }

  lemma FillKeepsFilled(pool: seq<seq<Huft>>, metas: seq<Meta>, stack: seq<nat>, row: seq<Huft>, cw: seq<bool>, r: Huft)
    requires Shaped(pool, metas) && Stacked(pool, metas, stack, cw)
    requires |metas[Top(stack)].pre| < |cw| <= |metas[Top(stack)].pre| + metas[Top(stack)].l
    requires Filled(pool, metas, Pos(cw)) && OthersDone(metas, stack, Pos(cw))
    requires Replicated(pool[Top(stack)], row, metas[Top(stack)], cw, r) && r.Entry?
    ensures Shaped(pool[Top(stack) := row], metas) && Filled(pool[Top(stack) := row], metas, Pos(cw) + Span(|cw|))
  {
    var top, pool' := Top(stack), pool[Top(stack) := row];
    forall t, j {:trigger pool'[t][j]} | 0 <= t < |pool'| && 0 <= j < |pool'[t]|
        && Pos(Pattern(metas[t], j)) < Pos(cw) + Span(|cw|)
      ensures pool'[t][j] != Garbage
    {
      var p := Pattern(metas[t], j);
      if t == top {
        assert row[j] == if cw <= p then r else pool[t][j];
        if Pos(p) >= Pos(cw) {
          PosInside(cw, p);
        }
      } else if Pos(p) < Pos(cw) {
        assert pool[t][j] != Garbage;
      } else if t in stack {
        var q :| 0 <= q < |stack| && stack[q] == t;
        LinkAlreadySet(pool, metas, stack, cw, q, j);
      } else {
        OtherTablesClear(pool, metas, stack, Pos(cw), t, j);
      }
    }
  }

  lemma FillKeepsStack(pool: seq<seq<Huft>>, metas: seq<Meta>, stack: seq<nat>, row: seq<Huft>, cw: seq<bool>)
    requires Shaped(pool, metas) && Stacked(pool, metas, stack, cw) && |row| == |pool[Top(stack)]|
    ensures Shaped(pool[Top(stack) := row], metas) && Stacked(pool[Top(stack) := row], metas, stack, cw)
  {
    var pool' := pool[Top(stack) := row];
    forall q, r {:trigger stack[q], stack[r]} | 0 <= q < r < |stack| && r == q + 1
      ensures Linked(pool'[stack[q]], metas[stack[q]], metas[stack[r]])
    {
      assert stack[q] != Top(stack) by {
        assert |metas[stack[q]].pre| + metas[stack[q]].l <= |metas[stack[r]].pre|;
        assert r < |stack| - 1 ==> |metas[stack[r]].pre| <= |metas[Top(stack)].pre|;
      }
    }
  }

  // ---- A new table ----

  /** Beyond its first `d` bits the word is all zeros. */
  ghost predicate ZeroFrom(cw: seq<bool>, d: nat) {
    |cw| <= d || cw[d..] == Falses(|cw| - d)
  }

  function Blank(n: nat): (r: seq<Huft>)
    ensures |r| == n && forall i :: 0 <= i < n ==> r[i] == Garbage
  {
    seq(n, _ => Garbage)
  }

  lemma ZeroTailBegins(cw: seq<bool>, d: nat)
    requires d <= |cw| <= BMAX && ZeroFrom(cw, d)
    ensures Pos(cw[..d]) == Pos(cw)
  {
    PosPadded(cw[..d], |cw| - d);
    assert cw == cw[..d] + Falses(|cw| - d);
  }

  /** The next code word needs a table under the top one, `l` bits wide. */
  ghost predicate NeedsTable(pool: seq<seq<Huft>>, metas: seq<Meta>, stack: seq<nat>, cw: seq<bool>, l: nat)
    requires Shaped(pool, metas) && Stacked(pool, metas, stack, cw)
  {
    var d := Depth(metas, stack);
    d < |cw| <= BMAX && 0 < l && d + l <= BMAX
  }

  /** How many bits the tables up to the top one look at. */
  ghost function Depth(metas: seq<Meta>, stack: seq<nat>): nat
    requires |stack| > 0 && Top(stack) < |metas|
  {
    |metas[Top(stack)].pre| + metas[Top(stack)].l
  }

  ghost function NextMetas(metas: seq<Meta>, stack: seq<nat>, cw: seq<bool>, l: nat): seq<Meta>
    requires |stack| > 0 && Top(stack) < |metas| && Depth(metas, stack) <= |cw|
  {
    metas + [Meta(cw[..Depth(metas, stack)], l)]
  }

  /** The new, blank table joins the pool, and entry `j` of the top table points to it. */
  ghost function NextPool(pool: seq<seq<Huft>>, stack: seq<nat>, j: nat, pointer: Huft, l: nat): seq<seq<Huft>>
    requires |stack| > 0 && Top(stack) < |pool| && j < |pool[Top(stack)]|
  {
    pool[Top(stack) := pool[Top(stack)][j := pointer]] + [Blank(Pow2(l))]
  }

  lemma LinkEntry(pool: seq<seq<Huft>>, metas: seq<Meta>, stack: seq<nat>, cw: seq<bool>, l: nat) returns (j: nat)
    requires Shaped(pool, metas) && Stacked(pool, metas, stack, cw) && NeedsTable(pool, metas, stack, cw, l)
    ensures j == Lsb(cw[|metas[Top(stack)].pre|..Depth(metas, stack)]) < |pool[Top(stack)]|
    ensures Pattern(metas[Top(stack)], j) == cw[..Depth(metas, stack)]
  {
    var m, d := metas[Top(stack)], Depth(metas, stack);
    j := Lsb(cw[|m.pre|..d]);
    BitsOfLsb(cw[|m.pre|..d]);
    assert m.pre + cw[|m.pre|..d] == cw[..d];
  }

  lemma NewTableRight(code: CodeSet, pool: seq<seq<Huft>>, metas: seq<Meta>, bits: int, stack: seq<nat>, cw: seq<bool>,
                      l: nat, j: nat)
    requires Right(code, pool, metas, bits) && Stacked(pool, metas, stack, cw) && NeedsTable(pool, metas, stack, cw, l)
    requires j < |pool[Top(stack)]| && Pattern(metas[Top(stack)], j) == cw[..Depth(metas, stack)]
    ensures Right(code, NextPool(pool, stack, j, Pointer(bits + l, metas[Top(stack)].l, |pool|), l),
                  NextMetas(metas, stack, cw, l), bits)
  {
    var top := Top(stack);
    var metas' := NextMetas(metas, stack, cw, l);
    var pool' := NextPool(pool, stack, j, Pointer(bits + l, metas[top].l, |pool|), l);
    forall t, i {:trigger pool'[t][i]} | 0 <= t < |pool'| && 0 <= i < |pool'[t]|
      ensures EntryRight(code, metas', bits, metas'[t], i, pool'[t][i])
    {
      if t < |pool| && !(t == top && i == j) {
        assert EntryRight(code, metas, bits, metas[t], i, pool[t][i]);
      }
    }
  }

  lemma NewTableFilled(pool: seq<seq<Huft>>, metas: seq<Meta>, stack: seq<nat>, cw: seq<bool>, l: nat, j: nat,
                       pointer: Huft)
    requires Shaped(pool, metas) && Stacked(pool, metas, stack, cw) && NeedsTable(pool, metas, stack, cw, l)
    requires j < |pool[Top(stack)]| && pointer != Garbage && ZeroFrom(cw, Depth(metas, stack))
    requires Filled(pool, metas, Pos(cw))
    ensures Shaped(NextPool(pool, stack, j, pointer, l), NextMetas(metas, stack, cw, l))
    ensures Filled(NextPool(pool, stack, j, pointer, l), NextMetas(metas, stack, cw, l), Pos(cw))
  {
    var top, d := Top(stack), Depth(metas, stack);
    var pool', metas' := NextPool(pool, stack, j, pointer, l), NextMetas(metas, stack, cw, l);
    forall t, i {:trigger pool'[t][i]} | 0 <= t < |pool'| && 0 <= i < |pool'[t]| && Pos(Pattern(metas'[t], i)) < Pos(cw)
      ensures pool'[t][i] != Garbage
    {
      if t < |pool| {
        if !(t == top && i == j) {
          assert pool[t][i] != Garbage;
        }
      } else {
        ZeroTailBegins(cw, d);
        PosPrefix(cw[..d], Pattern(metas'[t], i));
      }
    }
  }

  lemma NewTableOthers(pool: seq<seq<Huft>>, metas: seq<Meta>, stack: seq<nat>, cw: seq<bool>, l: nat, end: int)
    requires Shaped(pool, metas) && Stacked(pool, metas, stack, cw) && NeedsTable(pool, metas, stack, cw, l)
    requires OthersDone(metas, stack, end)
    ensures OthersDone(NextMetas(metas, stack, cw, l), stack + [|pool|], end)
  {
    var metas' := NextMetas(metas, stack, cw, l);
    forall t {:trigger metas'[t]} | 0 <= t < |metas'| && t !in stack + [|pool|] && |metas'[t].pre| <= BMAX
      ensures Pos(metas'[t].pre) + Span(|metas'[t].pre|) <= end
    {
      assert metas'[t] == metas[t];
    }
  }

  lemma NewTableStacked(pool: seq<seq<Huft>>, metas: seq<Meta>, stack: seq<nat>, cw: seq<bool>, l: nat, j: nat,
                        pointer: Huft)
    requires Shaped(pool, metas) && Stacked(pool, metas, stack, cw) && NeedsTable(pool, metas, stack, cw, l)
    requires j == Lsb(cw[|metas[Top(stack)].pre|..Depth(metas, stack)]) < |pool[Top(stack)]| && pointer != Garbage
    ensures Shaped(NextPool(pool, stack, j, pointer, l), NextMetas(metas, stack, cw, l))
    ensures Stacked(NextPool(pool, stack, j, pointer, l), NextMetas(metas, stack, cw, l), stack + [|pool|], cw)
  {
    hide Pow2, Msb, BitsOf;
    var d := Depth(metas, stack);
    var pool', metas', stack' := NextPool(pool, stack, j, pointer, l), NextMetas(metas, stack, cw, l), stack + [|pool|];
    assert cw[..d][|metas[Top(stack)].pre|..] == cw[|metas[Top(stack)].pre|..d];
    forall q | 0 <= q < |stack| ensures stack'[q] == stack[q] && metas'[stack[q]] == metas[stack[q]] {
    }
    forall q, r {:trigger stack'[q], stack'[r]} | 0 <= q < r < |stack'|
      ensures |metas'[stack'[q]].pre| + metas'[stack'[q]].l <= |metas'[stack'[r]].pre|
    {
      if r == |stack| && q < |stack| - 1 {
        assert |metas[stack[q]].pre| + metas[stack[q]].l <= |metas[Top(stack)].pre|;
      }
    }
    forall q, r {:trigger stack'[q], stack'[r]} | 0 <= q < r < |stack'| && r == q + 1
      ensures Linked(pool'[stack'[q]], metas'[stack'[q]], metas'[stack'[r]])
    {
      if r < |stack| {
        assert Linked(pool[stack[q]], metas[stack[q]], metas[stack[r]]);
      }
    }
  }

  // ---- Leaving tables behind ----

  lemma PopStacked(pool: seq<seq<Huft>>, metas: seq<Meta>, stack: seq<nat>, cw: seq<bool>)
    requires Shaped(pool, metas) && Stacked(pool, metas, stack, cw) && |stack| > 1
    ensures Stacked(pool, metas, stack[..|stack| - 1], cw)
    ensures
      var m, next := metas[Top(stack[..|stack| - 1])], metas[Top(stack)];
      |next.pre| == |m.pre| + m.l && next.pre <= cw
  {
    assert Linked(pool[stack[|stack| - 2]], metas[stack[|stack| - 2]], metas[stack[|stack| - 1]]);
  }

  /** A pattern that starts a code word but not its successor lies wholly behind. */
  lemma LeftBehind(p: seq<bool>, cw: seq<bool>, cw': seq<bool>)
    requires p <= cw && !(p <= cw') && |cw| == |cw'| <= BMAX && Successor(cw, cw')
    ensures Pos(p) + Span(|p|) <= Pos(cw) + Span(|cw|)
    ensures ZeroFrom(cw', |p|)
  {
    PosPrefix(p, cw);
    PosBelowTop(p);
    SuccessorPos(cw, cw');
    if Pos(p) + Span(|p|) > Pos(cw) + Span(|cw|) {
      PosInside(p, cw');
    }
    assert cw'[..|p|] != cw[..|p|];
  }

  /** Only as much of the stack is kept as leads to the next code word; the tables left are done. */
  lemma PopKeeps(pool: seq<seq<Huft>>, metas: seq<Meta>, stack: seq<nat>, cw: seq<bool>, cw': seq<bool>)
    requires Shaped(pool, metas) && Stacked(pool, metas, stack, cw) && |stack| > 1
    requires |cw| == |cw'| <= BMAX && Successor(cw, cw') && !(metas[Top(stack)].pre <= cw')
    requires OthersDone(metas, stack, Pos(cw) + Span(|cw|))
    ensures Stacked(pool, metas, stack[..|stack| - 1], cw) == true
    ensures OthersDone(metas, stack[..|stack| - 1], Pos(cw) + Span(|cw|))
    ensures
      var m := metas[Top(stack[..|stack| - 1])];
      ZeroFrom(cw', |m.pre| + m.l)
  {
    var rest := stack[..|stack| - 1];
    PopStacked(pool, metas, stack, cw);
    LeftBehind(metas[Top(stack)].pre, cw, cw');
    forall t {:trigger metas[t]} | 0 <= t < |metas| && t !in rest && |metas[t].pre| <= BMAX
      ensures Pos(metas[t].pre) + Span(|metas[t].pre|) <= Pos(cw) + Span(|cw|)
    {
      assert stack == rest + [Top(stack)];
    }
  }

  lemma LastPos(cw: seq<bool>)
    requires |cw| <= BMAX && Msb(cw) + 1 == Pow2(|cw|)
    ensures Pos(cw) + Span(|cw|) == Pow2(BMAX)
  {
    hide Pow2, Msb;
    MulAdd(Msb(cw), 1, Span(|cw|));
    SameProduct(Msb(cw) + 1, Pow2(|cw|), Span(|cw|));
    Pow2Adds(|cw|, BMAX - |cw|);
  }

  lemma NextPos(cw: seq<bool>, cw': seq<bool>)
    requires |cw| == |cw'| <= BMAX && Msb(cw') == Msb(cw) + 1
    ensures Pos(cw') == Pos(cw) + Span(|cw|)
  {
    MulAdd(Msb(cw), 1, Span(|cw|));
    SameProduct(Msb(cw) + 1, Msb(cw'), Span(|cw|));
  }

  lemma SuccessorPos(cw: seq<bool>, cw': seq<bool>)
    requires |cw| == |cw'| <= BMAX && Successor(cw, cw')
    ensures Pos(cw) + Span(|cw|) <= Pow2(BMAX)
    ensures Pos(cw) + Span(|cw|) < Pow2(BMAX) ==> Pos(cw') == Pos(cw) + Span(|cw|)
  {
    PosBelowTop(cw);
    if Msb(cw) + 1 == Pow2(|cw|) {
      LastPos(cw);
    } else {
      NextPos(cw, cw');
    }
  }
}
