/** The builder's stack of tables as its local variables hold it. */
module HuftStack {
  import opened Arith
  import opened Bits
  import opened Canonical
  import opened HuftBits
  import opened HuftTables
  import opened HuftWork

  /** What does not change while tables are built. */
  datatype Plan = Plan(code: CodeSet, bits: nat, g: nat, el: nat)

  /** The variables of the builder: `us`, `ls` and `xs` are its stacks of tables, widths and patterns,
      `h` the level reached, `w` the bits decoded before that level, `q` and `z` the table at hand and
      its size, `i` the code; a level's width is found one place further up in `ls`. */
  datatype Now = Now(pool: seq<seq<Huft>>, metas: seq<Meta>, us: seq<nat>, ls: seq<nat>, xs: seq<nat>,
                     h: int, w: nat, q: nat, z: nat, i: nat)

  ghost predicate FrameOf(metas: seq<Meta>, t: nat, l: nat, x: nat) {
    t < |metas| && l == metas[t].l && x < Pow2(|metas[t].pre|) && BitsOf(x, |metas[t].pre|) == metas[t].pre
  }

  ghost predicate Framed(s: Now) {
    && |s.us| == BMAX && |s.ls| == |s.xs| == BMAX + 1 && 0 <= s.h < BMAX && s.us[0] == 0
    && (forall q {:trigger s.us[q]} :: 0 <= q <= s.h ==> FrameOf(s.metas, s.us[q], s.ls[q + 1], s.xs[q]))
    && s.w == |s.metas[s.us[s.h]].pre|
  }

  /** `q` and `z` are stale after backing up, but then the next code needs a new table. */
  ghost predicate Current(s: Now, k: nat)
    requires |s.us| == BMAX && |s.ls| == BMAX + 1 && 0 <= s.h < BMAX
  {
    k <= s.w + s.ls[s.h + 1] ==> s.q == s.us[s.h] && s.z == Pow2(s.ls[s.h + 1])
  }

  /** Ready to make the entries of the `k`-bit code `i`. */
  ghost predicate Ready(P: Plan, s: Now, k: nat) {
    && 1 <= k <= P.g <= BMAX && s.i < Pow2(k) && s.w < k
    && |s.us| == BMAX && |s.ls| == |s.xs| == BMAX + 1
    && if s.h == -1 then s.pool == [] && s.metas == [] && s.i == 0 && s.w == 0 && s.ls[0] == 0 && s.xs[0] == 0
       else
         && Framed(s) && Current(s, k)
         && Work(P.code, P.bits, P.g, P.el, s.pool, s.metas, s.us[..s.h + 1], BitsOf(s.i, k))
  }

  lemma FramedTop(s: Now)
    requires Framed(s)
    ensures Top(s.us[..s.h + 1]) == s.us[s.h] < |s.metas|
    ensures Depth(s.metas, s.us[..s.h + 1]) == s.w + s.ls[s.h + 1]
    ensures FrameOf(s.metas, s.us[s.h], s.ls[s.h + 1], s.xs[s.h])
  {
  }

  // ---- A table joins ----

  ghost function PushFirst(s: Now, l: nat): Now
    requires |s.us| == BMAX && |s.ls| == BMAX + 1
  {
    Now([Blank(Pow2(l))], [Meta([], l)], s.us[0 := 0], s.ls[1 := l], s.xs, 0, 0, 0, Pow2(l), s.i)
  }

  lemma PushFirstReady(P: Plan, s: Now, k: nat, l: nat)
    requires Ready(P, s, k) && s.h == -1
    requires 0 < l <= P.g && (P.el > 0 ==> l <= P.el)
    ensures Ready(P, PushFirst(s, l), k) == true
  {
    var s' := PushFirst(s, l);
    BitsOfZero(k);
    assert s'.us[..1] == [0];
    FirstTable(P.code, P.bits, P.g, P.el, s'.pool, s'.metas, s'.us[..1], l, BitsOf(s.i, k));
  }

  /** Levels above are at least one bit deeper. */
  lemma {:induction false} StackHeight(pool: seq<seq<Huft>>, metas: seq<Meta>, stack: seq<nat>, cw: seq<bool>, q: nat)
    requires Shaped(pool, metas) && Stacked(pool, metas, stack, cw) && q < |stack|
    ensures q <= |metas[stack[q]].pre|
  {
    if q > 0 {
      StackHeight(pool, metas, stack, cw, q - 1);
      assert |metas[stack[q - 1]].pre| + metas[stack[q - 1]].l <= |metas[stack[q]].pre|;
    }
  }

  lemma WorkHeight(P: Plan, s: Now, k: nat)
    requires Ready(P, s, k) && s.h >= 0
    ensures s.h <= s.w
  {
    hide OthersDone, Filled, Limits, ZeroFrom, EntryRight, Pow2;
    FramedTop(s);
    StackHeight(s.pool, s.metas, s.us[..s.h + 1], BitsOf(s.i, k), s.h);
  }

  ghost function LinkIndex(s: Now): nat
    requires Framed(s)
  {
    var d := s.w + s.ls[s.h + 1];
    Shr(Low(s.i, d), d - s.ls[s.h + 1])
  }

  lemma LinkIndexFits(P: Plan, s: Now, k: nat)
    requires Ready(P, s, k) && s.h >= 0 && k > s.w + s.ls[s.h + 1]
    ensures s.h + 1 < BMAX && s.us[s.h] < |s.pool| == |s.metas|
    ensures LinkIndex(s) == Lsb(BitsOf(s.i, k)[s.w..s.w + s.ls[s.h + 1]]) < |s.pool[s.us[s.h]]|
  {
    hide Work, Pow2;
    FramedTop(s);
    WorkHeight(P, s, k);
    TopFacts(P.code, P.bits, P.g, P.el, s.pool, s.metas, s.us[..s.h + 1], BitsOf(s.i, k));
    var l := s.ls[s.h + 1];
    MiddleIndex(s.i, k, s.w + l, l);
    assert s.w + l - l == s.w;
    assert |s.pool[s.us[s.h]]| == Pow2(l);
  }

  ghost function Push(P: Plan, s: Now, k: nat, l: nat): Now
    requires Ready(P, s, k) && s.h >= 0 && k > s.w + s.ls[s.h + 1]
  {
    LinkIndexFits(P, s, k);
    FramedTop(s);
    var h, stack := s.h + 1, s.us[..s.h + 1];
    Now(NextPool(s.pool, stack, LinkIndex(s), Pointer(P.bits + l, s.ls[h], |s.pool|), l),
        NextMetas(s.metas, stack, BitsOf(s.i, k), l),
        s.us[h := |s.pool|], s.ls[h + 1 := l], s.xs[h := s.i], h, s.w + s.ls[h], |s.pool|, Pow2(l), s.i)
  }

  lemma SavedPattern(i: nat, k: nat, d: nat)
    requires d <= k && i < Pow2(k) && ZeroFrom(BitsOf(i, k), d)
    ensures i < Pow2(d) && BitsOf(i, d) == BitsOf(i, k)[..d]
  {
    ZeroTailIndex(i, k, d);
    HeadIndex(i, k, d);
  }

  lemma ReadyZero(P: Plan, s: Now, k: nat)
    requires Ready(P, s, k) && s.h >= 0
    ensures ZeroFrom(BitsOf(s.i, k), s.w + s.ls[s.h + 1])
  {
    hide Sound;
    FramedTop(s);
  }

  lemma PushFramed(P: Plan, s: Now, k: nat, l: nat)
    requires Ready(P, s, k) && s.h >= 0 && k > s.w + s.ls[s.h + 1]
    ensures Framed(Push(P, s, k, l))
  {
    hide Work;
    LinkIndexFits(P, s, k);
    FramedTop(s);
    ReadyZero(P, s, k);
    var s' := Push(P, s, k, l);
    SavedPattern(s.i, k, s'.w);
    forall q {:trigger s'.us[q]} | 0 <= q <= s'.h ensures FrameOf(s'.metas, s'.us[q], s'.ls[q + 1], s'.xs[q]) {
      if q <= s.h {
        assert FrameOf(s.metas, s.us[q], s.ls[q + 1], s.xs[q]);
      }
    }
  }

  lemma PushWork(P: Plan, s: Now, k: nat, l: nat)
    requires Ready(P, s, k) && s.h >= 0 && k > s.w + s.ls[s.h + 1]
    requires 0 < l && s.w + s.ls[s.h + 1] + l <= P.g && (s.w + s.ls[s.h + 1] < P.el ==> s.w + s.ls[s.h + 1] + l <= P.el)
    ensures
      var s' := Push(P, s, k, l);
      s'.h < BMAX && Work(P.code, P.bits, P.g, P.el, s'.pool, s'.metas, s'.us[..s'.h + 1], BitsOf(s.i, k)) == true
  {
    hide Work, Pos;
    LinkIndexFits(P, s, k);
    FramedTop(s);
    var s' := Push(P, s, k, l);
    var stack := s.us[..s.h + 1];
    assert s'.us[..s'.h + 1] == stack + [|s.pool|];
    assert s'.pool == NextPool(s.pool, stack, LinkIndex(s), Pointer(P.bits + l, s.metas[Top(stack)].l, |s.pool|), l);
    NextTable(P.code, P.bits, P.g, P.el, s.pool, s.metas, stack, BitsOf(s.i, k), l, LinkIndex(s));
  }

  lemma PushReady(P: Plan, s: Now, k: nat, l: nat)
    requires Ready(P, s, k) && s.h >= 0 && k > s.w + s.ls[s.h + 1]
    requires 0 < l && s.w + s.ls[s.h + 1] + l <= P.g && (s.w + s.ls[s.h + 1] < P.el ==> s.w + s.ls[s.h + 1] + l <= P.el)
    ensures Ready(P, Push(P, s, k, l), k) == true
  {
    hide Work;
    PushFramed(P, s, k, l);
    PushWork(P, s, k, l);
    assert Current(Push(P, s, k, l), k);
  }

  // ---- Tables are left ----

  ghost predicate Backing(P: Plan, s: Now, k: nat, cw: seq<bool>) {
    && 1 <= k <= P.g <= BMAX && |cw| == k && s.i < Pow2(k) && s.w < k
    && Framed(s) && Current(s, k)
    && Popping(P.code, P.bits, P.g, P.el, s.pool, s.metas, s.us[..s.h + 1], cw, BitsOf(s.i, k))
  }

  ghost function Pop(s: Now): Now
    requires Framed(s) && s.h > 0 && s.w >= s.ls[s.h]
  {
    s.(h := s.h - 1, w := s.w - s.ls[s.h])
  }

  /** The test that ends backing up compares what leads to the table with the next code. */
  lemma SavedMatches(P: Plan, s: Now, k: nat, cw: seq<bool>)
    requires Backing(P, s, k, cw)
    ensures Low(s.i, s.w) == s.xs[s.h] <==> s.metas[s.us[s.h]].pre <= BitsOf(s.i, k)
    ensures s.h == 0 ==> Low(s.i, s.w) == s.xs[s.h]
  {
    FramedTop(s);
    HeadIndex(s.i, k, s.w);
    if BitsOf(Low(s.i, s.w), s.w) == s.metas[s.us[s.h]].pre {
      BitsDetermine(Low(s.i, s.w), s.xs[s.h], s.w);
    }
    if s.h == 0 {
      assert s.us[..1][0] == s.us[0];
    }
  }

  lemma PopFramed(P: Plan, s: Now, k: nat, cw: seq<bool>)
    requires Backing(P, s, k, cw) && s.h > 0
    ensures s.w >= s.ls[s.h] && Framed(Pop(s))
  {
    FramedTop(s);
    var stack := s.us[..s.h + 1];
    PopStacked(s.pool, s.metas, stack, cw);
    assert stack[..|stack| - 1] == s.us[..s.h];
    assert FrameOf(s.metas, s.us[s.h - 1], s.ls[s.h - 1 + 1], s.xs[s.h - 1]);
  }

  lemma PopBacking(P: Plan, s: Now, k: nat, cw: seq<bool>)
    requires Backing(P, s, k, cw) && Low(s.i, s.w) != s.xs[s.h]
    ensures s.h > 0 && s.w >= s.ls[s.h] && Backing(P, Pop(s), k, cw) == true
  {
    hide Popping;
    SavedMatches(P, s, k, cw);
    FramedTop(s);
    PopFramed(P, s, k, cw);
    var stack := s.us[..s.h + 1];
    PopTable(P.code, P.bits, P.g, P.el, s.pool, s.metas, stack, cw, BitsOf(s.i, k));
    assert stack[..|stack| - 1] == s.us[..s.h];
    FramedTop(Pop(s));
  }

  lemma BackedUp(P: Plan, s: Now, k: nat, cw: seq<bool>)
    requires Backing(P, s, k, cw) && Low(s.i, s.w) == s.xs[s.h]
    ensures Pos(cw) + Span(|cw|) < Pow2(BMAX) ==> Ready(P, s, k) == true
  {
    SavedMatches(P, s, k, cw);
    FramedTop(s);
    PopDone(P.code, P.bits, P.g, P.el, s.pool, s.metas, s.us[..s.h + 1], cw, BitsOf(s.i, k));
  }

  // ---- Longer codes ----

  lemma LengthenReady(P: Plan, s: Now, k: nat)
    requires Ready(P, s, k) && k < P.g
    ensures Ready(P, s, k + 1) == true && Msb(BitsOf(s.i, k + 1)) == 2 * Msb(BitsOf(s.i, k))
  {
    hide Sound;
    LengthenCode(s.i, k);
    MsbSnoc(BitsOf(s.i, k), false);
    if s.h >= 0 {
      Lengthen(P.code, P.bits, P.g, P.el, s.pool, s.metas, s.us[..s.h + 1], BitsOf(s.i, k));
    }
  }

  // ---- How much code space is left ----

  /** Codes of the greatest length fill up what is left, so the tables need not reach further. */
  lemma RemainingWidth(cw: seq<bool>, d: nat, a: nat)
    requires d <= |cw| && ZeroFrom(cw, d) && Msb(cw) + a + 1 == Pow2(|cw|)
    ensures Pow2(|cw| - d) <= a + 1
  {
    var g := |cw|;
    var front := cw[..d];
    MsbOfFalses(front, g - d);
    assert cw == front + Falses(g - d);
    BitsOfMsb(front);
    Pow2Adds(d, g - d);
    MulMono(Msb(front) + 1, Pow2(d), Pow2(g - d));
    MulAdd(Msb(front), 1, Pow2(g - d));
  }

  lemma Product(a: nat, n: nat, p: nat)
    requires a < n && p > 0
    ensures a * p + p <= n * p && (a * p + p < n * p <==> a + 1 < n)
  {
    MulAdd(a, 1, p);
    MulMono(a + 1, n, p);
    if a + 1 < n {
      MulMono(a + 2, n, p);
      MulAdd(a + 1, 1, p);
    }
  }

  /** The code word's stretch ends code space exactly when it is the last of its length. */
  lemma StretchEnds(cw: seq<bool>)
    requires |cw| <= BMAX
    ensures Msb(cw) < Pow2(|cw|)
    ensures Pos(cw) + Span(|cw|) <= Pow2(BMAX)
    ensures Pos(cw) + Span(|cw|) < Pow2(BMAX) <==> Msb(cw) + 1 < Pow2(|cw|)
  {
    BitsOfMsb(cw);
    Pow2Adds(|cw|, BMAX - |cw|);
    Product(Msb(cw), Pow2(|cw|), Span(|cw|));
  }

  lemma WidthFits(P: Plan, s: Now, k: nat, a: nat)
    requires Ready(P, s, k) && k > s.w + s.ls[s.h + 1] && Msb(BitsOf(s.i, k)) + a + 1 == Pow2(k)
    ensures Pow2(k - (s.w + s.ls[s.h + 1])) <= a + 1
  {
    hide Work, Pow2, Msb;
    var cw := BitsOf(s.i, k);
    if s.h >= 0 {
      ReadyZero(P, s, k);
      RemainingWidth(cw, s.w + s.ls[s.h + 1], a);
    } else {
      BitsOfZero(k);
      assert cw[0..] == cw;
      RemainingWidth(cw, 0, a);
    }
  }
}
