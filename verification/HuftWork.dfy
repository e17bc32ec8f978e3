/** The builder's working state between two codes, and the steps that lead from one to the next. */
module HuftWork {
  import opened Arith
  import opened Bits
  import opened Canonical
  import opened HuftBits
  import opened HuftTables

  /** No table reaches beyond the longest code, nor across the end of the end-of-block code. */
  ghost predicate Limits(metas: seq<Meta>, g: nat, el: nat) {
    forall t {:trigger metas[t]} :: 0 <= t < |metas| ==>
      && |metas[t].pre| + metas[t].l <= g
      && (|metas[t].pre| < el ==> |metas[t].pre| + metas[t].l <= el)
  }

  /** Code words up to position `end` have their entries; the stack leads to the code word `cw`. */
  ghost predicate Sound(code: CodeSet, bits: int, g: nat, el: nat, pool: seq<seq<Huft>>, metas: seq<Meta>,
                        stack: seq<nat>, cw: seq<bool>, end: nat)
  {
    && 1 <= |cw| <= g <= BMAX
    && Right(code, pool, metas, bits) && Stacked(pool, metas, stack, cw)
    && Filled(pool, metas, end) && OthersDone(metas, stack, end) && Limits(metas, g, el)
  }

  /** Ready for the next code word. */
  ghost predicate Work(code: CodeSet, bits: int, g: nat, el: nat, pool: seq<seq<Huft>>, metas: seq<Meta>,
                       stack: seq<nat>, cw: seq<bool>)
  {
    && Sound(code, bits, g, el, pool, metas, stack, cw, if |cw| <= BMAX then Pos(cw) else 0)
    && ZeroFrom(cw, Depth(metas, stack))
  }

  lemma BlankRight(code: CodeSet, bits: int, pool: seq<seq<Huft>>, metas: seq<Meta>, l: nat)
    requires 0 < l <= BMAX && pool == [Blank(Pow2(l))] && metas == [Meta([], l)]
    ensures Right(code, pool, metas, bits) && Filled(pool, metas, 0)
  {
    forall t, j {:trigger pool[t][j]} | 0 <= t < |pool| && 0 <= j < |pool[t]|
      ensures pool[t][j] == Garbage
    {
    }
  }

  lemma FirstTable(code: CodeSet, bits: int, g: nat, el: nat, pool: seq<seq<Huft>>, metas: seq<Meta>, stack: seq<nat>,
                   l: nat, cw: seq<bool>)
    requires 1 <= |cw| <= g <= BMAX && cw == Falses(|cw|)
    requires 0 < l <= g && (el > 0 ==> l <= el)
    requires pool == [Blank(Pow2(l))] && metas == [Meta([], l)] && stack == [0]
    ensures Work(code, bits, g, el, pool, metas, stack, cw)
  {
    BlankRight(code, bits, pool, metas, l);
    ZeroWord(cw);
    assert Stacked(pool, metas, stack, cw) by {
      assert metas[stack[0]].pre == [] <= cw;
    }
    assert ZeroFrom(cw, l) by {
      if l <= |cw| {
        assert cw[l..] == Falses(|cw| - l);
      }
    }
  }

  lemma ZeroWord(cw: seq<bool>)
    requires |cw| <= BMAX && cw == Falses(|cw|)
    ensures Pos(cw) == 0
  {
    PosPadded([], |cw|);
    assert [] + Falses(|cw|) == cw;
  }

  lemma NextTable(code: CodeSet, bits: int, g: nat, el: nat, pool: seq<seq<Huft>>, metas: seq<Meta>,
                  stack: seq<nat>, cw: seq<bool>, l: nat, j: nat)
    requires Work(code, bits, g, el, pool, metas, stack, cw)
    requires Depth(metas, stack) < |cw| && 0 < l && Depth(metas, stack) + l <= g
    requires Depth(metas, stack) < el ==> Depth(metas, stack) + l <= el
    requires j == Lsb(cw[|metas[Top(stack)].pre|..Depth(metas, stack)])
    ensures j < |pool[Top(stack)]|
    ensures Work(code, bits, g, el, NextPool(pool, stack, j, Pointer(bits + l, metas[Top(stack)].l, |pool|), l),
                 NextMetas(metas, stack, cw, l), stack + [|pool|], cw)
  {
    var j' := LinkEntry(pool, metas, stack, cw, l);
    var pointer := Pointer(bits + l, metas[Top(stack)].l, |pool|);
    NewTableRight(code, pool, metas, bits, stack, cw, l, j);
    NewTableFilled(pool, metas, stack, cw, l, j, pointer);
    NewTableOthers(pool, metas, stack, cw, l, Pos(cw));
    NewTableStacked(pool, metas, stack, cw, l, j, pointer);
    var d := Depth(metas, stack);
    ZeroFurther(cw, d, d + l);
    LimitsGrow(metas, g, el, Meta(cw[..d], l));
  }

  lemma LimitsGrow(metas: seq<Meta>, g: nat, el: nat, m: Meta)
    requires Limits(metas, g, el) && |m.pre| + m.l <= g && (|m.pre| < el ==> |m.pre| + m.l <= el)
    ensures Limits(metas + [m], g, el)
  {
  }

  lemma ZeroFurther(cw: seq<bool>, d: nat, e: nat)
    requires ZeroFrom(cw, d) && d <= e
    ensures ZeroFrom(cw, e)
  {
    if e < |cw| {
      assert cw[e..] == cw[d..][e - d..];
    }
  }

  /** The code word's entries are set: its whole stretch is assigned. */
  lemma FillWord(code: CodeSet, bits: int, g: nat, el: nat, pool: seq<seq<Huft>>, metas: seq<Meta>,
                 stack: seq<nat>, cw: seq<bool>, row: seq<Huft>, r: Huft, s: int)
    requires Work(code, bits, g, el, pool, metas, stack, cw)
    requires |metas[Top(stack)].pre| < |cw| <= Depth(metas, stack)
    requires Replicated(pool[Top(stack)], row, metas[Top(stack)], cw, r)
    requires r.Entry? && r.b == |cw| - |metas[Top(stack)].pre| && Represents(code, r, s)
    requires 0 <= s < |code.L| && code.L[s] == |cw| && Msb(cw) == Code(code.L, s)
    ensures Sound(code, bits, g, el, pool[Top(stack) := row], metas, stack, cw, Pos(cw) + Span(|cw|))
  {
    FillKeepsRight(code, pool, metas, bits, Top(stack), row, cw, r, s);
    FillKeepsFilled(pool, metas, stack, row, cw, r);
    FillKeepsStack(pool, metas, stack, row, cw);
    forall t {:trigger metas[t]} | 0 <= t < |metas| && t !in stack && |metas[t].pre| <= BMAX
      ensures Pos(metas[t].pre) + Span(|metas[t].pre|) <= Pos(cw) + Span(|cw|)
    {
    }
  }

  /** While tables are left behind: `stack` still leads to `cw`, whose successor is `cw'`. */
  ghost predicate Popping(code: CodeSet, bits: int, g: nat, el: nat, pool: seq<seq<Huft>>, metas: seq<Meta>,
                          stack: seq<nat>, cw: seq<bool>, cw': seq<bool>)
  {
    && |cw| <= BMAX && Sound(code, bits, g, el, pool, metas, stack, cw, Pos(cw) + Span(|cw|))
    && Successor(cw, cw') && ZeroFrom(cw', Depth(metas, stack)) && |metas[Top(stack)].pre| < |cw|
  }

  lemma BeginPopping(code: CodeSet, bits: int, g: nat, el: nat, pool: seq<seq<Huft>>, metas: seq<Meta>,
                     stack: seq<nat>, cw: seq<bool>, row: seq<Huft>, r: Huft, s: int, cw': seq<bool>)
    requires Work(code, bits, g, el, pool, metas, stack, cw)
    requires |metas[Top(stack)].pre| < |cw| <= Depth(metas, stack)
    requires Replicated(pool[Top(stack)], row, metas[Top(stack)], cw, r)
    requires r.Entry? && r.b == |cw| - |metas[Top(stack)].pre| && Represents(code, r, s)
    requires 0 <= s < |code.L| && code.L[s] == |cw| && Msb(cw) == Code(code.L, s)
    requires Successor(cw, cw')
    ensures Popping(code, bits, g, el, pool[Top(stack) := row], metas, stack, cw, cw') == true
  {
    hide Right, Stacked, Filled, OthersDone, Limits, Replicated, Represents, Pos;
    FillWord(code, bits, g, el, pool, metas, stack, cw, row, r, s);
  }

  lemma TopFacts(code: CodeSet, bits: int, g: nat, el: nat, pool: seq<seq<Huft>>, metas: seq<Meta>,
                 stack: seq<nat>, cw: seq<bool>)
    requires Work(code, bits, g, el, pool, metas, stack, cw)
    ensures
      var top := Top(stack);
      top < |pool| == |metas| && 0 < metas[top].l && |pool[top]| == Pow2(metas[top].l) && metas[top].pre <= cw
    ensures Work(code, bits, g, el, pool, metas, stack, cw) == true
  {
    hide OthersDone, Filled, Limits;
  }

  lemma PoppingMeans(code: CodeSet, bits: int, g: nat, el: nat, pool: seq<seq<Huft>>, metas: seq<Meta>,
                     stack: seq<nat>, cw: seq<bool>, cw': seq<bool>)
    requires Popping(code, bits, g, el, pool, metas, stack, cw, cw') && |stack| > 1
    ensures Shaped(pool, metas) && forall q :: 0 <= q < |stack| ==> stack[q] < |pool| == |metas|
  {
  }

  lemma PopTable(code: CodeSet, bits: int, g: nat, el: nat, pool: seq<seq<Huft>>, metas: seq<Meta>,
                 stack: seq<nat>, cw: seq<bool>, cw': seq<bool>)
    requires Popping(code, bits, g, el, pool, metas, stack, cw, cw') && |stack| > 1
    requires !(metas[Top(stack)].pre <= cw')
    ensures Popping(code, bits, g, el, pool, metas, stack[..|stack| - 1], cw, cw')
    ensures |cw| > Depth(metas, stack[..|stack| - 1])
  {
    hide Filled, Limits, Right, OthersDone, Stacked, Shaped;
    PoppingMeans(code, bits, g, el, pool, metas, stack, cw, cw');
    PopKeeps(pool, metas, stack, cw, cw');
    PopStacked(pool, metas, stack, cw);
  }

  lemma StackFollows(pool: seq<seq<Huft>>, metas: seq<Meta>, stack: seq<nat>, cw: seq<bool>, cw': seq<bool>)
    requires Shaped(pool, metas) && Stacked(pool, metas, stack, cw) && metas[Top(stack)].pre <= cw'
    ensures Stacked(pool, metas, stack, cw')
  {
    forall q {:trigger stack[q]} | 0 <= q < |stack| ensures metas[stack[q]].pre <= cw' {
      var p, top := metas[stack[q]].pre, metas[Top(stack)].pre;
      if q < |stack| - 1 {
        assert |metas[stack[q]].pre| + metas[stack[q]].l <= |metas[Top(stack)].pre|;
        assert p == cw[..|p|] == cw[..|top|][..|p|] == cw'[..|p|];
      }
    }
  }

  /** The next code word is ready, unless code space is used up. */
  lemma PopDone(code: CodeSet, bits: int, g: nat, el: nat, pool: seq<seq<Huft>>, metas: seq<Meta>,
                stack: seq<nat>, cw: seq<bool>, cw': seq<bool>)
    requires Popping(code, bits, g, el, pool, metas, stack, cw, cw') && metas[Top(stack)].pre <= cw'
    ensures Pos(cw) + Span(|cw|) < Pow2(BMAX) ==>
      Pos(cw') == Pos(cw) + Span(|cw|) && Work(code, bits, g, el, pool, metas, stack, cw')
  {
    SuccessorPos(cw, cw');
    StackFollows(pool, metas, stack, cw, cw');
  }

  /** Going on to codes one bit longer. */
  lemma Lengthen(code: CodeSet, bits: int, g: nat, el: nat, pool: seq<seq<Huft>>, metas: seq<Meta>,
                 stack: seq<nat>, cw: seq<bool>)
    requires Work(code, bits, g, el, pool, metas, stack, cw) && |cw| < g
    ensures Work(code, bits, g, el, pool, metas, stack, cw + [false])
    ensures Pos(cw + [false]) == Pos(cw)
  {
    PosPadded(cw, 1);
    assert Falses(1) == [false];
    var d := Depth(metas, stack);
    StackFollows(pool, metas, stack, cw, cw + [false]);
    if d <= |cw| {
      assert (cw + [false])[d..] == cw[d..] + [false];
    }
  }
}
