/** The candidate search: `klist[l]` always holds the candidate of least new line that ends a
    common subsequence of length `l`. Lines are numbered from 1. */
module DiffStone {
  import opened Arith
  import opened Lcs
  import opened DiffClasses

  datatype Cand = Cand(x: int, y: int, pred: int)

  /** The storage pot of candidates; it only ever grows. */
  class Candidates {
    var list: seq<Cand>

    constructor ()
      ensures list == []
    {
      list := [];
    }

    method NewCand(x: int, y: int, pred: int) returns (index: int)
      modifies this
      ensures list == old(list) + [Cand(x, y, pred)]
      ensures index == |old(list)|
    {
      list := list + [Cand(x, y, pred)];
      index := |list| - 1;
    }
  }

  /** `c[..k + 1]` are candidate numbers. */
  ghost predicate Indices(list: seq<Cand>, c: seq<int>, k: int) {
    0 <= k < |c| && forall l :: 0 <= l <= k ==> 0 <= c[l] < |list|
  }

  /** The new lines of the candidates on levels 0 to `k`. */
  ghost function Levels(list: seq<Cand>, c: seq<int>, k: int): (ys: seq<int>)
    requires Indices(list, c, k)
    ensures |ys| == k + 1 && forall l :: 0 <= l <= k ==> ys[l] == list[c[l]].y
  {
    seq(k + 1, l requires 0 <= l <= k => list[c[l]].y)
  }

  /** Candidate `p` ends a common subsequence of length `l` that uses old lines up to `x`. */
  ghost predicate Chain(A: seq<int>, B: seq<int>, list: seq<Cand>, p: int, l: nat, x: int)
    decreases l
  {
    && 0 <= p < |list|
    && if l == 0 then list[p].y == 0
       else
         && list[p].x <= x
         && 0 < list[p].y && Same(A, B, list[p].x, list[p].y)
         && 0 <= list[p].pred < |list| && list[list[p].pred].y < list[p].y
         && Chain(A, B, list, list[p].pred, l - 1, list[p].x - 1)
  }

  lemma {:induction false} ChainGrows(A: seq<int>, B: seq<int>, list: seq<Cand>, more: seq<Cand>, p: int, l: nat,
                                      x: int, x': int)
    requires Chain(A, B, list, p, l, x) && list <= more && x <= x'
    ensures Chain(A, B, more, p, l, x')
    decreases l
  {
    if l > 0 {
      ChainGrows(A, B, list, more, list[p].pred, l - 1, list[p].x - 1, list[p].x - 1);
    }
  }

  ghost predicate Chains(A: seq<int>, B: seq<int>, list: seq<Cand>, c: seq<int>, k: int, x: int)
    requires Indices(list, c, k)
  {
    forall l {:trigger Chain(A, B, list, c[l], l, x)} :: 0 <= l <= k ==> Chain(A, B, list, c[l], l, x)
  }

  /** Binary search for the level whose candidate is the first at or beyond `y`. */
  method Search(pot: Candidates, c: array<int>, k: int, y: int) returns (l: int)
    requires Indices(pot.list, c[..], k) && Ascending(Levels(pot.list, c[..], k))
    requires pot.list[c[0]].y < y
    ensures 1 <= l <= k + 1 && Lowers(Levels(pot.list, c[..], k), l, y)
  {
    ghost var ys := Levels(pot.list, c[..], k);
    if pot.list[c[k]].y < y {
      return k + 1;
    }
    var i, j := 0, k + 1;
    while true
      invariant 0 <= i < j <= k + 1
      invariant ys[i] < y && (j <= k ==> y < ys[j])
      decreases j - i
    {
      l := (i + j) / 2;
      if l <= i {
        break;
      }
      var t := pot.list[c[l]].y;
      if t > y {
        j := l;
      } else if t < y {
        i := l;
      } else {
        AscendingAt(ys, i, l - 1);
        assert ys[l - 1] < ys[l];
        return l;
      }
    }
    return l + 1;
  }

  /** Handling one more match of line `i`: the only level it can lower takes it, unless an
      earlier match already did. */
  lemma NextRowStep(A: seq<int>, B: seq<int>, i: nat, ys: seq<int>, y: int, zs: seq<int>, l: nat)
    requires i < |A| && Ascending(ys) && |ys| > 0
    requires NextRow(A, B, i, ys, y - 1, zs)
    requires Match(A, B, i, y) && 0 < l <= |ys| && Lowers(ys, l, y)
    ensures l < |zs| && zs[l] <= y ==> NextRow(A, B, i, ys, y, zs)
    ensures l < |zs| && zs[l] > y ==> NextRow(A, B, i, ys, y, zs[l := y])
    ensures l == |zs| ==> NextRow(A, B, i, ys, y, zs + [y])
  {
    var ws := if l == |zs| then zs + [y] else if zs[l] <= y then zs else zs[l := y];
    forall r | 0 < r < |ws| ensures NextLevel(A, B, i, ys, y, r, ws[r]) {
      if r < |zs| {
        assert NextLevel(A, B, i, ys, y - 1, r, zs[r]);
      }
      AscendingAt(ys, r, l - 1);
      AscendingAt(ys, l, r - 1);
    }
    AscendingAt(ys, l, |ys| - 1);
  }

  lemma NextRowDone(A: seq<int>, B: seq<int>, i: nat, ys: seq<int>, y: int, zs: seq<int>)
    requires i < |A| && Ascending(ys) && |ys| > 0
    requires NextRow(A, B, i, ys, y, zs) && y <= |B|
    requires (forall u :: y < u ==> !Match(A, B, i, u)) || (|zs| == |ys| + 1 && ys[|ys| - 1] < y)
    ensures NextRow(A, B, i, ys, |B|, zs)
  {
    forall r | 0 < r < |zs| ensures NextLevel(A, B, i, ys, |B|, r, zs[r]) {
      assert NextLevel(A, B, i, ys, y, r, zs[r]);
      AscendingAt(ys, r, |ys| - 1);
    }
  }

  /** What holds of the engine's tables before line `i + 1` of the old file is looked at. */
  ghost predicate RowState(A: seq<int>, B: seq<int>, i: nat, list: seq<Cand>, c: seq<int>, k: int) {
    && i <= |A| && Indices(list, c, k)
    && Thresholds(A, B, i, Levels(list, c, k))
    && Chains(A, B, list, c, k, i)
  }

  /** What holds while the matches of line `i` are being handled: `c0` and `k0` are the levels as
      they were before the line, `oldl` the last level changed, `oldc` an old candidate on level `lv`. */
  ghost predicate InRow(A: seq<int>, B: seq<int>, i: nat, list0: seq<Cand>, c0: seq<int>, k0: int,
                        upto: int, list: seq<Cand>, c: seq<int>, k: int, oldl: int, oldc: int, lv: int)
  {
    && 0 < i <= |A| && Indices(list0, c0, k0) && |c| == |c0|
    && list0 <= list && Indices(list, c, k)
    && NextRow(A, B, i - 1, Levels(list0, c0, k0), upto, Levels(list, c, k))
    && Chains(A, B, list, c, k, i)
    && 0 <= oldl <= lv <= k0 && oldc == c0[lv]
    && (forall l :: oldl < l <= k0 ==> c[l] == c0[l])
    && (oldl > 0 ==> Levels(list, c, k)[oldl] <= upto)
    && (lv == oldl || (lv < k0 && Levels(list0, c0, k0)[lv + 1] <= upto))
  }

  lemma ChainsGrow(A: seq<int>, B: seq<int>, list: seq<Cand>, more: seq<Cand>, c: seq<int>, k: int, x: int, x': int)
    requires Indices(list, c, k) && Chains(A, B, list, c, k, x) && list <= more && x <= x'
    ensures Indices(more, c, k) && Chains(A, B, more, c, k, x')
  {
    forall l | 0 <= l <= k ensures Chain(A, B, more, c[l], l, x') {
      ChainGrows(A, B, list, more, c[l], l, x, x');
    }
  }

  /** Installing the match `(i, y)` on level `l`, as a replacement or as a new top level. */
  lemma Install(A: seq<int>, B: seq<int>, i: nat, list0: seq<Cand>, c0: seq<int>, k0: int,
                list: seq<Cand>, c: seq<int>, k: int, y: int, l: nat, pred: int)
    requires 0 < i <= |A| && Indices(list0, c0, k0) && |c| == |c0| && list0 <= list && Indices(list, c, k)
    requires Ascending(Levels(list0, c0, k0)) && Chains(A, B, list0, c0, k0, i - 1)
    requires NextRow(A, B, i - 1, Levels(list0, c0, k0), y - 1, Levels(list, c, k))
    requires Chains(A, B, list, c, k, i)
    requires Match(A, B, i - 1, y) && 0 < l <= k0 + 1 && Lowers(Levels(list0, c0, k0), l, y)
    requires l <= k + 1 && l < |c| && (l <= k ==> Levels(list, c, k)[l] > y)
    requires pred == c0[l - 1]
    ensures
      var list', c', k' := list + [Cand(i, y, pred)], c[l := |list|], if l <= k then k else k + 1;
      && Indices(list', c', k')
      && NextRow(A, B, i - 1, Levels(list0, c0, k0), y, Levels(list', c', k'))
      && Chains(A, B, list', c', k', i)
  {
    var list', c', k' := list + [Cand(i, y, pred)], c[l := |list|], if l <= k then k else k + 1;
    var ys, zs := Levels(list0, c0, k0), Levels(list, c, k);
    NextRowStep(A, B, i - 1, ys, y, zs, l);
    assert Levels(list', c', k') == if l <= k then zs[l := y] else zs + [y];
    ChainsGrow(A, B, list, list', c, k, i, i);
    ChainsGrow(A, B, list0, list', c0, k0, i - 1, i - 1);
    assert Chain(A, B, list', c0[l - 1], l - 1, i - 1);
    assert list'[pred].y == ys[l - 1];
    assert Chain(A, B, list', |list|, l, i);
  }

  lemma SkippedMatch(A: seq<int>, B: seq<int>, i: nat, list0: seq<Cand>, c0: seq<int>, k0: int,
                     y: int, list: seq<Cand>, c: seq<int>, k: int, oldl: int, oldc: int, lv: int)
    requires InRow(A, B, i, list0, c0, k0, y - 1, list, c, k, oldl, oldc, lv)
    requires Ascending(Levels(list0, c0, k0)) && Levels(list0, c0, k0)[0] == 0
    requires Match(A, B, i - 1, y) && y <= Levels(list0, c0, k0)[lv]
    ensures InRow(A, B, i, list0, c0, k0, y, list, c, k, oldl, oldc, lv)
  {
    var ys, zs := Levels(list0, c0, k0), Levels(list, c, k);
    AscendingAt(ys, lv, lv + 1);
    assert lv == oldl && oldl > 0;
    assert NextLevel(A, B, i - 1, ys, y - 1, oldl, zs[oldl]);
    NextRowStep(A, B, i - 1, ys, y, zs, oldl);
  }

  lemma RowAscends(A: seq<int>, B: seq<int>, i: nat, ys: seq<int>, upto: int, zs: seq<int>)
    requires 0 < i <= |A| && Ascending(ys) && NextRow(A, B, i - 1, ys, upto, zs)
    ensures Ascending(zs)
    ensures forall l :: 0 <= l < |ys| ==> zs[l] <= ys[l]
  {
    forall l | 0 < l < |zs| ensures ys[l - 1] < zs[l] && (l < |ys| ==> zs[l] <= ys[l]) {
      assert NextLevel(A, B, i - 1, ys, upto, l, zs[l]);
      AscendingAt(ys, l - 1, l);
      if l < |ys| { assert ys[l - 1] < ys[l]; }
    }
    forall l, r | 0 <= l < r < |zs| ensures zs[l] < zs[r] {
      AscendingAt(ys, l, r - 1);
      assert zs[l] <= ys[l] <= ys[r - 1] < zs[r];
    }
  }

  /** The level found in the current row is the one the old row would give, above all changes. */
  lemma FoundLevel(ys: seq<int>, zs: seq<int>, k0: int, oldl: int, lv: int, l: nat, y: int)
    requires Ascending(ys) && Ascending(zs) && |ys| == |zs| == k0 + 1
    requires forall l :: 0 <= l < |ys| ==> zs[l] <= ys[l]
    requires 0 <= oldl <= lv <= k0
    requires forall l :: oldl < l <= k0 ==> zs[l] == ys[l]
    requires lv == oldl || (lv < k0 && ys[lv + 1] < y)
    requires ys[lv] < y && 0 < l <= k0 + 1 && Lowers(zs, l, y)
    ensures l > oldl && Lowers(ys, l, y) && (l == oldl + 1 ==> lv == oldl)
  {
    AscendingAt(zs, l, oldl);
    AscendingAt(ys, oldl, lv);
    AscendingAt(zs, l, lv + 1);
  }

  /** The level for match `(i, y)` and the old candidate below it. */
  ghost predicate Fits(A: seq<int>, B: seq<int>, i: nat, list0: seq<Cand>, c0: seq<int>, k0: int,
                       y: int, l: int, pred: int, lv: int)
    requires 0 < i <= |A| && Indices(list0, c0, k0)
  {
    && Thresholds(A, B, i - 1, Levels(list0, c0, k0)) && Chains(A, B, list0, c0, k0, i - 1)
    && Match(A, B, i - 1, y) && 0 < l <= k0 + 1 && Lowers(Levels(list0, c0, k0), l, y)
    && lv == l - 1 && pred == c0[lv]
  }

  lemma InstallLower(A: seq<int>, B: seq<int>, i: nat, list0: seq<Cand>, c0: seq<int>, k0: int, y: int,
                     list: seq<Cand>, c: seq<int>, oldl: int, oldc: int, lv: int, l: nat, pred: int, lv': int)
    requires InRow(A, B, i, list0, c0, k0, y - 1, list, c, k0, oldl, oldc, lv)
    requires Fits(A, B, i, list0, c0, k0, y, l, pred, lv')
    requires oldl < l <= k0 && Levels(list, c, k0)[l] > y
    ensures InRow(A, B, i, list0, c0, k0, y, list + [Cand(i, y, pred)], c[l := |list|], k0, l, c[l], l)
  {
    Install(A, B, i, list0, c0, k0, list, c, k0, y, l, pred);
  }

  /** A line's last possible outcome: its match `(i, y)` has opened a new top level. */
  ghost predicate Topped(A: seq<int>, B: seq<int>, i: nat, list0: seq<Cand>, c0: seq<int>, k0: int,
                         y: int, list: seq<Cand>, c: seq<int>)
  {
    && 0 < i <= |A| && Indices(list0, c0, k0) && |c| == |c0|
    && list0 <= list && Indices(list, c, k0 + 1)
    && NextRow(A, B, i - 1, Levels(list0, c0, k0), y, Levels(list, c, k0 + 1))
    && Chains(A, B, list, c, k0 + 1, i)
    && Levels(list0, c0, k0)[k0] < y
  }

  lemma InstallTop(A: seq<int>, B: seq<int>, i: nat, list0: seq<Cand>, c0: seq<int>, k0: int, y: int,
                   list: seq<Cand>, c: seq<int>, oldl: int, oldc: int, lv: int, pred: int, lv': int)
    requires InRow(A, B, i, list0, c0, k0, y - 1, list, c, k0, oldl, oldc, lv)
    requires Fits(A, B, i, list0, c0, k0, y, k0 + 1, pred, lv') && k0 + 1 < |c|
    ensures Topped(A, B, i, list0, c0, k0, y, list + [Cand(i, y, pred)], c[k0 + 1 := |list|])
  {
    Install(A, B, i, list0, c0, k0, list, c, k0, y, k0 + 1, pred);
  }

  lemma Superfluous(A: seq<int>, B: seq<int>, i: nat, list0: seq<Cand>, c0: seq<int>, k0: int, y: int,
                    list: seq<Cand>, c: seq<int>, oldl: int, oldc: int, lv: int, l: nat, pred: int, lv': int)
    requires InRow(A, B, i, list0, c0, k0, y - 1, list, c, k0, oldl, oldc, lv)
    requires Fits(A, B, i, list0, c0, k0, y, l, pred, lv')
    requires oldl < l <= k0 && Levels(list, c, k0)[l] <= y
    ensures InRow(A, B, i, list0, c0, k0, y, list, c, k0, oldl, pred, lv')
  {
    NextRowStep(A, B, i - 1, Levels(list0, c0, k0), y, Levels(list, c, k0), l);
    assert Levels(list, c, k0)[l] == Levels(list0, c0, k0)[l];
  }

  lemma SearchReady(A: seq<int>, B: seq<int>, i: nat, list0: seq<Cand>, c0: seq<int>, k0: int,
                    upto: int, list: seq<Cand>, c: seq<int>, oldl: int, oldc: int, lv: int)
    requires InRow(A, B, i, list0, c0, k0, upto, list, c, k0, oldl, oldc, lv)
    requires Thresholds(A, B, i - 1, Levels(list0, c0, k0))
    ensures oldc < |list| && list[oldc].y == Levels(list0, c0, k0)[lv]
    ensures Ascending(Levels(list, c, k0)) && list[c[0]].y == 0
    ensures forall l :: 0 <= l <= k0 ==> Levels(list, c, k0)[l] <= Levels(list0, c0, k0)[l]
    ensures forall l :: oldl < l <= k0 ==> Levels(list, c, k0)[l] == Levels(list0, c0, k0)[l]
  {
    RowAscends(A, B, i, Levels(list0, c0, k0), upto, Levels(list, c, k0));
  }

  method Enter(pot: Candidates, c: array<int>, l: int, x: int, y: int, pred: int)
    requires 0 <= l < c.Length
    modifies pot, c
    ensures pot.list == old(pot.list) + [Cand(x, y, pred)]
    ensures c[..] == old(c[..])[l := |old(pot.list)|]
  {
    var q := pot.NewCand(x, y, pred);
    c[l] := q;
  }

  lemma TurnFits(A: seq<int>, B: seq<int>, i: nat, list0: seq<Cand>, c0: seq<int>, k: int, y: int,
                 list: seq<Cand>, c: seq<int>, oldl: int, oldc: int, lv: int, l: nat)
    returns (pred: int, lv': int)
    requires InRow(A, B, i, list0, c0, k, y - 1, list, c, k, oldl, oldc, lv)
    requires Thresholds(A, B, i - 1, Levels(list0, c0, k)) && Chains(A, B, list0, c0, k, i - 1)
    requires Match(A, B, i - 1, y) && 0 < l <= k + 1
    requires Levels(list0, c0, k)[lv] < y && Lowers(Levels(list, c, k), l, y)
    ensures pred == if l != oldl + 1 then c[l - 1] else oldc
    ensures l > oldl && Fits(A, B, i, list0, c0, k, y, l, pred, lv')
  {
    SearchReady(A, B, i, list0, c0, k, y - 1, list, c, oldl, oldc, lv);
    FoundLevel(Levels(list0, c0, k), Levels(list, c, k), k, oldl, lv, l, y);
    pred, lv' := if l != oldl + 1 then c[l - 1] else oldc, l - 1;
  }

  /** The level of the match is known: it is superfluous there, or replaces, or opens a new level. */
  method Settle(i: nat, y: int, l: int, c: array<int>, k: int, pot: Candidates, oldl: int, oldc: int, ghost pred0: int,
                ghost A: seq<int>, ghost B: seq<int>, ghost list0: seq<Cand>, ghost c0: seq<int>, ghost lv0: int,
                ghost lv: int)
    returns (k': int, oldl': int, oldc': int, ghost lv': int)
    requires InRow(A, B, i, list0, c0, k, y - 1, pot.list, c[..], k, oldl, pred0, lv0)
    requires Fits(A, B, i, list0, c0, k, y, l, oldc, lv)
    requires oldl < l && k + 1 < c.Length
    modifies c, pot
    ensures k' == k ==> InRow(A, B, i, list0, c0, k, y, pot.list, c[..], k, oldl', oldc', lv')
    ensures k' != k ==> k' == k + 1 && Topped(A, B, i, list0, c0, k, y, pot.list, c[..])
  {
    k', oldl', oldc', lv' := k, oldl, oldc, lv;
    if l <= k {
      if pot.list[c[l]].y <= y {
        Superfluous(A, B, i, list0, c0, k, y, pot.list, c[..], oldl, pred0, lv0, l, oldc, lv);
        return;
      }
      InstallLower(A, B, i, list0, c0, k, y, pot.list, c[..], oldl, pred0, lv0, l, oldc, lv);
      oldl', oldc', lv' := l, c[l], l;
      Enter(pot, c, l, i, y, oldc);
    } else {
      InstallTop(A, B, i, list0, c0, k, y, pot.list, c[..], oldl, pred0, lv0, oldc, lv);
      Enter(pot, c, l, i, y, oldc);
      k' := k + 1;
    }
  }

  /** One turn of the inner loop for the match `(i, y)`. */
  method StoneMatch(i: nat, y: int, c: array<int>, k: int, pot: Candidates, oldl: int, oldc: int,
                    ghost A: seq<int>, ghost B: seq<int>, ghost list0: seq<Cand>, ghost c0: seq<int>, ghost lv: int)
    returns (k': int, oldl': int, oldc': int, ghost lv': int)
    requires InRow(A, B, i, list0, c0, k, y - 1, pot.list, c[..], k, oldl, oldc, lv)
    requires Thresholds(A, B, i - 1, Levels(list0, c0, k)) && Chains(A, B, list0, c0, k, i - 1)
    requires Match(A, B, i - 1, y) && k + 1 < c.Length
    modifies c, pot
    ensures k' == k ==> InRow(A, B, i, list0, c0, k, y, pot.list, c[..], k, oldl', oldc', lv')
    ensures k' != k ==> k' == k + 1 && Topped(A, B, i, list0, c0, k, y, pot.list, c[..])
  {
    ghost var list, cs := pot.list, c[..];
    SearchReady(A, B, i, list0, c0, k, y - 1, list, cs, oldl, oldc, lv);
    if y <= pot.list[oldc].y {
      SkippedMatch(A, B, i, list0, c0, k, y, list, cs, k, oldl, oldc, lv);
      return k, oldl, oldc, lv;
    }
    var l := Search(pot, c, k, y);
    ghost var pred, below := TurnFits(A, B, i, list0, c0, k, y, list, cs, oldl, oldc, lv, l);
    oldc' := if l != oldl + 1 then c[l - 1] else oldc;
    k', oldl', oldc', lv' := Settle(i, y, l, c, k, pot, oldl, oldc', oldc, A, B, list0, c0, lv, below);
  }

  ghost predicate NoMatches(A: seq<int>, B: seq<int>, i: nat, above: int, upto: int)
    requires i < |A|
  {
    forall u :: above < u <= upto ==> !Match(A, B, i, u)
  }

  lemma NoMatchBetween(A: seq<int>, B: seq<int>, i: nat, ys: seq<int>, upto: int, upto': int, zs: seq<int>)
    requires i < |A| && NextRow(A, B, i, ys, upto, zs) && upto <= upto'
    requires NoMatches(A, B, i, upto, upto')
    ensures NextRow(A, B, i, ys, upto', zs)
  {
    forall r | 0 < r < |zs| ensures NextLevel(A, B, i, ys, upto', r, zs[r]) {
      assert NextLevel(A, B, i, ys, upto, r, zs[r]);
    }
  }

  /** Line `i` has no match before the one its class starts with. */
  lemma EnterRow(A: seq<int>, B: seq<int>, i: nat, list: seq<Cand>, c: seq<int>, k: int, upto: nat)
    requires 0 < i <= |A| && RowState(A, B, i - 1, list, c, k)
    requires NoMatches(A, B, i - 1, 0, upto)
    ensures InRow(A, B, i, list, c, k, upto, list, c, k, 0, c[0], 0)
  {
    ChainsGrow(A, B, list, list, c, k, i - 1, i);
    var ys := Levels(list, c, k);
    forall r | 0 < r < |ys| ensures NextLevel(A, B, i - 1, ys, upto, r, ys[r]) {
    }
  }

  lemma FirstInRow(A: seq<int>, B: seq<int>, i: nat, j: int, b: seq<int>)
    requires 0 < i <= |A| && |b| > |B| + 1 && j != 0 && FirstMatch(A, B, i, j, b)
    ensures 1 <= j <= |B| && Match(A, B, i - 1, -b[j]) && NoMatches(A, B, i - 1, 0, -b[j] - 1)
  {
    var r := i - 1;
    forall u | 0 < u <= -b[j] - 1 ensures !Match(A, B, r, u) {
      assert !Same(A, B, i, u);
    }
  }

  /** The next match of the line is the next member of the class. */
  lemma NextInRow(A: seq<int>, B: seq<int>, i: nat, list0: seq<Cand>, c0: seq<int>, k0: int, j: int, b: seq<int>,
                  list: seq<Cand>, c: seq<int>, oldl: int, oldc: int, lv: int)
    requires Members(B, b) && 1 <= j <= |B|
    requires InRow(A, B, i, list0, c0, k0, Abs(b[j]), list, c, k0, oldl, oldc, lv)
    requires RowState(A, B, i - 1, list0, c0, k0) && Match(A, B, i - 1, Abs(b[j]))
    ensures b[j + 1] > 0 ==> j < |B|
    ensures b[j + 1] > 0 ==> Match(A, B, i - 1, b[j + 1])
    ensures b[j + 1] > 0 ==> InRow(A, B, i, list0, c0, k0, b[j + 1] - 1, list, c, k0, oldl, oldc, lv)
    ensures b[j + 1] <= 0 ==> RowState(A, B, i, list, c, k0)
  {
    var y, z := Abs(b[j]), b[j + 1];
    assert NextMatch(B, j, b);
    var upto := if z > 0 then z - 1 else |B|;
    var r := i - 1;
    forall u | y < u <= upto ensures !Match(A, B, r, u) {
      assert !Same(B, B, y, u);
    }
    NoMatchBetween(A, B, r, Levels(list0, c0, k0), y, upto, Levels(list, c, k0));
    if z <= 0 {
      LeaveRow(A, B, i, list0, c0, k0, list, c, k0);
    }
  }

  lemma LeaveTopped(A: seq<int>, B: seq<int>, i: nat, list0: seq<Cand>, c0: seq<int>, k0: int, y: int, list: seq<Cand>,
                    c: seq<int>)
    requires 0 < i <= |A| && RowState(A, B, i - 1, list0, c0, k0) && y <= |B|
    requires Topped(A, B, i, list0, c0, k0, y, list, c)
    ensures RowState(A, B, i, list, c, k0 + 1)
  {
    NextRowDone(A, B, i - 1, Levels(list0, c0, k0), y, Levels(list, c, k0 + 1));
    LeaveRow(A, B, i, list0, c0, k0, list, c, k0 + 1);
  }

  lemma LeaveRow(A: seq<int>, B: seq<int>, i: nat, list0: seq<Cand>, c0: seq<int>, k0: int, list: seq<Cand>,
                 c: seq<int>, k: int)
    requires 0 < i <= |A| && RowState(A, B, i - 1, list0, c0, k0)
    requires Indices(list, c, k) && Chains(A, B, list, c, k, i)
    requires NextRow(A, B, i - 1, Levels(list0, c0, k0), |B|, Levels(list, c, k))
    ensures RowState(A, B, i, list, c, k)
  {
    NextRowThresholds(A, B, i - 1, Levels(list0, c0, k0), Levels(list, c, k));
  }

  ghost predicate Members(B: seq<int>, b: seq<int>) {
    && |b| > |B| + 1
    && (forall t :: 1 <= t <= |B| ==> 1 <= Abs(b[t]) <= |B|)
    && (forall t :: 1 <= t <= |B| ==> NextMatch(B, t, b))
  }

  lemma TopLevelFits(A: seq<int>, B: seq<int>, i: nat, list: seq<Cand>, c: seq<int>, k: int)
    requires RowState(A, B, i, list, c, k)
    ensures k <= i
  {
    var ys := Levels(list, c, k);
    assert Within(ys, k, ys[k]);
    LenAtMost(A, B, i, ys[k]);
  }

  /** The step from a handled match to the next, if there is one. */
  method StoneNext(i: nat, j: int, b: array<int>, c: array<int>, k: int, k': int, pot: Candidates, oldl: int, oldc: int,
                   ghost y: int,
                   ghost A: seq<int>, ghost B: seq<int>, ghost list0: seq<Cand>, ghost c0: seq<int>, ghost lv: int)
    returns (more: bool)
    requires Members(B, b[..]) && 1 <= j <= |B| && y == Abs(b[j])
    requires 0 < i <= |A| && RowState(A, B, i - 1, list0, c0, k) && Match(A, B, i - 1, y)
    requires k' == k ==> InRow(A, B, i, list0, c0, k, y, pot.list, c[..], k, oldl, oldc, lv)
    requires k' != k ==> k' == k + 1 && Topped(A, B, i, list0, c0, k, y, pot.list, c[..])
    ensures more ==> k' == k && j < |B| && b[j + 1] > 0 && Match(A, B, i - 1, b[j + 1])
    ensures more ==> InRow(A, B, i, list0, c0, k, b[j + 1] - 1, pot.list, c[..], k, oldl, oldc, lv)
    ensures !more ==> RowState(A, B, i, pot.list, c[..], k')
  {
    if k' != k {
      LeaveTopped(A, B, i, list0, c0, k, y, pot.list, c[..]);
      more := false;
    } else {
      NextInRow(A, B, i, list0, c0, k, j, b[..], pot.list, c[..], oldl, oldc, lv);
      more := b[j + 1] > 0;
    }
  }

  method StoneTurn(i: nat, j: int, y: int, b: array<int>, c: array<int>, k: int, pot: Candidates, oldl: int, oldc: int,
                   ghost A: seq<int>, ghost B: seq<int>, ghost list0: seq<Cand>, ghost c0: seq<int>, ghost lv: int)
    returns (more: bool, k': int, oldl': int, oldc': int, ghost lv': int)
    requires Members(B, b[..]) && 1 <= j <= |B| && y == Abs(b[j]) && b != c && |A| + 1 < c.Length
    requires 0 < i <= |A| && RowState(A, B, i - 1, list0, c0, k) && Match(A, B, i - 1, y)
    requires InRow(A, B, i, list0, c0, k, y - 1, pot.list, c[..], k, oldl, oldc, lv)
    modifies c, pot
    ensures more ==> k' == k && j < |B| && b[j + 1] > 0 && Match(A, B, i - 1, b[j + 1])
    ensures more ==> InRow(A, B, i, list0, c0, k, b[j + 1] - 1, pot.list, c[..], k, oldl', oldc', lv')
    ensures !more ==> RowState(A, B, i, pot.list, c[..], k')
  {
    TopLevelFits(A, B, i - 1, list0, c0, k);
    k', oldl', oldc', lv' := StoneMatch(i, y, c, k, pot, oldl, oldc, A, B, list0, c0, lv);
    more := StoneNext(i, j, b, c, k, k', pot, oldl', oldc', y, A, B, list0, c0, lv');
  }

  /** All matches of old line `i`, in ascending order of new line. */
  method StoneRow(i: nat, j0: int, b: array<int>, c: array<int>, k: int, pot: Candidates, ghost A: seq<int>,
                  ghost B: seq<int>)
    returns (k': int)
    requires 0 < i <= |A| && RowState(A, B, i - 1, pot.list, c[..], k)
    requires Members(B, b[..]) && j0 != 0 && FirstMatch(A, B, i, j0, b[..])
    requires b != c && |A| + 1 < c.Length
    modifies c, pot
    ensures RowState(A, B, i, pot.list, c[..], k')
  {
    hide RowState, InRow, Match;
    ghost var list0, c0, bs := pot.list, c[..], b[..];
    FirstInRow(A, B, i, j0, bs);
    EnterRow(A, B, i, list0, c0, k, -bs[j0] - 1);
    var j, y, oldl, oldc, more := j0, -b[j0], 0, c[0], true;
    ghost var lv := 0;
    k' := k;
    while more
      invariant b[..] == bs
      invariant more ==> 1 <= j <= |B| && k' == k && y == Abs(bs[j]) && Match(A, B, i - 1, y)
      invariant more ==> InRow(A, B, i, list0, c0, k, y - 1, pot.list, c[..], k, oldl, oldc, lv)
      invariant !more ==> RowState(A, B, i, pot.list, c[..], k')
      decreases more, |B| - j
    {
      more, k', oldl, oldc, lv := StoneTurn(i, j, y, b, c, k, pot, oldl, oldc, A, B, list0, c0, lv);
      j := j + 1;
      y := b[j];
    }
  }

  method Stone(a: array<int>, n: nat, b: array<int>, c: array<int>, pot: Candidates, ghost A: seq<int>,
               ghost B: seq<int>)
    returns (k: int)
    requires |A| == n && n < a.Length && n + 1 < c.Length && a != c && b != c
    requires ClassTables(A, B, a[..], b[..])
    requires pot.list == []
    modifies c, pot
    ensures 0 <= k < c.Length && k == Len(A, B, |A|, |B|)
    ensures Chain(A, B, pot.list, c[k], k, n)
  {
    k := 0;
    Enter(pot, c, 0, 0, 0, 0);
    ghost var cls, bs := a[..], b[..];
    assert Chain(A, B, pot.list, c[0], 0, 0);
    var i := 1;
    while i <= n
      invariant 1 <= i <= n + 1 && a[..] == cls && b[..] == bs
      invariant RowState(A, B, i - 1, pot.list, c[..], k)
    {
      var j := a[i];
      assert FirstMatch(A, B, i, cls[i], bs);
      if j != 0 {
        k := StoneRow(i, j, b, c, k, pot, A, B);
      } else {
        NoMatchesInRow(A, B, i, pot.list, c[..], k);
      }
      i := i + 1;
    }
    TopIsLength(A, B, pot.list, c[..], k);
  }

  lemma NoMatchesInRow(A: seq<int>, B: seq<int>, i: nat, list: seq<Cand>, c: seq<int>, k: int)
    requires 0 < i <= |A| && RowState(A, B, i - 1, list, c, k)
    requires forall y :: !Same(A, B, i, y)
    ensures RowState(A, B, i, list, c, k)
  {
    var r := i - 1;
    forall u | 0 < u <= |B| ensures !Match(A, B, r, u) {
      assert !Same(A, B, i, u);
    }
    EnterRow(A, B, i, list, c, k, |B|);
    LeaveRow(A, B, i, list, c, k, list, c, k);
  }

  lemma TopIsLength(A: seq<int>, B: seq<int>, list: seq<Cand>, c: seq<int>, k: int)
    requires RowState(A, B, |A|, list, c, k)
    ensures k == Len(A, B, |A|, |B|) && Chain(A, B, list, c[k], k, |A|)
  {
    assert Within(Levels(list, c, k), k, |B|);
  }
}
