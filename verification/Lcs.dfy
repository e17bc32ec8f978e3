/** Longest common subsequences, stated twice: as the best possible matching of two
    line sequences, and as the row-by-row table the diff engine implicitly fills. */
module Lcs {
  import opened Arith

  /** A matching pairs old line `i` (from 0) with new line `J[i]` (from 1); 0 means unmatched. */
  ghost predicate Matching<T>(a: seq<T>, b: seq<T>, J: seq<int>) {
    && |J| == |a|
    && (forall i :: 0 <= i < |J| ==> 0 <= J[i] <= |b|)
    && (forall i {:trigger J[i]} :: 0 <= i < |J| && J[i] != 0 ==> a[i] == b[J[i] - 1])
    && (forall i, k :: 0 <= i < k < |J| && J[i] != 0 && J[k] != 0 ==> J[i] < J[k])
  }

  /** The number of matched lines. */
  function Pairs(J: seq<int>): nat {
    if J == [] then 0 else Pairs(J[..|J| - 1]) + if J[|J| - 1] != 0 then 1 else 0
  }

  ghost predicate LongestMatching<T(!new)>(a: seq<T>, b: seq<T>, J: seq<int>) {
    && Matching(a, b, J)
    && forall K :: Matching(a, b, K) ==> Pairs(K) <= Pairs(J)
  }

  /** Length of the longest common subsequence of the first `i` lines of `a` and the first `j` of `b`. */
  ghost function Len<T>(a: seq<T>, b: seq<T>, i: nat, j: nat): nat
    requires i <= |a| && j <= |b|
    decreases i + j
  {
    if i == 0 || j == 0 then 0
    else if a[i - 1] == b[j - 1] then Len(a, b, i - 1, j - 1) + 1
    else Max(Len(a, b, i - 1, j), Len(a, b, i, j - 1))
  }

  lemma {:induction false} LenStep<T>(a: seq<T>, b: seq<T>, i: nat, j: nat)
    requires i <= |a| && j <= |b|
    ensures i > 0 ==> Len(a, b, i - 1, j) <= Len(a, b, i, j) <= Len(a, b, i - 1, j) + 1
    ensures j > 0 ==> Len(a, b, i, j - 1) <= Len(a, b, i, j) <= Len(a, b, i, j - 1) + 1
    decreases i + j
  {
    if i > 0 && j > 0 {
      LenStep(a, b, i - 1, j);
      LenStep(a, b, i, j - 1);
      LenStep(a, b, i - 1, j - 1);
    }
  }

  lemma {:induction false} LenMonotone<T>(a: seq<T>, b: seq<T>, i: nat, j: nat, k: nat)
    requires i <= |a| && j <= k <= |b|
    ensures Len(a, b, i, j) <= Len(a, b, i, k)
    decreases k - j
  {
    if j < k {
      LenMonotone(a, b, i, j, k - 1);
      LenStep(a, b, i, k);
    }
  }

  lemma {:induction false} LenAtMost<T>(a: seq<T>, b: seq<T>, i: nat, j: nat)
    requires i <= |a| && j <= |b|
    ensures Len(a, b, i, j) <= i && Len(a, b, i, j) <= j
    decreases i + j
  {
    if i > 0 && j > 0 {
      LenAtMost(a, b, i - 1, j);
      LenAtMost(a, b, i, j - 1);
      LenAtMost(a, b, i - 1, j - 1);
    }
  }

  /** No matching, however found, beats the table. */
  lemma {:induction false} MatchingBound<T>(a: seq<T>, b: seq<T>, J: seq<int>, i: nat, j: nat)
    requires Matching(a, b, J)
    requires i <= |a| && j <= |b|
    requires forall k :: 0 <= k < i ==> J[k] <= j
    ensures Pairs(J[..i]) <= Len(a, b, i, j)
    decreases i
  {
    if i > 0 {
      assert J[..i][..i - 1] == J[..i - 1];
      var y := J[i - 1];
      if y == 0 {
        MatchingBound(a, b, J, i - 1, j);
        LenStep(a, b, i, j);
      } else {
        MatchingBound(a, b, J, i - 1, y - 1);
        LenMonotone(a, b, i, y, j);
      }
    }
  }

  /** One more old line, unmatched or matched with a last new one; more new lines. */
  lemma MatchingGrows<T>(a: seq<T>, b: seq<T>, J: seq<int>, x: T, y: T)
    requires Matching(a, b, J)
    ensures Matching(a + [x], b, J + [0]) && Pairs(J + [0]) == Pairs(J)
    ensures x == y ==> Matching(a + [x], b + [y], J + [|b| + 1]) && Pairs(J + [|b| + 1]) == Pairs(J) + 1
    ensures Matching(a, b + [y], J)
  {
    assert (J + [0])[..|J|] == J && (J + [|b| + 1])[..|J|] == J;
  }

  /** Some matching is as long as the table says. */
  lemma {:induction false} LenReached<T>(a: seq<T>, b: seq<T>, i: nat, j: nat) returns (J: seq<int>)
    requires i <= |a| && j <= |b|
    ensures Matching(a[..i], b[..j], J) && Pairs(J) == Len(a, b, i, j)
    decreases i + j
  {
    hide Matching, Pairs;
    if i == 0 {
      J := [];
      NoMatching(a[..0], b[..j]);
      return;
    }
    assert a[..i] == a[..i - 1] + [a[i - 1]] && (j > 0 ==> b[..j] == b[..j - 1] + [b[j - 1]]);
    if j > 0 && a[i - 1] == b[j - 1] {
      J := LenReached(a, b, i - 1, j - 1);
      MatchingGrows(a[..i - 1], b[..j - 1], J, a[i - 1], b[j - 1]);
      J := J + [j];
    } else if j == 0 || Len(a, b, i - 1, j) >= Len(a, b, i, j - 1) {
      J := LenReached(a, b, i - 1, j);
      MatchingGrows(a[..i - 1], b[..j], J, a[i - 1], a[i - 1]);
      J := J + [0];
    } else {
      J := LenReached(a, b, i, j - 1);
      MatchingGrows(a[..i], b[..j - 1], J, b[j - 1], b[j - 1]);
    }
  }

  lemma NoMatching<T>(a: seq<T>, b: seq<T>)
    requires a == []
    ensures Matching(a, b, []) && Pairs([]) == 0
  {
  }

  /** So a longest matching is. */
  lemma LongestIsLen<T(!new)>(a: seq<T>, b: seq<T>, J: seq<int>)
    requires LongestMatching(a, b, J)
    ensures Pairs(J) == Len(a, b, |a|, |b|)
  {
    hide Len;
    var K := LenReached(a, b, |a|, |b|);
    assert a[..|a|] == a && b[..|b|] == b && J[..|a|] == J;
    MatchingBound(a, b, J, |a|, |b|);
  }

  lemma {:induction false} CommonPrefixLen<T>(a: seq<T>, b: seq<T>, p: nat, i: nat, j: nat)
    requires p <= i <= |a| && p <= j <= |b| && (i == p || j == p)
    requires forall k :: 0 <= k < p ==> a[k] == b[k]
    ensures Len(a, b, i, j) == p
    decreases i + j
  {
    LenAtMost(a, b, i, j);
    if p > 0 {
      if a[i - 1] == b[j - 1] {
        CommonPrefixLen(a, b, p - 1, i - 1, j - 1);
      } else if i > p {
        CommonPrefixLen(a, b, p, i - 1, j);
      } else {
        CommonPrefixLen(a, b, p, i, j - 1);
      }
    }
  }

  lemma {:induction false} DropPrefix<T>(a: seq<T>, b: seq<T>, p: nat, i: nat, j: nat)
    requires p <= i <= |a| && p <= j <= |b|
    requires forall k :: 0 <= k < p ==> a[k] == b[k]
    ensures Len(a, b, i, j) == p + Len(a[p..], b[p..], i - p, j - p)
    decreases i + j
  {
    if i == p || j == p {
      CommonPrefixLen(a, b, p, i, j);
    } else if a[i - 1] == b[j - 1] {
      DropPrefix(a, b, p, i - 1, j - 1);
    } else {
      DropPrefix(a, b, p, i - 1, j);
      DropPrefix(a, b, p, i, j - 1);
    }
  }

  lemma {:induction false} DropSuffix<T>(a: seq<T>, b: seq<T>, s: nat)
    requires s <= |a| && s <= |b|
    requires a[|a| - s..] == b[|b| - s..]
    ensures Len(a, b, |a|, |b|) == Len(a, b, |a| - s, |b| - s) + s
  {
    if s > 0 {
      assert a[|a| - s..][0] == b[|b| - s..][0];
      assert a[|a| - (s - 1)..] == a[|a| - s..][1..] && b[|b| - (s - 1)..] == b[|b| - s..][1..];
      DropSuffix(a, b, s - 1);
    }
  }

  lemma {:induction false} LenOfSlice<T>(a: seq<T>, b: seq<T>, n: nat, m: nat, i: nat, j: nat)
    requires i <= n <= |a| && j <= m <= |b|
    ensures Len(a[..n], b[..m], i, j) == Len(a, b, i, j)
    decreases i + j
  {
    if i > 0 && j > 0 {
      LenOfSlice(a, b, n, m, i - 1, j);
      LenOfSlice(a, b, n, m, i, j - 1);
      LenOfSlice(a, b, n, m, i - 1, j - 1);
    }
  }

  /** Cutting off a common prefix and suffix costs exactly their lines. */
  lemma TrimEnds<T>(a: seq<T>, b: seq<T>, p: nat, s: nat)
    requires p + s <= |a| && p + s <= |b|
    requires forall k :: 0 <= k < p ==> a[k] == b[k]
    requires a[|a| - s..] == b[|b| - s..]
    ensures
      var a', b' := a[p..|a| - s], b[p..|b| - s];
      Len(a, b, |a|, |b|) == p + Len(a', b', |a'|, |b'|) + s
  {
    var n, m := |a| - s, |b| - s;
    DropSuffix(a, b, s);
    DropPrefix(a, b, p, n, m);
    assert a[p..][..n - p] == a[p..n] && b[p..][..m - p] == b[p..m];
    LenOfSlice(a[p..], b[p..], n - p, m - p, n - p, m - p);
  }

  // ---- Threshold form of one table row ----

  ghost predicate Ascending(ys: seq<int>) {
    forall l, r :: 0 <= l < r < |ys| ==> ys[l] < ys[r]
  }

  lemma AscendingAt(ys: seq<int>, l: int, r: int)
    requires Ascending(ys)
    ensures 0 <= l <= r < |ys| ==> ys[l] <= ys[r]
  {
  }

  /** `ys[l]` is the least column where row `i` reaches length `l`. */
  ghost predicate Thresholds<T>(a: seq<T>, b: seq<T>, i: nat, ys: seq<int>)
    requires i <= |a|
  {
    && |ys| > 0 && ys[0] == 0
    && (forall l :: 0 <= l < |ys| ==> 0 <= ys[l] <= |b|)
    && Ascending(ys)
    && forall l, y: nat :: 0 <= l < |ys| && Within(ys, l, y) && y <= |b| ==> Len(a, b, i, y) == l
  }

  ghost predicate Within(ys: seq<int>, l: int, y: int)
    requires 0 <= l < |ys|
  {
    ys[l] <= y && (l + 1 < |ys| ==> y < ys[l + 1])
  }

  /** Column `y` can lower level `l` of the row `ys`. */
  ghost predicate Lowers(ys: seq<int>, l: nat, y: int)
    requires 0 < l <= |ys|
  {
    ys[l - 1] < y && (l < |ys| ==> y <= ys[l])
  }

  ghost predicate Match<T>(a: seq<T>, b: seq<T>, i: nat, y: int)
    requires i < |a|
  {
    0 < y <= |b| && a[i] == b[y - 1]
  }

  /** Level `l` of the next row, counting only its matches up to column `upto`: either some
      match lowers it and the least such match replaces it, or it stays. */
  ghost predicate NextLevel<T>(a: seq<T>, b: seq<T>, i: nat, ys: seq<int>, upto: int, l: nat, v: int)
    requires i < |a|
    requires 0 < l <= |ys|
  {
    || (v <= upto && Match(a, b, i, v) && Lowers(ys, l, v)
        && forall y :: y < v && Match(a, b, i, y) ==> !Lowers(ys, l, y))
    || (l < |ys| && v == ys[l] && forall y :: y <= upto && Match(a, b, i, y) ==> !Lowers(ys, l, y))
  }

  /** The row `zs` follows from `ys` through the matches of line `i` up to column `upto`. */
  ghost predicate NextRow<T>(a: seq<T>, b: seq<T>, i: nat, ys: seq<int>, upto: int, zs: seq<int>)
    requires i < |a|
  {
    && 0 < |ys| <= |zs| <= |ys| + 1 && zs[0] == ys[0]
    && (forall l {:trigger NextLevel(a, b, i, ys, upto, l, zs[l])} :: 0 < l < |zs| ==>
        NextLevel(a, b, i, ys, upto, l, zs[l]))
    && (|zs| == |ys| ==> forall y :: y <= upto && Match(a, b, i, y) ==> !Lowers(ys, |ys|, y))
  }

  lemma WithinExists(ys: seq<int>, y: int) returns (l: nat)
    requires |ys| > 0 && ys[0] <= y
    ensures l < |ys| && Within(ys, l, y)
  {
    l := 0;
    while l + 1 < |ys| && ys[l + 1] <= y
      invariant l < |ys| && ys[l] <= y
    {
      l := l + 1;
    }
  }

  lemma NextRowOrdered<T>(a: seq<T>, b: seq<T>, i: nat, ys: seq<int>, zs: seq<int>)
    requires i < |a| && Thresholds(a, b, i, ys) && NextRow(a, b, i, ys, |b|, zs)
    ensures forall l :: 0 < l < |zs| ==> ys[l - 1] < zs[l] <= |b|
    ensures forall l :: 0 <= l < |ys| ==> 0 <= zs[l] <= ys[l]
    ensures Ascending(zs)
  {
    forall l | 0 < l < |zs| ensures ys[l - 1] < zs[l] <= |b| && (l < |ys| ==> zs[l] <= ys[l]) {
      assert NextLevel(a, b, i, ys, |b|, l, zs[l]);
    }
    forall l, r | 0 <= l < r < |zs| ensures zs[l] < zs[r] {
      assert zs[l] <= ys[l] <= ys[r - 1] < zs[r];
    }
  }

  /** What the engine's row update means: the thresholds of row `i` become those of row `i + 1`. */
  lemma NextRowThresholds<T>(a: seq<T>, b: seq<T>, i: nat, ys: seq<int>, zs: seq<int>)
    requires i < |a| && Thresholds(a, b, i, ys) && NextRow(a, b, i, ys, |b|, zs)
    ensures Thresholds(a, b, i + 1, zs)
  {
    NextRowOrdered(a, b, i, ys, zs);
    forall l, y: nat | 0 <= l < |zs| && Within(zs, l, y) && y <= |b|
      ensures Len(a, b, i + 1, y) == l
    {
      RowLen(a, b, i, ys, zs, y, l);
    }
  }

  lemma {:induction false} RowLen<T>(a: seq<T>, b: seq<T>, i: nat, ys: seq<int>, zs: seq<int>, y: nat, l: nat)
    requires i < |a| && Thresholds(a, b, i, ys) && NextRow(a, b, i, ys, |b|, zs)
    requires l < |zs| && Within(zs, l, y) && y <= |b|
    ensures Len(a, b, i + 1, y) == l
    decreases y
  {
    if y == 0 {
      NextRowOrdered(a, b, i, ys, zs);
    } else if a[i] == b[y - 1] {
      var p := WithinExists(ys, y - 1);
      assert Len(a, b, i, y - 1) == p;
      MatchLevel(a, b, i, ys, zs, y, l, p);
    } else {
      NextRowOrdered(a, b, i, ys, zs);
      var q := WithinExists(zs, y - 1);
      RowLen(a, b, i, ys, zs, y - 1, q);
      var p := WithinExists(ys, y);
      assert Len(a, b, i, y) == p;
      assert l > 0 ==> NextLevel(a, b, i, ys, |b|, l, zs[l]);
      NonMatchLevel(ys, zs, y, l, p, q);
    }
  }

  lemma RowsAscend<T>(a: seq<T>, b: seq<T>, i: nat, ys: seq<int>, zs: seq<int>)
    requires i < |a| && Thresholds(a, b, i, ys) && NextRow(a, b, i, ys, |b|, zs)
    ensures Ascending(ys) && |ys| <= |zs| <= |ys| + 1
  {
  }

  /** A match in a column between two thresholds brings the next one down to it. */
  lemma LoweredBy<T>(a: seq<T>, b: seq<T>, i: nat, ys: seq<int>, zs: seq<int>, y: nat, p: nat)
    requires i < |a| && NextRow(a, b, i, ys, |b|, zs) && Match(a, b, i, y)
    requires p < |ys| && Within(ys, p, y - 1)
    ensures p + 1 < |zs| && zs[p + 1] <= y
  {
    assert Lowers(ys, p + 1, y);
    if p + 1 < |zs| {
      assert NextLevel(a, b, i, ys, |b|, p + 1, zs[p + 1]);
    }
  }

  lemma MatchLevel<T>(a: seq<T>, b: seq<T>, i: nat, ys: seq<int>, zs: seq<int>, y: nat, l: nat, p: nat)
    requires i < |a| && Thresholds(a, b, i, ys) && NextRow(a, b, i, ys, |b|, zs)
    requires Match(a, b, i, y)
    requires l < |zs| && Within(zs, l, y)
    requires p < |ys| && Within(ys, p, y - 1)
    ensures l == p + 1
  {
    hide Len, Ascending, Thresholds, NextRow;
    NextRowOrdered(a, b, i, ys, zs);
    RowsAscend(a, b, i, ys, zs);
    LoweredBy(a, b, i, ys, zs, y, p);
    AscendingAt(zs, l + 1, p + 1);
    AscendingAt(ys, p + 1, l - 1);
  }

  /** Two rows of thresholds, the lower one `zs` equal to `ys` wherever it steps exactly at `y`. */
  lemma NonMatchLevel(ys: seq<int>, zs: seq<int>, y: nat, l: nat, p: nat, q: nat)
    requires Ascending(ys) && Ascending(zs) && |ys| <= |zs|
    requires forall l :: 0 <= l < |ys| ==> zs[l] <= ys[l]
    requires l < |zs| && Within(zs, l, y)
    requires zs[l] == y ==> l < |ys| && ys[l] == y
    requires p < |ys| && Within(ys, p, y)
    requires q < |zs| && Within(zs, q, y - 1)
    ensures l == Max(p, q)
  {
    AscendingAt(zs, l + 1, q);
    AscendingAt(zs, l + 1, p);
    if l > q {
      AscendingAt(zs, q + 1, l);
      AscendingAt(ys, p + 1, l);
    }
  }
}
