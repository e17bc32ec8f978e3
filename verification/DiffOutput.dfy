/** From a matching to an edit script, forwards as hunks and backwards as `ed` commands. */
module DiffOutput {
  import opened Wrappers
  import opened Lcs

  /** Old lines `a` to `b` become new lines `c` to `d`; an empty range has its end before its start. */
  datatype Hunk = Hunk(a: int, b: int, c: int, d: int)

  /** Lines `from` to `to`, counted from 1. */
  ghost function Lines<T>(s: seq<T>, from: int, to: int): seq<T> {
    if 1 <= from <= to <= |s| then s[from - 1..to] else []
  }

  // ---- Hunks, read forwards ----

  /** The text after the hunks have been applied to the first `upto` old lines. */
  ghost function Patched<T>(before: seq<T>, after: seq<T>, hunks: seq<Hunk>, upto: int): seq<T> {
    if hunks == [] then Lines(before, 1, upto)
    else
      var h := hunks[|hunks| - 1];
      Patched(before, after, hunks[..|hunks| - 1], h.a - 1) + Lines(after, h.c, h.d) + Lines(before, h.b + 1, upto)
  }

  /** Hunks ascend without touching, stay within both files, and none is empty. */
  ghost predicate Orderly(hunks: seq<Hunk>, m: int, n: int) {
    && (forall i :: 0 <= i < |hunks| ==>
          var h := hunks[i];
          1 <= h.a <= h.b + 1 <= m + 1 && 1 <= h.c <= h.d + 1 <= n + 1 && (h.a <= h.b || h.c <= h.d))
    && (forall i, k :: 0 <= i < k < |hunks| ==> hunks[i].b + 1 < hunks[k].a && hunks[i].d + 1 < hunks[k].c)
  }

  /** `change` reports nothing for a change that is empty on both sides. */
  function Report(hunks: seq<Hunk>, a: int, b: int, c: int, d: int): seq<Hunk> {
    if a > b && c > d then hunks else hunks + [Hunk(a, b, c, d)]
  }

  /** The hunks turn the first `upto` old lines into the first `p` new ones: between them,
      old and new lines agree one by one. */
  ghost predicate Produced<T>(before: seq<T>, after: seq<T>, hunks: seq<Hunk>, upto: int, p: int)
    decreases |hunks|
  {
    && 0 <= upto <= |before| && 0 <= p <= |after|
    && if hunks == [] then upto == p && before[..upto] == after[..p]
       else
         var h := hunks[|hunks| - 1];
         && Produced(before, after, hunks[..|hunks| - 1], h.a - 1, h.c - 1)
         && h.a - 1 <= h.b <= upto && h.c - 1 <= h.d <= p && upto - h.b == p - h.d
         && before[h.b..upto] == after[h.d..p]
  }

  lemma LinesAreSlices<T>(s: seq<T>, from: int, to: int)
    requires 0 <= from - 1 <= to <= |s|
    ensures Lines(s, from, to) == s[from - 1..to]
  {
  }

  lemma ThreeSlices<T>(s: seq<T>, i: int, j: int, k: int)
    requires 0 <= i <= j <= k <= |s|
    ensures s[..k] == s[..i] + s[i..j] + s[j..k]
  {
  }

  lemma PatchedAt<T>(before: seq<T>, after: seq<T>, hunks: seq<Hunk>, upto: int)
    requires hunks != []
    ensures
      var h := hunks[|hunks| - 1];
      Patched(before, after, hunks, upto)
      == Patched(before, after, hunks[..|hunks| - 1], h.a - 1) + Lines(after, h.c, h.d) + Lines(before, h.b + 1, upto)
  {
  }

  lemma NothingPatched<T>(before: seq<T>, after: seq<T>, upto: int)
    ensures Patched(before, after, [], upto) == Lines(before, 1, upto)
  {
  }

  /** Applying such hunks gives the new text. */
  lemma {:induction false} ProducedIsPatched<T>(before: seq<T>, after: seq<T>, hunks: seq<Hunk>, upto: int, p: int)
    requires Produced(before, after, hunks, upto, p)
    ensures Patched(before, after, hunks, upto) == after[..p]
    decreases |hunks|
  {
    hide Lines, Patched;
    if hunks == [] {
      LinesAreSlices(before, 1, upto);
      NothingPatched(before, after, upto);
    } else {
      var h := hunks[|hunks| - 1];
      ProducedIsPatched(before, after, hunks[..|hunks| - 1], h.a - 1, h.c - 1);
      LinesAreSlices(after, h.c, h.d);
      LinesAreSlices(before, h.b + 1, upto);
      ThreeSlices(after, h.c - 1, h.d, p);
      PatchedAt(before, after, hunks, upto);
    }
  }

  /** How many old lines the hunks take away. */
  function Removed(hunks: seq<Hunk>): int {
    if hunks == [] then 0 else Removed(hunks[..|hunks| - 1]) + hunks[|hunks| - 1].b - hunks[|hunks| - 1].a + 1
  }

  lemma RemovedMore(hunks: seq<Hunk>, a: int, b: int, c: int, d: int)
    requires a <= b + 1
    ensures Removed(Report(hunks, a, b, c, d)) == Removed(hunks) + b - a + 1
  {
    if a <= b || c <= d {
      assert Report(hunks, a, b, c, d)[..|hunks|] == hunks;
    }
  }

  lemma {:induction false} NoPairs(M: seq<int>, i: int, k: int)
    requires 0 <= i <= k <= |M| && forall j :: i <= j < k ==> M[j] == 0
    ensures Pairs(M[..k]) == Pairs(M[..i])
    decreases k - i
  {
    if i < k {
      NoPairs(M, i, k - 1);
      assert M[..k][..k - 1] == M[..k - 1];
    }
  }

  lemma CopyLine<T>(before: seq<T>, after: seq<T>, hunks: seq<Hunk>, i: int, p: int)
    requires Produced(before, after, hunks, i, p) && i < |before| && p < |after| && before[i] == after[p]
    ensures Produced(before, after, hunks, i + 1, p + 1)
  {
    var u, v := if hunks == [] then 0 else hunks[|hunks| - 1].b, if hunks == [] then 0 else hunks[|hunks| - 1].d;
    assert before[u..i + 1] == before[u..i] + [before[i]];
    assert after[v..p + 1] == after[v..p] + [after[p]];
  }

  lemma ReplaceLines<T>(before: seq<T>, after: seq<T>, hunks: seq<Hunk>, i0: int, i1: int, p: int, j1: int)
    requires Produced(before, after, hunks, i0 - 1, p) && i0 <= i1 + 1 <= |before| + 1 && p <= j1 <= |after|
    ensures Produced(before, after, Report(hunks, i0, i1, p + 1, j1), i1, j1)
  {
    if i0 <= i1 || p + 1 <= j1 {
      var more := hunks + [Hunk(i0, i1, p + 1, j1)];
      assert more[..|more| - 1] == hunks;
      assert before[i1..i1] == after[j1..j1];
    }
  }

  lemma AddOrderly(hunks: seq<Hunk>, m: int, n: int, m': int, n': int, h: Hunk)
    requires Orderly(hunks, m, n) && m + 1 < h.a <= h.b + 1 <= m' + 1 && n + 1 < h.c <= h.d + 1 <= n' + 1
    requires m >= 0 && n >= 0 && (h.a <= h.b || h.c <= h.d)
    ensures Orderly(hunks + [h], m', n')
  {
    var more := hunks + [h];
    forall i | 0 <= i < |hunks| ensures more[i].b + 1 < h.a && more[i].d + 1 < h.c {
      assert more[i] == hunks[i];
    }
  }

  // ---- The changes of a matching ----

  /** The last of the first `i` old lines that has a match, or 0. */
  ghost function LastMatched(M: seq<int>, i: int): (k: int)
    requires 0 <= i <= |M|
    ensures 0 <= k <= i && (k > 0 ==> M[k - 1] != 0) && forall j :: k <= j < i ==> M[j] == 0
  {
    if i == 0 || M[i - 1] != 0 then i else LastMatched(M, i - 1)
  }

  /** The new line matched with old line `i`; the files also match before their first lines. */
  ghost function Partner(M: seq<int>, i: int): int
    requires 0 <= i <= |M|
  {
    if i == 0 then 0 else M[i - 1]
  }

  /** What lies between one match and the next, in the first `i` old and `p` new lines. */
  ghost function Gaps(M: seq<int>, i: int, p: int): seq<Hunk>
    requires 0 <= i <= |M|
    decreases i
  {
    var k := LastMatched(M, i);
    Report(GapsBefore(M, k), k + 1, i, Partner(M, k) + 1, p)
  }

  ghost function GapsBefore(M: seq<int>, k: int): seq<Hunk>
    requires 0 <= k <= |M|
    decreases k, 0
  {
    if k == 0 then [] else Gaps(M, k - 1, M[k - 1] - 1)
  }

  lemma GapStep(M: seq<int>, k: int, i: int, p: int)
    requires 0 <= k <= i <= |M| && (k > 0 ==> M[k - 1] != 0) && forall j :: k <= j < i ==> M[j] == 0
    ensures LastMatched(M, i) == k && Gaps(M, i, p) == Report(GapsBefore(M, k), k + 1, i, Partner(M, k) + 1, p)
  {
    var l := LastMatched(M, i);
    assert l >= k;
  }

  /** A match leaves nothing between itself and the line before. */
  lemma GapAtMatch(M: seq<int>, k: int)
    requires 0 <= k <= |M| && (k > 0 ==> M[k - 1] != 0)
    ensures Gaps(M, k, Partner(M, k)) == GapsBefore(M, k)
  {
    GapStep(M, k, k, Partner(M, k));
  }

  /** They are hunks that turn the old lines into the new ones, and take away no line with a match. */
  lemma {:induction false} GapsRight<T>(before: seq<T>, after: seq<T>, M: seq<int>, i: int, p: int)
    requires Matching(before, after, M) && 0 <= i <= |M| && 0 <= p <= |after|
    requires forall j :: 0 <= j < i ==> M[j] <= p
    ensures Orderly(Gaps(M, i, p), i, p) && Produced(before, after, Gaps(M, i, p), i, p)
    ensures Pairs(M[..i]) + Removed(Gaps(M, i, p)) == i
    decreases i, 1
  {
    hide Orderly, Produced, Removed;
    var k := LastMatched(M, i);
    var q, front := Partner(M, k), GapsBefore(M, k);
    GapsBeforeRight(before, after, M, k);
    NoPairs(M, k, i);
    RemovedMore(front, k + 1, i, q + 1, p);
    ReplaceLines(before, after, front, k + 1, i, q, p);
    if k < i || q < p {
      OrderlyMore(front, k, q, i, p);
    }
  }

  lemma {:induction false} GapsBeforeRight<T>(before: seq<T>, after: seq<T>, M: seq<int>, k: int)
    requires Matching(before, after, M) && 0 <= k <= |M| && (k > 0 ==> M[k - 1] != 0)
    ensures
      var q, front := Partner(M, k), GapsBefore(M, k);
      && 0 <= q <= |after| && (if k == 0 then front == [] && q == 0 else 1 <= q && Orderly(front, k - 1, q - 1))
      && Orderly(front, k, q) && Produced(before, after, front, k, q) && Pairs(M[..k]) + Removed(front) == k
    decreases k, 0
  {
    hide Produced, Gaps, Removed, Orderly;
    if k > 0 {
      var q := M[k - 1];
      forall j | 0 <= j < k - 1 ensures M[j] <= q - 1 {
      }
      assert before[k - 1] == after[q - 1];
      hide Matching;
      GapsRight(before, after, M, k - 1, q - 1);
      CopyLine(before, after, Gaps(M, k - 1, q - 1), k - 1, q - 1);
      OrderlyInside(Gaps(M, k - 1, q - 1), k - 1, q - 1);
      assert M[..k][..k - 1] == M[..k - 1];
    } else {
      NothingProduced(before, after);
    }
  }

  lemma OrderlyInside(hunks: seq<Hunk>, m: int, n: int)
    requires Orderly(hunks, m, n)
    ensures Orderly(hunks, m + 1, n + 1)
  {
  }

  lemma NothingProduced<T>(before: seq<T>, after: seq<T>)
    ensures Produced(before, after, [], 0, 0) && Removed([]) == 0 && Orderly([], 0, 0)
  {
  }

  lemma OrderlyMore(front: seq<Hunk>, k: int, q: int, i: int, p: int)
    requires if k == 0 then front == [] && q == 0 else 1 <= k && 1 <= q && Orderly(front, k - 1, q - 1)
    requires k <= i && q <= p && (k < i || q < p)
    ensures Orderly(front + [Hunk(k + 1, i, q + 1, p)], i, p)
  {
    if k > 0 {
      AddOrderly(front, k - 1, q - 1, i, p, Hunk(k + 1, i, q + 1, p));
    }
  }

  // ---- The forward scan ----

  /** Old line `i0` is the next to look at, and changes before it have been reported. Either it follows a
      match, or it is matched itself right after what was reported. */
  ghost predicate Scanned(M: seq<int>, n: int, J: seq<int>, i0: int, hunks: seq<Hunk>) {
    && |J| == |M| + 2 && 1 <= i0 <= |M| + 1 && J[|M| + 1] == n + 1
    && (forall i {:trigger J[i]} :: i0 <= i <= |M| ==> J[i] == M[i - 1])
    && hunks == Gaps(M, i0 - 1, J[i0 - 1])
    && (J[i0] == J[i0 - 1] + 1 != 0 || (J[i0 - 1] == Partner(M, i0 - 1) && (i0 > 1 ==> M[i0 - 2] != 0)))
  }

  lemma ScanCopy(M: seq<int>, n: int, J: seq<int>, i0: int, hunks: seq<Hunk>)
    requires Scanned(M, n, J, i0, hunks) && i0 <= |M| && J[i0] == J[i0 - 1] + 1 != 0
    ensures Scanned(M, n, J, i0 + 1, hunks)
  {
    assert M[i0 - 1] == J[i0];
    GapAtMatch(M, i0);
  }

  lemma ScanHunk(M: seq<int>, n: int, J: seq<int>, i0: int, i1: int, hunks: seq<Hunk>)
    requires Scanned(M, n, J, i0, hunks) && i0 - 1 <= i1 <= |M| && (i0 <= |M| ==> J[i0] != J[i0 - 1] + 1)
    requires J[i1 + 1] != 0 && forall j {:trigger J[j]} :: i0 <= j <= i1 ==> J[j] == 0
    ensures
      var j1 := J[i1 + 1] - 1;
      Scanned(M, n, J[i1 := j1], i1 + 1, Report(hunks, i0, i1, J[i0 - 1] + 1, j1))
  {
    var j1 := J[i1 + 1] - 1;
    if J[i0] == J[i0 - 1] + 1 {
      assert J[i1 := j1] == J;
    } else {
      forall j | i0 - 1 <= j < i1 ensures M[j] == 0 {
        assert J[j + 1] == 0;
      }
      GapAtMatch(M, i0 - 1);
      GapStep(M, i0 - 1, i1, j1);
    }
  }

  method CopyMatched(J: array<int>, m: nat, n: nat, i0: int, ghost S: seq<int>, ghost M: seq<int>,
                     ghost hunks: seq<Hunk>)
    returns (i: int)
    requires J.Length == m + 2 && |M| == m && J[..] == S && Scanned(M, n, S, i0, hunks)
    requires forall j :: 0 <= j < m ==> M[j] >= 0
    ensures Scanned(M, n, S, i, hunks)
    ensures i0 <= i <= m + 1 && (i <= m ==> S[i] != S[i - 1] + 1)
    ensures i == i0 <==> i0 > m || S[i0] != S[i0 - 1] + 1
  {
    i := i0;
    while i <= m && J[i] == J[i - 1] + 1
      invariant i0 <= i <= m + 1 && Scanned(M, n, S, i, hunks)
      invariant i > i0 ==> S[i0] == S[i0 - 1] + 1 && i0 <= m
    {
      ScanCopy(M, n, S, i, hunks);
      i := i + 1;
    }
  }

  method SkipUnmatched(J: array<int>, m: nat, i0: int, ghost S: seq<int>) returns (i1: int)
    requires J.Length == m + 2 && 1 <= i0 <= m + 1 && J[m + 1] != 0 && J[..] == S
    ensures i0 - 1 <= i1 <= m && J[i1 + 1] != 0
    ensures forall j {:trigger S[j]} :: i0 <= j <= i1 ==> S[j] == 0
  {
    i1 := i0 - 1;
    while i1 < m && J[i1 + 1] == 0
      invariant i0 - 1 <= i1 <= m
      invariant forall j {:trigger S[j]} :: i0 <= j <= i1 ==> S[j] == 0
    {
      i1 := i1 + 1;
    }
  }

  method NextHunk(J: array<int>, m: nat, n: nat, i0: int, hunks: seq<Hunk>, ghost J0: seq<int>, ghost M: seq<int>)
    returns (i: int, hunks': seq<Hunk>, ghost J1: seq<int>)
    requires J.Length == m + 2 && |M| == m && J[..] == J0 && Scanned(M, n, J0, i0, hunks)
    requires i0 <= m ==> J[i0] != J[i0 - 1] + 1
    modifies J
    ensures J[..] == J1 && Scanned(M, n, J1, i, hunks')
    ensures i0 <= i <= m + 1 && (i == i0 <= m ==> J1[i] == J1[i - 1] + 1) && (i == m + 1 ==> J1[m] == n)
  {
    var j0 := J[i0 - 1] + 1;
    var i1 := SkipUnmatched(J, m, i0, J0);
    var j1 := J[i1 + 1] - 1;
    J1 := J0[i1 := j1];
    hunks' := Report(hunks, i0, i1, j0, j1);
    ScanHunk(M, n, J0, i0, i1, hunks);
    J[i1] := j1;
    i := i1 + 1;
  }

  /** The forward scan of `output`: it marks finished hunks in `J` as it goes. It reports exactly what lies
      between the matches, and that turns the old text into the new one. */
  method Hunks<T>(J: array<int>, ghost before: seq<T>, ghost after: seq<T>, m: nat, n: nat) returns (hunks: seq<Hunk>)
    requires J.Length == m + 2 && m == |before| && n == |after| && Matching(before, after, J[1..m + 1])
    modifies J
    ensures hunks == Gaps(old(J[1..m + 1]), m, n)
    ensures Orderly(hunks, |before|, |after|)
    ensures Produced(before, after, hunks, |before|, |after|)
    ensures Patched(before, after, hunks, |before|) == after
    ensures Pairs(old(J[1..m + 1])) + Removed(hunks) == |before|
  {
    hide Scanned, Orderly, Patched, Produced, Matching, Pairs, Removed, Gaps;
    ghost var M := J[1..m + 1];
    MatchesInside(before, after, M);
    J[0] := 0;
    J[m + 1] := n + 1;
    hunks := [];
    var i0 := 1;
    ghost var S := J[..];
    ScanBegins(M, n, S);
    while i0 <= m
      invariant J[..] == S && Scanned(M, n, S, i0, hunks) == true
      invariant i0 <= m + 1 && (m > 0 && i0 == m + 1 ==> S[m] == n)
      invariant m == 0 ==> hunks == []
      decreases m - i0, i0 <= m && S[i0] != S[i0 - 1] + 1
    {
      i0 := CopyMatched(J, m, n, i0, S, M, hunks);
      i0, hunks, S := NextHunk(J, m, n, i0, hunks, S, M);
    }
    if m == 0 {
      hunks := Report(hunks, 1, 0, 1, n);
    }
    ScanEnds(M, n, S, i0, hunks);
    GapsRight(before, after, M, m, n);
    ProducedIsPatched(before, after, hunks, m, n);
    assert M[..m] == M && after[..n] == after;
  }

  lemma MatchesInside<T>(before: seq<T>, after: seq<T>, M: seq<int>)
    requires Matching(before, after, M)
    ensures |M| == |before| && forall j :: 0 <= j < |M| ==> 0 <= M[j] <= |after|
  {
  }

  lemma ScanBegins(M: seq<int>, n: int, S: seq<int>)
    requires |S| == |M| + 2 && S[0] == 0 && S[|M| + 1] == n + 1 && forall i :: 1 <= i <= |M| ==> S[i] == M[i - 1]
    ensures Scanned(M, n, S, 1, [])
  {
  }

  lemma ScanEnds(M: seq<int>, n: nat, S: seq<int>, i0: int, hunks: seq<Hunk>)
    requires
      if M == [] then hunks == Report([], 1, 0, 1, n)
      else Scanned(M, n, S, |M| + 1, hunks) && S[|M|] == n
    ensures hunks == Gaps(M, |M|, n)
  {
  }
}
