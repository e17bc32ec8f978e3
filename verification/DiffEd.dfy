/** The backward scan of `output` and the `ed` script it drives: commands are executed one at a
    time on a buffer, so each has to be right for the line numbers left by those before it. */
module DiffEd {
  import opened Wrappers
  import opened Lcs
  import opened DiffOutput

  datatype EdCommand<T> = Append(at: int, text: seq<T>) | Delete(from: int, to: int) | Replace(from: int, to: int,
      text: seq<T>)

  /** What `change` prints in script mode: `range` names the last old line of an empty range. */
  ghost function Command<T>(after: seq<T>, h: Hunk): EdCommand<T> {
    if h.a > h.b then Append(h.b, Lines(after, h.c, h.d))
    else if h.c > h.d then Delete(h.a, h.b)
    else Replace(h.a, h.b, Lines(after, h.c, h.d))
  }

  /** An address outside the buffer is an error. */
  ghost function Exec<T>(buf: seq<T>, cmd: EdCommand<T>): Option<seq<T>> {
    match cmd
    case Append(n, text) => if 0 <= n <= |buf| then Some(buf[..n] + text + buf[n..]) else None
    case Delete(a, b) => if 1 <= a <= b <= |buf| then Some(buf[..a - 1] + buf[b..]) else None
    case Replace(a, b, text) => if 1 <= a <= b <= |buf| then Some(buf[..a - 1] + text + buf[b..]) else None
  }

  /** The buffer after the commands for all hunks, in the order in which they were reported. */
  ghost function Run<T>(before: seq<T>, after: seq<T>, hunks: seq<Hunk>): Option<seq<T>> {
    if hunks == [] then Some(before)
    else match Run(before, after, hunks[..|hunks| - 1])
      case None => None
      case Some(buf) => Exec(buf, Command(after, hunks[|hunks| - 1]))
  }

  /** Hunks reported backwards: below the last one, `i` old lines stand for the first `p` new ones. */
  ghost predicate Replaced<T>(before: seq<T>, after: seq<T>, hunks: seq<Hunk>, i: int, p: int)
    decreases |hunks|
  {
    && 0 <= i <= |before| && 0 <= p <= |after|
    && if hunks == [] then before[i..] == after[p..]
       else
         var h := hunks[|hunks| - 1];
         && Replaced(before, after, hunks[..|hunks| - 1], h.b, h.d)
         && i <= h.a - 1 <= h.b && p <= h.c - 1 <= h.d && h.a - i == h.c - p && (h.a <= h.b || h.c <= h.d)
         && before[i..h.a - 1] == after[p..h.c - 1]
  }

  lemma ExecReplaces<T>(before: seq<T>, after: seq<T>, h: Hunk)
    requires 0 <= h.a - 1 <= h.b <= |before| && 0 <= h.c - 1 <= h.d <= |after| && (h.a <= h.b || h.c <= h.d)
    ensures Exec(before[..h.b] + after[h.d..], Command(after, h)) == Some(before[..h.a - 1] + after[h.c - 1..])
  {
    var buf := before[..h.b] + after[h.d..];
    var text := after[h.c - 1..h.d];
    LinesAreSlices(after, h.c, h.d);
    assert buf[..h.a - 1] == before[..h.a - 1];
    assert buf[h.b..] == after[h.d..];
    assert after[h.c - 1..] == text + after[h.d..];
    assert before[..h.a - 1] + text + after[h.d..] == before[..h.a - 1] + after[h.c - 1..];
  }

  lemma Slide<T>(before: seq<T>, after: seq<T>, i: int, p: int, x: int, y: int)
    requires 0 <= i <= x <= |before| && 0 <= p <= y <= |after| && before[i..x] == after[p..y]
    ensures before[..x] + after[y..] == before[..i] + after[p..]
  {
    assert before[..x] == before[..i] + before[i..x];
    assert after[p..] == after[p..y] + after[y..];
  }

  /** Every prefix of the script leaves the old text up to some line followed by finished new text. */
  lemma {:induction false} RunReplaces<T>(before: seq<T>, after: seq<T>, hunks: seq<Hunk>, i: int, p: int)
    requires Replaced(before, after, hunks, i, p)
    ensures Run(before, after, hunks) == Some(before[..i] + after[p..])
    decreases |hunks|
  {
    if hunks == [] {
      assert before == before[..i] + before[i..];
    } else {
      var h := hunks[|hunks| - 1];
      RunReplaces(before, after, hunks[..|hunks| - 1], h.b, h.d);
      ExecReplaces(before, after, h);
      Slide(before, after, i, p, h.a - 1, h.c - 1);
    }
  }

  /** Hunks in the opposite order. */
  ghost function Backwards(hunks: seq<Hunk>): (r: seq<Hunk>) {
    if hunks == [] then [] else [hunks[|hunks| - 1]] + Backwards(hunks[..|hunks| - 1])
  }

  /** What one more hunk reported adds in front. */
  lemma BackwardsMore(hunks: seq<Hunk>, a: int, b: int, c: int, d: int, front: seq<Hunk>)
    ensures front + Backwards(Report(hunks, a, b, c, d)) == Report(front, a, b, c, d) + Backwards(hunks)
  {
    if a <= b || c <= d {
      assert Report(hunks, a, b, c, d)[..|hunks|] == hunks;
    }
  }

  // ---- The scan ----

  /** What is left of the matching at and before old line `i0`, above which new lines from `J[i0 + 1]` on are done. */
  ghost predicate Before(M: seq<int>, n: int, J: seq<int>, i0: int) {
    && |J| == |M| + 2 && 0 <= i0 <= |M|
    && 1 <= J[i0 + 1] <= n + 1 && J[0] == 0
    && (forall i {:trigger J[i]} :: 1 <= i <= i0 ==> J[i] == M[i - 1] && 0 <= J[i] < J[i0 + 1])
  }

  ghost predicate Scanned<T>(before: seq<T>, after: seq<T>, M: seq<int>, J: seq<int>, i0: int, hunks: seq<Hunk>) {
    && Matching(before, after, M) && Before(M, |after|, J, i0)
    && Replaced(before, after, hunks, i0, J[i0 + 1] - 1)
    && Reported(M, |after|, hunks, i0, J[i0 + 1] - 1)
  }

  /** Of the changes, all but those in the first `i` old and `p` new lines have been reported. */
  ghost predicate Reported(M: seq<int>, n: int, hunks: seq<Hunk>, i: int, p: int) {
    0 <= i <= |M| && Gaps(M, i, p) + Backwards(hunks) == Gaps(M, |M|, n)
  }

  lemma ReportBack(M: seq<int>, n: int, hunks: seq<Hunk>, i: int, k: int, p: int)
    requires Reported(M, n, hunks, i, p) && 0 <= k <= i && (k > 0 ==> M[k - 1] != 0)
    requires forall j :: k <= j < i ==> M[j] == 0
    ensures Reported(M, n, Report(hunks, k + 1, i, Partner(M, k) + 1, p), k, Partner(M, k))
  {
    hide Gaps, GapsBefore, Backwards, Report, LastMatched, Partner;
    GapAtMatch(M, k);
    GapStep(M, k, i, p);
    BackwardsMore(hunks, k + 1, i, Partner(M, k) + 1, p, GapsBefore(M, k));
  }

  lemma KeepLine<T>(before: seq<T>, after: seq<T>, hunks: seq<Hunk>, i: int, p: int)
    requires Replaced(before, after, hunks, i, p) && 0 < i && 0 < p && before[i - 1] == after[p - 1]
    ensures Replaced(before, after, hunks, i - 1, p - 1)
  {
    if hunks == [] {
      assert before[i - 1..] == [before[i - 1]] + before[i..];
      assert after[p - 1..] == [after[p - 1]] + after[p..];
    } else {
      var h := hunks[|hunks| - 1];
      assert before[i - 1..h.a - 1] == [before[i - 1]] + before[i..h.a - 1];
      assert after[p - 1..h.c - 1] == [after[p - 1]] + after[p..h.c - 1];
    }
  }

  lemma ReplaceBack<T>(before: seq<T>, after: seq<T>, hunks: seq<Hunk>, i0: int, i1: int, j1: int, p: int)
    requires Replaced(before, after, hunks, i0, p) && 1 <= i1 <= i0 + 1 && 1 <= j1 <= p + 1
    ensures Replaced(before, after, Report(hunks, i1, i0, j1, p), i1 - 1, j1 - 1)
  {
    if i1 <= i0 || j1 <= p {
      var more := hunks + [Hunk(i1, i0, j1, p)];
      assert more[..|more| - 1] == hunks;
      assert before[i1 - 1..i1 - 1] == after[j1 - 1..j1 - 1];
    }
  }

  lemma ScanKeep<T>(before: seq<T>, after: seq<T>, M: seq<int>, J: seq<int>, i0: int, hunks: seq<Hunk>)
    requires Scanned(before, after, M, J, i0, hunks) && i0 >= 1 && J[i0] == J[i0 + 1] - 1 && J[i0] != 0
    ensures Scanned(before, after, M, J, i0 - 1, hunks)
  {
    assert M[i0 - 1] == J[i0];
    KeepLine(before, after, hunks, i0, J[i0]);
    GapAtMatch(M, i0);
    forall i {:trigger J[i]} | 1 <= i <= i0 - 1 ensures J[i] < J[i0] {
      assert M[i - 1] == J[i];
    }
  }

  ghost predicate Increasing(M: seq<int>) {
    forall i, k :: 0 <= i < k < |M| && M[i] != 0 && M[k] != 0 ==> M[i] < M[k]
  }

  lemma BeforeHunk(M: seq<int>, n: int, J: seq<int>, i0: int, i1: int)
    requires Increasing(M) && Before(M, n, J, i0) && 1 <= i1 <= i0 + 1
    requires (i1 == 1 || J[i1 - 1] != 0) && forall j {:trigger J[j]} :: i1 <= j <= i0 ==> J[j] == 0
    ensures |J| == |M| + 2 && 0 <= i0 <= |M| && 0 <= J[i1 - 1] < J[i0 + 1] <= n + 1
    ensures Before(M, n, J[i1 := J[i1 - 1] + 1], i1 - 1)
    ensures J[i1 - 1] == Partner(M, i1 - 1) && (i1 > 1 ==> M[i1 - 2] != 0)
    ensures forall j :: i1 - 1 <= j < i0 ==> M[j] == 0
  {
    forall j | i1 - 1 <= j < i0 ensures M[j] == 0 {
      assert J[j + 1] == 0;
    }
  }

  lemma MatchesAscend<T>(before: seq<T>, after: seq<T>, M: seq<int>)
    requires Matching(before, after, M)
    ensures Increasing(M) && |M| == |before|
  {
  }

  lemma ScanBack<T>(before: seq<T>, after: seq<T>, M: seq<int>, J: seq<int>, i0: int, i1: int, j1: int, j0: int,
                    hunks: seq<Hunk>)
    requires Scanned(before, after, M, J, i0, hunks) && 1 <= i1 <= i0 + 1
    requires (i1 == 1 || J[i1 - 1] != 0) && forall j {:trigger J[j]} :: i1 <= j <= i0 ==> J[j] == 0
    requires j0 == J[i0 + 1] - 1 && j1 == J[i1 - 1] + 1
    ensures Scanned(before, after, M, J[i1 := j1], i1 - 1, Report(hunks, i1, i0, j1, j0))
  {
    hide Replaced, Report, Before, Reported, Matching, Increasing, Partner;
    MatchesAscend(before, after, M);
    BeforeHunk(M, |after|, J, i0, i1);
    ReplaceBack(before, after, hunks, i0, i1, j1, j0);
    ReportBack(M, |after|, hunks, i0, i1 - 1, j0);
  }

  method KeepMatched<T>(J: array<int>, m: nat, i0: int, ghost S: seq<int>, ghost before: seq<T>, ghost after: seq<T>,
                        ghost M: seq<int>, ghost hunks: seq<Hunk>)
    returns (i: int)
    requires J.Length == m + 2 && |M| == m && J[..] == S && Scanned(before, after, M, S, i0, hunks)
    ensures Scanned(before, after, M, S, i, hunks)
    ensures 0 <= i <= i0 && (i >= 1 ==> !(S[i] == S[i + 1] - 1 && S[i] != 0))
    ensures i == i0 <==> i0 == 0 || !(S[i0] == S[i0 + 1] - 1 && S[i0] != 0)
  {
    i := i0;
    while i >= 1 && J[i] == J[i + 1] - 1 && J[i] != 0
      invariant 0 <= i <= i0 && Scanned(before, after, M, S, i, hunks)
      invariant i < i0 ==> S[i0] == S[i0 + 1] - 1 && S[i0] != 0
    {
      ScanKeep(before, after, M, S, i, hunks);
      i := i - 1;
    }
  }

  method SkipUnmatchedBack(J: array<int>, i0: int, ghost S: seq<int>) returns (i1: int)
    requires 0 <= i0 && i0 + 1 < J.Length && J[..] == S
    ensures 1 <= i1 <= i0 + 1 && (forall j {:trigger S[j]} :: i1 <= j <= i0 ==> S[j] == 0)
        && (i1 == 1 || J[i1 - 1] != 0)
    ensures i1 == i0 + 1 <==> i0 == 0 || J[i0] != 0
  {
    i1 := i0 + 1;
    while i1 > 1 && J[i1 - 1] == 0
      invariant 1 <= i1 <= i0 + 1
      invariant i1 < i0 + 1 ==> J[i0] == 0 && i0 > 0
      invariant forall j {:trigger S[j]} :: i1 <= j <= i0 ==> S[j] == 0
    {
      i1 := i1 - 1;
    }
  }

  lemma ScanInside<T>(before: seq<T>, after: seq<T>, M: seq<int>, J: seq<int>, i0: int, hunks: seq<Hunk>)
    requires Scanned(before, after, M, J, i0, hunks)
    ensures 0 <= i0 <= |M| == |J| - 2 && J[0] == 0
  {
  }

  method NextHunkBack<T>(J: array<int>, m: nat, i0: int, hunks: seq<Hunk>, ghost J0: seq<int>, ghost before: seq<T>,
                         ghost after: seq<T>, ghost M: seq<int>)
    returns (i: int, hunks': seq<Hunk>, ghost J1: seq<int>)
    requires J.Length == m + 2 && |M| == m && J[..] == J0 && Scanned(before, after, M, J0, i0, hunks)
    modifies J
    ensures J[..] == J1 && Scanned(before, after, M, J1, i, hunks')
    ensures 0 <= i <= i0 && (i == i0 > 0 ==> J1[i] == J1[i + 1] - 1 && J1[i] != 0) && (i == 0 ==> J1[1] == 1)
  {
    hide Scanned;
    ScanInside(before, after, M, J0, i0, hunks);
    var j0 := J[i0 + 1] - 1;
    var i1 := SkipUnmatchedBack(J, i0, J0);
    var j1 := J[i1 - 1] + 1;
    J1 := J0[i1 := j1];
    ScanBack(before, after, M, J0, i0, i1, j1, j0, hunks);
    J[i1] := j1;
    hunks' := Report(hunks, i1, i0, j1, j0);
    i := i1 - 1;
  }

  lemma ScanStarts<T>(before: seq<T>, after: seq<T>, M: seq<int>, S: seq<int>)
    requires Matching(before, after, M) && |S| == |M| + 2 && |M| == |before|
    requires S[0] == 0 && S[|M| + 1] == |after| + 1 && forall i :: 1 <= i <= |M| ==> S[i] == M[i - 1]
    ensures Scanned(before, after, M, S, |M|, [])
  {
    assert Gaps(M, |M|, |after|) + [] == Gaps(M, |M|, |after|);
  }

  lemma ScanDone<T>(before: seq<T>, after: seq<T>, M: seq<int>, S: seq<int>, hunks: seq<Hunk>)
    requires Scanned(before, after, M, S, 0, hunks) && |S| > 1 && S[1] == 1
    ensures Replaced(before, after, hunks, 0, 0) && Backwards(hunks) == Gaps(M, |before|, |after|)
  {
    GapStep(M, 0, 0, 0);
    assert [] + Backwards(hunks) == Backwards(hunks);
  }

  lemma AllAdded<T>(before: seq<T>, after: seq<T>)
    requires before == []
    ensures
      var hunks := Report([], 1, 0, 1, |after|);
      Replaced(before, after, hunks, 0, 0) && Backwards(hunks) == Gaps([], 0, |after|)
  {
    ReplaceBack(before, after, [], 0, 1, 1, |after|);
    GapStep([], 0, 0, |after|);
    BackwardsMore([], 1, 0, 1, |after|, []);
  }

  /** The backward scan of `output`; its hunks, executed as `ed` commands, rebuild the new file. They are
      those of the forward scan, from the last to the first. */
  method HunksBack<T>(J: array<int>, ghost before: seq<T>, ghost after: seq<T>, m: nat, n: nat)
    returns (hunks: seq<Hunk>)
    requires J.Length == m + 2 && m == |before| && n == |after| && Matching(before, after, J[1..m + 1])
    modifies J
    ensures Run(before, after, hunks) == Some(after)
    ensures Backwards(hunks) == Gaps(old(J[1..m + 1]), m, n)
    ensures Orderly(Backwards(hunks), m, n) && Produced(before, after, Backwards(hunks), m, n)
    ensures Pairs(old(J[1..m + 1])) + Removed(Backwards(hunks)) == |before|
  {
    hide Scanned, Run, Replaced, Gaps, Orderly, Produced, Matching, Pairs, Removed, Backwards;
    ghost var M := J[1..m + 1];
    J[0] := 0;
    J[m + 1] := n + 1;
    hunks := [];
    var i0 := m;
    ghost var S := J[..];
    ScanStarts(before, after, M, S);
    while i0 >= 1
      invariant 0 <= i0 <= m && J[..] == S && Scanned(before, after, M, S, i0, hunks)
      invariant m > 0 && i0 == 0 ==> S[1] == 1
      invariant m == 0 ==> hunks == []
      decreases i0, i0 >= 1 && !(S[i0] == S[i0 + 1] - 1 && S[i0] != 0)
    {
      i0 := KeepMatched(J, m, i0, S, before, after, M, hunks);
      i0, hunks, S := NextHunkBack(J, m, i0, hunks, S, before, after, M);
    }
    if m == 0 {
      hunks := Report(hunks, 1, 0, 1, n);
      AllAdded(before, after);
    } else {
      ScanDone(before, after, M, S, hunks);
    }
    RunReplaces(before, after, hunks, 0, 0);
    assert before[..0] + after[0..] == after;
    MatchesInside(before, after, M);
    GapsRight(before, after, M, m, n);
    assert M[..m] == M;
  }
}
