/** The program end to end: hash, match, check the matches against the lines, report. */
module Diff {
  import opened Wrappers
  import opened Lcs
  import DiffReg
  import opened DiffOutput
  import DiffEd

  /** Matches found through hashes are looked up in the files; those due to confounding are broken. */
  method CheckMatches<T(==)>(J: array<int>, before: seq<T>, after: seq<T>, ghost hash0: seq<int>, ghost hash1: seq<int>)
    requires |hash0| == |before| && |hash1| == |after| && J.Length == |before| + 2
    requires Matching(hash0, hash1, J[1..|before| + 1])
    modifies J
    ensures Matching(before, after, J[1..|before| + 1])
    ensures forall i :: 1 <= i <= |before| ==>
      J[i] == if 1 <= old(J[i]) <= |after| && before[i - 1] == after[old(J[i]) - 1] then old(J[i]) else 0
  {
    hide Matching;
    ghost var M := J[1..|before| + 1];
    MatchesPointIn(hash0, hash1, M);
    var i := 1;
    while i <= |before|
      invariant 1 <= i <= |before| + 1
      invariant forall k :: i <= k <= |before| ==> J[k] == M[k - 1]
      invariant forall k {:trigger J[k]} :: 1 <= k < i ==>
          J[k] == if M[k - 1] != 0 && before[k - 1] == after[M[k - 1] - 1] then M[k - 1] else 0
    {
      assert J[i] == M[i - 1];
      if J[i] != 0 {
        if before[i - 1] != after[J[i] - 1] {
          J[i] := 0;
        }
      }
      i := i + 1;
    }
    CheckedIsMatching(before, after, hash0, hash1, M, J[1..|before| + 1]);
  }

  lemma MatchesPointIn(hash0: seq<int>, hash1: seq<int>, M: seq<int>)
    requires Matching(hash0, hash1, M)
    ensures |M| == |hash0| && forall k :: 0 <= k < |M| && M[k] != 0 ==> 1 <= M[k] <= |hash1|
  {
  }

  lemma CheckedIsMatching<T>(before: seq<T>, after: seq<T>, hash0: seq<int>, hash1: seq<int>, M: seq<int>, K: seq<int>)
    requires |hash0| == |before| && |hash1| == |after| && Matching(hash0, hash1, M) && |K| == |M|
    requires forall k :: 0 <= k < |M| ==> K[k] == if M[k] != 0 && before[k] == after[M[k] - 1] then M[k] else 0
    ensures Matching(before, after, K)
  {
  }

  /** Equal hashes mean equal lines and the other way round. */
  ghost predicate Faithful<T>(before: seq<T>, after: seq<T>, hash0: seq<int>, hash1: seq<int>)
    requires |hash0| == |before| && |hash1| == |after|
  {
    forall i, j :: 0 <= i < |before| && 0 <= j < |after| ==> (hash0[i] == hash1[j] <==> before[i] == after[j])
  }

  /** Where hashes tell lines apart, the matching is a longest one of the lines themselves. */
  lemma FaithfulHashing<T(!new)>(before: seq<T>, after: seq<T>, hash0: seq<int>, hash1: seq<int>, J: seq<int>)
    requires |hash0| == |before| && |hash1| == |after|
    requires Faithful(before, after, hash0, hash1)
    requires LongestMatching(hash0, hash1, J)
    ensures LongestMatching(before, after, J)
  {
    assert Matching(before, after, J);
    forall K | Matching(before, after, K) ensures Pairs(K) <= Pairs(J) {
      assert Matching(hash0, hash1, K);
    }
  }

  method MatchLines<T(==,!new)>(before: seq<T>, after: seq<T>, hash0: seq<int>, hash1: seq<int>) returns (J: array<int>)
    requires |hash0| == |before| && |hash1| == |after| && 0 !in hash0 && 0 !in hash1
    ensures fresh(J) && J.Length == |before| + 2 && Matching(before, after, J[1..|before| + 1])
    ensures Faithful(before, after, hash0, hash1) ==> LongestMatching(before, after, J[1..|before| + 1])
  {
    var len0, len1;
    J, len0, len1 := DiffReg.MatchFiles(hash0, hash1);
    assert len0 == |hash0| && len1 == |hash1|;
    assert hash0[..len0] == hash0 && hash1[..len1] == hash1;
    ghost var M := J[1..|before| + 1];
    CheckMatches(J, before, after, hash0, hash1);
    if Faithful(before, after, hash0, hash1) {
      FaithfulHashing(before, after, hash0, hash1, M);
      assert J[1..|before| + 1] == M;
    }
  }

  /** Forward output: whatever the hashes, the reported hunks turn the old lines into the new ones. */
  method ReportChanges<T(==,!new)>(before: seq<T>, after: seq<T>, hash0: seq<int>, hash1: seq<int>)
    returns (hunks: seq<Hunk>)
    requires |hash0| == |before| && |hash1| == |after| && 0 !in hash0 && 0 !in hash1
    ensures Orderly(hunks, |before|, |after|) && Produced(before, after, hunks, |before|, |after|)
    ensures Patched(before, after, hunks, |before|) == after
    ensures Faithful(before, after, hash0, hash1) ==> Removed(hunks) == |before| - Len(before, after, |before|, |after|)
  {
    hide Orderly, Produced, Patched, Matching, LongestMatching, Len, Pairs, Removed, Faithful;
    var J := MatchLines(before, after, hash0, hash1);
    ghost var M := J[1..|before| + 1];
    hunks := Hunks(J, before, after, |before|, |after|);
    if Faithful(before, after, hash0, hash1) {
      LongestIsLen(before, after, M);
    }
  }

  /** Script output: executing the commands one after the other rebuilds the new lines. Read backwards, they
      are such a report, and take as few lines out. */
  method EditScript<T(==,!new)>(before: seq<T>, after: seq<T>, hash0: seq<int>, hash1: seq<int>)
    returns (hunks: seq<Hunk>)
    requires |hash0| == |before| && |hash1| == |after| && 0 !in hash0 && 0 !in hash1
    ensures DiffEd.Run(before, after, hunks) == Some(after)
    ensures var report := DiffEd.Backwards(hunks);
      && Orderly(report, |before|, |after|) && Produced(before, after, report, |before|, |after|)
      && (Faithful(before, after, hash0, hash1) ==>
            Removed(report) == |before| - Len(before, after, |before|, |after|))
  {
    hide Orderly, Produced, Matching, LongestMatching, Len, Pairs, Removed, Faithful, DiffEd.Backwards, DiffEd.Run;
    var J := MatchLines(before, after, hash0, hash1);
    ghost var M := J[1..|before| + 1];
    hunks := DiffEd.HunksBack(J, before, after, |before|, |after|);
    if Faithful(before, after, hash0, hash1) {
      LongestIsLen(before, after, M);
    }
  }
}
