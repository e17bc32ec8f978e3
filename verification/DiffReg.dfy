/** The whole comparison: hashed files in, longest matching out. */
module DiffReg {
  import opened Arith
  import opened Lcs
  import opened DiffSort
  import opened DiffClasses
  import opened DiffStone

  /** A file read as hashes ends at the first hash 0. */
  ghost predicate FileRead(hashes: seq<int>, len: int) {
    && 0 <= len <= |hashes| && 0 !in hashes[..len]
    && (len < |hashes| ==> hashes[len] == 0)
  }

  ghost predicate Holding(file: seq<Line>, values: seq<int>) {
    |file| >= |values| + 3 && forall i :: 1 <= i <= |values| ==> file[i].value == values[i - 1]
  }

  method Prepare(hashes: seq<int>) returns (file: array<Line>, len: nat)
    ensures FileRead(hashes, len) && fresh(file) && Holding(file[..], hashes[..len])
  {
    len := 0;
    while len < |hashes| && hashes[len] != 0
      invariant len <= |hashes| && 0 !in hashes[..len]
    {
      len := len + 1;
    }
    file := new Line[len + 3](_ => Line(0, 0));
    var j := 0;
    while j < len
      invariant 0 <= j <= len
      invariant forall i :: 1 <= i <= j ==> file[i].value == hashes[i - 1]
    {
      j := j + 1;
      file[j] := file[j].(value := hashes[j - 1]);
    }
  }

  /** The common ends of two files: no longer common prefix, no longer common suffix beyond it. */
  ghost predicate CommonEnds(f0: seq<int>, f1: seq<int>, pref: int, suff: int) {
    && 0 <= pref && 0 <= suff && pref + suff <= |f0| && pref + suff <= |f1|
    && (forall k :: 0 <= k < pref ==> f0[k] == f1[k])
    && f0[|f0| - suff..] == f1[|f1| - suff..]
  }

  method Prune(file0: array<Line>, file1: array<Line>, ghost f0: seq<int>, ghost f1: seq<int>, len0: nat, len1: nat)
    returns (pref: nat, suff: nat)
    requires |f0| == len0 && |f1| == len1
    requires Holding(file0[..], f0) && Holding(file1[..], f1)
    ensures CommonEnds(f0, f1, pref, suff)
    ensures pref == len0 || pref == len1 || f0[pref] != f1[pref]
    ensures pref + suff == len0 || pref + suff == len1 || f0[len0 - 1 - suff] != f1[len1 - 1 - suff]
  {
    pref := 0;
    while pref < len0 && pref < len1 && file0[pref + 1].value == file1[pref + 1].value
      invariant pref <= len0 && pref <= len1
      invariant forall k :: 0 <= k < pref ==> f0[k] == f1[k]
    {
      pref := pref + 1;
    }
    suff := 0;
    while suff < len0 - pref && suff < len1 - pref && file0[len0 - suff].value == file1[len1 - suff].value
      invariant suff <= len0 - pref && suff <= len1 - pref
      invariant f0[len0 - suff..] == f1[len1 - suff..]
    {
      assert f0[len0 - suff - 1..] == [f0[len0 - suff - 1]] + f0[len0 - suff..];
      assert f1[len1 - suff - 1..] == [f1[len1 - suff - 1]] + f1[len1 - suff..];
      suff := suff + 1;
    }
  }

  /** The shortened file with its lines numbered from 1, and room for one sentinel. */
  method Shorten(file: array<Line>, ghost f: seq<int>, pref: nat, slen: nat) returns (sfile: array<Line>)
    requires Holding(file[..], f) && pref + slen <= |f|
    ensures fresh(sfile) && sfile.Length == slen + 2
    ensures sfile[1..slen + 1] == Numbered(f[pref..pref + slen])
  {
    sfile := new Line[slen + 2](_ => Line(0, 0));
    var i := 0;
    while i <= slen
      invariant 0 <= i <= slen + 1
      invariant forall k :: 1 <= k < i ==> sfile[k] == Line(k, f[pref + k - 1])
    {
      sfile[i] := Line(i, file[pref + i].value);
      i := i + 1;
    }
  }

  // ---- Counting matched lines ----

  lemma {:induction false} PairsAppend(J: seq<int>, K: seq<int>)
    ensures Pairs(J + K) == Pairs(J) + Pairs(K)
  {
    if K == [] {
      assert J + K == J;
    } else {
      assert (J + K)[..|J + K| - 1] == J + K[..|K| - 1];
      PairsAppend(J, K[..|K| - 1]);
    }
  }

  lemma PairsSet(J: seq<int>, i: nat, v: int)
    requires i < |J| && J[i] == 0 && v != 0
    ensures Pairs(J[i := v]) == Pairs(J) + 1
  {
    assert J == J[..i] + [0] + J[i + 1..];
    assert J[i := v] == J[..i] + [v] + J[i + 1..];
    PairsAppend(J[..i] + [0], J[i + 1..]);
    PairsAppend(J[..i] + [v], J[i + 1..]);
    PairsAppend(J[..i], [0]);
    PairsAppend(J[..i], [v]);
  }

  lemma {:induction false} PairsFull(J: seq<int>)
    ensures (forall i :: 0 <= i < |J| ==> J[i] != 0) ==> Pairs(J) == |J|
    ensures (forall i :: 0 <= i < |J| ==> J[i] == 0) ==> Pairs(J) == 0
  {
    if J != [] {
      PairsFull(J[..|J| - 1]);
    }
  }

  lemma PairsOfThree(K: seq<int>, L: seq<int>, M: seq<int>)
    ensures Pairs(K + L + M) == Pairs(K) + Pairs(L) + Pairs(M)
  {
    PairsAppend(K + L, M);
    PairsAppend(K, L);
  }

  lemma PairsOfEnds(J: seq<int>, p: nat, s: nat)
    requires p + s <= |J|
    requires forall i :: 0 <= i < |J| ==> (J[i] != 0 <==> i < p || i >= |J| - s)
    ensures Pairs(J) == p + s
  {
    hide Pairs;
    var n := |J| - s;
    assert J == J[..p] + J[p..n] + J[n..];
    PairsOfThree(J[..p], J[p..n], J[n..]);
    PairsFull(J[..p]);
    PairsFull(J[p..n]);
    PairsFull(J[n..]);
  }

  // ---- Reading the matching off the candidates ----

  /** The matching while the chain is followed: lines between the prefix and `x` are still open,
      and everything matched so far lies beyond new line `y`. */
  ghost predicate Unravelling(f0: seq<int>, f1: seq<int>, J: seq<int>, pref: int, x: int, y: int, pairs: int) {
    && Matching(f0, f1, J) && Pairs(J) == pairs
    && 0 <= pref && 0 <= x && pref + x <= |f0| && 0 <= y && pref + y <= |f1|
    && (forall i :: 0 <= i < pref ==> 0 < J[i] <= pref)
    && (forall i :: pref <= i < pref + x ==> J[i] == 0)
    && (forall i :: pref + x <= i < |f0| && J[i] != 0 ==> J[i] > pref + y)
  }

  lemma StartUnravelling(f0: seq<int>, f1: seq<int>, J: seq<int>, pref: int, suff: int)
    requires CommonEnds(f0, f1, pref, suff) && |J| == |f0|
    requires forall i :: 0 <= i < |f0| ==>
      J[i] == if i < pref then i + 1 else if i >= |f0| - suff then i + 1 + |f1| - |f0| else 0
    ensures Unravelling(f0, f1, J, pref, |f0| - pref - suff, |f1| - pref - suff, pref + suff)
  {
    forall i | |f0| - suff <= i < |f0| ensures f0[i] == f1[i + |f1| - |f0|] {
      assert f0[|f0| - suff..][i - (|f0| - suff)] == f1[|f1| - suff..][i - (|f0| - suff)];
    }
    PairsOfEnds(J, pref, suff);
  }

  lemma StepUnravelling(f0: seq<int>, f1: seq<int>, J: seq<int>, pref: int, x: int, y: int, pairs: int, qx: int,
                        qy: int, y': int)
    requires Unravelling(f0, f1, J, pref, x, y, pairs)
    requires 1 <= qx <= x && 0 <= y' < qy <= y && f0[pref + qx - 1] == f1[pref + qy - 1]
    ensures Unravelling(f0, f1, J[pref + qx - 1 := pref + qy], pref, qx - 1, y', pairs + 1)
  {
    PairsSet(J, pref + qx - 1, pref + qy);
  }

  method MatchEnds(len0: nat, len1: nat, pref: nat, suff: nat, ghost f0: seq<int>, ghost f1: seq<int>)
    returns (J: array<int>)
    requires |f0| == len0 && |f1| == len1 && CommonEnds(f0, f1, pref, suff)
    ensures fresh(J) && J.Length == len0 + 2
    ensures Unravelling(f0, f1, J[1..len0 + 1], pref, len0 - pref - suff, len1 - pref - suff, pref + suff)
  {
    J := new int[len0 + 2](_ => 0);
    var i := 0;
    while i <= len0
      invariant 0 <= i <= len0 + 1
      invariant forall u :: 0 <= u < i ==>
          J[u] == if u <= pref then u else if u > len0 - suff then u + len1 - len0 else 0
    {
      J[i] := if i <= pref then i else if i > len0 - suff then i + len1 - len0 else 0;
      i := i + 1;
    }
    StartUnravelling(f0, f1, J[1..len0 + 1], pref, suff);
  }

  lemma ChainStep(A: seq<int>, B: seq<int>, list: seq<Cand>, q: int, l: nat, x: int)
    requires Chain(A, B, list, q, l, x)
    ensures list[q].y != 0 <==> l > 0
    ensures l > 0 ==> 1 <= list[q].x <= x && 0 < list[q].y && Same(A, B, list[q].x, list[q].y)
    ensures l > 0 ==> 0 <= list[q].pred < |list| && 0 <= list[list[q].pred].y < list[q].y
    ensures l > 0 ==> Chain(A, B, list, list[q].pred, l - 1, list[q].x - 1)
  {
  }

  method SetEntry(J: array<int>, i: int, v: int, len0: nat)
    requires J.Length == len0 + 2 && 1 <= i <= len0
    modifies J
    ensures J[1..len0 + 1] == old(J[1..len0 + 1])[i - 1 := v]
  {
    J[i] := v;
  }

  method FollowStep(J: array<int>, pot: Candidates, q: int, len0: nat, pref: nat, ghost f0: seq<int>,
                    ghost f1: seq<int>,
                    ghost A: seq<int>, ghost B: seq<int>, ghost l: nat, ghost x: nat, ghost y: nat, ghost pairs: int)
    returns (q': int)
    requires |f0| == len0 && J.Length == len0 + 2
    requires pref + |A| <= len0 && A == f0[pref..pref + |A|] && pref + |B| <= |f1| && B == f1[pref..pref + |B|]
    requires Chain(A, B, pot.list, q, l, x) && l > 0 && pot.list[q].y <= y
    requires Unravelling(f0, f1, J[1..len0 + 1], pref, x, y, pairs)
    modifies J
    ensures q' == pot.list[q].pred && Chain(A, B, pot.list, q', l - 1, pot.list[q].x - 1)
    ensures pot.list[q].x > 0 && pot.list[q'].y >= 0
    ensures Unravelling(f0, f1, J[1..len0 + 1], pref, pot.list[q].x - 1, pot.list[q'].y, pairs + 1)
  {
    ghost var list := pot.list;
    ChainStep(A, B, list, q, l, x);
    StepUnravelling(f0, f1, J[1..len0 + 1], pref, x, y, pairs, list[q].x, list[q].y, list[list[q].pred].y);
    SetEntry(J, pot.list[q].x + pref, pot.list[q].y + pref, len0);
    q' := pot.list[q].pred;
  }

  method FollowChain(J: array<int>, pot: Candidates, p: int, len0: nat, pref: nat, ghost f0: seq<int>,
                     ghost f1: seq<int>,
                     ghost A: seq<int>, ghost B: seq<int>, ghost k: nat, ghost pairs: int)
    requires |f0| == len0 && J.Length == len0 + 2
    requires pref + |A| <= len0 && A == f0[pref..pref + |A|] && pref + |B| <= |f1| && B == f1[pref..pref + |B|]
    requires Chain(A, B, pot.list, p, k, |A|) && Unravelling(f0, f1, J[1..len0 + 1], pref, |A|, |B|, pairs)
    modifies J
    ensures Matching(f0, f1, J[1..len0 + 1]) && Pairs(J[1..len0 + 1]) == pairs + k
  {
    var q := p;
    ghost var l, x, y := k, |A|, |B|;
    ghost var list := pot.list;
    ChainStep(A, B, list, q, l, x);
    while pot.list[q].y != 0
      invariant 0 <= l <= k && 0 <= x && 0 <= y && pot.list == list && 0 <= q < |list| && list[q].y <= y
      invariant Chain(A, B, list, q, l, x)
      invariant Unravelling(f0, f1, J[1..len0 + 1], pref, x, y, pairs + k - l)
      decreases l
    {
      ChainStep(A, B, list, q, l, x);
      ghost var x' := list[q].x - 1;
      q := FollowStep(J, pot, q, len0, pref, f0, f1, A, B, l, x, y, pairs + k - l);
      l, x, y := l - 1, x', list[q].y;
    }
    ChainStep(A, B, list, q, l, x);
  }

  method Unravel(pot: Candidates, p: int, len0: nat, len1: nat, pref: nat, suff: nat,
                 ghost f0: seq<int>, ghost f1: seq<int>, ghost k: nat)
    returns (J: array<int>)
    requires |f0| == len0 && |f1| == len1 && CommonEnds(f0, f1, pref, suff)
    requires Chain(f0[pref..len0 - suff], f1[pref..len1 - suff], pot.list, p, k, len0 - pref - suff)
    ensures fresh(J) && J.Length == len0 + 2
    ensures Matching(f0, f1, J[1..len0 + 1]) && Pairs(J[1..len0 + 1]) == pref + k + suff
  {
    J := MatchEnds(len0, len1, pref, suff, f0, f1);
    FollowChain(J, pot, p, len0, pref, f0, f1, f0[pref..len0 - suff], f1[pref..len1 - suff], k, pref + suff);
  }

  lemma TablesHold(A: seq<int>, B: seq<int>, sorted0: seq<Line>, sorted1: seq<Line>, classes: seq<Line>, cls: seq<int>,
                   member: seq<int>)
    requires Arranges(sorted0, A) && Arranges(sorted1, B) && Sorted(sorted1, |B|)
    requires |classes| > |A| && |cls| > |A| && |member| > |B| + 1
    requires forall i :: 1 <= i <= |A| ==>
        classes[i].serial == sorted0[i].serial && IsClass(sorted1, |B|, sorted0[i].value, classes[i].value)
    requires forall i :: 1 <= i <= |A| ==> cls[classes[i].serial] == classes[i].value
    requires forall t :: 1 <= t <= |B| ==> member[t] == Listed(sorted1, t)
    requires member[|B| + 1] == -1
    ensures ClassTables(A, B, cls, member)
  {
    forall t | 1 <= t <= |B| ensures 1 <= Abs(member[t]) <= |B| && NextMatch(B, t, member) {
      MembersAscend(sorted1, B, member, t);
    }
    forall x | 1 <= x <= |A| ensures FirstMatch(A, B, x, cls[x], member) {
      var i := PositionOf(sorted0, A, x);
      assert classes[i].serial == x;
      ClassLeads(sorted1, A, B, member, x, cls[x]);
    }
  }

  lemma ArrangesNoZero(s: seq<Line>, values: seq<int>)
    requires Arranges(s, values) && 0 !in values
    ensures |s| > |values| && forall t :: 1 <= t <= |values| ==> s[t].value != 0
  {
  }

  /** From sorted files to the class tables. */
  method ListClasses(sfile0: array<Line>, slen0: nat, sfile1: array<Line>, slen1: nat, ghost A: seq<int>,
                     ghost B: seq<int>)
    returns (cls: array<int>, member: array<int>)
    requires sfile0 != sfile1 && sfile0.Length == slen0 + 2 && sfile1.Length == slen1 + 2
    requires |A| == slen0 && |B| == slen1 && 0 !in B
    requires Arranges(sfile0[..], A) && Arranges(sfile1[..], B) && Sorted(sfile0[..], slen0)
        && Sorted(sfile1[..], slen1)
    modifies sfile0, sfile1
    ensures fresh(cls) && fresh(member) && cls != member && cls.Length == slen0 + 2
    ensures ClassTables(A, B, cls[..], member[..]) == true
  {
    hide ClassTables, Sorted, Arranges, IsClass, Listed;
    ghost var sorted0, sorted1 := sfile0[..], sfile1[..];
    member := new int[slen1 + 2];
    ArrangesNoZero(sorted1, B);
    Equiv(sfile0, slen0, sfile1, slen1, member);
    ghost var classes := sfile0[..];
    assert forall i :: 1 <= i <= slen0 ==>
      classes[i].serial == sorted0[i].serial && IsClass(sorted1, slen1, sorted0[i].value, classes[i].value);
    SameSerialSameClass(A, sorted0, sorted1, slen1, classes);
    cls := new int[slen0 + 2];
    Unsort(sfile0, slen0, cls);
    TablesHold(A, B, sorted0, sorted1, classes, cls[..], member[..]);
  }

  /** Sorting, classifying and unsorting leave exactly the class tables of the two shortened files. */
  method BuildTables(sfile0: array<Line>, slen0: nat, sfile1: array<Line>, slen1: nat, ghost A: seq<int>,
                     ghost B: seq<int>)
    returns (cls: array<int>, member: array<int>)
    requires sfile0 != sfile1 && sfile0.Length == slen0 + 2 && sfile1.Length == slen1 + 2
    requires |A| == slen0 && |B| == slen1 && 0 !in B
    requires sfile0[1..slen0 + 1] == Numbered(A) && sfile1[1..slen1 + 1] == Numbered(B)
    modifies sfile0, sfile1
    ensures fresh(cls) && fresh(member) && cls != member && cls.Length == slen0 + 2
    ensures ClassTables(A, B, cls[..], member[..])
  {
    hide ClassTables, Sorted, Numbered, Arranges;
    Sort(sfile0, slen0);
    Sort(sfile1, slen1);
    RearrangedIsArranged(sfile0[..], A);
    RearrangedIsArranged(sfile1[..], B);
    cls, member := ListClasses(sfile0, slen0, sfile1, slen1, A, B);
  }

  lemma SameSerialSameClass(A: seq<int>, sorted0: seq<Line>, sorted1: seq<Line>, m: nat, classes: seq<Line>)
    requires Arranges(sorted0, A) && |classes| > |A| && m < |sorted1|
    requires forall i :: 1 <= i <= |A| ==>
      classes[i].serial == sorted0[i].serial && IsClass(sorted1, m, sorted0[i].value, classes[i].value)
    ensures forall i :: 1 <= i <= |A| ==> 1 <= classes[i].serial <= |A|
    ensures forall i, k :: 1 <= i < k <= |A| && classes[i].serial == classes[k].serial ==>
        classes[i].value == classes[k].value
  {
  }

  lemma LongestByLength(f0: seq<int>, f1: seq<int>, J: seq<int>)
    requires Matching(f0, f1, J) && Pairs(J) == Len(f0, f1, |f0|, |f1|)
    ensures LongestMatching(f0, f1, J)
  {
    forall K | Matching(f0, f1, K) ensures Pairs(K) <= Pairs(J) {
      MatchingBound(f0, f1, K, |f0|, |f1|);
      assert K[..|f0|] == K;
    }
  }

  /** The engine proper. `J` is indexed by old line; its first and last cells belong to the output stage. */
  method Compare(file0: array<Line>, len0: nat, file1: array<Line>, len1: nat, ghost f0: seq<int>, ghost f1: seq<int>)
    returns (J: array<int>)
    requires |f0| == len0 && |f1| == len1 && 0 !in f1
    requires Holding(file0[..], f0) && Holding(file1[..], f1)
    ensures fresh(J) && J.Length == len0 + 2
    ensures LongestMatching(f0, f1, J[1..len0 + 1])
  {
    hide Holding, ClassTables, Chain, Matching, Pairs, Len, Numbered, LongestMatching;
    var pref, suff := Prune(file0, file1, f0, f1, len0, len1);
    var slen0, slen1 := len0 - pref - suff, len1 - pref - suff;
    var sfile0 := Shorten(file0, f0, pref, slen0);
    var sfile1 := Shorten(file1, f1, pref, slen1);
    ghost var A, B := f0[pref..len0 - suff], f1[pref..len1 - suff];
    var cls, member := BuildTables(sfile0, slen0, sfile1, slen1, A, B);
    var klist := new int[slen0 + 2];
    var clist := new Candidates();
    var k := Stone(cls, slen0, member, klist, clist, A, B);
    J := Unravel(clist, klist[k], len0, len1, pref, suff, f0, f1, k);
    TrimEnds(f0, f1, pref, suff);
    LongestByLength(f0, f1, J[1..len0 + 1]);
  }

  /** From two files of hashed lines to a longest matching of the lines before their first hash 0. */
  method MatchFiles(hashes0: seq<int>, hashes1: seq<int>) returns (J: array<int>, len0: nat, len1: nat)
    ensures FileRead(hashes0, len0) && FileRead(hashes1, len1)
    ensures fresh(J) && J.Length == len0 + 2 && LongestMatching(hashes0[..len0], hashes1[..len1], J[1..len0 + 1])
  {
    var file0, file1;
    file0, len0 := Prepare(hashes0);
    file1, len1 := Prepare(hashes1);
    J := Compare(file0, len0, file1, len1, hashes0[..len0], hashes1[..len1]);
  }
}
