/** What the three-way comparison means: from two runs of `diff` to regions and to the merged file. */
module Diff3Meaning {
  import opened Wrappers
  import opened DiffOutput
  import Diff
  import Lcs
  import opened Diff3
  import opened Diff3Merge
  import opened Diff3Script
  import opened Diff3Flags
  import opened Diff3Quit

  // ---- Reading a report ----

  /** The first line of a change as printed; a single number stands for both ends. */
  datatype Headline = Headline(kind: char, a: int, b: int, c: int, d: int)

  function Ends(a: int, b: int): (int, int) {
    if a > b then (b, b) else (a, b)
  }

  /** `change` and `range` in normal output. */
  function Printed(h: Hunk): Headline {
    var (a, b) := Ends(h.a, h.b);
    var (c, d) := Ends(h.c, h.d);
    Headline(if h.a > h.b then 'a' else if h.c > h.d then 'd' else 'c', a, b, c, d)
  }

  /** `readin`: ends become exclusive, and an empty range starts after the line that was named. */
  function ReadIn(p: Headline): Change {
    var a := if p.kind == 'a' then p.a + 1 else p.a;
    var c := if p.kind == 'd' then p.c + 1 else p.c;
    Change(Range(a, p.b + 1), Range(c, p.d + 1))
  }

  /** Nothing is lost between the printed change and the range that is read. */
  lemma ReadInUndoesPrint(h: Hunk)
    requires h.a <= h.b + 1 && h.c <= h.d + 1 && (h.a <= h.b || h.c <= h.d)
    ensures ReadIn(Printed(h)) == Change(Range(h.a, h.b + 1), Range(h.c, h.d + 1))
  {
  }

  function ReadAll(hunks: seq<Hunk>): seq<Change> {
    seq(|hunks|, k requires 0 <= k < |hunks| => ReadIn(Printed(hunks[k])))
  }

  /** Stretches before the last hunk. */
  ghost predicate StretchesTo<T>(f: seq<T>, f3: seq<T>, hunks: seq<Hunk>, n: int, upto: int, p: int)
    requires 0 <= n <= |hunks|
  {
    var (i, k) := if n == 0 then (0, 0) else (hunks[n - 1].b, hunks[n - 1].d);
    0 <= i <= upto <= |f| && 0 <= k <= p <= |f3| && upto - i == p - k && f[i..upto] == f3[k..p]
  }

  lemma LastProduced<T>(f: seq<T>, f3: seq<T>, hunks: seq<Hunk>, upto: int, p: int)
    requires Produced(f, f3, hunks, upto, p)
    ensures StretchesTo(f, f3, hunks, |hunks|, upto, p)
    ensures hunks != [] ==> var h := hunks[|hunks| - 1]; Produced(f, f3, hunks[..|hunks| - 1], h.a - 1, h.c - 1)
  {
  }

  lemma SameStretch<T>(f: seq<T>, f3: seq<T>, hunks: seq<Hunk>, k: int, upto: int, p: int)
    requires 0 <= k < |hunks| && StretchesTo(f, f3, hunks[..|hunks| - 1], k, upto, p)
    ensures StretchesTo(f, f3, hunks, k, upto, p)
  {
  }

  lemma {:induction false} ProducedStretches<T>(f: seq<T>, f3: seq<T>, hunks: seq<Hunk>, upto: int, p: int, k: int)
    requires Produced(f, f3, hunks, upto, p) && 0 <= k < |hunks|
    ensures StretchesTo(f, f3, hunks, k, hunks[k].a - 1, hunks[k].c - 1)
    decreases |hunks|
  {
    hide Produced, StretchesTo;
    var front, h := hunks[..|hunks| - 1], hunks[|hunks| - 1];
    LastProduced(f, f3, hunks, upto, p);
    if k < |front| {
      ProducedStretches(f, f3, front, h.a - 1, h.c - 1, k);
      assert front[k] == hunks[k];
    } else {
      LastProduced(f, f3, front, h.a - 1, h.c - 1);
    }
    SameStretch(f, f3, hunks, k, hunks[k].a - 1, hunks[k].c - 1);
  }

  lemma ReadAt<T>(f: seq<T>, f3: seq<T>, hunks: seq<Hunk>, k: int)
    requires Orderly(hunks, |f|, |f3|) && 0 <= k < |hunks|
    ensures ReadAll(hunks)[k] == Change(Range(hunks[k].a, hunks[k].b + 1), Range(hunks[k].c, hunks[k].d + 1))
    ensures hunks[k].a <= hunks[k].b + 1 && hunks[k].c <= hunks[k].d + 1
    ensures k > 0 ==> hunks[k - 1].d + 1 < hunks[k].c
  {
    ReadInUndoesPrint(hunks[k]);
  }

  lemma OneStretch<T>(f: seq<T>, f3: seq<T>, hunks: seq<Hunk>, o: seq<Change>, k: int, upto: int, p: int)
    requires |o| == |hunks| && 0 <= k <= |o| && StretchesTo(f, f3, hunks, k, upto, p)
    requires k > 0 ==>
        o[k - 1] == Change(Range(hunks[k - 1].a, hunks[k - 1].b + 1), Range(hunks[k - 1].c, hunks[k - 1].d + 1))
    requires upto + 1 == WasNext(o, k, |f| + 1) && p + 1 == NowNext(o, k, |f3| + 1)
    requires 0 < k < |o| ==> hunks[k - 1].d + 1 < o[k].now.from
    ensures CommonStretch(o, f, f3, k)
  {
  }

  /** Reports of `diff` are what the merge needs. */
  lemma HunksDescribe<T>(f: seq<T>, f3: seq<T>, hunks: seq<Hunk>)
    requires Orderly(hunks, |f|, |f3|) && Produced(f, f3, hunks, |f|, |f3|)
    ensures Describes(ReadAll(hunks), f, f3)
  {
    hide Produced, Orderly, CommonStretch, StretchesTo, ReadAll;
    var o := ReadAll(hunks);
    assert |o| == |hunks| by { ReadLength(hunks); }
    forall k | 0 <= k < |o| ensures o[k].was.from <= o[k].was.to && o[k].now.from <= o[k].now.to {
      ReadAt(f, f3, hunks, k);
    }
    forall k | 0 <= k <= |o| ensures CommonStretch(o, f, f3, k) {
      if k > 0 {
        ReadAt(f, f3, hunks, k - 1);
      }
      if k < |o| {
        ReadAt(f, f3, hunks, k);
        ProducedStretches(f, f3, hunks, |f|, |f3|, k);
        OneStretch(f, f3, hunks, o, k, hunks[k].a - 1, hunks[k].c - 1);
      } else {
        LastProduced(f, f3, hunks, |f|, |f3|);
        OneStretch(f, f3, hunks, o, k, |f|, |f3|);
      }
    }
  }

  lemma ReadLength(hunks: seq<Hunk>)
    ensures |ReadAll(hunks)| == |hunks|
  {
  }

  lemma {:induction false} ReadLines(hunks: seq<Hunk>, m: int, n: int, k: int)
    requires Orderly(hunks, m, n) && 0 <= k <= |hunks|
    ensures |ReadAll(hunks)| == |hunks| && WasLines(ReadAll(hunks), 0, k) == Removed(hunks[..k])
    decreases k
  {
    if k > 0 {
      ReadLines(hunks, m, n, k - 1);
      ReadInUndoesPrint(hunks[k - 1]);
      assert hunks[..k][..k - 1] == hunks[..k - 1];
    }
  }

  /** Reports of a longest matching leave as few lines out as possible. */
  lemma HunksLongest<T>(f: seq<T>, f3: seq<T>, hunks: seq<Hunk>)
    requires Orderly(hunks, |f|, |f3|) && Removed(hunks) == |f| - Best(f, f3)
    ensures Substantial(ReadAll(hunks)) && Longest(ReadAll(hunks), f, f3)
  {
    hide Orderly, WasLines, Removed, Lcs.Len;
    ReadLines(hunks, |f|, |f3|, |hunks|);
    assert hunks[..|hunks|] == hunks;
    HunksSubstantial(hunks, |f|, |f3|);
  }

  lemma HunksSubstantial(hunks: seq<Hunk>, m: int, n: int)
    requires Orderly(hunks, m, n)
    ensures Substantial(ReadAll(hunks))
  {
    forall k | 0 <= k < |hunks| ensures var c := ReadAll(hunks)[k]; c.was.from < c.was.to || c.now.from < c.now.to {
      ReadInUndoesPrint(hunks[k]);
    }
  }

  // ---- What the merged file is ----

  /** The third file up to line `upto`, with the first file's text where only that one differs. */
  ghost function Replayed<T>(f1: seq<T>, f3: seq<T>, regions: seq<Region>, upto: int): seq<T> {
    if regions == [] then Lines(f3, 1, upto - 1)
    else
      var r := regions[|regions| - 1];
      var front := Replayed(f1, f3, regions[..|regions| - 1], r.three.from);
      front + (if r.kind == OnlyFirst then Slice(f1, r.one) else Slice(f3, r.three)) + Lines(f3, r.three.to, upto - 1)
  }

  lemma ReplayedAt<T>(f1: seq<T>, f3: seq<T>, regions: seq<Region>, upto: int)
    requires regions != []
    ensures
      var r := regions[|regions| - 1];
      Replayed(f1, f3, regions, upto)
      == Replayed(f1, f3, regions[..|regions| - 1], r.three.from)
         + (if r.kind == OnlyFirst then Slice(f1, r.one) else Slice(f3, r.three)) + Lines(f3, r.three.to, upto - 1)
  {
    hide Lines, Slice;
  }

  lemma NothingReplayed<T>(f1: seq<T>, f3: seq<T>, regions: seq<Region>, upto: int)
    requires regions == [] && 1 <= upto <= |f3| + 1
    ensures Replayed(f1, f3, regions, upto) == f3[..upto - 1]
  {
    LinesAreSlices(f3, 1, upto - 1);
  }

  lemma EntryBothWays<T>(f1: seq<T>, f3: seq<T>, regions: seq<Region>, r: Region, u1: int, u3: int, marks: Marks<T>)
    requires 1 <= r.one.to <= u1 <= |f1| + 1 && 1 <= r.three.to <= u3 <= |f3| + 1
    requires f1[r.one.to - 1..u1 - 1] == f3[r.three.to - 1..u3 - 1]
    requires Spliced(f1, f3, Entries(3, regions), false, marks, r.one.from) == Replayed(f1, f3, regions, r.three.from)
    requires InScript(3, r.kind)
    ensures Spliced(f1, f3, Entries(3, regions + [r]), false, marks, u1) == Replayed(f1, f3, regions + [r], u3)
  {
    hide Spliced, Replayed, Entries, Lines, Slice;
    EntryAdded(3, regions, r);
    assert (regions + [r])[..|regions|] == regions;
    ReplayedAt(f1, f3, regions + [r], u3);
    LinesAreSlices(f1, r.one.to, u1 - 1);
    LinesAreSlices(f3, r.three.to, u3 - 1);
    var edits, e := Entries(3, regions), Entry(r.one, r.three, r.kind == AllDiffer);
    SplicedAt(f1, f3, edits + [e], false, marks, u1);
    assert (edits + [e])[..|edits|] == edits;
  }

  lemma KeptBothWays<T>(f1: seq<T>, f3: seq<T>, regions: seq<Region>, r: Region, u1: int, u3: int, marks: Marks<T>)
    requires 1 <= r.one.from <= r.one.to <= u1 <= |f1| + 1 && 1 <= r.three.to <= u3 <= |f3| + 1
    requires f1[r.one.to - 1..u1 - 1] == f3[r.three.to - 1..u3 - 1]
    requires Spliced(f1, f3, Entries(3, regions), false, marks, r.one.from) == Replayed(f1, f3, regions, r.three.from)
    requires r.kind == OnlyFirst || (r.kind == OnlySecond && Slice(f1, r.one) == Slice(f3, r.three))
    requires InOrder(Entries(3, regions), r.one.from)
    ensures Spliced(f1, f3, Entries(3, regions + [r]), false, marks, u1) == Replayed(f1, f3, regions + [r], u3)
  {
    hide Spliced, Replayed, Entries, Lines, Slice;
    EntryAdded(3, regions, r);
    assert (regions + [r])[..|regions|] == regions;
    ReplayedAt(f1, f3, regions + [r], u3);
    LinesAreSlices(f3, r.three.to, u3 - 1);
    SplicedLonger(f1, f3, Entries(3, regions), false, marks, r.one.from, u1);
    SliceIs(f1, r.one);
    assert f1[r.one.from - 1..u1 - 1] == f1[r.one.from - 1..r.one.to - 1] + f1[r.one.to - 1..u1 - 1];
  }

  /** Putting the changes of file 3 into file 1 gives the same text as keeping file 3 and taking
      from file 1 what only that one changed. */
  lemma {:induction false} MergeBothWays<T>(f1: seq<T>, f2: seq<T>, f3: seq<T>, regions: seq<Region>, u1: int, u2: int,
                                            u3: int, marks: Marks<T>)
    requires Chained(f1, f2, f3, regions) && Common(f1, f2, f3, regions, u1, u2, u3)
    ensures Spliced(f1, f3, Entries(3, regions), false, marks, u1) == Replayed(f1, f3, regions, u3)
    decreases |regions|
  {
    hide Spliced, Replayed, Lines, Slice, Entries;
    if regions == [] {
      EntriesOfNone(3);
      NothingSpliced(f1, f3, Entries(3, regions), false, marks, u1);
      NothingReplayed(f1, f3, regions, u3);
    } else {
      var front, r := regions[..|regions| - 1], regions[|regions| - 1];
      assert front + [r] == regions;
      MergeBothWays(f1, f2, f3, front, r.one.from, r.two.from, r.three.from, marks);
      EntriesInOrder(f1, f2, f3, 3, front, r.one.from);
      if InScript(3, r.kind) {
        EntryBothWays(f1, f3, front, r, u1, u3, marks);
      } else {
        KeptBothWays(f1, f3, front, r, u1, u3, marks);
      }
    }
  }

  lemma EntriesOfNone(eflag: int)
    ensures Entries(eflag, []) == []
  {
  }

  // ---- From the three files ----

  method Report<T(==,!new)>(f: seq<T>, f3: seq<T>, hash: seq<int>, hash3: seq<int>) returns (d: array<Change>, n: nat)
    requires |hash| == |f| && |hash3| == |f3| && 0 !in hash && 0 !in hash3
    ensures fresh(d) && n <= d.Length && Describes(d[..n], f, f3) && Substantial(d[..n])
    ensures Diff.Faithful(f, f3, hash, hash3) ==> Longest(d[..n], f, f3)
  {
    hide Orderly, Produced, Patched, Describes, Longest, Substantial, Removed, Lcs.Len;
    var hunks := Diff.ReportChanges(f, f3, hash, hash3);
    n := |hunks|;
    d := new Change[n];
    var i := 0;
    while i < n
      invariant 0 <= i <= n && d.Length == n
      invariant forall k :: 0 <= k < i ==> d[k] == ReadIn(Printed(hunks[k]))
    {
      d[i] := ReadIn(Printed(hunks[i]));
      i := i + 1;
    }
    assert d[..n] == ReadAll(hunks);
    HunksDescribe(f, f3, hunks);
    HunksSubstantial(hunks, |f|, |f3|);
    if Diff.Faithful(f, f3, hash, hash3) {
      HunksLongest(f, f3, hunks);
    }
  }

  /** Two reports and their merge: the regions part the files. Where hashes tell lines apart, and no line of
      file 1 looks like a mark, the script makes file 1 what `-e` promises exactly if it has at most one entry. */
  method ThreeWay<T(==,!new)>(f1: seq<T>, f2: seq<T>, f3: seq<T>, hash1: seq<int>, hash2: seq<int>, hash3: seq<int>,
                              eflag: int, oflag: bool, marks: Marks<T>)
    returns (report: seq<Region>, script: seq<EdCommand<T>>, ghost regions: seq<Region>)
    requires |hash1| == |f1| && |hash2| == |f2| && |hash3| == |f3| && 0 !in hash1 && 0 !in hash2 && 0 !in hash3
    requires 0 <= eflag <= 3
    ensures Partition(f1, f2, f3, regions) && Ascending(regions)
    ensures report == if eflag == 0 then regions else []
    ensures script == Script(f3, Entries(eflag, regions), oflag, marks, [Write, Quit])
    ensures eflag == 1 ==> Entries(eflag, regions) == Picked(regions, {AllDiffer})
    ensures eflag == 2 ==> Entries(eflag, regions) == Picked(regions, {OnlyThird})
    ensures eflag == 3 ==> Entries(eflag, regions) == Picked(regions, {AllDiffer, OnlyThird})
    ensures |Entries(eflag, regions)| <= 1 ==>
      Edited(f1, f1, script) == Some(Spliced(f1, f3, Entries(eflag, regions), oflag, marks, |f1| + 1))
    ensures Diff.Faithful(f1, f3, hash1, hash3) && (oflag ==> marks.first !in f1) ==>
      (Edited(f1, f1, script) == Some(Spliced(f1, f3, Entries(eflag, regions), oflag, marks, |f1| + 1))
       <==> |Entries(eflag, regions)| <= 1)
    ensures eflag == 1 ==> forall k: nat :: k < |regions| && Slice(f1, regions[k].one) == Slice(f2, regions[k].two) ==>
        Spared(f1, f3, regions, {AllDiffer}, oflag, marks, k)
    ensures eflag == 2 ==> forall k: nat :: k < |regions| && Slice(f1, regions[k].one) != Slice(f2, regions[k].two) ==>
        Spared(f1, f3, regions, {OnlyThird}, oflag, marks, k)
    ensures eflag == 3 && !oflag ==>
      Spliced(f1, f3, Entries(eflag, regions), oflag, marks, |f1| + 1) == Replayed(f1, f3, regions, |f3| + 1)
  {
    hide Describes, Spliced, Replayed, Edited, Script, Entries, Chained, Common, InOrder, Longest, Substantial,
        Diff.Faithful;
    hide Diff3.Ascending, Grouped, Picked, Spared, Slice;
    var d13, m1 := Report(f1, f3, hash1, hash3);
    var d23, m2 := Report(f2, f3, hash2, hash3);
    var edits;
    ghost var cuts;
    ghost var o1, o2 := d13[..m1], d23[..m2];
    report, edits, regions, cuts := Merge(d13, d23, m1, m2, f1, f2, f3, eflag);
    EndsInside(f1, f2, f3, regions);
    EntriesInOrder(f1, f2, f3, eflag, regions, |f1| + 1);
    script := EdScript(f3, edits, oflag, marks);
    ScriptSuffices(f1, f3, edits, oflag, marks);
    if Diff.Faithful(f1, f3, hash1, hash3) && (oflag ==> marks.first !in f1) {
      EntriesDecide(f1, f2, f3, o1, o2, regions, cuts, eflag, oflag, marks);
    }
    MergeBothWays(f1, f2, f3, regions, |f1| + 1, |f2| + 1, |f3| + 1, marks);
    RegionsSpared(f1, f2, f3, regions, oflag, marks);
  }

  /** Two changes of one line each, the same in both reports, make two regions. */
  lemma ExampleRegion(f1: seq<int>, f3: seq<int>, o: seq<Change>, regions: seq<Region>, cuts: seq<(int, int)>, n: int)
    requires f1 == [1, 2, 3] && f3 == [4, 2, 5]
    requires o == [Change(Range(1, 2), Range(1, 2)), Change(Range(3, 4), Range(3, 4))] && 1 <= n <= 2
    requires Describes(o, f1, f3) && Chained(f1, f1, f3, regions) && Grouped(o, o, regions, cuts, n, n)
    ensures regions != [] && regions[|regions| - 1] == Region(OnlyThird, o[n - 1].was, o[n - 1].was, o[n - 1].now)
    ensures Chained(f1, f1, f3, regions[..|regions| - 1])
    ensures |cuts| == |regions| + 1 && Grouped(o, o, regions[..|regions| - 1], cuts[..|regions|], n - 1, n - 1)
  {
    hide Describes, Chained, Grouped, MadeOf, NowPast, WasPast;
    if regions == [] {
      NoRegions(o, o, regions, cuts, n, n);
      assert false;
    }
    LastRegion(f1, f1, f3, o, o, regions, cuts, n, n);
    var front, r := regions[..|regions| - 1], regions[|regions| - 1];
    var (x1, x2) := cuts[|regions| - 1];
    EndsAligned(f1, f1, f3, o, o, front, cuts[..|regions|], x1, x2);
    ExampleMade(o, r, x1, x2, n);
  }

  lemma ExampleMade(o: seq<Change>, r: Region, x1: int, x2: int, n: int)
    requires o == [Change(Range(1, 2), Range(1, 2)), Change(Range(3, 4), Range(3, 4))] && 1 <= n <= 2
    requires 0 <= x1 <= n && 0 <= x2 <= n && MadeOf(o, o, r, x1, n, x2, n)
    requires r.three.from >= NowPast(o, x1) && r.three.from >= NowPast(o, x2)
    ensures x1 == x2 == n - 1 && (r.kind == OnlyThird || r.kind == AllDiffer) && r.one == r.two == o[n - 1].was
        && r.three == o[n - 1].now
  {
    hide Covered;
    if n == 2 && (r.kind == OnlyThird || r.kind == AllDiffer) && (x1 == 0 || x2 == 0) {
      NotCovered(o, x1, x2);
      assert false;
    }
  }

  lemma NotCovered(o: seq<Change>, x1: int, x2: int)
    requires o == [Change(Range(1, 2), Range(1, 2)), Change(Range(3, 4), Range(3, 4))] && 0 <= x1 <= 1 && 0 <= x2 <= 1
    ensures !Covered(o, x1, 2, o, x2, 2, 1, 4)
  {
    assert !ChangedAt(o, x1, 2, 2) && !ChangedAt(o, x2, 2, 2);
  }

  lemma ExampleDescribes(f1: seq<int>, f3: seq<int>, o: seq<Change>)
    requires f1 == [1, 2, 3] && f3 == [4, 2, 5]
    requires o == [Change(Range(1, 2), Range(1, 2)), Change(Range(3, 4), Range(3, 4))]
    ensures Describes(o, f1, f3)
  {
    hide CommonStretch;
    forall k | 0 <= k <= |o| ensures CommonStretch(o, f1, f3, k) {
      ExampleStretch(f1, f3, o, k);
    }
  }

  lemma ExampleStretch(f1: seq<int>, f3: seq<int>, o: seq<Change>, k: int)
    requires f1 == [1, 2, 3] && f3 == [4, 2, 5]
    requires o == [Change(Range(1, 2), Range(1, 2)), Change(Range(3, 4), Range(3, 4))] && 0 <= k <= 2
    ensures CommonStretch(o, f1, f3, k)
  {
    assert f1[0..0] == f3[0..0] && f1[1..2] == f3[1..2] == [2] && f1[3..3] == f3[3..3];
  }

  lemma ExampleEntries(r: Region, t: Region)
    requires r == Region(OnlyThird, Range(1, 2), Range(1, 2), Range(1, 2))
        && t == Region(OnlyThird, Range(3, 4), Range(3, 4), Range(3, 4))
    ensures Entries(3, [r, t]) == [Entry(r.one, r.three, false), Entry(t.one, t.three, false)]
  {
    hide Entries;
    EntriesOfNone(3);
    assert [] + [r] == [r] && [r] + [t] == [r, t];
    EntryAdded(3, [], r);
    EntryAdded(3, [r], t);
  }

  lemma ExampleSpliced(f1: seq<int>, f3: seq<int>, e: Entry, g: Entry, marks: Marks<int>)
    requires f1 == [1, 2, 3] && f3 == [4, 2, 5]
    requires e == Entry(Range(1, 2), Range(1, 2), false) && g == Entry(Range(3, 4), Range(3, 4), false)
    ensures Spliced(f1, f3, [g], false, marks, 4) == [1, 2, 5]
    ensures Spliced(f1, f3, [e, g], false, marks, 4) == [4, 2, 5]
  {
    hide Spliced, Slice, Lines;
    SliceIs(f3, e.now);
    SliceIs(f3, g.now);
    assert EntryText(f1, f3, e, false, marks) == [4] && EntryText(f1, f3, g, false, marks) == [5];
    LinesAreSlices(f1, 2, 2);
    LinesAreSlices(f1, 4, 3);
    SplicedAt(f1, f3, [g], false, marks, 4);
    NothingSpliced(f1, f3, [g][..0], false, marks, 3);
    assert [e, g][..1] == [e];
    SplicedAt(f1, f3, [e, g], false, marks, 4);
    SplicedAt(f1, f3, [e], false, marks, 3);
    NothingSpliced(f1, f3, [e][..0], false, marks, 1);
  }

  /** Two separate changes in file 3 are too many: however these reports are merged, of `4 2 5` only the
      second change arrives in `1 2 3`. */
  lemma QuitExample(f1: seq<int>, f3: seq<int>, o: seq<Change>, regions: seq<Region>, cuts: seq<(int, int)>,
                    marks: Marks<int>)
    requires f1 == [1, 2, 3] && f3 == [4, 2, 5]
    requires o == [Change(Range(1, 2), Range(1, 2)), Change(Range(3, 4), Range(3, 4))]
    requires Partition(f1, f1, f3, regions) && Grouped(o, o, regions, cuts, 2, 2)
    ensures Describes(o, f1, f3)
    ensures Edited(f1, f1, Script(f3, Entries(3, regions), false, marks, [Write, Quit])) == Some([1, 2, 5])
    ensures Spliced(f1, f3, Entries(3, regions), false, marks, |f1| + 1) == [4, 2, 5]
        == Replayed(f1, f3, regions, |f3| + 1)
  {
    hide Describes, Chained, Grouped, Edited, Script, Entries, Spliced, Replayed;
    ExampleDescribes(f1, f3, o);
    ExampleRegion(f1, f3, o, regions, cuts, 2);
    var n := |regions|;
    ExampleRegion(f1, f3, o, regions[..n - 1], cuts[..n], 1);
    if n > 2 {
      ExampleNoMore(f1, f3, o, regions[..n - 1][..n - 2], cuts[..n][..n - 1]);
      assert false;
    }
    var r, t := regions[0], regions[1];
    assert regions == [r, t];
    var e, g := Entry(r.one, r.three, false), Entry(t.one, t.three, false);
    ExampleEntries(r, t);
    assert [e, g][..1] == [e] && [e][..0] == [];
    assert InOrder([e], 3) && InOrder([e, g], 4);
    ScriptStops(f1, f3, [e, g], false, marks);
    ExampleSpliced(f1, f3, e, g, marks);
    PartitionBothWays(f1, f1, f3, [r, t], marks);
  }

  /** Before the first change there is no region. */
  lemma ExampleNoMore(f1: seq<int>, f3: seq<int>, o: seq<Change>, regions: seq<Region>, cuts: seq<(int, int)>)
    requires Chained(f1, f1, f3, regions) && Grouped(o, o, regions, cuts, 0, 0)
    ensures regions == []
  {
    hide Chained, Grouped;
    if regions != [] {
      LastRegion(f1, f1, f3, o, o, regions, cuts, 0, 0);
    }
  }

  lemma PartitionBothWays<T>(f1: seq<T>, f2: seq<T>, f3: seq<T>, regions: seq<Region>, marks: Marks<T>)
    requires Partition(f1, f2, f3, regions)
    ensures Spliced(f1, f3, Entries(3, regions), false, marks, |f1| + 1) == Replayed(f1, f3, regions, |f3| + 1)
  {
    MergeBothWays(f1, f2, f3, regions, |f1| + 1, |f2| + 1, |f3| + 1, marks);
  }
}
