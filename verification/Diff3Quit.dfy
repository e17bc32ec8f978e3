/** What it costs that the editor leaves after the first entry of the script. Reports of a longest
    matching leave no room for entries that cancel out: putting them into file 1 would bring it
    closer to file 3 than the longest matching allows. */
module Diff3Quit {
  import opened Wrappers
  import opened Lcs
  import opened DiffOutput
  import opened Diff3
  import opened Diff3Merge
  import opened Diff3Script

  // ---- Longest common subsequences of whole texts ----

  ghost function Best<T>(a: seq<T>, b: seq<T>): nat { Len(a, b, |a|, |b|) }

  lemma {:induction false} LenJoin<T>(a: seq<T>, c: seq<T>, b: seq<T>, d: seq<T>, i: nat, j: nat)
    requires i <= |c| && j <= |d|
    ensures Len(a + c, b + d, |a| + i, |b| + j) >= Best(a, b) + Len(c, d, i, j)
    decreases i + j
  {
    if i == 0 || j == 0 {
      LenMonotone(a + c, b + d, |a|, |b|, |b| + j);
      LenTaller(a + c, b + d, |a|, |a| + i, |b| + j);
      LenOfSlice(a + c, b + d, |a|, |b|, |a|, |b|);
      assert (a + c)[..|a|] == a && (b + d)[..|b|] == b;
    } else if c[i - 1] == d[j - 1] {
      LenJoin(a, c, b, d, i - 1, j - 1);
    } else {
      LenJoin(a, c, b, d, i - 1, j);
      LenJoin(a, c, b, d, i, j - 1);
    }
  }

  lemma {:induction false} LenTaller<T>(a: seq<T>, b: seq<T>, i: nat, k: nat, j: nat)
    requires i <= k <= |a| && j <= |b|
    ensures Len(a, b, i, j) <= Len(a, b, k, j)
    decreases k - i
  {
    if i < k {
      LenTaller(a, b, i, k - 1, j);
      LenStep(a, b, k, j);
    }
  }

  /** Matchings of two parts make one of the whole. */
  lemma BestJoin<T>(a: seq<T>, c: seq<T>, b: seq<T>, d: seq<T>)
    ensures Best(a + c, b + d) >= Best(a, b) + Best(c, d)
  {
    hide Len;
    LenJoin(a, c, b, d, |c|, |d|);
  }

  lemma BestSame<T>(a: seq<T>)
    ensures Best(a, a) == |a|
  {
    CommonPrefixLen(a, a, |a|, |a|, |a|);
  }

  // ---- Common lines of a report ----

  /** Lines of the first file in changes `x` to before `y`. */
  ghost function WasLines(o: seq<Change>, x: int, y: int): int
    requires 0 <= x <= y <= |o|
    decreases y
  {
    if x == y then 0 else WasLines(o, x, y - 1) + o[y - 1].was.to - o[y - 1].was.from
  }

  ghost function NowLines(o: seq<Change>, x: int, y: int): int
    requires 0 <= x <= y <= |o|
    decreases y
  {
    if x == y then 0 else NowLines(o, x, y - 1) + o[y - 1].now.to - o[y - 1].now.from
  }

  /** The lines outside the changes are as many as two lines can be matched at all. */
  ghost predicate Longest<T>(o: seq<Change>, f: seq<T>, f3: seq<T>) {
    |f| - WasLines(o, 0, |o|) == Best(f, f3)
  }

  ghost predicate Substantial(o: seq<Change>) {
    forall k :: 0 <= k < |o| ==> o[k].was.from < o[k].was.to || o[k].now.from < o[k].now.to
  }

  lemma {:induction false} LinesAdd(o: seq<Change>, x: int, y: int, z: int)
    requires 0 <= x <= y <= z <= |o|
    ensures WasLines(o, x, z) == WasLines(o, x, y) + WasLines(o, y, z)
    ensures NowLines(o, x, z) == NowLines(o, x, y) + NowLines(o, y, z)
    decreases z
  {
    if y < z {
      LinesAdd(o, x, y, z - 1);
    }
  }

  lemma {:induction false} LinesNonNeg<T>(o: seq<Change>, f: seq<T>, f3: seq<T>, x: int, y: int)
    requires Describes(o, f, f3) && 0 <= x <= y <= |o|
    ensures WasLines(o, x, y) >= 0 && NowLines(o, x, y) >= 0
    ensures x < y && Substantial(o) ==> WasLines(o, x, y) + NowLines(o, x, y) > 0
    decreases y
  {
    hide Describes;
    if x < y {
      StretchHolds(o, f, f3, y - 1);
      LinesNonNeg(o, f, f3, x, y - 1);
    }
  }

  /** Lines `a` and `b` stand beside each other before change `k`. */
  ghost predicate Beside<T>(o: seq<Change>, f: seq<T>, k: int, a: int, b: int)
    requires 0 <= k <= |o|
  {
    WasPast(o, k) <= a <= WasNext(o, k, |f| + 1) && a - WasPast(o, k) == b - NowPast(o, k)
  }

  lemma SameLines<T>(o: seq<Change>, f: seq<T>, f3: seq<T>, k: int, a: int, b: int, c: int, d: int)
    requires Describes(o, f, f3) && 0 <= k <= |o| && Beside(o, f, k, a, b) && Beside(o, f, k, c, d) && a <= c
    ensures 1 <= a <= c <= |f| + 1 && 1 <= b <= d <= |f3| + 1 && f[a - 1..c - 1] == f3[b - 1..d - 1]
  {
    hide Describes;
    StretchHolds(o, f, f3, k);
    SubSlice(f, f3, WasPast(o, k) - 1, WasNext(o, k, |f| + 1) - 1, NowPast(o, k) - 1, NowNext(o, k, |f3| + 1) - 1,
             a - 1, c - 1, b - 1, d - 1);
  }

  lemma ChangeEnds<T>(o: seq<Change>, f: seq<T>, f3: seq<T>, k: int)
    requires Describes(o, f, f3) && 0 <= k < |o|
    ensures Beside(o, f, k, o[k].was.from, o[k].now.from) && Beside(o, f, k + 1, o[k].was.to, o[k].now.to)
    ensures 1 <= o[k].was.from <= o[k].was.to <= |f| + 1 && 1 <= o[k].now.from <= o[k].now.to <= |f3| + 1
  {
    StretchHolds(o, f, f3, k);
    StretchHolds(o, f, f3, k + 1);
  }

  /** The common lines between two places make a matching. */
  lemma {:induction false} CommonLines<T>(o: seq<Change>, f: seq<T>, f3: seq<T>, x: int, a: int, b: int, y: int, c: int,
                                          d: int)
    requires Describes(o, f, f3) && 0 <= x <= y <= |o| && Beside(o, f, x, a, b) && Beside(o, f, y, c, d)
        && (x == y ==> a <= c)
    ensures 1 <= a <= c <= |f| + 1 && 1 <= b <= d <= |f3| + 1
    ensures c - a - WasLines(o, x, y) == d - b - NowLines(o, x, y) >= 0
    ensures Best(f[a - 1..c - 1], f3[b - 1..d - 1]) >= c - a - WasLines(o, x, y)
    decreases y
  {
    hide Describes, Beside, Len;
    if x == y {
      SameLines(o, f, f3, x, a, b, c, d);
      BesideOffset(o, f, x, a, b, c, d);
      BestSame(f[a - 1..c - 1]);
    } else {
      var h := o[y - 1];
      ChangeEnds(o, f, f3, y - 1);
      BesideBounds(o, f, x, a, b);
      BesideBounds(o, f, y, c, d);
      CommonLines(o, f, f3, x, a, b, y - 1, h.was.from, h.now.from);
      SameLines(o, f, f3, y, h.was.to, h.now.to, c, d);
      BesideOffset(o, f, y, h.was.to, h.now.to, c, d);
      Pieces(f, a - 1, h.was.from - 1, h.was.to - 1, c - 1);
      Pieces(f3, b - 1, h.now.from - 1, h.now.to - 1, d - 1);
      BestSame(f[h.was.to - 1..c - 1]);
      ThreeBest(f[a - 1..h.was.from - 1], f[h.was.from - 1..h.was.to - 1], f[h.was.to - 1..c - 1],
                f3[b - 1..h.now.from - 1], f3[h.now.from - 1..h.now.to - 1], f3[h.now.to - 1..d - 1]);
    }
  }

  lemma BesideBounds<T>(o: seq<Change>, f: seq<T>, k: int, a: int, b: int)
    requires 0 <= k <= |o| && Beside(o, f, k, a, b)
    ensures k < |o| ==> a <= o[k].was.from
    ensures k > 0 ==> o[k - 1].was.to <= a && o[k - 1].now.to <= b
  {
  }

  lemma BesideOffset<T>(o: seq<Change>, f: seq<T>, k: int, a: int, b: int, c: int, d: int)
    requires 0 <= k <= |o| && Beside(o, f, k, a, b) && Beside(o, f, k, c, d)
    ensures c - a == d - b
  {
  }

  lemma Pieces<T>(s: seq<T>, i: int, j: int, k: int, n: int)
    requires 0 <= i <= j <= k <= n <= |s|
    ensures s[i..n] == s[i..j] + s[j..k] + s[k..n]
  {
  }

  lemma ThreeBest<T>(a: seq<T>, b: seq<T>, c: seq<T>, x: seq<T>, y: seq<T>, z: seq<T>)
    ensures Best(a + b + c, x + y + z) >= Best(a, x) + Best(b, y) + Best(c, z)
  {
    hide Len;
    BestJoin(a, b, x, y);
    BestJoin(a + b, c, x + y, z);
  }

  // ---- Regions begin and end beside common lines ----

  lemma LastRegion<T>(f1: seq<T>, f2: seq<T>, f3: seq<T>, o1: seq<Change>, o2: seq<Change>,
                      regions: seq<Region>, cuts: seq<(int, int)>, n1: int, n2: int)
    requires regions != [] && Chained(f1, f2, f3, regions) && Grouped(o1, o2, regions, cuts, n1, n2)
    ensures |cuts| == |regions| + 1
    ensures
      var front, r := regions[..|regions| - 1], regions[|regions| - 1];
      var (x1, x2) := cuts[|regions| - 1];
      && 0 <= x1 <= n1 <= |o1| && 0 <= x2 <= n2 <= |o2| && MadeOf(o1, o2, r, x1, n1, x2, n2)
      && Grouped(o1, o2, front, cuts[..|regions|], x1, x2) && Chained(f1, f2, f3, front)
      && Common(f1, f2, f3, front, r.one.from, r.two.from, r.three.from) && KindHolds(f1, f2, f3, r)
  {
    hide MadeOf, Common, KindHolds;
  }

  /** Where the last region ends, the offset to the third file is that of its last change. */
  lemma {:induction false} EndsAligned<T>(f1: seq<T>, f2: seq<T>, f3: seq<T>, o1: seq<Change>, o2: seq<Change>,
                                          regions: seq<Region>, cuts: seq<(int, int)>, n1: int, n2: int)
    requires Chained(f1, f2, f3, regions) && Grouped(o1, o2, regions, cuts, n1, n2)
    requires Describes(o1, f1, f3) && Describes(o2, f2, f3)
    ensures 0 <= n1 <= |o1| && 0 <= n2 <= |o2|
    ensures NowPast(o1, n1) <= End3(regions) && End1(regions) - WasPast(o1, n1) == End3(regions) - NowPast(o1, n1)
    ensures NowPast(o2, n2) <= End3(regions) && End2(regions) - WasPast(o2, n2) == End3(regions) - NowPast(o2, n2)
    decreases |regions|
  {
    hide Describes, Chained, Grouped, Covered;
    if regions == [] {
      NoRegions(o1, o2, regions, cuts, n1, n2);
    } else {
      LastRegion(f1, f2, f3, o1, o2, regions, cuts, n1, n2);
      var front, r := regions[..|regions| - 1], regions[|regions| - 1];
      var (x1, x2) := cuts[|regions| - 1];
      EndsAligned(f1, f2, f3, o1, o2, front, cuts[..|regions|], x1, x2);
    }
  }

  lemma NoRegions(o1: seq<Change>, o2: seq<Change>, regions: seq<Region>, cuts: seq<(int, int)>, n1: int, n2: int)
    requires regions == [] && Grouped(o1, o2, regions, cuts, n1, n2)
    ensures n1 == 0 && n2 == 0
  {
  }

  lemma StartsBefore(o1: seq<Change>, o2: seq<Change>, r: Region, x1: int, n1: int, x2: int, n2: int)
    requires 0 <= x1 <= n1 <= |o1| && 0 <= x2 <= n2 <= |o2| && MadeOf(o1, o2, r, x1, n1, x2, n2)
    ensures x1 < n1 ==> r.three.from <= o1[x1].now.from
    ensures x1 == n1 ==> r.kind == OnlySecond
  {
    hide Covered;
  }

  lemma Sides<T>(o: seq<Change>, f: seq<T>, f3: seq<T>, x: int, n: int, e1: int, e3: int, one: Range, three: Range,
                 u1: int, u3: int)
    requires Describes(o, f, f3) && 0 <= x <= n <= |o|
    requires NowPast(o, x) <= e3 && e1 - WasPast(o, x) == e3 - NowPast(o, x) && one.from - e1 == three.from - e3 >= 0
    requires NowPast(o, n) <= three.to && one.to - WasPast(o, n) == three.to - NowPast(o, n)
    requires u1 - one.to == u3 - three.to >= 0 && Beside(o, f, n, u1, u3)
    requires if x < n then three.from <= o[x].now.from else three.from <= three.to
    ensures Beside(o, f, x, one.from, three.from) && Beside(o, f, n, one.to, three.to)
  {
    StretchHolds(o, f, f3, x);
    StretchHolds(o, f, f3, n);
  }

  /** So both its ends stand beside lines of the third file, if what follows does. */
  lemma RegionSides<T>(f1: seq<T>, f2: seq<T>, f3: seq<T>, o1: seq<Change>, o2: seq<Change>,
                       regions: seq<Region>, cuts: seq<(int, int)>, n1: int, n2: int, u1: int, u2: int, u3: int)
    requires regions != [] && Chained(f1, f2, f3, regions) && Grouped(o1, o2, regions, cuts, n1, n2)
    requires Describes(o1, f1, f3) && Describes(o2, f2, f3) && Common(f1, f2, f3, regions, u1, u2, u3)
    requires 0 <= n1 <= |o1| && Beside(o1, f1, n1, u1, u3)
    ensures |cuts| == |regions| + 1
    ensures
      var r := regions[|regions| - 1];
      var (x1, x2) := cuts[|regions| - 1];
      && 0 <= x1 <= n1 && Beside(o1, f1, x1, r.one.from, r.three.from) && Beside(o1, f1, n1, r.one.to, r.three.to)
      && r.one.from <= r.one.to && (x1 == n1 ==> r.kind == OnlySecond)
  {
    hide Describes, Chained, Grouped, MadeOf, Beside, NowPast, WasPast;
    LastRegion(f1, f2, f3, o1, o2, regions, cuts, n1, n2);
    EndsAligned(f1, f2, f3, o1, o2, regions, cuts, n1, n2);
    var front, r := regions[..|regions| - 1], regions[|regions| - 1];
    var (x1, x2) := cuts[|regions| - 1];
    EndsAligned(f1, f2, f3, o1, o2, front, cuts[..|regions|], x1, x2);
    StartsBefore(o1, o2, r, x1, n1, x2, n2);
    Sides(o1, f1, f3, x1, n1, End1(front), End3(front), r.one, r.three, u1, u3);
  }

  // ---- Lines gained by entries ----

  /** The text with the entries put in matches the third file in all common lines and in all lines the
      entries bring; `was` and `now` count the lines changed within entries. */
  lemma {:induction false} SplicedMatches<T>(f1: seq<T>, f2: seq<T>, f3: seq<T>, o1: seq<Change>, o2: seq<Change>,
                                             regions: seq<Region>, cuts: seq<(int, int)>, n1: int, n2: int,
                                             u1: int, u2: int, u3: int, eflag: int, marks: Marks<T>)
    returns (was: int, now: int)
    requires Describes(o1, f1, f3) && Describes(o2, f2, f3) && Substantial(o1)
    requires Chained(f1, f2, f3, regions) && Common(f1, f2, f3, regions, u1, u2, u3)
    requires Grouped(o1, o2, regions, cuts, n1, n2) && 0 <= n1 <= |o1| && Beside(o1, f1, n1, u1, u3)
    ensures 1 <= u1 <= |f1| + 1 && 1 <= u3 <= |f3| + 1
    ensures was >= 0 && now >= 0 && (Entries(eflag, regions) != [] ==> was + now > 0)
    ensures
      var spliced := Spliced(f1, f3, Entries(eflag, regions), false, marks, u1);
      && |spliced| == u1 - 1 - was + now
      && Best(spliced, f3[..u3 - 1]) >= u1 - 1 - WasLines(o1, 0, n1) + now
    decreases |regions|
  {
    hide Describes, Chained, Grouped, Beside, Len, Spliced, Entries, Substantial, MadeOf, KindHolds;
    if regions == [] {
      was, now := 0, 0;
      NoRegions(o1, o2, regions, cuts, n1, n2);
      NoEntries(eflag);
      NothingSpliced(f1, f3, [], false, marks, u1);
      BestSame(f1[..u1 - 1]);
    } else {
      LastRegion(f1, f2, f3, o1, o2, regions, cuts, n1, n2);
      var front, r := regions[..|regions| - 1], regions[|regions| - 1];
      var (x1, x2) := cuts[|regions| - 1];
      RegionSides(f1, f2, f3, o1, o2, regions, cuts, n1, n2, u1, u2, u3);
      was, now :=
          SplicedMatches(f1, f2, f3, o1, o2, front, cuts[..|regions|], x1, x2, r.one.from, r.two.from, r.three.from,
                         eflag, marks);
      CommonLines(o1, f1, f3, x1, r.one.from, r.three.from, n1, r.one.to, r.three.to);
      LinesAdd(o1, 0, x1, n1);
      LinesNonNeg(o1, f1, f3, x1, n1);
      RegionSpliced(f1, f2, f3, regions, u1, u2, u3, eflag, marks);
      var w, t := f1[r.one.from - 1..r.one.to - 1], f3[r.three.from - 1..r.three.to - 1];
      var before := Spliced(f1, f3, Entries(eflag, front), false, marks, r.one.from);
      var tail := f1[r.one.to - 1..u1 - 1];
      BestSame(t);
      BestSame(tail);
      assert f3[..u3 - 1] == f3[..r.three.from - 1] + t + tail;
      ThreeBest(before, if InScript(eflag, r.kind) then t else w, tail, f3[..r.three.from - 1], t, tail);
      if InScript(eflag, r.kind) {
        was, now := was + WasLines(o1, x1, n1), now + NowLines(o1, x1, n1);
      }
    }
  }

  lemma NoEntries(eflag: int)
    ensures Entries(eflag, []) == []
  {
  }

  lemma RegionSpliced<T>(f1: seq<T>, f2: seq<T>, f3: seq<T>, regions: seq<Region>, u1: int, u2: int, u3: int,
                         eflag: int, marks: Marks<T>)
    requires regions != [] && Chained(f1, f2, f3, regions) && Common(f1, f2, f3, regions, u1, u2, u3)
    ensures
      var front, r := regions[..|regions| - 1], regions[|regions| - 1];
      && 1 <= r.one.from <= r.one.to <= u1 <= |f1| + 1 && 1 <= r.three.from <= r.three.to <= u3 <= |f3| + 1
      && var before := Spliced(f1, f3, Entries(eflag, front), false, marks, r.one.from);
      && Entries(eflag, regions)
         == (if InScript(eflag, r.kind) then Entries(eflag, front) + [Entry(r.one, r.three, r.kind == AllDiffer)]
             else Entries(eflag, front))
      && Spliced(f1, f3, Entries(eflag, regions), false, marks, u1)
         == before
            + (if InScript(eflag, r.kind) then f3[r.three.from - 1..r.three.to - 1]
                else f1[r.one.from - 1..r.one.to - 1])
            + f1[r.one.to - 1..u1 - 1]
  {
    hide Spliced, Entries, Lines, Slice, InOrder;
    var front, r := regions[..|regions| - 1], regions[|regions| - 1];
    assert front + [r] == regions;
    EntryAdded(eflag, front, r);
    EntriesInOrder(f1, f2, f3, eflag, front, r.one.from);
    var edits, e := Entries(eflag, front), Entry(r.one, r.three, r.kind == AllDiffer);
    if InScript(eflag, r.kind) {
      SplicedAt(f1, f3, edits + [e], false, marks, u1);
      assert (edits + [e])[..|edits|] == edits;
      LinesAreSlices(f1, r.one.to, u1 - 1);
      SliceIs(f3, r.three);
    } else {
      SplicedLonger(f1, f3, edits, false, marks, r.one.from, u1);
      assert f1[r.one.from - 1..u1 - 1] == f1[r.one.from - 1..r.one.to - 1] + f1[r.one.to - 1..u1 - 1];
    }
  }

  /** So entries never leave the text as it was. */
  lemma EntriesChange<T>(f1: seq<T>, f2: seq<T>, f3: seq<T>, o1: seq<Change>, o2: seq<Change>,
                         regions: seq<Region>, cuts: seq<(int, int)>, n1: int, n2: int,
                         u1: int, u2: int, u3: int, eflag: int, marks: Marks<T>)
    requires Describes(o1, f1, f3) && Describes(o2, f2, f3) && Substantial(o1) && Longest(o1, f1, f3)
    requires Chained(f1, f2, f3, regions) && Common(f1, f2, f3, regions, u1, u2, u3)
    requires Grouped(o1, o2, regions, cuts, n1, n2) && 0 <= n1 <= |o1| && Beside(o1, f1, n1, u1, u3)
    requires Entries(eflag, regions) != []
    ensures Spliced(f1, f3, Entries(eflag, regions), false, marks, u1) != f1[..u1 - 1]
  {
    hide Describes, Chained, Common, Grouped, Len, Spliced, Entries, Substantial;
    var was, now := SplicedMatches(f1, f2, f3, o1, o2, regions, cuts, n1, n2, u1, u2, u3, eflag, marks);
    FileEnds(o1, f1, f3);
    CommonLines(o1, f1, f3, n1, u1, u3, |o1|, |f1| + 1, |f3| + 1);
    LinesAdd(o1, 0, n1, |o1|);
    BestJoin(f1[..u1 - 1], f1[u1 - 1..], f3[..u3 - 1], f3[u3 - 1..]);
    assert f1[..u1 - 1] + f1[u1 - 1..] == f1 && f3[..u3 - 1] + f3[u3 - 1..] == f3;
    assert f1[u1 - 1..|f1|] == f1[u1 - 1..] && f3[u3 - 1..|f3|] == f3[u3 - 1..];
  }

  lemma FileEnds<T>(o: seq<Change>, f: seq<T>, f3: seq<T>)
    requires Describes(o, f, f3)
    ensures Beside(o, f, |o|, |f| + 1, |f3| + 1)
    ensures forall a, b :: Beside(o, f, |o|, a, b) ==> a <= |f| + 1
  {
    StretchHolds(o, f, f3, |o|);
  }

  // ---- The whole script ----

  lemma NoMarks<T>(f1: seq<T>, f3: seq<T>, edits: seq<Entry>, oflag: bool, marks: Marks<T>, upto: int)
    requires forall k :: 0 <= k < |edits| ==> !edits[k].overlap
    ensures Spliced(f1, f3, edits, oflag, marks, upto) == Spliced(f1, f3, edits, false, marks, upto)
  {
  }

  lemma {:induction false} MarksShow<T>(f1: seq<T>, f3: seq<T>, edits: seq<Entry>, marks: Marks<T>, upto: int, k: int)
    requires 0 <= k < |edits| && edits[k].overlap
    ensures marks.first in Spliced(f1, f3, edits, true, marks, upto)
  {
    hide Lines, Slice, Spliced;
    var n := |edits| - 1;
    SplicedAt(f1, f3, edits, true, marks, upto);
    if k < n {
      MarksShow(f1, f3, edits[..n], marks, edits[n].was.from, k);
    } else {
      assert marks.first in EntryText(f1, f3, edits[n], true, marks);
    }
  }

  lemma EntriesShow<T>(f1: seq<T>, f3: seq<T>, edits: seq<Entry>, oflag: bool, marks: Marks<T>, upto: int)
    requires oflag ==> marks.first !in f1
    requires 1 <= upto <= |f1| + 1 && Spliced(f1, f3, edits, false, marks, upto) != f1[..upto - 1]
    ensures Spliced(f1, f3, edits, oflag, marks, upto) != f1[..upto - 1]
  {
    hide Spliced;
    if k :| oflag && 0 <= k < |edits| && edits[k].overlap {
      MarksShow(f1, f3, edits, marks, upto, k);
      assert marks.first !in f1[..upto - 1];
    } else if oflag {
      NoMarks(f1, f3, edits, oflag, marks, upto);
    }
  }

  /** All entries but the last, put in alone, change what precedes it. */
  lemma {:induction false} FrontChanges<T>(f1: seq<T>, f2: seq<T>, f3: seq<T>, o1: seq<Change>, o2: seq<Change>,
                                           regions: seq<Region>, cuts: seq<(int, int)>, n1: int, n2: int,
                                           u1: int, u2: int, u3: int, eflag: int, oflag: bool, marks: Marks<T>)
    requires Describes(o1, f1, f3) && Describes(o2, f2, f3) && Substantial(o1) && Longest(o1, f1, f3)
    requires Chained(f1, f2, f3, regions) && Common(f1, f2, f3, regions, u1, u2, u3)
    requires Grouped(o1, o2, regions, cuts, n1, n2) && 0 <= n1 <= |o1| && Beside(o1, f1, n1, u1, u3)
    requires (oflag ==> marks.first !in f1) && |Entries(eflag, regions)| > 1
    ensures
      var edits := Entries(eflag, regions);
      var e := edits[|edits| - 1];
      && 1 <= e.was.from <= |f1| + 1
      && Spliced(f1, f3, edits[..|edits| - 1], oflag, marks, e.was.from) != f1[..e.was.from - 1]
    decreases |regions|
  {
    hide Describes, Chained, Grouped, Beside, Longest, Spliced, Entries, Substantial, MadeOf, KindHolds;
    if regions == [] {
      NoEntries(eflag);
      assert false;
    } else {
      LastRegion(f1, f2, f3, o1, o2, regions, cuts, n1, n2);
      var front, r := regions[..|regions| - 1], regions[|regions| - 1];
      var (x1, x2) := cuts[|regions| - 1];
      assert front + [r] == regions;
      RegionSides(f1, f2, f3, o1, o2, regions, cuts, n1, n2, u1, u2, u3);
      EntryAdded(eflag, front, r);
      if InScript(eflag, r.kind) {
        var edits := Entries(eflag, regions);
        assert edits[..|edits| - 1] == Entries(eflag, front);
        EntriesChange(f1, f2, f3, o1, o2, front, cuts[..|regions|], x1, x2, r.one.from, r.two.from, r.three.from, eflag,
                      marks);
        EntriesShow(f1, f3, Entries(eflag, front), oflag, marks, r.one.from);
      } else {
        FrontChanges(f1, f2, f3, o1, o2, front, cuts[..|regions|], x1, x2, r.one.from, r.two.from, r.three.from, eflag,
                     oflag, marks);
      }
    }
  }

  /** With reports of longest matchings, the file is as the manual promises exactly if the script has at
      most one entry. */
  lemma EntriesDecide<T>(f1: seq<T>, f2: seq<T>, f3: seq<T>, o1: seq<Change>, o2: seq<Change>,
                         regions: seq<Region>, cuts: seq<(int, int)>, eflag: int, oflag: bool, marks: Marks<T>)
    requires Describes(o1, f1, f3) && Describes(o2, f2, f3) && Substantial(o1) && Longest(o1, f1, f3)
    requires Partition(f1, f2, f3, regions) && Grouped(o1, o2, regions, cuts, |o1|, |o2|)
    requires oflag ==> marks.first !in f1
    ensures
      var edits := Entries(eflag, regions);
      Edited(f1, f1, Script(f3, edits, oflag, marks, [Write, Quit]))
          == Some(Spliced(f1, f3, edits, oflag, marks, |f1| + 1))
      <==> |edits| <= 1
  {
    hide Describes, Chained, Common, Grouped, Longest, Spliced, Entries, Substantial, Edited, Script, InOrder;
    EndsInside(f1, f2, f3, regions);
    EntriesInOrder(f1, f2, f3, eflag, regions, |f1| + 1);
    ScriptSuffices(f1, f3, Entries(eflag, regions), oflag, marks);
    if |Entries(eflag, regions)| > 1 {
      FileEnds(o1, f1, f3);
      FrontChanges(f1, f2, f3, o1, o2, regions, cuts, |o1|, |o2|, |f1| + 1, |f2| + 1, |f3| + 1, eflag, oflag, marks);
    }
  }
}
