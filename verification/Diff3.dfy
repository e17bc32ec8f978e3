/** Three-way comparison: two reports of differences against the same third file are merged
    into regions, extending and joining changes until those of both reports coincide. */
module Diff3 {
  import opened Arith

  /** Lines `from` up to but not including `to`, counted from 1. */
  datatype Range = Range(from: int, to: int)

  /** Lines `was` of the first or second file stand where the third has lines `now`. */
  datatype Change = Change(was: Range, now: Range)

  datatype Kind = OnlyFirst | OnlySecond | OnlyThird | AllDiffer

  datatype Region = Region(kind: Kind, one: Range, two: Range, three: Range)

  ghost function Slice<T>(s: seq<T>, r: Range): seq<T> {
    if 1 <= r.from <= r.to <= |s| + 1 then s[r.from - 1..r.to - 1] else []
  }

  // ---- Reports ----

  /** The common lines before change `k` begin here, in either file. */
  ghost function WasPast(o: seq<Change>, k: int): int
    requires 0 <= k <= |o|
  {
    if k == 0 then 1 else o[k - 1].was.to
  }

  ghost function NowPast(o: seq<Change>, k: int): int
    requires 0 <= k <= |o|
  {
    if k == 0 then 1 else o[k - 1].now.to
  }

  /** They end here, with the file when there is no further change. */
  ghost function WasNext(o: seq<Change>, k: int, end: int): int
    requires 0 <= k <= |o|
  {
    if k == |o| then end else o[k].was.from
  }

  ghost function NowNext(o: seq<Change>, k: int, end: int): int
    requires 0 <= k <= |o|
  {
    if k == |o| then end else o[k].now.from
  }

  ghost predicate CommonStretch<T>(o: seq<Change>, f: seq<T>, f3: seq<T>, k: int)
    requires 0 <= k <= |o|
  {
    var p, q := WasPast(o, k), NowPast(o, k);
    var s, t := WasNext(o, k, |f| + 1), NowNext(o, k, |f3| + 1);
    && 1 <= p <= s <= |f| + 1 && 1 <= q <= t <= |f3| + 1 && s - p == t - q
    && (0 < k < |o| ==> q < t)
    && f[p - 1..s - 1] == f3[q - 1..t - 1]
  }

  /** The changes ascend, common lines separate them, and outside them the files agree line by line. */
  ghost predicate Describes<T>(o: seq<Change>, f: seq<T>, f3: seq<T>) {
    && (forall k :: 0 <= k < |o| ==> o[k].was.from <= o[k].was.to && o[k].now.from <= o[k].now.to)
    && (forall k :: 0 <= k <= |o| ==> CommonStretch(o, f, f3, k))
  }

  // ---- Regions ----

  ghost function End1(regions: seq<Region>): int { if regions == [] then 1 else regions[|regions| - 1].one.to }

  ghost function End2(regions: seq<Region>): int { if regions == [] then 1 else regions[|regions| - 1].two.to }

  ghost function End3(regions: seq<Region>): int { if regions == [] then 1 else regions[|regions| - 1].three.to }

  /** From these positions up to `to1`, `to2` and `to3` the three files have the same lines. */
  ghost predicate Common<T>(f1: seq<T>, f2: seq<T>, f3: seq<T>, regions: seq<Region>, to1: int, to2: int, to3: int) {
    && 1 <= End1(regions) <= to1 <= |f1| + 1 && 1 <= End2(regions) <= to2 <= |f2| + 1
        && 1 <= End3(regions) <= to3 <= |f3| + 1
    && to1 - End1(regions) == to2 - End2(regions) == to3 - End3(regions)
    && f1[End1(regions) - 1..to1 - 1] == f3[End3(regions) - 1..to3 - 1] == f2[End2(regions) - 1..to2 - 1]
  }

  /** The region lies within the files, and they agree as its kind says. */
  ghost predicate KindHolds<T>(f1: seq<T>, f2: seq<T>, f3: seq<T>, r: Region) {
    && 1 <= r.one.from <= r.one.to <= |f1| + 1 && 1 <= r.two.from <= r.two.to <= |f2| + 1
    && 1 <= r.three.from <= r.three.to <= |f3| + 1
    && match r.kind
       case OnlyFirst => Slice(f2, r.two) == Slice(f3, r.three)
       case OnlySecond => Slice(f1, r.one) == Slice(f3, r.three)
       case OnlyThird => Slice(f1, r.one) == Slice(f2, r.two)
       case AllDiffer => Slice(f1, r.one) != Slice(f2, r.two)
  }

  /** Before and between the regions all three files have the same lines. */
  ghost predicate Chained<T>(f1: seq<T>, f2: seq<T>, f3: seq<T>, regions: seq<Region>)
    decreases |regions|
  {
    regions == [] ||
    var front, r := regions[..|regions| - 1], regions[|regions| - 1];
    && Chained(f1, f2, f3, front)
    && Common(f1, f2, f3, front, r.one.from, r.two.from, r.three.from)
    && KindHolds(f1, f2, f3, r)
  }

  /** Also after the last one. */
  ghost predicate Partition<T>(f1: seq<T>, f2: seq<T>, f3: seq<T>, regions: seq<Region>) {
    Chained(f1, f2, f3, regions) && Common(f1, f2, f3, regions, |f1| + 1, |f2| + 1, |f3| + 1)
  }

  ghost predicate Ascending(regions: seq<Region>) {
    forall k :: 0 < k < |regions| ==> regions[k - 1].three.to < regions[k].three.from
  }

  // ---- Which changes make a region ----

  ghost predicate ChangedAt(o: seq<Change>, lo: int, hi: int, line: int) {
    exists k :: 0 <= lo <= k < hi <= |o| && o[k].now.from <= line < o[k].now.to
  }

  /** Every line of the third file from `from` on belongs to some change of either report. */
  ghost predicate Covered(o1: seq<Change>, x1: int, y1: int, o2: seq<Change>, x2: int, y2: int, from: int, to: int) {
    forall line :: from <= line < to ==> ChangedAt(o1, x1, y1, line) || ChangedAt(o2, x2, y2, line)
  }

  /** `mine` is what `three` becomes when its ends are moved from the third file into the other
      by the line offsets before the first and after the last change. */
  ghost predicate Moved(o: seq<Change>, x: int, y: int, mine: Range, three: Range)
    requires 0 <= x < y <= |o|
  {
    && mine.from - three.from == o[x].was.from - o[x].now.from
    && mine.to - three.to == o[y - 1].was.to - o[y - 1].now.to
  }

  /** The region stands for the changes from `x1` to before `y1` and from `x2` to before `y2`. */
  ghost predicate MadeOf(o1: seq<Change>, o2: seq<Change>, r: Region, x1: int, y1: int, x2: int, y2: int)
    requires 0 <= x1 <= y1 <= |o1| && 0 <= x2 <= y2 <= |o2|
  {
    match r.kind
    case OnlyFirst => y1 == x1 + 1 && y2 == x2 && r.one == o1[x1].was && r.three == o1[x1].now
    case OnlySecond => y1 == x1 && y2 == x2 + 1 && r.two == o2[x2].was && r.three == o2[x2].now
    case _ =>
      && x1 < y1 && x2 < y2 && Moved(o1, x1, y1, r.one, r.three) && Moved(o2, x2, y2, r.two, r.three)
      && r.three.from == Min(o1[x1].now.from, o2[x2].now.from)
      && r.three.to == Max(o1[y1 - 1].now.to, o2[y2 - 1].now.to)
      && Covered(o1, x1, y1, o2, x2, y2, r.three.from, r.three.to)
  }

  /** Region by region, the changes up to `n1` and `n2` are used up, each in exactly one region. */
  ghost predicate Grouped(o1: seq<Change>, o2: seq<Change>, regions: seq<Region>, cuts: seq<(int, int)>, n1: int,
                          n2: int)
    decreases |regions|
  {
    && |cuts| == |regions| + 1 && cuts[|regions|] == (n1, n2)
    && if regions == [] then n1 == 0 && n2 == 0
       else
         var (x1, x2) := cuts[|regions| - 1];
         && 0 <= x1 <= n1 <= |o1| && 0 <= x2 <= n2 <= |o2|
         && Grouped(o1, o2, regions[..|regions| - 1], cuts[..|regions|], x1, x2)
         && MadeOf(o1, o2, regions[|regions| - 1], x1, n1, x2, n2)
  }

  // ---- One report while it is merged ----

  /** The changes from `lo` to `i` have been joined in entry `i`, which may have been extended;
      line `e` of this file stands beside line `e3` of the third, where the last region ended. */
  ghost predicate Follows(o: seq<Change>, c: seq<Change>, lo: int, i: int, e: int, e3: int, end: int, first: bool) {
    && |c| == |o| && 0 <= lo <= i <= |o|
    && (forall k :: i < k < |o| ==> c[k] == o[k])
    && NowPast(o, lo) <= e3 <= end && e3 - e == NowPast(o, lo) - WasPast(o, lo)
    && if i == |o| then lo == i
       else
         && e3 <= c[i].now.from <= o[lo].now.from && (first || e3 < c[i].now.from)
         && o[i].now.to <= c[i].now.to <= end
         && c[i].now.from - c[i].was.from == o[lo].now.from - o[lo].was.from
         && c[i].now.to - c[i].was.to == o[i].now.to - o[i].was.to
  }

  ghost predicate Raw(o: seq<Change>, c: seq<Change>, lo: int, i: int)
    requires |c| == |o| && 0 <= i <= |o|
  {
    lo == i && (i < |o| ==> c[i] == o[i])
  }

  /** Either no entry has been touched since the last region, or both start at the same line
      and their changes leave no line out. */
  ghost predicate Together(o1: seq<Change>, c1: seq<Change>, lo1: int, i1: int, o2: seq<Change>, c2: seq<Change>,
                           lo2: int, i2: int)
    requires |c1| == |o1| && 0 <= lo1 <= i1 <= |o1| && |c2| == |o2| && 0 <= lo2 <= i2 <= |o2|
  {
    || (Raw(o1, c1, lo1, i1) && Raw(o2, c2, lo2, i2))
    || (&& i1 < |o1| && i2 < |o2| && c1[i1].now.from == c2[i2].now.from == Min(o1[lo1].now.from, o2[lo2].now.from)
        && var to := Max(o1[i1].now.to, o2[i2].now.to);
        c1[i1].now.to <= to && c2[i2].now.to <= to
        && Covered(o1, lo1, i1 + 1, o2, lo2, i2 + 1, c1[i1].now.from, to))
  }

  ghost predicate Merging<T>(f1: seq<T>, f2: seq<T>, f3: seq<T>, o1: seq<Change>, c1: seq<Change>, lo1: int, i1: int,
                             o2: seq<Change>, c2: seq<Change>, lo2: int, i2: int, regions: seq<Region>,
                             cuts: seq<(int, int)>)
  {
    && Describes(o1, f1, f3) && Describes(o2, f2, f3)
    && Follows(o1, c1, lo1, i1, End1(regions), End3(regions), |f3| + 1, regions == [])
    && Follows(o2, c2, lo2, i2, End2(regions), End3(regions), |f3| + 1, regions == [])
    && Together(o1, c1, lo1, i1, o2, c2, lo2, i2)
    && Grouped(o1, o2, regions, cuts, lo1, lo2)
    && Chained(f1, f2, f3, regions) && Ascending(regions)
  }

  // ---- Steps on one report ----

  lemma StretchHolds<T>(o: seq<Change>, f: seq<T>, f3: seq<T>, k: int)
    requires Describes(o, f, f3) && 0 <= k <= |o|
    ensures CommonStretch(o, f, f3, k)
    ensures k < |o| ==> o[k].was.from <= o[k].was.to && o[k].now.from <= o[k].now.to
  {
  }

  /** Changes ascend over any distance. */
  lemma {:induction false} Ascend<T>(o: seq<Change>, f: seq<T>, f3: seq<T>, k: int, n: int)
    requires Describes(o, f, f3) && 0 <= k <= n < |o|
    ensures o[k].now.from <= o[n].now.from && o[k].now.to <= o[n].now.to && o[k].now.from <= o[k].now.to
    decreases n
  {
    hide Describes;
    StretchHolds(o, f, f3, k);
    if k < n {
      StretchHolds(o, f, f3, n);
      Ascend(o, f, f3, k, n - 1);
    }
  }

  lemma SubSlice<T>(f: seq<T>, f3: seq<T>, p: int, s: int, q: int, t: int, x: int, y: int, x3: int, y3: int)
    requires 0 <= p <= x <= y <= s <= |f| && 0 <= q <= x3 <= y3 <= t <= |f3|
    requires x - p == x3 - q && y - x == y3 - x3 && f[p..s] == f3[q..t]
    ensures f[x..y] == f3[x3..y3]
  {
    var a, b := f[p..s], f3[q..t];
    forall j | 0 <= j < y - x ensures f[x..y][j] == f3[x3..y3][j] {
      assert a[x - p + j] == b[x3 - q + j];
    }
  }

  /** Lines before the next change are the same in the third file. */
  lemma Agree<T>(o: seq<Change>, c: seq<Change>, f: seq<T>, f3: seq<T>, lo: int, i: int, e: int, e3: int, first: bool,
                 from: int, to: int)
    requires Describes(o, f, f3) && Follows(o, c, lo, i, e, e3, |f3| + 1, first)
    requires e3 <= from <= to <= NowNext(o, lo, |f3| + 1)
    ensures 1 <= e3 && 1 <= e && to - e3 + e <= |f| + 1 && to <= |f3| + 1
    ensures f[from - e3 + e - 1..to - e3 + e - 1] == f3[from - 1..to - 1]
  {
    StretchHolds(o, f, f3, lo);
    SubSlice(f, f3, WasPast(o, lo) - 1, WasNext(o, lo, |f| + 1) - 1, NowPast(o, lo) - 1, NowNext(o, lo, |f3| + 1) - 1,
             from - e3 + e - 1, to - e3 + e - 1, from - 1, to - 1);
  }

  /** The end of an entry that does not reach the next one lies within the file. */
  lemma EntryEnds<T>(o: seq<Change>, c: seq<Change>, f: seq<T>, f3: seq<T>, lo: int, i: int, e: int, e3: int,
                     first: bool)
    requires Describes(o, f, f3) && Follows(o, c, lo, i, e, e3, |f3| + 1, first) && i < |o|
    requires i + 1 < |o| ==> c[i].now.to < o[i + 1].now.from
    ensures 1 <= c[i].was.from <= c[i].was.to <= |f| + 1 && 1 <= c[i].now.from <= c[i].now.to
    ensures c[i].was.from - e == c[i].now.from - e3
    ensures Follows(o, c, i + 1, i + 1, c[i].was.to, c[i].now.to, |f3| + 1, false)
  {
    StretchHolds(o, f, f3, lo);
    StretchHolds(o, f, f3, i);
    StretchHolds(o, f, f3, i + 1);
    if i + 1 < |o| {
      StretchHolds(o, f, f3, i + 2);
    }
    Ascend(o, f, f3, lo, i);
    if lo < i {
      WasAscend(o, f, f3, lo, i);
    }
  }

  lemma {:induction false} WasAscend<T>(o: seq<Change>, f: seq<T>, f3: seq<T>, k: int, n: int)
    requires Describes(o, f, f3) && 0 <= k <= n < |o|
    ensures o[k].was.from <= o[n].was.to
    decreases n
  {
    StretchHolds(o, f, f3, n);
    if k < n {
      WasAscend(o, f, f3, k, n - 1);
    }
  }

  /** A region of the other report passes by. */
  lemma Passed<T>(o: seq<Change>, c: seq<Change>, f: seq<T>, f3: seq<T>, lo: int, i: int, e: int, e3: int, first: bool,
                  to: int)
    requires Describes(o, f, f3) && Follows(o, c, lo, i, e, e3, |f3| + 1, first) && e3 <= to <= |f3| + 1
    requires i < |o| ==> to < c[i].now.from
    ensures Follows(o, c, lo, i, to - e3 + e, to, |f3| + 1, false)
    ensures to <= NowNext(o, lo, |f3| + 1)
  {
  }

  lemma Joined<T>(o: seq<Change>, c: seq<Change>, f: seq<T>, f3: seq<T>, lo: int, i: int, e: int, e3: int, first: bool)
    requires Describes(o, f, f3) && Follows(o, c, lo, i, e, e3, |f3| + 1, first) && i + 1 < |o|
    ensures
      var next := Change(Range(c[i].was.from, c[i + 1].was.to), Range(c[i].now.from, c[i + 1].now.to));
      Follows(o, c[i + 1 := next], lo, i + 1, e, e3, |f3| + 1, first)
    ensures o[i].now.to < o[i + 1].now.from <= o[i + 1].now.to
  {
    StretchHolds(o, f, f3, i + 1);
    StretchHolds(o, f, f3, i + 2);
  }

  lemma Extended(o: seq<Change>, c: seq<Change>, lo: int, i: int, e: int, e3: int, end: int, first: bool, from: int,
                 to: int)
    requires Follows(o, c, lo, i, e, e3, end, first) && i < |o|
    requires e3 <= from <= c[i].now.from && (first || e3 < from) && c[i].now.to <= to <= end
    ensures
      var was := Range(c[i].was.from - (c[i].now.from - from), c[i].was.to + (to - c[i].now.to));
      Follows(o, c[i := Change(was, Range(from, to))], lo, i, e, e3, end, first)
  {
  }

  // ---- Steps on both ----

  lemma RegionAdded<T>(f1: seq<T>, f2: seq<T>, f3: seq<T>, o1: seq<Change>, o2: seq<Change>, regions: seq<Region>,
                       cuts: seq<(int, int)>,
                       r: Region, x1: int, x2: int, y1: int, y2: int)
    requires Chained(f1, f2, f3, regions) && Ascending(regions) && Grouped(o1, o2, regions, cuts, x1, x2)
    requires Common(f1, f2, f3, regions, r.one.from, r.two.from, r.three.from) && KindHolds(f1, f2, f3, r)
    requires 0 <= x1 <= y1 <= |o1| && 0 <= x2 <= y2 <= |o2| && MadeOf(o1, o2, r, x1, y1, x2, y2)
    requires regions == [] || End3(regions) < r.three.from
    ensures Chained(f1, f2, f3, regions + [r]) && Ascending(regions + [r])
    ensures Grouped(o1, o2, regions + [r], cuts + [(y1, y2)], y1, y2)
  {
    hide Common, KindHolds, MadeOf;
    var more, after := regions + [r], cuts + [(y1, y2)];
    assert more[..|more| - 1] == regions;
    assert after[..|more|] == cuts;
    assert after[|more| - 1] == (x1, x2);
    assert after[|more|] == (y1, y2);
  }

  lemma GapIsCommon<T>(f1: seq<T>, f2: seq<T>, f3: seq<T>, o1: seq<Change>, c1: seq<Change>, lo1: int, i1: int,
                       o2: seq<Change>, c2: seq<Change>, lo2: int, i2: int, regions: seq<Region>, first: bool, to: int)
    requires Describes(o1, f1, f3) && Describes(o2, f2, f3)
    requires Follows(o1, c1, lo1, i1, End1(regions), End3(regions), |f3| + 1, first)
    requires Follows(o2, c2, lo2, i2, End2(regions), End3(regions), |f3| + 1, first)
    requires End3(regions) <= to <= NowNext(o1, lo1, |f3| + 1) && to <= NowNext(o2, lo2, |f3| + 1)
    ensures Common(f1, f2, f3, regions, to - End3(regions) + End1(regions), to - End3(regions) + End2(regions), to)
  {
    hide Describes, Follows, NowNext, End1, End2, End3;
    Agree(o1, c1, f1, f3, lo1, i1, End1(regions), End3(regions), first, End3(regions), to);
    Agree(o2, c2, f2, f3, lo2, i2, End2(regions), End3(regions), first, End3(regions), to);
  }

  lemma OnlyOneSide<T>(f1: seq<T>, f2: seq<T>, f3: seq<T>, o1: seq<Change>, c1: seq<Change>, lo1: int, i1: int,
                       o2: seq<Change>, c2: seq<Change>, lo2: int, i2: int, regions: seq<Region>, cuts: seq<(int, int)>)
    requires Merging(f1, f2, f3, o1, c1, lo1, i1, o2, c2, lo2, i2, regions, cuts)
    ensures i1 < |o1| && (i2 == |o2| || c1[i1].now.to < c2[i2].now.from) ==>
      lo1 == i1 && c1[i1] == o1[i1] && (i1 + 1 < |o1| ==> c1[i1].now.to < o1[i1 + 1].now.from)
    ensures i2 < |o2| && (i1 == |o1| || c2[i2].now.to < c1[i1].now.from) ==>
      lo2 == i2 && c2[i2] == o2[i2] && (i2 + 1 < |o2| ==> c2[i2].now.to < o2[i2 + 1].now.from)
  {
    if i1 < |o1| {
      Ascend(o1, f1, f3, lo1, i1);
      StretchHolds(o1, f1, f3, i1 + 1);
    }
    if i2 < |o2| {
      Ascend(o2, f2, f3, lo2, i2);
      StretchHolds(o2, f2, f3, i2 + 1);
    }
  }

  lemma FirstDone<T>(f1: seq<T>, f2: seq<T>, f3: seq<T>, o1: seq<Change>, c1: seq<Change>, lo1: int, i1: int,
                     o2: seq<Change>, c2: seq<Change>, lo2: int, i2: int, regions: seq<Region>, cuts: seq<(int, int)>,
                     r: Region)
    requires Merging(f1, f2, f3, o1, c1, lo1, i1, o2, c2, lo2, i2, regions, cuts)
    requires i1 < |o1| && (i2 == |o2| || c1[i1].now.to < c2[i2].now.from)
    requires r.kind == OnlyFirst && r.one == c1[i1].was && r.three == c1[i1].now
    requires r.two.from == r.three.from - End3(regions) + End2(regions)
        && r.two.to == r.three.to - End3(regions) + End2(regions)
    ensures Merging(f1, f2, f3, o1, c1, i1 + 1, i1 + 1, o2, c2, lo2, i2, regions + [r], cuts + [(i1 + 1, lo2)])
  {
    hide Describes, Common, Chained, Grouped, Ascending, Covered;
    OnlyOneSide(f1, f2, f3, o1, c1, lo1, i1, o2, c2, lo2, i2, regions, cuts);
    var e1, e2, e3 := End1(regions), End2(regions), End3(regions);
    EntryEnds(o1, c1, f1, f3, lo1, i1, e1, e3, regions == []);
    Passed(o2, c2, f2, f3, lo2, i2, e2, e3, regions == [], r.three.to);
    Agree(o2, c2, f2, f3, lo2, i2, e2, e3, regions == [], r.three.from, r.three.to);
    GapIsCommon(f1, f2, f3, o1, c1, lo1, i1, o2, c2, lo2, i2, regions, regions == [], r.three.from);
    RegionAdded(f1, f2, f3, o1, o2, regions, cuts, r, lo1, lo2, i1 + 1, lo2);
  }

  lemma SecondDone<T>(f1: seq<T>, f2: seq<T>, f3: seq<T>, o1: seq<Change>, c1: seq<Change>, lo1: int, i1: int,
                      o2: seq<Change>, c2: seq<Change>, lo2: int, i2: int, regions: seq<Region>, cuts: seq<(int, int)>,
                      r: Region)
    requires Merging(f1, f2, f3, o1, c1, lo1, i1, o2, c2, lo2, i2, regions, cuts)
    requires i2 < |o2| && (i1 == |o1| || c2[i2].now.to < c1[i1].now.from)
    requires r.kind == OnlySecond && r.two == c2[i2].was && r.three == c2[i2].now
    requires r.one.from == r.three.from - End3(regions) + End1(regions)
        && r.one.to == r.three.to - End3(regions) + End1(regions)
    ensures Merging(f1, f2, f3, o1, c1, lo1, i1, o2, c2, i2 + 1, i2 + 1, regions + [r], cuts + [(lo1, i2 + 1)])
  {
    hide Describes, Common, Chained, Grouped, Ascending, Covered;
    OnlyOneSide(f1, f2, f3, o1, c1, lo1, i1, o2, c2, lo2, i2, regions, cuts);
    var e1, e2, e3 := End1(regions), End2(regions), End3(regions);
    EntryEnds(o2, c2, f2, f3, lo2, i2, e2, e3, regions == []);
    Passed(o1, c1, f1, f3, lo1, i1, e1, e3, regions == [], r.three.to);
    Agree(o1, c1, f1, f3, lo1, i1, e1, e3, regions == [], r.three.from, r.three.to);
    GapIsCommon(f1, f2, f3, o1, c1, lo1, i1, o2, c2, lo2, i2, regions, regions == [], r.three.from);
    RegionAdded(f1, f2, f3, o1, o2, regions, cuts, r, lo1, lo2, lo1, i2 + 1);
  }

  lemma CoveredGrows(o1: seq<Change>, x1: int, y1: int, z1: int, o2: seq<Change>, x2: int, y2: int, z2: int, from: int,
                     to: int)
    requires Covered(o1, x1, y1, o2, x2, y2, from, to) && y1 <= z1 <= |o1| && y2 <= z2 <= |o2|
    ensures Covered(o1, x1, z1, o2, x2, z2, from, to)
  {
    forall line | from <= line < to ensures ChangedAt(o1, x1, z1, line) || ChangedAt(o2, x2, z2, line) {
      assert ChangedAt(o1, x1, y1, line) || ChangedAt(o2, x2, y2, line);
    }
  }

  lemma CoveredBy(o1: seq<Change>, x1: int, y1: int, o2: seq<Change>, x2: int, y2: int, from: int, mid: int, k1: int,
                  k2: int)
    requires 0 <= x1 <= k1 < y1 <= |o1| && 0 <= x2 <= k2 < y2 <= |o2| && Covered(o1, x1, y1, o2, x2, y2, from, mid)
    ensures o1[k1].now.from <= mid ==> Covered(o1, x1, y1, o2, x2, y2, from, Max(mid, o1[k1].now.to))
    ensures o2[k2].now.from <= mid ==> Covered(o1, x1, y1, o2, x2, y2, from, Max(mid, o2[k2].now.to))
  {
    forall line | mid <= line < o1[k1].now.to && o1[k1].now.from <= mid ensures ChangedAt(o1, x1, y1, line) {
    }
    forall line | mid <= line < o2[k2].now.to && o2[k2].now.from <= mid ensures ChangedAt(o2, x2, y2, line) {
    }
  }

  lemma BothDone<T>(f1: seq<T>, f2: seq<T>, f3: seq<T>, o1: seq<Change>, c1: seq<Change>, lo1: int, i1: int,
                    o2: seq<Change>, c2: seq<Change>, lo2: int, i2: int, regions: seq<Region>, cuts: seq<(int, int)>,
                    r: Region)
    requires Merging(f1, f2, f3, o1, c1, lo1, i1, o2, c2, lo2, i2, regions, cuts)
    requires i1 < |o1| && i2 < |o2| && c1[i1].now == c2[i2].now
    requires i1 + 1 < |o1| ==> c1[i1].now.to < c1[i1 + 1].now.from
    requires i2 + 1 < |o2| ==> c2[i2].now.to < c2[i2 + 1].now.from
    requires r.one == c1[i1].was && r.two == c2[i2].was && r.three == c1[i1].now
    requires r.kind == if Slice(f1, r.one) == Slice(f2, r.two) then OnlyThird else AllDiffer
    ensures Merging(f1, f2, f3, o1, c1, i1 + 1, i1 + 1, o2, c2, i2 + 1, i2 + 1, regions + [r], cuts
        + [(i1 + 1, i2 + 1)])
  {
    hide Describes, Common, Chained, Grouped, Ascending, Covered;
    var e1, e2, e3 := End1(regions), End2(regions), End3(regions);
    EntryEnds(o1, c1, f1, f3, lo1, i1, e1, e3, regions == []);
    EntryEnds(o2, c2, f2, f3, lo2, i2, e2, e3, regions == []);
    GapIsCommon(f1, f2, f3, o1, c1, lo1, i1, o2, c2, lo2, i2, regions, regions == [], r.three.from);
    BothMadeOf(f1, f2, f3, o1, c1, lo1, i1, o2, c2, lo2, i2, regions, cuts, r);
    RegionAdded(f1, f2, f3, o1, o2, regions, cuts, r, lo1, lo2, i1 + 1, i2 + 1);
  }

  lemma BothMadeOf<T>(f1: seq<T>, f2: seq<T>, f3: seq<T>, o1: seq<Change>, c1: seq<Change>, lo1: int, i1: int,
                      o2: seq<Change>, c2: seq<Change>, lo2: int, i2: int, regions: seq<Region>, cuts: seq<(int, int)>,
                      r: Region)
    requires Merging(f1, f2, f3, o1, c1, lo1, i1, o2, c2, lo2, i2, regions, cuts)
    requires i1 < |o1| && i2 < |o2| && c1[i1].now == c2[i2].now
    requires r.one == c1[i1].was && r.two == c2[i2].was && r.three == c1[i1].now
    requires r.kind == OnlyThird || r.kind == AllDiffer
    ensures MadeOf(o1, o2, r, lo1, i1 + 1, lo2, i2 + 1)
  {
    hide Describes, Grouped, Chained, Ascending;
    if Raw(o1, c1, lo1, i1) && Raw(o2, c2, lo2, i2) {
      assert Covered(o1, lo1, i1 + 1, o2, lo2, i2 + 1, r.three.from, r.three.from);
      CoveredBy(o1, lo1, i1 + 1, o2, lo2, i2 + 1, r.three.from, r.three.from, i1, i2);
      if r.three.to < r.three.from {
        assert Covered(o1, lo1, i1 + 1, o2, lo2, i2 + 1, r.three.from, r.three.to);
      }
    }
  }

  lemma FirstJoined<T>(f1: seq<T>, f2: seq<T>, f3: seq<T>, o1: seq<Change>, c1: seq<Change>, lo1: int, i1: int,
                       o2: seq<Change>, c2: seq<Change>, lo2: int, i2: int, regions: seq<Region>, cuts: seq<(int, int)>,
                       next: Change)
    requires Merging(f1, f2, f3, o1, c1, lo1, i1, o2, c2, lo2, i2, regions, cuts)
    requires i1 + 1 < |o1| && i2 < |o2| && c1[i1].now.to >= c1[i1 + 1].now.from
    requires next == Change(Range(c1[i1].was.from, c1[i1 + 1].was.to), Range(c1[i1].now.from, c1[i1 + 1].now.to))
    ensures Merging(f1, f2, f3, o1, c1[i1 + 1 := next], lo1, i1 + 1, o2, c2, lo2, i2, regions, cuts)
  {
    hide Describes, Grouped, Chained, Ascending;
    Joined(o1, c1, f1, f3, lo1, i1, End1(regions), End3(regions), regions == []);
    var from, to := c1[i1].now.from, Max(o1[i1].now.to, o2[i2].now.to);
    CoveredGrows(o1, lo1, i1 + 1, i1 + 2, o2, lo2, i2 + 1, i2 + 1, from, to);
    CoveredBy(o1, lo1, i1 + 2, o2, lo2, i2 + 1, from, to, i1 + 1, i2);
  }

  lemma SecondJoined<T>(f1: seq<T>, f2: seq<T>, f3: seq<T>, o1: seq<Change>, c1: seq<Change>, lo1: int, i1: int,
                        o2: seq<Change>, c2: seq<Change>, lo2: int, i2: int, regions: seq<Region>,
                        cuts: seq<(int, int)>, next: Change)
    requires Merging(f1, f2, f3, o1, c1, lo1, i1, o2, c2, lo2, i2, regions, cuts)
    requires i1 < |o1| && i2 + 1 < |o2| && c2[i2].now.to >= c2[i2 + 1].now.from
    requires next == Change(Range(c2[i2].was.from, c2[i2 + 1].was.to), Range(c2[i2].now.from, c2[i2 + 1].now.to))
    ensures Merging(f1, f2, f3, o1, c1, lo1, i1, o2, c2[i2 + 1 := next], lo2, i2 + 1, regions, cuts)
  {
    hide Describes, Grouped, Chained, Ascending;
    Joined(o2, c2, f2, f3, lo2, i2, End2(regions), End3(regions), regions == []);
    var from, to := c2[i2].now.from, Max(o1[i1].now.to, o2[i2].now.to);
    CoveredGrows(o1, lo1, i1 + 1, i1 + 1, o2, lo2, i2 + 1, i2 + 2, from, to);
    CoveredBy(o1, lo1, i1 + 1, o2, lo2, i2 + 2, from, to, i1, i2 + 1);
  }

  lemma BothExtended<T>(f1: seq<T>, f2: seq<T>, f3: seq<T>, o1: seq<Change>, c1: seq<Change>, lo1: int, i1: int,
                        o2: seq<Change>, c2: seq<Change>, lo2: int, i2: int, regions: seq<Region>,
                        cuts: seq<(int, int)>, n1: Change, n2: Change)
    requires Merging(f1, f2, f3, o1, c1, lo1, i1, o2, c2, lo2, i2, regions, cuts)
    requires i1 < |o1| && i2 < |o2| && c1[i1].now.to >= c2[i2].now.from && c2[i2].now.to >= c1[i1].now.from
    requires n1.now == n2.now == Range(Min(c1[i1].now.from, c2[i2].now.from), Max(c1[i1].now.to, c2[i2].now.to))
    requires n1.was
        == Range(c1[i1].was.from - (c1[i1].now.from - n1.now.from), c1[i1].was.to + (n1.now.to - c1[i1].now.to))
    requires n2.was
        == Range(c2[i2].was.from - (c2[i2].now.from - n2.now.from), c2[i2].was.to + (n2.now.to - c2[i2].now.to))
    ensures Merging(f1, f2, f3, o1, c1[i1 := n1], lo1, i1, o2, c2[i2 := n2], lo2, i2, regions, cuts)
  {
    hide Describes, Grouped, Chained, Ascending;
    Extended(o1, c1, lo1, i1, End1(regions), End3(regions), |f3| + 1, regions == [], n1.now.from, n1.now.to);
    Extended(o2, c2, lo2, i2, End2(regions), End3(regions), |f3| + 1, regions == [], n2.now.from, n2.now.to);
    var from, to := n1.now.from, Max(o1[i1].now.to, o2[i2].now.to);
    if Raw(o1, c1, lo1, i1) && Raw(o2, c2, lo2, i2) {
      assert Covered(o1, lo1, i1 + 1, o2, lo2, i2 + 1, from, from);
      CoveredBy(o1, lo1, i1 + 1, o2, lo2, i2 + 1, from, from, i1, i2);
      CoveredBy(o1, lo1, i1 + 1, o2, lo2, i2 + 1, from, o1[i1].now.to, i1, i2);
      CoveredBy(o1, lo1, i1 + 1, o2, lo2, i2 + 1, from, o2[i2].now.to, i1, i2);
    }
  }
}
