/** The merging loop itself: both reports are edited in place, each behind its own cursor. */
module Diff3Merge {
  import opened Arith
  import opened Diff3

  /** One step of the script for file 1: put lines `now` of file 3 where it has lines `was`. */
  datatype Entry = Entry(was: Range, now: Range, overlap: bool)

  /** `eflag` 1 wants the regions in which all files differ, 2 those of the third file, 3 both. */
  predicate Wanted(eflag: int, dupl: bool) {
    if dupl then eflag == 2 || eflag == 3 else eflag == 1 || eflag == 3
  }

  predicate InScript(eflag: int, kind: Kind) {
    (kind == OnlyThird && Wanted(eflag, true)) || (kind == AllDiffer && Wanted(eflag, false))
  }

  ghost function Entries(eflag: int, regions: seq<Region>): seq<Entry> {
    if regions == [] then []
    else
      var front, r := Entries(eflag, regions[..|regions| - 1]), regions[|regions| - 1];
      if InScript(eflag, r.kind) then front + [Entry(r.one, r.three, r.kind == AllDiffer)] else front
  }

  /** An entry for every region of these kinds, in order. */
  ghost function Picked(regions: seq<Region>, kinds: set<Kind>): seq<Entry> {
    if regions == [] then []
    else
      var r := regions[|regions| - 1];
      Picked(regions[..|regions| - 1], kinds)
      + if r.kind in kinds then [Entry(r.one, r.three, r.kind == AllDiffer)] else []
  }

  /** `-x` takes the regions in which all files differ, `-3` those in which only the third does, `-e` both. */
  lemma {:induction false} FlagsPick(eflag: int, regions: seq<Region>)
    ensures eflag == 0 ==> Entries(eflag, regions) == []
    ensures eflag == 1 ==> Entries(eflag, regions) == Picked(regions, {AllDiffer})
    ensures eflag == 2 ==> Entries(eflag, regions) == Picked(regions, {OnlyThird})
    ensures eflag == 3 ==> Entries(eflag, regions) == Picked(regions, {AllDiffer, OnlyThird})
  {
    if regions != [] {
      FlagsPick(eflag, regions[..|regions| - 1]);
    }
  }

  /** The places of these regions. */
  ghost function Places(regions: seq<Region>, kinds: set<Kind>): seq<nat> {
    if regions == [] then []
    else
      var n := |regions| - 1;
      Places(regions[..n], kinds) + if regions[n].kind in kinds then [n] else []
  }

  ghost predicate EntryOf(e: Entry, r: Region) { e == Entry(r.one, r.three, r.kind == AllDiffer) }

  ghost predicate PlacesOf(regions: seq<Region>, kinds: set<Kind>, at: seq<nat>) {
    && (forall x, y :: 0 <= x < y < |at| ==> at[x] < at[y])
    && (forall x :: 0 <= x < |at| ==> at[x] < |regions| && regions[at[x]].kind in kinds)
    && (forall k :: 0 <= k < |regions| && regions[k].kind in kinds ==> k in at)
  }

  lemma {:induction false} PlacesAre(regions: seq<Region>, kinds: set<Kind>)
    ensures PlacesOf(regions, kinds, Places(regions, kinds))
  {
    if regions != [] {
      var n := |regions| - 1;
      PlacesAre(regions[..n], kinds);
      assert forall x :: 0 <= x < n ==> regions[..n][x] == regions[x];
    }
  }

  /** No region of these kinds is left out, none is taken twice, and no other is taken. */
  lemma {:induction false} PickedExactly(regions: seq<Region>, kinds: set<Kind>)
    ensures
      var edits, at := Picked(regions, kinds), Places(regions, kinds);
      && PlacesOf(regions, kinds, at) && |edits| == |at|
      && forall x :: 0 <= x < |at| ==> EntryOf(edits[x], regions[at[x]])
  {
    PlacesAre(regions, kinds);
    if regions != [] {
      var n := |regions| - 1;
      PickedExactly(regions[..n], kinds);
      hide EntryOf;
      forall x | 0 <= x < |Places(regions, kinds)|
        ensures |Picked(regions, kinds)| == |Places(regions, kinds)|
        ensures EntryOf(Picked(regions, kinds)[x], regions[Places(regions, kinds)[x]])
      {
        if x < |Places(regions[..n], kinds)| {
          assert EntryOf(Picked(regions[..n], kinds)[x], regions[..n][Places(regions[..n], kinds)[x]]);
        } else {
          assert EntryOf(Entry(regions[n].one, regions[n].three, regions[n].kind == AllDiffer), regions[n]) by {
            EntryIs(regions[n]);
          }
        }
      }
    }
  }

  lemma EntryIs(r: Region)
    ensures EntryOf(Entry(r.one, r.three, r.kind == AllDiffer), r)
  {
  }

  lemma EntryAdded(eflag: int, regions: seq<Region>, r: Region)
    ensures Entries(eflag, regions + [r])
         == if InScript(eflag, r.kind) then Entries(eflag, regions) + [Entry(r.one, r.three, r.kind == AllDiffer)]
             else Entries(eflag, regions)
  {
    assert (regions + [r])[..|regions|] == regions;
  }

  method Duplicate<T(==)>(f1: seq<T>, f2: seq<T>, r1: Range, r2: Range) returns (same: bool)
    requires 1 <= r1.from <= r1.to <= |f1| + 1 && 1 <= r2.from <= r2.to <= |f2| + 1
    ensures same <==> Slice(f1, r1) == Slice(f2, r2)
  {
    if r1.to - r1.from != r2.to - r2.from {
      return false;
    }
    ghost var a, b := Slice(f1, r1), Slice(f2, r2);
    var nline := 0;
    while nline < r1.to - r1.from
      invariant 0 <= nline <= r1.to - r1.from
      invariant forall k :: 0 <= k < nline ==> a[k] == b[k]
    {
      assert a[nline] == f1[r1.from - 1 + nline] && b[nline] == f2[r2.from - 1 + nline];
      if f1[r1.from - 1 + nline] != f2[r2.from - 1 + nline] {
        return false;
      }
      nline := nline + 1;
    }
    assert a == b;
    return true;
  }

  lemma MergeBegins<T>(f1: seq<T>, f2: seq<T>, f3: seq<T>, o1: seq<Change>, o2: seq<Change>)
    requires Describes(o1, f1, f3) && Describes(o2, f2, f3)
    ensures Merging(f1, f2, f3, o1, o1, 0, 0, o2, o2, 0, 0, [], [(0, 0)])
  {
    BeginFollows(o1, f1, f3);
    BeginFollows(o2, f2, f3);
  }

  lemma BeginFollows<T>(o: seq<Change>, f: seq<T>, f3: seq<T>)
    requires Describes(o, f, f3)
    ensures Follows(o, o, 0, 0, 1, 1, |f3| + 1, true)
  {
    StretchHolds(o, f, f3, 0);
    if |o| > 0 {
      StretchHolds(o, f, f3, 1);
    }
  }

  lemma MergeEnds<T>(f1: seq<T>, f2: seq<T>, f3: seq<T>, o1: seq<Change>, c1: seq<Change>, lo1: int,
                     o2: seq<Change>, c2: seq<Change>, lo2: int, regions: seq<Region>, cuts: seq<(int, int)>)
    requires Merging(f1, f2, f3, o1, c1, lo1, |o1|, o2, c2, lo2, |o2|, regions, cuts)
    ensures lo1 == |o1| && lo2 == |o2| && Partition(f1, f2, f3, regions)
  {
    hide Describes, Chained, Grouped, Ascending;
    GapIsCommon(f1, f2, f3, o1, c1, lo1, |o1|, o2, c2, lo2, |o2|, regions, regions == [], |f3| + 1);
    StretchHolds(o1, f1, f3, |o1|);
    StretchHolds(o2, f2, f3, |o2|);
  }

  /** What the loop needs to know of its state: ranges it may compare, and which branch is sound. */
  lemma EntriesInFiles<T>(f1: seq<T>, f2: seq<T>, f3: seq<T>, o1: seq<Change>, c1: seq<Change>, lo1: int, i1: int,
                          o2: seq<Change>, c2: seq<Change>, lo2: int, i2: int, regions: seq<Region>,
                          cuts: seq<(int, int)>)
    requires Merging(f1, f2, f3, o1, c1, lo1, i1, o2, c2, lo2, i2, regions, cuts)
    ensures i1 < |o1| && (i1 + 1 < |o1| ==> c1[i1].now.to < c1[i1 + 1].now.from) ==>
        1 <= c1[i1].was.from <= c1[i1].was.to <= |f1| + 1
    ensures i2 < |o2| && (i2 + 1 < |o2| ==> c2[i2].now.to < c2[i2 + 1].now.from) ==>
        1 <= c2[i2].was.from <= c2[i2].was.to <= |f2| + 1
  {
    hide Describes, Chained, Grouped, Ascending;
    if i1 < |o1| && (i1 + 1 < |o1| ==> c1[i1].now.to < c1[i1 + 1].now.from) {
      EntryEnds(o1, c1, f1, f3, lo1, i1, End1(regions), End3(regions), regions == []);
    }
    if i2 < |o2| && (i2 + 1 < |o2| ==> c2[i2].now.to < c2[i2 + 1].now.from) {
      EntryEnds(o2, c2, f2, f3, lo2, i2, End2(regions), End3(regions), regions == []);
    }
  }

  /** `keep`: the other file's lines for a range of the third, by the offset of the last region. */
  function Kept(now: Range, last: int, last3: int): Range {
    var delta := last3 - last;
    Range(now.from - delta, now.to - delta)
  }

  /** What has been written so far: regions, or entries of the script. Line offsets of the last
      region are kept in `last1`, `last2` and `last3`, which start as zeros. */
  ghost predicate Written(eflag: int, regions: seq<Region>, report: seq<Region>, edits: seq<Entry>, last1: int,
                          last2: int, last3: int) {
    && report == (if eflag == 0 then regions else [])
    && edits == Entries(eflag, regions)
    && (eflag == 0 ==> last3 - last1 == End3(regions) - End1(regions) && last3 - last2 == End3(regions) - End2(regions))
  }

  lemma WriteKept(eflag: int, regions: seq<Region>, report: seq<Region>, edits: seq<Entry>, last1: int, last2: int,
                  last3: int, c: Change)
    requires Written(eflag, regions, report, edits, last1, last2, last3)
    ensures
      var r := Region(OnlyFirst, c.was, Kept(c.now, End2(regions), End3(regions)), c.now);
      if eflag == 0 then
        Kept(c.now, last2, last3) == r.two
            && Written(eflag, regions + [r], report + [r], edits, r.one.to, r.two.to, r.three.to)
      else Written(eflag, regions + [r], report, edits, last1, last2, last3)
    ensures
      var r := Region(OnlySecond, Kept(c.now, End1(regions), End3(regions)), c.was, c.now);
      if eflag == 0 then
        Kept(c.now, last1, last3) == r.one
            && Written(eflag, regions + [r], report + [r], edits, r.one.to, r.two.to, r.three.to)
      else Written(eflag, regions + [r], report, edits, last1, last2, last3)
  {
    hide Entries;
    EntryAdded(eflag, regions, Region(OnlyFirst, c.was, Kept(c.now, End2(regions), End3(regions)), c.now));
    EntryAdded(eflag, regions, Region(OnlySecond, Kept(c.now, End1(regions), End3(regions)), c.was, c.now));
  }

  lemma WriteBoth(eflag: int, regions: seq<Region>, report: seq<Region>, edits: seq<Entry>, last1: int, last2: int,
                  last3: int, r: Region, dupl: bool)
    requires Written(eflag, regions, report, edits, last1, last2, last3) && r.kind == if dupl then OnlyThird
        else AllDiffer
    ensures
      if eflag == 0 then Written(eflag, regions + [r], report + [r], edits, r.one.to, r.two.to, r.three.to)
      else if Wanted(eflag, dupl) then
        Written(eflag, regions + [r], report, edits + [Entry(r.one, r.three, !dupl)], last1, last2, last3)
      else Written(eflag, regions + [r], report, edits, last1, last2, last3)
  {
    hide Entries;
    EntryAdded(eflag, regions, r);
  }

  /** A change that has been extended to reach the next one is joined with it. */
  function Join(c: Change, next: Change): Change {
    Change(Range(c.was.from, next.was.to), Range(c.now.from, next.now.to))
  }

  /** The merge: its regions part the three files, each change of either report is in exactly one of them. */
  method Merge<T(==)>(d13: array<Change>, d23: array<Change>, m1: nat, m2: nat, f1: seq<T>, f2: seq<T>, f3: seq<T>,
                      eflag: int)
    returns (report: seq<Region>, edits: seq<Entry>, ghost regions: seq<Region>, ghost cuts: seq<(int, int)>)
    requires d13 != d23 && m1 <= d13.Length && m2 <= d23.Length && 0 <= eflag <= 3
    requires Describes(d13[..m1], f1, f3) && Describes(d23[..m2], f2, f3)
    modifies d13, d23
    ensures Partition(f1, f2, f3, regions) && Ascending(regions)
    ensures Grouped(old(d13[..m1]), old(d23[..m2]), regions, cuts, m1, m2)
    ensures report == if eflag == 0 then regions else []
    ensures edits == Entries(eflag, regions)
    ensures eflag == 1 ==> edits == Picked(regions, {AllDiffer})
    ensures eflag == 2 ==> edits == Picked(regions, {OnlyThird})
    ensures eflag == 3 ==> edits == Picked(regions, {AllDiffer, OnlyThird})
  {
    hide Picked;
    hide Merging, Written, Partition, Grouped, Ascending, Describes, Entries, InScript, Wanted, Slice;
    ghost var o1, o2 := d13[..m1], d23[..m2];
    ghost var c1, c2, lo1, lo2 := o1, o2, 0, 0;
    var d1, d2 := 0, 0;
    var last1, last2, last3 := 0, 0, 0;
    report, edits, regions, cuts := [], [], [], [(0, 0)];
    MergeBegins(f1, f2, f3, o1, o2);
    WriteNothing(eflag);
    while d1 < m1 || d2 < m2
      invariant d13[..m1] == c1 && d23[..m2] == c2 && |o1| == m1 && |o2| == m2 && d1 <= m1 && d2 <= m2
      invariant Merging(f1, f2, f3, o1, c1, lo1, d1, o2, c2, lo2, d2, regions, cuts) == true
      invariant Written(eflag, regions, report, edits, last1, last2, last3) == true
      decreases m1 - d1 + m2 - d2, if d1 < m1 && d2 < m2 && c1[d1].now == c2[d2].now then 0 else 1
    {
      EntriesInFiles(f1, f2, f3, o1, c1, lo1, d1, o2, c2, lo2, d2, regions, cuts);
      assert (d1 < m1 ==> d13[d1] == c1[d1]) && (d2 < m2 ==> d23[d2] == c2[d2]);
      assert (d1 + 1 < m1 ==> d13[d1 + 1] == c1[d1 + 1]) && (d2 + 1 < m2 ==> d23[d2 + 1] == c2[d2 + 1]);
      if d2 == m2 || (d1 < m1 && d13[d1].now.to < d23[d2].now.from) {
        ghost var r := Region(OnlyFirst, d13[d1].was, Kept(d13[d1].now, End2(regions), End3(regions)), d13[d1].now);
        FirstDone(f1, f2, f3, o1, c1, lo1, d1, o2, c2, lo2, d2, regions, cuts, r);
        WriteKept(eflag, regions, report, edits, last1, last2, last3, d13[d1]);
        if eflag == 0 {
          var kept := Kept(d13[d1].now, last2, last3);
          report := report + [Region(OnlyFirst, d13[d1].was, kept, d13[d1].now)];
          last1, last2, last3 := d13[d1].was.to, kept.to, d13[d1].now.to;
        }
        regions, cuts := regions + [r], cuts + [(d1 + 1, lo2)];
        d1, lo1 := d1 + 1, d1 + 1;
      } else if d1 == m1 || d23[d2].now.to < d13[d1].now.from {
        ghost var r := Region(OnlySecond, Kept(d23[d2].now, End1(regions), End3(regions)), d23[d2].was, d23[d2].now);
        SecondDone(f1, f2, f3, o1, c1, lo1, d1, o2, c2, lo2, d2, regions, cuts, r);
        WriteKept(eflag, regions, report, edits, last1, last2, last3, d23[d2]);
        if eflag == 0 {
          var kept := Kept(d23[d2].now, last1, last3);
          report := report + [Region(OnlySecond, kept, d23[d2].was, d23[d2].now)];
          last1, last2, last3 := kept.to, d23[d2].was.to, d23[d2].now.to;
        }
        regions, cuts := regions + [r], cuts + [(lo1, d2 + 1)];
        d2, lo2 := d2 + 1, d2 + 1;
      } else if d1 + 1 < m1 && d13[d1].now.to >= d13[d1 + 1].now.from {
        ghost var next := Join(c1[d1], c1[d1 + 1]);
        FirstJoined(f1, f2, f3, o1, c1, lo1, d1, o2, c2, lo2, d2, regions, cuts, next);
        d13[d1 + 1] := Join(d13[d1], d13[d1 + 1]);
        c1 := c1[d1 + 1 := next];
        d1 := d1 + 1;
      } else if d2 + 1 < m2 && d23[d2].now.to >= d23[d2 + 1].now.from {
        ghost var next := Join(c2[d2], c2[d2 + 1]);
        SecondJoined(f1, f2, f3, o1, c1, lo1, d1, o2, c2, lo2, d2, regions, cuts, next);
        d23[d2 + 1] := Join(d23[d2], d23[d2 + 1]);
        c2 := c2[d2 + 1 := next];
        d2 := d2 + 1;
      } else if d13[d1].now.from == d23[d2].now.from && d13[d1].now.to == d23[d2].now.to {
        var dupl := Duplicate(f1, f2, d13[d1].was, d23[d2].was);
        var r := Region(if dupl then OnlyThird else AllDiffer, d13[d1].was, d23[d2].was, d13[d1].now);
        BothDone(f1, f2, f3, o1, c1, lo1, d1, o2, c2, lo2, d2, regions, cuts, r);
        WriteBoth(eflag, regions, report, edits, last1, last2, last3, r, dupl);
        if eflag == 0 {
          report := report + [r];
          last1, last2, last3 := d13[d1].was.to, d23[d2].was.to, d13[d1].now.to;
        } else if Wanted(eflag, dupl) {
          edits := edits + [Entry(d13[d1].was, d13[d1].now, !dupl)];
        }
        regions, cuts := regions + [r], cuts + [(d1 + 1, d2 + 1)];
        d1, lo1, d2, lo2 := d1 + 1, d1 + 1, d2 + 1, d2 + 1;
      } else {
        c1, c2 := Extend(d13, d23, m1, m2, d1, d2, c1, c2, f1, f2, f3, o1, lo1, o2, lo2, regions, cuts);
      }
    }
    MergeEnds(f1, f2, f3, o1, c1, lo1, o2, c2, lo2, regions, cuts);
    WriteEnds(eflag, regions, report, edits, last1, last2, last3);
    FlagsPick(eflag, regions);
    MergeGrouped(f1, f2, f3, o1, c1, lo1, o2, c2, lo2, regions, cuts);
  }

  /** Overlapping changes are extended until both reports change the same lines of the third file. */
  method Extend<T>(d13: array<Change>, d23: array<Change>, m1: nat, m2: nat, d1: nat, d2: nat, ghost c1: seq<Change>,
                   ghost c2: seq<Change>,
                   ghost f1: seq<T>, ghost f2: seq<T>, ghost f3: seq<T>, ghost o1: seq<Change>, ghost lo1: int,
                   ghost o2: seq<Change>, ghost lo2: int,
                   ghost regions: seq<Region>, ghost cuts: seq<(int, int)>)
    returns (ghost b1: seq<Change>, ghost b2: seq<Change>)
    requires d13 != d23 && d1 < m1 <= d13.Length && d2 < m2 <= d23.Length && |o1| == m1 && |o2| == m2
    requires d13[..m1] == c1 && d23[..m2] == c2
    requires Merging(f1, f2, f3, o1, c1, lo1, d1, o2, c2, lo2, d2, regions, cuts)
    requires c1[d1].now.to >= c2[d2].now.from && c2[d2].now.to >= c1[d1].now.from
    modifies d13, d23
    ensures d13[..m1] == b1 && d23[..m2] == b2 && |b1| == m1 && |b2| == m2
    ensures Merging(f1, f2, f3, o1, b1, lo1, d1, o2, b2, lo2, d2, regions, cuts)
    ensures b1[d1].now == b2[d2].now == Range(Min(c1[d1].now.from, c2[d2].now.from), Max(c1[d1].now.to, c2[d2].now.to))
  {
    hide Merging;
    var a, b := d13[d1], d23[d2];
    assert a == c1[d1] && b == c2[d2];
    if a.now.from < b.now.from {
      b := Change(Range(b.was.from - (b.now.from - a.now.from), b.was.to), Range(a.now.from, b.now.to));
    } else if b.now.from < a.now.from {
      a := Change(Range(a.was.from - (a.now.from - b.now.from), a.was.to), Range(b.now.from, a.now.to));
    }
    if a.now.to > b.now.to {
      b := Change(Range(b.was.from, b.was.to + (a.now.to - b.now.to)), Range(b.now.from, a.now.to));
    } else if b.now.to > a.now.to {
      a := Change(Range(a.was.from, a.was.to + (b.now.to - a.now.to)), Range(a.now.from, b.now.to));
    }
    d13[d1], d23[d2] := a, b;
    BothExtended(f1, f2, f3, o1, c1, lo1, d1, o2, c2, lo2, d2, regions, cuts, a, b);
    b1, b2 := c1[d1 := a], c2[d2 := b];
  }

  lemma WriteNothing(eflag: int)
    ensures Written(eflag, [], [], [], 0, 0, 0)
  {
  }

  lemma MergeGrouped<T>(f1: seq<T>, f2: seq<T>, f3: seq<T>, o1: seq<Change>, c1: seq<Change>, lo1: int,
                        o2: seq<Change>, c2: seq<Change>, lo2: int, regions: seq<Region>, cuts: seq<(int, int)>)
    requires Merging(f1, f2, f3, o1, c1, lo1, |o1|, o2, c2, lo2, |o2|, regions, cuts)
    ensures Ascending(regions) && Grouped(o1, o2, regions, cuts, lo1, lo2)
  {
  }

  lemma WriteEnds(eflag: int, regions: seq<Region>, report: seq<Region>, edits: seq<Entry>, last1: int, last2: int,
                  last3: int)
    requires Written(eflag, regions, report, edits, last1, last2, last3)
    ensures report == (if eflag == 0 then regions else []) && edits == Entries(eflag, regions)
  {
  }
}
