/** What the flags choose: whose lines stand in the merged file for each region. */
module Diff3Flags {
  import opened Diff3
  import opened Diff3Merge
  import opened Diff3Script
  import opened DiffOutput

  /** The merged text up to line `upto`: the first file with the regions of these kinds put in. */
  ghost function Promised<T>(f1: seq<T>, f3: seq<T>, regions: seq<Region>, kinds: set<Kind>, oflag: bool,
                             marks: Marks<T>, upto: int): seq<T> {
    Spliced(f1, f3, Picked(regions, kinds), oflag, marks, upto)
  }

  /** The files agree or differ in each region as its kind says. */
  lemma {:induction false} KindsHold<T>(f1: seq<T>, f2: seq<T>, f3: seq<T>, regions: seq<Region>, k: int)
    requires Chained(f1, f2, f3, regions) && 0 <= k < |regions|
    ensures KindHolds(f1, f2, f3, regions[k])
    decreases |regions|
  {
    if k < |regions| - 1 {
      KindsHold(f1, f2, f3, regions[..|regions| - 1], k);
    }
  }

  lemma PickedStep(regions: seq<Region>, kinds: set<Kind>)
    requires regions != []
    ensures
      var front, r := regions[..|regions| - 1], regions[|regions| - 1];
      Picked(regions, kinds)
      == if r.kind in kinds then Picked(front, kinds) + [Entry(r.one, r.three, r.kind == AllDiffer)]
          else Picked(front, kinds)
  {
  }

  lemma OneMoreInOrder(edits: seq<Entry>, e: Entry, upto: int)
    requires 1 <= e.was.from <= e.was.to <= upto && InOrder(edits, e.was.from)
    ensures InOrder(edits + [e], upto) && InOrder(edits, upto)
  {
    assert (edits + [e])[..|edits|] == edits;
  }

  lemma {:induction false} PickedInOrder<T>(f1: seq<T>, f2: seq<T>, f3: seq<T>, regions: seq<Region>, kinds: set<Kind>,
                                            upto: int)
    requires Chained(f1, f2, f3, regions) && End1(regions) <= upto
    ensures InOrder(Picked(regions, kinds), upto)
    decreases |regions|
  {
    if regions != [] {
      var r, front := regions[|regions| - 1], regions[..|regions| - 1];
      FrontEnds(f1, f2, f3, regions);
      PickedInOrder(f1, f2, f3, front, kinds, r.one.from);
      hide Chained, Picked, InOrder;
      PickedStep(regions, kinds);
      OneMoreInOrder(Picked(front, kinds), Entry(r.one, r.three, r.kind == AllDiffer), upto);
    }
  }

  /** What stands for a region: its entry, or the lines of file 1. */
  ghost function RegionText<T>(f1: seq<T>, f3: seq<T>, r: Region, kinds: set<Kind>, oflag: bool,
                               marks: Marks<T>): seq<T> {
    if r.kind in kinds then EntryText(f1, f3, Entry(r.one, r.three, r.kind == AllDiffer), oflag, marks)
    else Slice(f1, r.one)
  }

  lemma EntrySpliced<T>(f1: seq<T>, f3: seq<T>, edits: seq<Entry>, e: Entry, oflag: bool, marks: Marks<T>, upto: int)
    requires 1 <= e.was.to <= upto <= |f1| + 1
    ensures
      Spliced(f1, f3, edits + [e], oflag, marks, upto)
      == Spliced(f1, f3, edits, oflag, marks, e.was.from) + EntryText(f1, f3, e, oflag, marks)
          + f1[e.was.to - 1..upto - 1]
  {
    hide Spliced, EntryText, Lines;
    LinesAreSlices(f1, e.was.to, upto - 1);
    assert (edits + [e])[..|edits|] == edits;
    SplicedAt(f1, f3, edits + [e], oflag, marks, upto);
  }

  lemma LinesSpliced<T>(f1: seq<T>, f3: seq<T>, edits: seq<Entry>, r: Range, oflag: bool, marks: Marks<T>, upto: int)
    requires InOrder(edits, r.from) && 1 <= r.from <= r.to <= upto <= |f1| + 1
    ensures
      Spliced(f1, f3, edits, oflag, marks, upto)
      == Spliced(f1, f3, edits, oflag, marks, r.from) + Slice(f1, r) + f1[r.to - 1..upto - 1]
  {
    hide Spliced, Slice, InOrder;
    SliceIs(f1, r);
    SplicedLonger(f1, f3, edits, oflag, marks, r.from, upto);
    assert f1[r.from - 1..upto - 1] == f1[r.from - 1..r.to - 1] + f1[r.to - 1..upto - 1];
  }

  lemma RegionSpliced<T>(f1: seq<T>, f3: seq<T>, edits: seq<Entry>, r: Region, kinds: set<Kind>, oflag: bool,
                         marks: Marks<T>, upto: int)
    requires InOrder(edits, r.one.from) && 1 <= r.one.from <= r.one.to <= upto <= |f1| + 1
    ensures
      var more := if r.kind in kinds then edits + [Entry(r.one, r.three, r.kind == AllDiffer)] else edits;
      Spliced(f1, f3, more, oflag, marks, upto)
      == Spliced(f1, f3, edits, oflag, marks, r.one.from) + RegionText(f1, f3, r, kinds, oflag, marks)
          + f1[r.one.to - 1..upto - 1]
  {
    hide Spliced, EntryText, InOrder, Slice;
    if r.kind in kinds {
      EntrySpliced(f1, f3, edits, Entry(r.one, r.three, r.kind == AllDiffer), oflag, marks, upto);
    } else {
      LinesSpliced(f1, f3, edits, r.one, oflag, marks, upto);
    }
  }

  lemma LastRegionText<T>(f1: seq<T>, f2: seq<T>, f3: seq<T>, regions: seq<Region>, kinds: set<Kind>, oflag: bool,
                          marks: Marks<T>, upto: int)
    requires Chained(f1, f2, f3, regions) && regions != [] && End1(regions) <= upto <= |f1| + 1
    ensures
      var front, r := regions[..|regions| - 1], regions[|regions| - 1];
      && 1 <= r.one.from <= r.one.to
      && Promised(f1, f3, regions, kinds, oflag, marks, upto)
         == Promised(f1, f3, front, kinds, oflag, marks, r.one.from) + RegionText(f1, f3, r, kinds, oflag, marks)
            + f1[r.one.to - 1..upto - 1]
  {
    hide Spliced, EntryText, InOrder, Slice, Picked, Chained, RegionText;
    var front, r := regions[..|regions| - 1], regions[|regions| - 1];
    FrontEnds(f1, f2, f3, regions);
    PickedStep(regions, kinds);
    PickedInOrder(f1, f2, f3, front, kinds, r.one.from);
    RegionSpliced(f1, f3, Picked(front, kinds), r, kinds, oflag, marks, upto);
  }

  /** In the merged file each region has its text, right after what the regions before it make of the lines
      before it. */
  lemma {:induction false} EachRegionText<T>(f1: seq<T>, f2: seq<T>, f3: seq<T>, regions: seq<Region>, kinds: set<Kind>,
                                             oflag: bool, marks: Marks<T>, upto: int, k: int)
    requires Chained(f1, f2, f3, regions) && End1(regions) <= upto <= |f1| + 1 && 0 <= k < |regions|
    ensures
      Promised(f1, f3, regions[..k], kinds, oflag, marks, regions[k].one.from)
          + RegionText(f1, f3, regions[k], kinds, oflag, marks)
      <= Promised(f1, f3, regions, kinds, oflag, marks, upto)
    decreases |regions|
  {
    hide Promised, RegionText;
    var front, r := regions[..|regions| - 1], regions[|regions| - 1];
    LastRegionText(f1, f2, f3, regions, kinds, oflag, marks, upto);
    if k == |regions| - 1 {
      assert regions[..k] == front;
    } else {
      FrontEnds(f1, f2, f3, regions);
      EachRegionText(f1, f2, f3, front, kinds, oflag, marks, r.one.from, k);
      assert front[..k] == regions[..k];
    }
  }

  lemma FrontEnds<T>(f1: seq<T>, f2: seq<T>, f3: seq<T>, regions: seq<Region>)
    requires Chained(f1, f2, f3, regions) && regions != []
    ensures
      var front, r := regions[..|regions| - 1], regions[|regions| - 1];
      Chained(f1, f2, f3, front) && End1(front) <= r.one.from <= r.one.to && 1 <= r.one.from <= |f1| + 1
  {
  }

  /** Nothing is left out between the regions either: the lines of file 1 stand there. */
  lemma BetweenRegions<T>(f1: seq<T>, f2: seq<T>, f3: seq<T>, regions: seq<Region>, kinds: set<Kind>, oflag: bool,
                          marks: Marks<T>, upto: int)
    requires Chained(f1, f2, f3, regions) && 1 <= End1(regions) <= upto <= |f1| + 1
    ensures Promised(f1, f3, regions, kinds, oflag, marks, upto)
        == Promised(f1, f3, regions, kinds, oflag, marks, End1(regions)) + f1[End1(regions) - 1..upto - 1]
  {
    hide Spliced, EntryText, Lines, InOrder;
    PickedInOrder(f1, f2, f3, regions, kinds, End1(regions));
    SplicedLonger(f1, f3, Picked(regions, kinds), oflag, marks, End1(regions), upto);
  }

  /** The merged file has the lines of file 1 for this region. */
  ghost predicate Spared<T>(f1: seq<T>, f3: seq<T>, regions: seq<Region>, kinds: set<Kind>, oflag: bool,
                            marks: Marks<T>, k: nat)
    requires k < |regions|
  {
    Promised(f1, f3, regions[..k], kinds, oflag, marks, regions[k].one.from) + Slice(f1, regions[k].one)
    <= Promised(f1, f3, regions, kinds, oflag, marks, |f1| + 1)
  }

  /** `-3` leaves every region alone in which files 1 and 2 differ, and `-x` every one in which they agree. */
  lemma RegionSpared<T>(f1: seq<T>, f2: seq<T>, f3: seq<T>, regions: seq<Region>, oflag: bool, marks: Marks<T>, k: nat)
    requires Partition(f1, f2, f3, regions) && k < |regions|
    ensures Slice(f1, regions[k].one) != Slice(f2, regions[k].two) ==>
        Spared(f1, f3, regions, {OnlyThird}, oflag, marks, k)
    ensures Slice(f1, regions[k].one) == Slice(f2, regions[k].two) ==>
        Spared(f1, f3, regions, {AllDiffer}, oflag, marks, k)
  {
    hide Promised, Slice;
    KindsHold(f1, f2, f3, regions, k);
    hide Chained;
    EachRegionText(f1, f2, f3, regions, {OnlyThird}, oflag, marks, |f1| + 1, k);
    EachRegionText(f1, f2, f3, regions, {AllDiffer}, oflag, marks, |f1| + 1, k);
  }

  lemma RegionsSpared<T>(f1: seq<T>, f2: seq<T>, f3: seq<T>, regions: seq<Region>, oflag: bool, marks: Marks<T>)
    requires Partition(f1, f2, f3, regions)
    ensures forall k: nat :: k < |regions| && Slice(f1, regions[k].one) != Slice(f2, regions[k].two) ==>
        Spared(f1, f3, regions, {OnlyThird}, oflag, marks, k)
    ensures forall k: nat :: k < |regions| && Slice(f1, regions[k].one) == Slice(f2, regions[k].two) ==>
        Spared(f1, f3, regions, {AllDiffer}, oflag, marks, k)
  {
    hide Spared, Slice, Partition;
    forall k: nat | k < |regions|
      ensures Slice(f1, regions[k].one) != Slice(f2, regions[k].two) ==>
          Spared(f1, f3, regions, {OnlyThird}, oflag, marks, k)
      ensures Slice(f1, regions[k].one) == Slice(f2, regions[k].two) ==>
          Spared(f1, f3, regions, {AllDiffer}, oflag, marks, k)
    {
      RegionSpared(f1, f2, f3, regions, oflag, marks, k);
    }
  }
}
