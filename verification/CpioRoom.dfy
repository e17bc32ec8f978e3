/** How far the fake device and inode numbers of an archive reach. */
module CpioRoom {
  import opened Arith
  import opened CpioLinks

  /** The place of the slot a file with several links goes to: the first of its device that has the inode or
      room for it, or a new one behind all others. */
  function Place(devices: seq<Dslot>, maxino: nat, st: Stat, i: nat): (k: nat)
    requires i <= |devices|
    ensures i <= k <= |devices|
    ensures k < |devices| ==> devices[k].dev == st.dev && (st.ino in devices[k].islots || devices[k].cnt < maxino)
    ensures forall j {:trigger devices[j]} :: i <= j < k && devices[j].dev == st.dev ==>
              st.ino !in devices[j].islots && devices[j].cnt >= maxino
    decreases |devices| - i
  {
    if i == |devices| || (devices[i].dev == st.dev && (st.ino in devices[i].islots || devices[i].cnt < maxino)) then i
    else Place(devices, maxino, st, i + 1)
  }

  /** It is at `k` or behind it if it is not before; and at `k` if there is one there. */
  lemma PlaceIs(devices: seq<Dslot>, maxino: nat, st: Stat, k: nat)
    requires k <= |devices|
    requires forall j {:trigger devices[j]} :: 0 <= j < k && devices[j].dev == st.dev ==>
               st.ino !in devices[j].islots && devices[j].cnt >= maxino
    ensures k <= Place(devices, maxino, st, 0) <= |devices|
    ensures k < |devices| && devices[k].dev == st.dev && (st.ino in devices[k].islots || devices[k].cnt < maxino) ==>
        Place(devices, maxino, st, 0) == k
  {
    var p := Place(devices, maxino, st, 0);
    assert p >= k;
  }

  // ---- What a run has to number ----

  /** The files with several links, by device and inode. */
  function Files(files: seq<File>): set<(int, int)> {
    if files == [] then {}
    else
      var st := files[|files| - 1].st;
      Files(files[..|files| - 1]) + if Multi(st) then {(st.dev, st.ino)} else {}
  }

  function Devices(files: seq<File>): set<int> {
    if files == [] then {}
    else
      var st := files[|files| - 1].st;
      Devices(files[..|files| - 1]) + if Multi(st) then {st.dev} else {}
  }

  /** The files with a single link. */
  function Singles(files: seq<File>): nat {
    if files == [] then 0 else Singles(files[..|files| - 1]) + if Multi(files[|files| - 1].st) then 0 else 1
  }

  /** Numbers are enough for a device slot for each device, one for each `maxino` files with several links, and
      a fake device for each `maxino` files with a single one. Device 1 is kept for slots in any case. */
  predicate Room(files: seq<File>, maxino: nat, maxdev: nat)
    requires maxino >= 1
  {
    Max(1, |Devices(files)| + |Files(files)| / maxino) + Singles(files) / maxino < maxdev
  }

  lemma OneMore(files: seq<File>, f: File)
    ensures Files(files + [f]) == Files(files) + (if Multi(f.st) then {(f.st.dev, f.st.ino)} else {})
    ensures Devices(files + [f]) == Devices(files) + (if Multi(f.st) then {f.st.dev} else {})
    ensures Singles(files + [f]) == Singles(files) + if Multi(f.st) then 0 else 1
  {
    assert (files + [f])[..|files|] == files;
  }

  lemma Included<T>(a: set<T>, b: set<T>)
    requires a <= b
    ensures |a| <= |b|
  {
    assert b == a + (b - a);
  }

  /** Part of a run needs no more than all of it. */
  lemma {:induction false} RoomBefore(files: seq<File>, n: nat, maxino: nat, maxdev: nat)
    requires maxino >= 1 && n <= |files| && Room(files, maxino, maxdev)
    ensures Room(files[..n], maxino, maxdev)
    decreases |files|
  {
    if n == |files| {
      assert files[..n] == files;
    } else {
      var front, f := files[..|files| - 1], files[|files| - 1];
      assert files == front + [f];
      OneMore(front, f);
      Included(Files(front), Files(files));
      Included(Devices(front), Devices(files));
      QuotientGrows(|Files(front)|, |Files(files)|, maxino);
      QuotientGrows(Singles(front), Singles(files), maxino);
      RoomBefore(front, n, maxino, maxdev);
      assert front[..n] == files[..n];
    }
  }

  lemma QuotientGrows(a: nat, b: nat, m: nat)
    requires a <= b && m >= 1
    ensures a / m <= b / m
  {
    DivModBasics(a, m);
    DivModBasics(b, m);
    if a / m > b / m {
      MulMono(b / m + 1, a / m, m);
      MulAdd(b / m, 1, m);
    }
  }

  lemma QuotientAtLeast(a: nat, q: nat, m: nat)
    requires m >= 1 && q * m <= a
    ensures q <= a / m
  {
    DivModBasics(a, m);
    if q > a / m {
      MulMono(a / m + 1, q, m);
      MulAdd(a / m, 1, m);
    }
  }

  // ---- What the slots have to do with it ----

  /** Earlier slots of a device are full, and slots are those of files met. */
  ghost predicate Filled(devices: seq<Dslot>, maxino: nat, met: set<(int, int)>, devs: set<int>) {
    && (forall i {:trigger devices[i]} :: 0 <= i < |devices| ==>
          devices[i].cnt == |devices[i].islots| && devices[i].cnt <= maxino && devices[i].dev in devs)
    && (forall i, j {:trigger devices[i], devices[j]} ::
          0 <= i < j < |devices| && devices[i].dev == devices[j].dev ==> devices[i].cnt >= maxino)
    && (forall i, a {:trigger a in devices[i].islots} :: 0 <= i < |devices| && a in devices[i].islots ==>
          (devices[i].dev, a) in met)
  }

  function Full(devices: seq<Dslot>, maxino: nat): nat {
    if devices == [] then 0
    else Full(devices[..|devices| - 1], maxino) + if devices[|devices| - 1].cnt >= maxino then 1 else 0
  }

  function Stored(devices: seq<Dslot>): nat {
    if devices == [] then 0 else Stored(devices[..|devices| - 1]) + |devices[|devices| - 1].islots|
  }

  /** The devices of slots that are not full. */
  function Unfilled(devices: seq<Dslot>, maxino: nat): set<int> {
    if devices == [] then {}
    else
      Unfilled(devices[..|devices| - 1], maxino)
      + if devices[|devices| - 1].cnt >= maxino then {} else {devices[|devices| - 1].dev}
  }

  function Keys(devices: seq<Dslot>): set<(int, int)> {
    if devices == [] then {}
    else Keys(devices[..|devices| - 1]) + KeysIn(devices[|devices| - 1])
  }

  function KeysIn(d: Dslot): set<(int, int)> { set a | a in d.islots :: (d.dev, a) }

  lemma {:induction false} KeysAre(devices: seq<Dslot>, key: (int, int))
    ensures key in Keys(devices) <==> exists i :: 0 <= i < |devices| && key in KeysIn(devices[i])
  {
    if devices != [] {
      var n := |devices| - 1;
      KeysAre(devices[..n], key);
      if key in Keys(devices[..n]) {
        var i :| 0 <= i < n && key in KeysIn(devices[..n][i]);
        assert key in KeysIn(devices[i]);
      }
      if i :| 0 <= i < |devices| && key in KeysIn(devices[i]) {
        if i < n {
          assert key in KeysIn(devices[..n][i]);
        }
      }
    }
  }

  lemma KeysInSize(d: Dslot)
    ensures |KeysIn(d)| == |d.islots|
  {
    SetSize(d.islots.Keys, d.dev);
    assert KeysIn(d) == set a | a in d.islots.Keys :: (d.dev, a);
  }

  lemma EmptySet(s: set<int>)
    ensures (forall x :: x !in s) ==> s == {}
  {
    var none: set<int> := {};
    assert (forall x :: x !in s) ==> s == none;
  }

  lemma {:induction false} SetSize(s: set<int>, dev: int)
    ensures |set a | a in s :: (dev, a)| == |s|
  {
    EmptySet(s);
    if s != {} {
      var x :| x in s;
      SetSize(s - {x}, dev);
      assert (set a | a in s :: (dev, a)) == (set a | a in s - {x} :: (dev, a)) + {(dev, x)};
    }
  }

  lemma {:induction false} SlotsCounted(devices: seq<Dslot>, maxino: nat, met: set<(int, int)>, devs: set<int>)
    requires Placed(devices, maxino) && Filled(devices, maxino, met, devs)
    ensures |devices| == Full(devices, maxino) + |Unfilled(devices, maxino)| && Unfilled(devices, maxino) <= devs
    ensures Full(devices, maxino) * maxino <= Stored(devices) == |Keys(devices)| && Keys(devices) <= met
  {
    if devices != [] {
      var n := |devices| - 1;
      SlotsBefore(devices, maxino, met, devs);
      SlotsCounted(devices[..n], maxino, met, devs);
      KeysInSize(devices[n]);
      NewKeys(devices, maxino, met, devs);
      NewUnfilled(devices, maxino, met, devs);
      NewSums(devices, maxino);
      hide Placed, Filled, Keys, KeysIn, Unfilled, Full, Stored;
      assert Keys(devices) <= met;
    }
  }

  lemma NewSums(devices: seq<Dslot>, maxino: nat)
    requires devices != [] && devices[|devices| - 1].cnt == |devices[|devices| - 1].islots|
    ensures
      var n := |devices| - 1;
      && Full(devices, maxino) == Full(devices[..n], maxino) + (if devices[n].cnt >= maxino then 1 else 0)
      && Full(devices, maxino) * maxino <= Full(devices[..n], maxino) * maxino + devices[n].cnt
      && Stored(devices) == Stored(devices[..n]) + devices[n].cnt
  {
    MulAdd(Full(devices[..|devices| - 1], maxino), 1, maxino);
  }

  lemma SlotsBefore(devices: seq<Dslot>, maxino: nat, met: set<(int, int)>, devs: set<int>)
    requires Placed(devices, maxino) && Filled(devices, maxino, met, devs) && devices != []
    ensures
      var n := |devices| - 1;
      Placed(devices[..n], maxino) && Filled(devices[..n], maxino, met, devs) && devices[n].cnt == |devices[n].islots|
  {
    var front := devices[..|devices| - 1];
    assert forall i :: 0 <= i < |front| ==> front[i] == devices[i];
  }

  lemma NewKeys(devices: seq<Dslot>, maxino: nat, met: set<(int, int)>, devs: set<int>)
    requires Placed(devices, maxino) && Filled(devices, maxino, met, devs) && devices != []
    ensures
      var n := |devices| - 1;
      |Keys(devices)| == |Keys(devices[..n])| + |KeysIn(devices[n])| && KeysIn(devices[n]) <= met
      && Keys(devices) == Keys(devices[..n]) + KeysIn(devices[n])
  {
    var n := |devices| - 1;
    forall key | key in KeysIn(devices[n]) ensures key !in Keys(devices[..n]) && key in met {
      assert key.1 in devices[n].islots;
      KeysAre(devices[..n], key);
      assert forall i :: 0 <= i < n ==> key !in KeysIn(devices[..n][i]);
    }
    assert Keys(devices[..n]) !! KeysIn(devices[n]);
  }

  lemma NewUnfilled(devices: seq<Dslot>, maxino: nat, met: set<(int, int)>, devs: set<int>)
    requires Filled(devices, maxino, met, devs) && devices != []
    ensures
      var n := |devices| - 1;
      var front := Unfilled(devices[..n], maxino);
      && devices[n].dev in devs
      && |Unfilled(devices, maxino)| == |front| + (if devices[n].cnt >= maxino then 0 else 1)
      && (front <= devs ==> Unfilled(devices, maxino) <= devs)
  {
    var n := |devices| - 1;
    UnfilledAre(devices[..n], maxino, devices[n].dev);
    assert forall i :: 0 <= i < n ==> devices[..n][i] == devices[i];
    if devices[n].cnt >= maxino {
      assert Unfilled(devices, maxino) == Unfilled(devices[..n], maxino);
    }
  }

  lemma {:induction false} UnfilledAre(devices: seq<Dslot>, maxino: nat, dev: int)
    ensures dev in Unfilled(devices, maxino) ==>
        exists i :: 0 <= i < |devices| && devices[i].dev == dev && devices[i].cnt < maxino
  {
    if devices != [] {
      var n := |devices| - 1;
      UnfilledAre(devices[..n], maxino, dev);
      assert forall i :: 0 <= i < n ==> devices[..n][i] == devices[i];
      assert devices[n] == devices[n];
    }
  }

  /** There is a slot for each device, and one more for each `maxino` files. */
  lemma SlotsBounded(devices: seq<Dslot>, maxino: nat, met: set<(int, int)>, devs: set<int>)
    requires maxino >= 1 && Placed(devices, maxino) && Filled(devices, maxino, met, devs)
    ensures |devices| <= |devs| + |met| / maxino
  {
    SlotsCounted(devices, maxino, met, devs);
    Included(Unfilled(devices, maxino), devs);
    Included(Keys(devices), met);
    QuotientAtLeast(|met|, Full(devices, maxino), maxino);
  }

  /** Also with a slot to be added for the next file. */
  lemma PlaceBounded(devices: seq<Dslot>, maxino: nat, files: seq<File>, f: File)
    requires maxino >= 1 && Placed(devices, maxino) && Multi(f.st)
    requires Filled(devices, maxino, Files(files), Devices(files))
    ensures Place(devices, maxino, f.st, 0) + 1 <= |Devices(files + [f])| + |Files(files + [f])| / maxino
  {
    hide Placed, Filled, Files, Devices;
    OneMore(files, f);
    MoreDevices(devices, maxino, Files(files), Files(files + [f]), Devices(files), Devices(files + [f]));
    if Place(devices, maxino, f.st, 0) < |devices| {
      SlotsBounded(devices, maxino, Files(files + [f]), Devices(files + [f]));
    } else {
      var d := Dslot(f.st.dev, 0, 0, map[]);
      SlotFills(devices, maxino, Files(files + [f]), Devices(files + [f]), d);
      PlacedMore(devices, maxino, d);
      SlotsBounded(devices + [d], maxino, Files(files + [f]), Devices(files + [f]));
    }
  }

  /** The slot changed keeps this, and so does a new one. */
  lemma StoreFills(devices: seq<Dslot>, maxino: nat, files: seq<File>, f: File, i: nat, ip: Islot)
    requires Located(devices, maxino, i, f.st) && Multi(f.st)
    requires Filled(devices, maxino, Files(files), Devices(files + [f]))
    ensures
      Filled(devices[i := Store(devices[i], f.st.ino, ip)], maxino, Files(files + [f]), Devices(files + [f]))
  {
    OneMore(files, f);
    var d := devices[i];
    assert d.islots[f.st.ino := ip].Keys == d.islots.Keys + {f.st.ino};
    assert |d.islots| == |d.islots.Keys| && |d.islots[f.st.ino := ip]| == |d.islots[f.st.ino := ip].Keys|;
    assert forall j :: 0 <= j < |devices| ==> devices[i := Store(d, f.st.ino, ip)][j].dev == devices[j].dev;
  }

  lemma SlotFills(devices: seq<Dslot>, maxino: nat, met: set<(int, int)>, devs: set<int>, d: Dslot)
    requires Filled(devices, maxino, met, devs) && d.cnt == 0 && d.islots == map[] && d.dev in devs
    requires forall j {:trigger devices[j]} :: 0 <= j < |devices| && devices[j].dev == d.dev ==>
               devices[j].cnt >= maxino
    ensures Filled(devices + [d], maxino, met, devs)
  {
  }

  lemma PlacedMore(devices: seq<Dslot>, maxino: nat, d: Dslot)
    requires Placed(devices, maxino) && d.islots == map[]
    ensures Placed(devices + [d], maxino)
  {
  }

  lemma MoreDevices(devices: seq<Dslot>, maxino: nat, met: set<(int, int)>, met': set<(int, int)>, devs: set<int>,
                    devs': set<int>)
    requires Filled(devices, maxino, met, devs) && met <= met' && devs <= devs'
    ensures Filled(devices, maxino, met', devs')
  {
  }

  // ---- Files with a single link ----

  /** So many have been numbered when `dev` and `ino` come next. */
  ghost predicate Counting(files: seq<File>, maxino: nat, maxdev: nat, dev: int, ino: int) {
    0 <= ino <= maxino && dev <= maxdev && Singles(files) == (maxdev - dev) * maxino + (maxino - ino)
  }

  lemma CountOne(files: seq<File>, f: File, maxino: nat, maxdev: nat, dev: int, ino: int)
    requires maxino >= 1 && Counting(files, maxino, maxdev, dev, ino) && !Multi(f.st)
    ensures
      if ino > 0 then Counting(files + [f], maxino, maxdev, dev, ino - 1)
      else Counting(files + [f], maxino, maxdev, dev - 1, maxino - 1)
    ensures Files(files + [f]) == Files(files) && Devices(files + [f]) == Devices(files)
  {
    OneMore(files, f);
    MulAdd(maxdev - dev, 1, maxino);
  }

  lemma CountMulti(files: seq<File>, f: File, maxino: nat, maxdev: nat, dev: int, ino: int)
    requires Counting(files, maxino, maxdev, dev, ino) && Multi(f.st)
    ensures Counting(files + [f], maxino, maxdev, dev, ino)
  {
    OneMore(files, f);
  }

  /** Fake devices have gone down once for each `maxino` of them. */
  lemma FakesBounded(files: seq<File>, maxino: nat, maxdev: nat, dev: int, ino: int)
    requires maxino >= 1 && Counting(files, maxino, maxdev, dev, ino)
    ensures maxdev - dev + (if ino == 0 then 1 else 0) <= Singles(files) / maxino
  {
    MulAdd(maxdev - dev, 1, maxino);
    MulNonNeg(maxdev - dev, maxino);
    QuotientAtLeast(Singles(files), maxdev - dev + (if ino == 0 then 1 else 0), maxino);
  }

  lemma CountingEnds(files: seq<File>, maxino: nat, maxdev: nat, dev: int, ino: int)
    requires Counting(files, maxino, maxdev, dev, ino)
    ensures 0 <= ino <= maxino
  {
  }

  /** With room for the run so far and one more file, its numbers have not run out. */
  lemma RoomSuffices(devices: seq<Dslot>, files: seq<File>, f: File, maxino: nat, maxdev: nat, dev: int, ino: int)
    requires maxino >= 1 && Placed(devices, maxino) && Filled(devices, maxino, Files(files), Devices(files))
    requires Counting(files, maxino, maxdev, dev, ino) && Room(files + [f], maxino, maxdev)
    ensures Multi(f.st) ==> Place(devices, maxino, f.st, 0) + 1 < dev
    ensures !Multi(f.st) && ino == 0 ==> Max(1, |devices|) < dev - 1
  {
    hide Place, Files, Devices, Singles, Filled, Placed;
    FakesBounded(files, maxino, maxdev, dev, ino);
    if Multi(f.st) {
      PlaceBounded(devices, maxino, files, f);
      CountMulti(files, f, maxino, maxdev, dev, ino);
      FakesBounded(files + [f], maxino, maxdev, dev, ino);
    } else {
      SlotsBounded(devices, maxino, Files(files), Devices(files));
      CountOne(files, f, maxino, maxdev, dev, ino);
      OneMore(files, f);
      QuotientGrows(Singles(files), Singles(files + [f]), maxino);
    }
  }
}
