/** The SVR4 archive writer over a whole run: files are accepted one by one, the last ones flushed at the end. */
module CpioArchive {
  import opened Arith
  import opened CpioLinks
  import opened CpioRounds
  import opened CpioRoom
  import opened CpioOrder

  class Archive {
    const maxino: nat     // the greatest inode number the format has room for
    ghost const maxdev: nat
    var devices: seq<Dslot>
    var fakedev: int
    var fakeino: int
    var harddev: nat
    var out: seq<Entry>
    ghost var files: seq<File>

    ghost predicate Valid()
      reads this
    {
      Books(Devices(files))
    }

    /** Slots are those of the devices `devs`; one is made before its file is accepted. */
    ghost predicate Books(devs: set<int>)
      reads this
    {
      && maxino >= 1 && Numbered(devices) && Placed(devices, maxino) && Collecting(devices)
      && Conserved(files, out, devices) && Grouped(out) && AllFromSlots(devices, out)
      && Falling(out, maxino, fakedev, fakeino) && fakedev >= 0
      && Balanced(files, out, devices) && Tracked(files, devices) && Ordered(files, out, devices)
      && Filled(devices, maxino, Files(files), devs) && 1 <= harddev <= Max(1, |devices|)
      && Counting(files, maxino, maxdev, fakedev, fakeino)
    }

    constructor (maxino: nat, maxdev: nat)
      requires maxino >= 1
      ensures Valid() && files == [] && out == []
      ensures this.maxino == maxino && this.maxdev == maxdev == fakedev && fakeino == maxino
    {
      this.maxino, this.maxdev := maxino, maxdev;
      devices, harddev, out, files := [], 1, [], [];
      fakedev, fakeino := maxdev, maxino;
    }

    method AddFile(name: string, st: Stat, dev: nat, ino: nat, zeroLink: bool)
      modifies `out
      ensures out == old(out) + [Entry(name, st, dev, ino, zeroLink)]
    {
      out := out + [Entry(name, st, dev, ino, zeroLink)];
    }

    /** The device slot for a file: its place, unless the numbers for devices have run out there. */
    method Locate(f: File) returns (i: int)
      requires Valid() && Multi(f.st)
      modifies `devices, `harddev
      ensures i == if Place(old(devices), maxino, f.st, 0) + 1 < fakedev then Place(old(devices), maxino, f.st, 0)
          else -1
      ensures i < 0 ==> Valid() && devices == old(devices)
      ensures i >= 0 ==> Books(Devices(files + [f])) && Located(devices, maxino, i, f.st)
    {
      hide Numbered, Placed, Collecting, Conserved, Grouped, AllFromSlots, Falling, Balanced, Tracked, Ordered, Filled,
          Counting,
          Place, Files, Devices, Singles;
      var st := f.st;
      i := 0;
      while true
        invariant Valid() && devices == old(devices) && 0 <= i <= |devices|
        invariant forall j {:trigger devices[j]} :: 0 <= j < i && devices[j].dev == st.dev ==>
                    st.ino !in devices[j].islots && devices[j].cnt >= maxino
        decreases |devices| - i
      {
        i := NextDevice(i, st);
        PlaceIs(devices, maxino, st, i);
        if i + 1 >= fakedev {
          return -1;
        }
        OneMore(files, f);
        MoreDevices(devices, maxino, Files(files), Files(files), Devices(files), Devices(files + [f]));
        if i == |devices| {
          DeviceAdded(files, out, devices, maxino, st, i);
          NoRoundThere(files, out, devices, st.dev, i + 1);
          OrderDevice(files, out, devices, Dslot(st.dev, i + 1, 0, map[]));
          SlotFills(devices, maxino, Files(files), Devices(files + [f]), Dslot(st.dev, i + 1, 0, map[]));
          devices := devices + [Dslot(st.dev, i + 1, 0, map[])];
        }
        harddev := i + 1;
        if st.ino in devices[i].islots || devices[i].cnt < maxino {
          return;
        }
        i := i + 1;
      }
    }

    method NextDevice(i0: int, st: Stat) returns (i: int)
      requires 0 <= i0 <= |devices|
      ensures i0 <= i <= |devices| && (i < |devices| ==> devices[i].dev == st.dev)
      ensures forall j {:trigger devices[j]} :: i0 <= j < i ==> devices[j].dev != st.dev
    {
      i := i0;
      while i < |devices| && devices[i].dev != st.dev
        invariant i0 <= i <= |devices|
        invariant forall j {:trigger devices[j]} :: i0 <= j < i ==> devices[j].dev != st.dev
      {
        i := i + 1;
      }
    }

    /** Writes the collected links of a file, all of zero length. */
    method AddLinks(names: seq<string>, st: Stat, dev: nat, ino: nat)
      modifies `out
      ensures out == old(out) + Links(names, st, dev, ino)
    {
      var i := 0;
      while i < |names|
        invariant 0 <= i <= |names| && out == old(out) + Links(names, st, dev, ino)[..i]
      {
        AddFile(names[i], st, dev, ino, true);
        i := i + 1;
      }
    }

    /** A file with several links, whose slot is in device slot `i`. */
    method Collect(f: File, i: nat)
      requires Books(Devices(files + [f])) && Multi(f.st) && Located(devices, maxino, i, f.st)
      modifies `devices, `out, `files
      ensures Valid() && files == old(files) + [f] && old(out) <= out
    {
      hide Numbered, Placed, Collecting, Conserved, Grouped, AllFromSlots, Falling, Balanced, Tracked, Ordered, Filled,
          Counting,
          Files, Devices, Singles;
      var ip := Fetch(devices[i], f.st);
      ghost var found, devs := ip, devices;
      SlotFacts(devices, i, f.st);
      if ip.nlk == 1 {
        // the last link: the others first, then the file itself
        ip := ip.(nlk := 0);
        devices := devices[i := Store(devices[i], f.st.ino, ip)];
        AddLinks(ip.lnk, f.st, i + 1, ip.fino);
        AddFile(f.name, f.st, i + 1, ip.fino, false);
        BooksLast(files, old(out), devs, i, f, found);
        RoundEnds(files, old(out), devs, maxino, i, f, found);
        OrderLast(files, old(out), devs, maxino, i, f, found);
        GroupFalls(old(out), maxino, fakedev, fakeino, ip.lnk, f.name, f.st, i + 1, ip.fino);
        FromSlotsKept(devs, old(out), i, f.st, ip);
        FromSlotsGrow(devices, old(out), ip.lnk, f.name, f.st, i + 1, ip.fino);
        assert out == old(out) + Group(ip.lnk, f.name, f.st, i + 1, ip.fino);
      } else {
        if ip.nlk == 0 {
          // all links had come before: start again
          ip := ip.(nlk := f.st.nlink, lnk := [], st := f.st);
        }
        ip := ip.(nlk := ip.nlk - 1, lnk := ip.lnk + [f.name]);
        devices := devices[i := Store(devices[i], f.st.ino, ip)];
        BooksWait(files, out, devs, i, f, found, ip);
        RoundGoesOn(files, out, devs, maxino, i, f, found, ip);
        OrderWait(files, out, devs, maxino, i, f, found, ip);
        FromSlotsKept(devs, out, i, f.st, ip);
      }
      StoreFills(devs, maxino, files, f, i, ip);
      CountMulti(files, f, maxino, maxdev, fakedev, fakeino);
      StoreKeeps(devs, maxino, i, f.st, ip);
      CollectingKept(devs, i, f.st.ino, ip);
      files := files + [f];
    }

    /** A file is put into the archive, or its name waits. It fails only when device numbers have run out: at the
        place of the file's device slot, or when they have come down to those in use. */
    method Outfile(f: File) returns (ok: bool)
      requires Valid()
      modifies this
      ensures ok <==>
        if Multi(f.st) then Place(old(devices), maxino, f.st, 0) + 1 < old(fakedev)
        else old(fakeino) > 0 || old(fakedev) - 1 > old(harddev)
      ensures ok ==> Valid() && files == old(files) + [f] && old(out) <= out
      ensures ok && !Multi(f.st) ==>
          |out| == |old(out)| + 1 && out[|old(out)|].name == f.name && !out[|old(out)|].zeroLink
    {
      hide Numbered, Placed, Collecting, Conserved, Grouped, AllFromSlots, Located, Balanced, Tracked, Ordered, Filled,
          Counting,
          Place, Files, Devices, Singles;
      if Multi(f.st) {
        var i := Locate(f);
        if i < 0 {
          return false;
        }
        Collect(f, i);
      } else {
        var dev, ino := fakedev, fakeino;
        fakeino := fakeino - 1;
        if ino == 0 {
          dev := dev - 1;
          if dev <= harddev {
            return false;
          }
          fakedev := dev;
          ino := maxino;
          fakeino := ino - 1;
        }
        AddFile(f.name, f.st, dev, ino, false);
        BooksSingle(files, old(out), devices, f, dev, ino);
        NoRound(files, old(out), devices, f, dev, ino);
        SingleFalls(old(out), maxino, old(fakedev), old(fakeino), out[|out| - 1]);
        SingleFromSlots(devices, old(out), out[|out| - 1]);
        OrderSingle(files, old(out), devices, f, out[|out| - 1]);
        CountOne(files, f, maxino, maxdev, old(fakedev), old(fakeino));
        files := files + [f];
      }
      ok := true;
    }

    /** Writes what an inode's slot still holds; only the last entry is not of zero length. */
    method FlushSlot(ip: Islot, dev: nat)
      modifies `out
      ensures out == old(out)
          + if ip.nlk > 0 && ip.lnk != [] then Group(Front(ip.lnk), Final(ip.lnk), ip.st, dev, ip.fino) else []
    {
      if ip.nlk > 0 && ip.lnk != [] {
        AddLinks(ip.lnk[..|ip.lnk| - 1], ip.st, dev, ip.fino);
        AddFile(ip.lnk[|ip.lnk| - 1], ip.st, dev, ip.fino, false);
      }
    }

    /** Writes the links still waiting when the run ends. `left` are the slots as far as they have not been written. */
    method Lflush()
      requires Valid()
      modifies `out
      ensures forall k :: Written(out, k) == Seen(files, k)
      ensures forall dev, ino :: Data(out, dev, ino) == Begun(files, dev, ino)
      ensures forall dev, ino :: NamesOut(out, dev, ino) == NamesIn(files, dev, ino)
      ensures Grouped(out) && AllFromSlots(devices, out) && Falling(out, maxino, fakedev, fakeino) && old(out) <= out
    {
      hide Numbered, Placed, Collecting, Conserved, Grouped, AllFromSlots, Falling, Balanced, Tracked, Ordered;
      ghost var left := devices;
      var i := 0;
      while i < |devices|
        invariant 0 <= i <= |devices| && Flushing(left, devices, i) && old(out) <= out
        invariant Conserved(files, out, left) && Balanced(files, out, left) && Collecting(left) && Grouped(out)
        invariant AllFromSlots(devices, out) && Falling(out, maxino, fakedev, fakeino) && Ordered(files, out, left)
      {
        left := Iflush(i, left);
        i := i + 1;
      }
      NothingLeft(files, out, devices, left);
      NoRoundLeft(files, out, left);
      NoNamesLeft(files, out, left);
    }

    /** One device's tree, its slots in some order. */
    method Iflush(i: nat, ghost left0: seq<Dslot>) returns (ghost left: seq<Dslot>)
      requires i < |devices| && Numbered(devices) && Flushing(left0, devices, i)
      requires Conserved(files, out, left0) && Balanced(files, out, left0) && Collecting(left0) && Grouped(out)
      requires AllFromSlots(devices, out) && Falling(out, maxino, fakedev, fakeino) && Ordered(files, out, left0)
      requires Placed(devices, maxino)
      modifies `out
      ensures Flushing(left, devices, i + 1) && old(out) <= out
      ensures Conserved(files, out, left) && Balanced(files, out, left) && Collecting(left) && Grouped(out)
      ensures AllFromSlots(devices, out) && Falling(out, maxino, fakedev, fakeino) && Ordered(files, out, left)
    {
      hide Numbered, Collecting, Conserved, Grouped, AllFromSlots, Falling, Flushing, Balanced, Ordered, Placed;
      left := left0;
      var todo := devices[i].islots.Keys;
      FlushStart(left, devices, i);
      while todo != {}
        invariant todo <= devices[i].islots.Keys && FlushingIn(left, devices, i, todo) && old(out) <= out
        invariant Conserved(files, out, left) && Balanced(files, out, left) && Collecting(left) && Grouped(out)
        invariant AllFromSlots(devices, out) && Falling(out, maxino, fakedev, fakeino) && Ordered(files, out, left)
      {
        var a := AnyOf(todo);
        var ip := devices[i].islots[a];
        ghost var before := out;
        SlotWaits(left, devices, i, todo, a);
        FlushSlot(ip, devices[i].fake);
        SlotFlushed(files, before, left, devices, i, todo, a, maxino, fakedev, fakeino);
        NotLeftElsewhere(left, devices, i, todo, a, maxino);
        OrderFlushed(files, before, left, i, a, ip, devices[i].fake);
        left := left[i := Store(left[i], a, ip.(nlk := 0))];
        todo := todo - {a};
      }
      FlushEnd(left, devices, i);
    }
  }

  /** A whole run: files are put into a new archive one by one, and the links that still wait at the end. It comes
      to an end, with every name written as often as it was given, wherever there is room for the numbers. */
  method Archived(given: seq<File>, maxino: nat, maxdev: nat) returns (a: Archive, ok: bool)
    requires maxino >= 1
    ensures fresh(a)
    ensures Room(given, maxino, maxdev) ==> ok
    ensures ok ==> forall k :: Written(a.out, k) == Seen(given, k)
    ensures ok ==> forall dev, ino :: Data(a.out, dev, ino) == Begun(given, dev, ino)
    ensures ok ==> forall dev, ino :: NamesOut(a.out, dev, ino) == NamesIn(given, dev, ino)
    ensures ok ==> Grouped(a.out) && AllFromSlots(a.devices, a.out) && Numbered(a.devices) && Placed(a.devices, maxino)
  {
    hide Numbered, Placed, Collecting, Conserved, Grouped, AllFromSlots, Falling, Balanced, Tracked, Ordered, Filled,
        Counting,
        Room, Place, Files, Devices;
    a := new Archive(maxino, maxdev);
    var i := 0;
    while i < |given|
      invariant 0 <= i <= |given| && fresh(a) && a.Valid() && a.files == given[..i]
      invariant a.maxino == maxino && a.maxdev == maxdev
    {
      assert given[..i + 1] == given[..i] + [given[i]];
      if Room(given, maxino, maxdev) {
        RoomBefore(given, i + 1, maxino, maxdev);
        RoomSuffices(a.devices, a.files, given[i], maxino, maxdev, a.fakedev, a.fakeino);
        CountingEnds(a.files, maxino, maxdev, a.fakedev, a.fakeino);
      }
      ok := a.Outfile(given[i]);
      if !ok {
        return;
      }
      i := i + 1;
    }
    assert given[..|given|] == given;
    a.Lflush();
    ok := true;
  }

  // ---- The end of the run ----

  /** The next slot to be written. */
  method AnyOf(todo: set<int>) returns (a: int)
    requires todo != {}
    ensures a in todo
  {
    EmptySet(todo);
    var x :| x in todo;
    a := x;
  }

  /** The slots of the first `i` devices have been written; the others are as they were. */
  ghost predicate Flushing(left: seq<Dslot>, devices: seq<Dslot>, i: nat) {
    && |left| == |devices| && i <= |devices|
    && (forall j {:trigger left[j]} :: i <= j < |left| ==> left[j] == devices[j])
    && (forall j, a {:trigger left[j].islots[a]} :: 0 <= j < i && a in left[j].islots ==> left[j].islots[a].nlk == 0)
  }

  ghost predicate FlushingIn(left: seq<Dslot>, devices: seq<Dslot>, i: nat, todo: set<int>) {
    && |left| == |devices| && i < |devices|
    && (forall j {:trigger left[j]} :: i < j < |left| ==> left[j] == devices[j])
    && (forall j, a {:trigger left[j].islots[a]} :: 0 <= j < i && a in left[j].islots ==> left[j].islots[a].nlk == 0)
    && left[i].dev == devices[i].dev && left[i].islots.Keys == devices[i].islots.Keys
    && (forall a {:trigger left[i].islots[a]} :: a in left[i].islots ==>
          if a in todo then left[i].islots[a] == devices[i].islots[a] else left[i].islots[a].nlk == 0)
  }

  lemma FlushStart(left: seq<Dslot>, devices: seq<Dslot>, i: nat)
    requires i < |devices| && Flushing(left, devices, i)
    ensures FlushingIn(left, devices, i, devices[i].islots.Keys)
  {
  }

  lemma FlushEnd(left: seq<Dslot>, devices: seq<Dslot>, i: nat)
    requires FlushingIn(left, devices, i, {})
    ensures Flushing(left, devices, i + 1)
  {
  }

  lemma SlotWaits(left: seq<Dslot>, devices: seq<Dslot>, i: nat, todo: set<int>, a: int)
    requires FlushingIn(left, devices, i, todo) && a in todo && todo <= devices[i].islots.Keys && Collecting(left)
    ensures
      var ip := devices[i].islots[a];
      ip.nlk > 0 ==> ip.lnk != [] && ip.st.dev == devices[i].dev && ip.st.ino == a && Multi(ip.st)
  {
    assert left[i].islots[a] == devices[i].islots[a];
  }

  lemma {:induction false} NothingHeld(left: seq<Dslot>, k: Key)
    requires forall j, a {:trigger left[j].islots[a]} :: 0 <= j < |left| && a in left[j].islots ==>
        left[j].islots[a].nlk == 0
    ensures Held(left, k) == 0
  {
    if left != [] {
      var n := |left| - 1;
      forall j, a {:trigger left[..n][j].islots[a]} | 0 <= j < n && a in left[..n][j].islots
        ensures left[..n][j].islots[a].nlk == 0
      {
        assert left[j].islots[a].nlk == 0;
      }
      NothingHeld(left[..n], k);
    }
  }

  lemma NoRoundLeft(files: seq<File>, out: seq<Entry>, left: seq<Dslot>)
    requires Balanced(files, out, left)
    requires forall j, a {:trigger left[j].islots[a]} :: 0 <= j < |left| && a in left[j].islots ==>
        left[j].islots[a].nlk == 0
    ensures forall dev, ino :: Data(out, dev, ino) == Begun(files, dev, ino)
  {
    forall dev, ino ensures Data(out, dev, ino) == Begun(files, dev, ino) {
      NothingOpen(left, dev, ino);
    }
  }

  lemma NoNamesLeft(files: seq<File>, out: seq<Entry>, left: seq<Dslot>)
    requires Ordered(files, out, left)
    requires forall j, a {:trigger left[j].islots[a]} :: 0 <= j < |left| && a in left[j].islots ==>
        left[j].islots[a].nlk == 0
    ensures forall dev, ino :: NamesOut(out, dev, ino) == NamesIn(files, dev, ino)
  {
    forall dev, ino ensures NamesOut(out, dev, ino) == NamesIn(files, dev, ino) {
      assert NamesOut(out, dev, ino) + WaitingNames(left, dev, ino) == NamesIn(files, dev, ino);
      NothingWaits(left, dev, ino);
    }
  }

  /** The names of a file wait in one place only. */
  lemma NotLeftElsewhere(left: seq<Dslot>, devices: seq<Dslot>, i: nat, todo: set<int>, a: int, maxino: nat)
    requires FlushingIn(left, devices, i, todo) && Placed(devices, maxino) && a in todo
        && todo <= devices[i].islots.Keys
    ensures a in left[i].islots && left[i].islots[a] == devices[i].islots[a]
    ensures forall j {:trigger left[j]} ::
              0 <= j < |left| && j != i ==> WaitingIn(left[j], left[i].dev, a) == []
  {
    forall j {:trigger left[j]} | 0 <= j < |left| && j != i ensures WaitingIn(left[j], left[i].dev, a) == [] {
      if j > i && a in devices[j].islots {
        SamePlace(devices, maxino, i, j, a);
      }
    }
  }

  lemma NothingLeft(files: seq<File>, out: seq<Entry>, devices: seq<Dslot>, left: seq<Dslot>)
    requires Flushing(left, devices, |devices|) && Conserved(files, out, left)
    ensures forall k :: Written(out, k) == Seen(files, k)
  {
    forall k ensures Written(out, k) == Seen(files, k) {
      NothingHeld(left, k);
    }
  }

  /** One inode's waiting names are written. */
  lemma SlotFlushed(files: seq<File>, out: seq<Entry>, left: seq<Dslot>, devices: seq<Dslot>, i: nat, todo: set<int>,
                    a: int,
                    maxino: nat, dev: int, ino: int)
    requires FlushingIn(left, devices, i, todo) && a in todo && todo <= devices[i].islots.Keys && Numbered(devices)
    requires Conserved(files, out, left) && Balanced(files, out, left) && Collecting(left) && Grouped(out)
    requires AllFromSlots(devices, out) && Falling(out, maxino, dev, ino)
    ensures
      var ip := devices[i].islots[a];
      var out' := out
          + if ip.nlk > 0 && ip.lnk != [] then Group(Front(ip.lnk), Final(ip.lnk), ip.st, devices[i].fake, ip.fino)
          else [];
      var left' := left[i := Store(left[i], a, ip.(nlk := 0))];
      && FlushingIn(left', devices, i, todo - {a}) && Conserved(files, out', left') && Balanced(files, out', left')
          && Collecting(left') && Grouped(out')
      && AllFromSlots(devices, out') && Falling(out', maxino, dev, ino)
  {
    hide Falling, Numbered, Balanced;
    var ip, n := devices[i].islots[a], devices[i].fake;
    assert left[i].islots[a] == ip;
    var left' := left[i := Store(left[i], a, ip.(nlk := 0))];
    CollectingKept(left, i, a, ip.(nlk := 0));
    FlushOne(left, devices, i, todo, a);
    var st := Stat(left[i].dev, a, 2, false);
    if ip.nlk > 0 {
      SlotWaits(left, devices, i, todo, a);
      RoundFlushed(files, out, left, i, a, ip, n);
      var front, last := Front(ip.lnk), Final(ip.lnk);
      assert ip.lnk == front + [last];
      GroupAdded(out, front, last, ip.st, n, ip.fino);
      GroupFalls(out, maxino, dev, ino, front, last, ip.st, n, ip.fino);
      SlotNumbers(devices, i, a, Entry(last, ip.st, n, ip.fino, false));
      FromSlotsGrow(devices, out, front, last, ip.st, n, ip.fino);
      var out' := out + Group(front, last, ip.st, n, ip.fino);
      forall k ensures Written(out', k) + Held(left', k) == Seen(files, k) {
        HeldStored(left, i, st, ip.(nlk := 0), k);
      }
    } else {
      assert out + [] == out;
      RoundKept(files, out, left, i, a, ip);
      forall k ensures Written(out, k) + Held(left', k) == Seen(files, k) {
        HeldStored(left, i, st, ip.(nlk := 0), k);
      }
    }
  }

  lemma FlushOne(left: seq<Dslot>, devices: seq<Dslot>, i: nat, todo: set<int>, a: int)
    requires FlushingIn(left, devices, i, todo) && a in todo && todo <= devices[i].islots.Keys
    ensures FlushingIn(left[i := Store(left[i], a, devices[i].islots[a].(nlk := 0))], devices, i, todo - {a})
  {
    var left' := left[i := Store(left[i], a, devices[i].islots[a].(nlk := 0))];
    assert a in left[i].islots;
    forall j, b {:trigger left'[j].islots[b]} | 0 <= j < i && b in left'[j].islots ensures left'[j].islots[b].nlk == 0 {
      assert left[j].islots[b].nlk == 0;
    }
    forall b {:trigger left'[i].islots[b]} | b in left'[i].islots
      ensures if b in todo - {a} then left'[i].islots[b] == devices[i].islots[b] else left'[i].islots[b].nlk == 0
    {
      if b != a {
        assert left[i].islots[b] == left'[i].islots[b];
      }
    }
  }

  lemma SlotNumbers(devices: seq<Dslot>, i: nat, a: int, e: Entry)
    requires Numbered(devices) && i < |devices| && a in devices[i].islots
    requires e.dev == devices[i].fake && e.ino == devices[i].islots[a].fino && e.st.dev == devices[i].dev
        && e.st.ino == a
    ensures FromSlot(devices, e)
  {
  }

  lemma SlotFacts(devices: seq<Dslot>, i: nat, st: Stat)
    requires Collecting(devices) && i < |devices| && devices[i].dev == st.dev && Multi(st)
    ensures
      var ip := Fetch(devices[i], st);
      ip.nlk > 0 ==> ip.st.dev == devices[i].dev && ip.st.ino == st.ino && Multi(ip.st)
  {
    if st.ino in devices[i].islots {
      assert devices[i].islots[st.ino] == Fetch(devices[i], st);
    }
  }

  lemma SingleFromSlots(devices: seq<Dslot>, out: seq<Entry>, e: Entry)
    requires AllFromSlots(devices, out) && !Multi(e.st)
    ensures AllFromSlots(devices, out + [e])
  {
  }

  lemma DeviceAdded(files: seq<File>, out: seq<Entry>, devices: seq<Dslot>, maxino: nat, st: Stat, n: nat)
    requires Numbered(devices) && Placed(devices, maxino) && Collecting(devices) && n == |devices|
    requires Conserved(files, out, devices) && AllFromSlots(devices, out)
    requires forall j {:trigger devices[j]} :: 0 <= j < |devices| && devices[j].dev == st.dev ==>
               st.ino !in devices[j].islots && devices[j].cnt >= maxino
    ensures
      var devices' := devices + [Dslot(st.dev, n + 1, 0, map[])];
      && Numbered(devices') && Placed(devices', maxino) && Collecting(devices')
      && Conserved(files, out, devices') && AllFromSlots(devices', out)
  {
    var devices' := devices + [Dslot(st.dev, n + 1, 0, map[])];
    assert devices'[..n] == devices;
    forall i | 0 <= i < n ensures devices'[i] == devices[i] {
    }
    forall e {:trigger e in out} | e in out && Multi(e.st) ensures FromSlot(devices', e) {
      assert FromSlot(devices, e);
    }
  }
}
