/** Rounds of links: a file's expected links are counted down, and each round ends with one entry
    that carries the data. */
module CpioRounds {
  import opened CpioLinks

  /** Links still expected of a file after these have been accepted: a round begins with as many
      as the file has, and again when all have come. */
  function Expected(files: seq<File>, dev: int, ino: int): nat {
    if files == [] then 0
    else
      var f, left := files[|files| - 1], Expected(files[..|files| - 1], dev, ino);
      if !Multi(f.st) || f.st.dev != dev || f.st.ino != ino then left
      else if left == 0 then f.st.nlink - 1 else left - 1
  }

  /** How many rounds have begun. */
  function Begun(files: seq<File>, dev: int, ino: int): nat {
    if files == [] then 0
    else
      var f, front := files[|files| - 1], files[..|files| - 1];
      Begun(front, dev, ino)
      + if Multi(f.st) && f.st.dev == dev && f.st.ino == ino && Expected(front, dev, ino) == 0 then 1 else 0
  }

  predicate IsData(e: Entry, dev: int, ino: int) {
    !e.zeroLink && Multi(e.st) && e.st.dev == dev && e.st.ino == ino
  }

  /** Entries that carry the data of a file with several links. */
  function Data(out: seq<Entry>, dev: int, ino: int): nat {
    if out == [] then 0 else Data(out[..|out| - 1], dev, ino) + if IsData(out[|out| - 1], dev, ino) then 1 else 0
  }

  function NlkIn(d: Dslot, dev: int, ino: int): nat {
    if d.dev == dev && ino in d.islots then d.islots[ino].nlk else 0
  }

  /** The count kept for a file, wherever its slot is. */
  function Nlk(devices: seq<Dslot>, dev: int, ino: int): nat {
    if devices == [] then 0 else Nlk(devices[..|devices| - 1], dev, ino) + NlkIn(devices[|devices| - 1], dev, ino)
  }

  /** Its rounds that have begun but not ended. */
  function Open(devices: seq<Dslot>, dev: int, ino: int): nat {
    if devices == [] then 0
    else Open(devices[..|devices| - 1], dev, ino) + if NlkIn(devices[|devices| - 1], dev, ino) > 0 then 1 else 0
  }

  ghost predicate Balanced(files: seq<File>, out: seq<Entry>, devices: seq<Dslot>) {
    forall dev, ino :: Data(out, dev, ino) + Open(devices, dev, ino) == Begun(files, dev, ino)
  }

  ghost predicate Tracked(files: seq<File>, devices: seq<Dslot>) {
    forall dev, ino :: Nlk(devices, dev, ino) == Expected(files, dev, ino)
  }

  // ---- Sums over slots ----

  lemma {:induction false} SumsAt(devices: seq<Dslot>, i: nat, d: Dslot, dev: int, ino: int)
    requires i < |devices|
    ensures Nlk(devices[i := d], dev, ino) == Nlk(devices, dev, ino) - NlkIn(devices[i], dev, ino) + NlkIn(d, dev, ino)
    ensures Nlk(devices, dev, ino) >= NlkIn(devices[i], dev, ino)
    ensures
      Open(devices[i := d], dev, ino)
      == Open(devices, dev, ino) - (if NlkIn(devices[i], dev, ino) > 0 then 1 else 0)
          + (if NlkIn(d, dev, ino) > 0 then 1 else 0)
    ensures Open(devices, dev, ino) >= if NlkIn(devices[i], dev, ino) > 0 then 1 else 0
  {
    hide NlkIn;
    var n := |devices| - 1;
    if i == n {
      assert devices[i := d][..n] == devices[..n];
    } else {
      SumsAt(devices[..n], i, d, dev, ino);
      assert devices[i := d][..n] == devices[..n][i := d];
    }
  }

  lemma {:induction false} NoneElsewhere(devices: seq<Dslot>, n: nat, dev: int, ino: int)
    requires n <= |devices| && forall j {:trigger devices[j]} :: 0 <= j < n ==> NlkIn(devices[j], dev, ino) == 0
    ensures Nlk(devices[..n], dev, ino) == 0
  {
    hide NlkIn;
    if n > 0 {
      NoneElsewhere(devices, n - 1, dev, ino);
      assert devices[..n][..n - 1] == devices[..n - 1];
    }
  }

  lemma OtherSlot(devices: seq<Dslot>, maxino: nat, i: nat, st: Stat, j: nat)
    requires Placed(devices, maxino) && Located(devices, maxino, i, st) && j < |devices| && j != i
    ensures NlkIn(devices[j], st.dev, st.ino) == 0
  {
    assert j < i && devices[j].dev == st.dev ==> st.ino !in devices[j].islots;
  }

  /** The count kept is that of the one slot a file can have. */
  lemma SlotTracks(devices: seq<Dslot>, maxino: nat, i: nat, st: Stat)
    requires Placed(devices, maxino) && Located(devices, maxino, i, st)
    ensures Nlk(devices, st.dev, st.ino) == NlkIn(devices[i], st.dev, st.ino)
  {
    var blank := Dslot(st.dev, 0, 0, map[]);
    var others := devices[i := blank];
    forall j {:trigger others[j]} | 0 <= j < |others| ensures NlkIn(others[j], st.dev, st.ino) == 0 {
      if j != i {
        OtherSlot(devices, maxino, i, st, j);
      }
    }
    NoneElsewhere(others, |others|, st.dev, st.ino);
    assert others[..|others|] == others;
    SumsAt(devices, i, blank, st.dev, st.ino);
  }

  lemma StoreSums(devices: seq<Dslot>, i: nat, st: Stat, ip: Islot, dev: int, ino: int)
    requires i < |devices| && devices[i].dev == st.dev
    ensures
      var devices', before := devices[i := Store(devices[i], st.ino, ip)], NlkIn(devices[i], st.dev, st.ino);
      if dev == st.dev && ino == st.ino then
        && Nlk(devices', dev, ino) == Nlk(devices, dev, ino) - before + ip.nlk
        && Open(devices', dev, ino) == Open(devices, dev, ino) - (if before > 0 then 1 else 0)
            + (if ip.nlk > 0 then 1 else 0)
      else Nlk(devices', dev, ino) == Nlk(devices, dev, ino) && Open(devices', dev, ino) == Open(devices, dev, ino)
  {
    SumsAt(devices, i, Store(devices[i], st.ino, ip), dev, ino);
  }

  // ---- Sums over entries and files ----

  lemma DataSnoc(out: seq<Entry>, e: Entry, dev: int, ino: int)
    ensures Data(out + [e], dev, ino) == Data(out, dev, ino) + if IsData(e, dev, ino) then 1 else 0
  {
    assert (out + [e])[..|out|] == out;
  }

  lemma {:induction false} LinksNoData(out: seq<Entry>, names: seq<string>, st: Stat, n: nat, fino: nat, dev: int,
                                       ino: int)
    ensures Data(out + Links(names, st, n, fino), dev, ino) == Data(out, dev, ino)
  {
    if names == [] {
      assert out + Links(names, st, n, fino) == out;
    } else {
      var front := names[..|names| - 1];
      LinksNoData(out, front, st, n, fino, dev, ino);
      LinksSnoc(out, names, st, n, fino);
      DataSnoc(out + Links(front, st, n, fino), Entry(names[|names| - 1], st, n, fino, true), dev, ino);
    }
  }

  /** A group has one entry with data. */
  lemma GroupData(out: seq<Entry>, names: seq<string>, name: string, st: Stat, n: nat, fino: nat, dev: int, ino: int)
    ensures Data(out + Group(names, name, st, n, fino), dev, ino)
         == Data(out, dev, ino) + if Multi(st) && st.dev == dev && st.ino == ino then 1 else 0
  {
    LinksNoData(out, names, st, n, fino, dev, ino);
    DataSnoc(out + Links(names, st, n, fino), Entry(name, st, n, fino, false), dev, ino);
    assert out + Group(names, name, st, n, fino) == (out + Links(names, st, n, fino))
        + [Entry(name, st, n, fino, false)];
  }

  lemma FileCounts(files: seq<File>, f: File, dev: int, ino: int)
    ensures
      var left := Expected(files, dev, ino);
      if Multi(f.st) && f.st.dev == dev && f.st.ino == ino then
        && Expected(files + [f], dev, ino) == (if left == 0 then f.st.nlink - 1 else left - 1)
        && Begun(files + [f], dev, ino) == Begun(files, dev, ino) + if left == 0 then 1 else 0
      else Expected(files + [f], dev, ino) == left && Begun(files + [f], dev, ino) == Begun(files, dev, ino)
  {
    assert (files + [f])[..|files|] == files;
  }

  // ---- What one file does ----

  /** The last expected link ends a round: one entry with data more, one open round less. */
  lemma RoundEnds(files: seq<File>, out: seq<Entry>, devices: seq<Dslot>, maxino: nat, i: nat, f: File, ip: Islot)
    requires Balanced(files, out, devices) && Tracked(files, devices) && Placed(devices, maxino)
        && Located(devices, maxino, i, f.st)
    requires Multi(f.st) && ip == Fetch(devices[i], f.st) && ip.nlk == 1
    ensures
      var out' := out + Group(ip.lnk, f.name, f.st, i + 1, ip.fino);
      var devices' := devices[i := Store(devices[i], f.st.ino, ip.(nlk := 0))];
      Balanced(files + [f], out', devices') && Tracked(files + [f], devices')
  {
    hide Placed, Located, Group;
    SlotTracks(devices, maxino, i, f.st);
    SlotIsThere(devices, maxino, i, f.st);
    var out', devices' := out + Group(ip.lnk, f.name, f.st, i + 1, ip.fino),
        devices[i := Store(devices[i], f.st.ino, ip.(nlk := 0))];
    forall dev, ino
      ensures Data(out', dev, ino) + Open(devices', dev, ino) == Begun(files + [f], dev, ino)
      ensures Nlk(devices', dev, ino) == Expected(files + [f], dev, ino)
    {
      GroupData(out, ip.lnk, f.name, f.st, i + 1, ip.fino, dev, ino);
      StoreSums(devices, i, f.st, ip.(nlk := 0), dev, ino);
      FileCounts(files, f, dev, ino);
      assert Nlk(devices, dev, ino) == Expected(files, dev, ino);
    }
  }

  lemma SlotIsThere(devices: seq<Dslot>, maxino: nat, i: nat, st: Stat)
    requires Located(devices, maxino, i, st) && Multi(st)
    ensures i < |devices| && devices[i].dev == st.dev
    ensures
      var ip := Fetch(devices[i], st);
      if st.ino in devices[i].islots then ip.nlk == NlkIn(devices[i], st.dev, st.ino)
      else ip.nlk == st.nlink > 1 && NlkIn(devices[i], st.dev, st.ino) == 0
  {
  }

  /** Any other link opens a round or keeps one open. */
  lemma RoundGoesOn(files: seq<File>, out: seq<Entry>, devices: seq<Dslot>, maxino: nat, i: nat, f: File, ip: Islot,
                    ip': Islot)
    requires Balanced(files, out, devices) && Tracked(files, devices) && Placed(devices, maxino)
        && Located(devices, maxino, i, f.st)
    requires Multi(f.st) && ip == Fetch(devices[i], f.st) && ip.nlk != 1
    requires ip'.nlk == (if ip.nlk == 0 then f.st.nlink else ip.nlk) - 1
    ensures
      var devices' := devices[i := Store(devices[i], f.st.ino, ip')];
      Balanced(files + [f], out, devices') && Tracked(files + [f], devices')
  {
    hide Placed, Located;
    SlotTracks(devices, maxino, i, f.st);
    SlotIsThere(devices, maxino, i, f.st);
    var devices' := devices[i := Store(devices[i], f.st.ino, ip')];
    forall dev, ino
      ensures Data(out, dev, ino) + Open(devices', dev, ino) == Begun(files + [f], dev, ino)
      ensures Nlk(devices', dev, ino) == Expected(files + [f], dev, ino)
    {
      StoreSums(devices, i, f.st, ip', dev, ino);
      FileCounts(files, f, dev, ino);
      assert Nlk(devices, dev, ino) == Expected(files, dev, ino);
    }
  }

  lemma NoRound(files: seq<File>, out: seq<Entry>, devices: seq<Dslot>, f: File, n: nat, fino: nat)
    requires Balanced(files, out, devices) && Tracked(files, devices) && !Multi(f.st)
    ensures Balanced(files + [f], out + [Entry(f.name, f.st, n, fino, false)], devices) && Tracked(files + [f], devices)
  {
    forall dev, ino
      ensures Data(out + [Entry(f.name, f.st, n, fino, false)], dev, ino) + Open(devices, dev, ino)
          == Begun(files + [f], dev, ino)
      ensures Nlk(devices, dev, ino) == Expected(files + [f], dev, ino)
    {
      DataSnoc(out, Entry(f.name, f.st, n, fino, false), dev, ino);
      FileCounts(files, f, dev, ino);
    }
  }

  lemma NoRoundThere(files: seq<File>, out: seq<Entry>, devices: seq<Dslot>, d: int, fake: nat)
    requires Balanced(files, out, devices) && Tracked(files, devices)
    ensures
      var devices' := devices + [Dslot(d, fake, 0, map[])];
      Balanced(files, out, devices') && Tracked(files, devices')
  {
    var devices' := devices + [Dslot(d, fake, 0, map[])];
    assert devices'[..|devices|] == devices;
    forall dev, ino
        ensures Open(devices', dev, ino) == Open(devices, dev, ino)
        && Nlk(devices', dev, ino) == Nlk(devices, dev, ino) {
    }
  }

  // ---- The end of the run ----

  lemma {:induction false} NothingOpen(left: seq<Dslot>, dev: int, ino: int)
    requires forall j, a {:trigger left[j].islots[a]} :: 0 <= j < |left| && a in left[j].islots ==>
        left[j].islots[a].nlk == 0
    ensures Open(left, dev, ino) == 0
  {
    if left != [] {
      var n := |left| - 1;
      forall j, a {:trigger left[..n][j].islots[a]} | 0 <= j < n && a in left[..n][j].islots
        ensures left[..n][j].islots[a].nlk == 0
      {
        assert left[j].islots[a].nlk == 0;
      }
      NothingOpen(left[..n], dev, ino);
      assert ino in left[n].islots ==> left[n].islots[ino].nlk == 0;
    }
  }

  /** An open round is ended with the names collected so far. */
  lemma RoundFlushed(files: seq<File>, out: seq<Entry>, left: seq<Dslot>, i: nat, a: int, ip: Islot, n: nat)
    requires Balanced(files, out, left) && i < |left| && a in left[i].islots && left[i].islots[a] == ip
    requires ip.nlk > 0 && ip.lnk != [] && ip.st.dev == left[i].dev && ip.st.ino == a && Multi(ip.st)
    ensures
      Balanced(files, out + Group(Front(ip.lnk), Final(ip.lnk), ip.st, n, ip.fino),
               left[i := Store(left[i], a, ip.(nlk := 0))])
  {
    hide Group;
    forall dev, ino
      ensures Data(out + Group(Front(ip.lnk), Final(ip.lnk), ip.st, n, ip.fino), dev, ino)
            + Open(left[i := Store(left[i], a, ip.(nlk := 0))], dev, ino) == Begun(files, dev, ino)
    {
      GroupData(out, Front(ip.lnk), Final(ip.lnk), ip.st, n, ip.fino, dev, ino);
      StoreSums(left, i, ip.st, ip.(nlk := 0), dev, ino);
    }
  }

  lemma RoundKept(files: seq<File>, out: seq<Entry>, left: seq<Dslot>, i: nat, a: int, ip: Islot)
    requires Balanced(files, out, left) && i < |left| && a in left[i].islots && left[i].islots[a] == ip && ip.nlk == 0
    ensures Balanced(files, out, left[i := Store(left[i], a, ip.(nlk := 0))])
  {
    forall dev, ino ensures Open(left[i := Store(left[i], a, ip.(nlk := 0))], dev, ino) == Open(left, dev, ino) {
      StoreSums(left, i, Stat(left[i].dev, a, 2, false), ip.(nlk := 0), dev, ino);
    }
  }
}
