/** The links of a file are written in the order in which they came. */
module CpioOrder {
  import opened CpioLinks

  /** The names a file with several links has been given by. */
  function NamesIn(files: seq<File>, dev: int, ino: int): seq<string> {
    if files == [] then []
    else
      var f := files[|files| - 1];
      NamesIn(files[..|files| - 1], dev, ino)
      + if Multi(f.st) && f.st.dev == dev && f.st.ino == ino then [f.name] else []
  }

  /** The names it has been written by. */
  function NamesOut(out: seq<Entry>, dev: int, ino: int): seq<string> {
    if out == [] then []
    else
      var e := out[|out| - 1];
      NamesOut(out[..|out| - 1], dev, ino)
      + if Multi(e.st) && e.st.dev == dev && e.st.ino == ino then [e.name] else []
  }

  /** The names that wait in its slot, wherever that is. */
  function WaitingIn(d: Dslot, dev: int, ino: int): seq<string> {
    if d.dev == dev && ino in d.islots && d.islots[ino].nlk > 0 then d.islots[ino].lnk else []
  }

  function WaitingNames(devices: seq<Dslot>, dev: int, ino: int): seq<string> {
    if devices == [] then []
    else WaitingNames(devices[..|devices| - 1], dev, ino) + WaitingIn(devices[|devices| - 1], dev, ino)
  }

  /** What has been written of a file and what waits are together what was given, in order. */
  ghost predicate Ordered(files: seq<File>, out: seq<Entry>, devices: seq<Dslot>) {
    forall dev, ino :: NamesOut(out, dev, ino) + WaitingNames(devices, dev, ino) == NamesIn(files, dev, ino)
  }

  // ---- Names one by one ----

  lemma InMore(files: seq<File>, f: File, dev: int, ino: int)
    ensures NamesIn(files + [f], dev, ino)
        == NamesIn(files, dev, ino) + if Multi(f.st) && f.st.dev == dev && f.st.ino == ino then [f.name] else []
  {
    assert (files + [f])[..|files|] == files;
  }

  lemma OutMore(out: seq<Entry>, e: Entry, dev: int, ino: int)
    ensures NamesOut(out + [e], dev, ino)
        == NamesOut(out, dev, ino) + if Multi(e.st) && e.st.dev == dev && e.st.ino == ino then [e.name] else []
  {
    assert (out + [e])[..|out|] == out;
  }

  lemma {:induction false} LinksOut(out: seq<Entry>, names: seq<string>, st: Stat, d: nat, n: nat, dev: int, ino: int)
    requires Multi(st)
    ensures NamesOut(out + Links(names, st, d, n), dev, ino)
        == NamesOut(out, dev, ino) + if st.dev == dev && st.ino == ino then names else []
  {
    if names == [] {
      assert out + Links(names, st, d, n) == out;
    } else {
      var k := |names| - 1;
      LinksOut(out, names[..k], st, d, n, dev, ino);
      LinksSnoc(out, names, st, d, n);
      OutMore(out + Links(names[..k], st, d, n), Entry(names[k], st, d, n, true), dev, ino);
      assert names == names[..k] + [names[k]];
    }
  }

  lemma GroupOut(out: seq<Entry>, names: seq<string>, name: string, st: Stat, d: nat, n: nat, dev: int, ino: int)
    requires Multi(st)
    ensures NamesOut(out + Group(names, name, st, d, n), dev, ino)
        == NamesOut(out, dev, ino) + if st.dev == dev && st.ino == ino then names + [name] else []
  {
    hide NamesOut, Links;
    LinksOut(out, names, st, d, n, dev, ino);
    OutMore(out + Links(names, st, d, n), Entry(name, st, d, n, false), dev, ino);
    assert out + Group(names, name, st, d, n) == out + Links(names, st, d, n) + [Entry(name, st, d, n, false)];
  }

  // ---- Slots ----

  /** What waits in one slot, if nothing waits in the others. */
  lemma {:induction false} OnlyThere(devices: seq<Dslot>, i: nat, dev: int, ino: int)
    requires i < |devices|
    requires forall j {:trigger devices[j]} :: 0 <= j < |devices| && j != i ==> WaitingIn(devices[j], dev, ino) == []
    ensures WaitingNames(devices, dev, ino) == WaitingIn(devices[i], dev, ino)
  {
    hide WaitingIn;
    var n := |devices| - 1;
    assert forall j :: 0 <= j < n ==> devices[..n][j] == devices[j];
    if i == n {
      NothingWaits(devices[..n], dev, ino);
    } else {
      OnlyThere(devices[..n], i, dev, ino);
    }
  }

  lemma {:induction false} NothingWaits(devices: seq<Dslot>, dev: int, ino: int)
    requires forall j {:trigger devices[j]} :: 0 <= j < |devices| ==> WaitingIn(devices[j], dev, ino) == []
    ensures WaitingNames(devices, dev, ino) == []
  {
    hide WaitingIn;
    if devices != [] {
      var n := |devices| - 1;
      assert forall j :: 0 <= j < n ==> devices[..n][j] == devices[j];
      NothingWaits(devices[..n], dev, ino);
    }
  }

  /** A slot changes nothing for files for which it stays as it was. */
  lemma {:induction false} SameWaiting(devices: seq<Dslot>, i: nat, d: Dslot, dev: int, ino: int)
    requires i < |devices| && WaitingIn(d, dev, ino) == WaitingIn(devices[i], dev, ino)
    ensures WaitingNames(devices[i := d], dev, ino) == WaitingNames(devices, dev, ino)
  {
    hide WaitingIn;
    var n := |devices| - 1;
    if i == n {
      assert devices[i := d][..n] == devices[..n];
    } else {
      SameWaiting(devices[..n], i, d, dev, ino);
      assert devices[i := d][..n] == devices[..n][i := d];
    }
  }

  /** The slot of one file changes, and nothing waits for it elsewhere. */
  lemma StoreWaits(devices: seq<Dslot>, i: nat, a: int, ip: Islot, dev: int, ino: int)
    requires i < |devices|
    requires forall j {:trigger devices[j]} ::
               0 <= j < |devices| && j != i ==> WaitingIn(devices[j], devices[i].dev, a) == []
    ensures
      var devices' := devices[i := Store(devices[i], a, ip)];
      if dev == devices[i].dev && ino == a then
        && WaitingNames(devices', dev, ino) == (if ip.nlk > 0 then ip.lnk else [])
        && WaitingNames(devices, dev, ino) == WaitingIn(devices[i], dev, ino)
      else WaitingNames(devices', dev, ino) == WaitingNames(devices, dev, ino)
  {
    var devices' := devices[i := Store(devices[i], a, ip)];
    if dev == devices[i].dev && ino == a {
      assert forall j :: 0 <= j < |devices| && j != i ==> devices'[j] == devices[j];
      OnlyThere(devices, i, dev, ino);
      OnlyThere(devices', i, dev, ino);
    } else {
      SameWaiting(devices, i, Store(devices[i], a, ip), dev, ino);
    }
  }

  lemma NotElsewhere(devices: seq<Dslot>, maxino: nat, i: nat, st: Stat)
    requires Placed(devices, maxino) && Located(devices, maxino, i, st)
    ensures forall j {:trigger devices[j]} ::
              0 <= j < |devices| && j != i ==> WaitingIn(devices[j], st.dev, st.ino) == []
  {
    forall j {:trigger devices[j]} | 0 <= j < |devices| && j != i
      ensures WaitingIn(devices[j], st.dev, st.ino) == []
    {
      assert j < i && devices[j].dev == st.dev ==> st.ino !in devices[j].islots;
    }
  }

  // ---- What one file does ----

  /** The last expected link: the others are written before it. */
  lemma OrderLast(files: seq<File>, out: seq<Entry>, devices: seq<Dslot>, maxino: nat, i: nat, f: File, ip: Islot)
    requires Ordered(files, out, devices) && Placed(devices, maxino) && Located(devices, maxino, i, f.st)
    requires Multi(f.st) && ip == Fetch(devices[i], f.st) && ip.nlk == 1
    ensures Ordered(files + [f], out + Group(ip.lnk, f.name, f.st, i + 1, ip.fino),
                    devices[i := Store(devices[i], f.st.ino, ip.(nlk := 0))])
  {
    hide NamesIn, NamesOut, WaitingNames;
    var out' := out + Group(ip.lnk, f.name, f.st, i + 1, ip.fino);
    var devices' := devices[i := Store(devices[i], f.st.ino, ip.(nlk := 0))];
    NotElsewhere(devices, maxino, i, f.st);
    forall dev, ino
        ensures NamesOut(out', dev, ino) + WaitingNames(devices', dev, ino) == NamesIn(files + [f], dev, ino) {
      InMore(files, f, dev, ino);
      GroupOut(out, ip.lnk, f.name, f.st, i + 1, ip.fino, dev, ino);
      StoreWaits(devices, i, f.st.ino, ip.(nlk := 0), dev, ino);
      assert NamesOut(out, dev, ino) + WaitingNames(devices, dev, ino) == NamesIn(files, dev, ino);
    }
  }

  /** Any other link waits behind those that do already. */
  lemma OrderWait(files: seq<File>, out: seq<Entry>, devices: seq<Dslot>, maxino: nat, i: nat, f: File, ip: Islot,
                  ip': Islot)
    requires Ordered(files, out, devices) && Placed(devices, maxino) && Located(devices, maxino, i, f.st)
    requires Multi(f.st) && ip == Fetch(devices[i], f.st) && ip'.nlk > 0
    requires ip'.lnk == (if ip.nlk > 0 then ip.lnk else []) + [f.name]
    ensures Ordered(files + [f], out, devices[i := Store(devices[i], f.st.ino, ip')])
  {
    hide NamesIn, NamesOut, WaitingNames;
    var devices' := devices[i := Store(devices[i], f.st.ino, ip')];
    NotElsewhere(devices, maxino, i, f.st);
    forall dev, ino
        ensures NamesOut(out, dev, ino) + WaitingNames(devices', dev, ino) == NamesIn(files + [f], dev, ino) {
      InMore(files, f, dev, ino);
      StoreWaits(devices, i, f.st.ino, ip', dev, ino);
      assert NamesOut(out, dev, ino) + WaitingNames(devices, dev, ino) == NamesIn(files, dev, ino);
    }
  }

  lemma OrderSingle(files: seq<File>, out: seq<Entry>, devices: seq<Dslot>, f: File, e: Entry)
    requires Ordered(files, out, devices) && !Multi(f.st) && e.st == f.st
    ensures Ordered(files + [f], out + [e], devices)
  {
    hide NamesIn, NamesOut, WaitingNames;
    forall dev, ino
      ensures NamesOut(out + [e], dev, ino) + WaitingNames(devices, dev, ino) == NamesIn(files + [f], dev, ino)
    {
      InMore(files, f, dev, ino);
      OutMore(out, e, dev, ino);
      assert NamesOut(out, dev, ino) + WaitingNames(devices, dev, ino) == NamesIn(files, dev, ino);
    }
  }

  lemma OrderDevice(files: seq<File>, out: seq<Entry>, devices: seq<Dslot>, d: Dslot)
    requires Ordered(files, out, devices) && d.islots == map[]
    ensures Ordered(files, out, devices + [d])
  {
    forall dev, ino
      ensures NamesOut(out, dev, ino) + WaitingNames(devices + [d], dev, ino) == NamesIn(files, dev, ino)
    {
      assert (devices + [d])[..|devices|] == devices;
      assert WaitingNames(devices + [d], dev, ino) == WaitingNames(devices, dev, ino);
    }
  }

  /** What still waits for a file at the end is written in the same order. */
  lemma OrderFlushed(files: seq<File>, out: seq<Entry>, left: seq<Dslot>, i: nat, a: int, ip: Islot, d: nat)
    requires Ordered(files, out, left) && i < |left| && a in left[i].islots && ip == left[i].islots[a]
    requires forall j {:trigger left[j]} :: 0 <= j < |left| && j != i ==> WaitingIn(left[j], left[i].dev, a) == []
    requires ip.nlk > 0 ==> ip.lnk != [] && ip.st.dev == left[i].dev && ip.st.ino == a && Multi(ip.st)
    ensures
      var out' := out
          + if ip.nlk > 0 && ip.lnk != [] then Group(Front(ip.lnk), Final(ip.lnk), ip.st, d, ip.fino) else [];
      Ordered(files, out', left[i := Store(left[i], a, ip.(nlk := 0))])
  {
    hide NamesIn, NamesOut, WaitingNames;
    var left' := left[i := Store(left[i], a, ip.(nlk := 0))];
    var out' := out
        + if ip.nlk > 0 && ip.lnk != [] then Group(Front(ip.lnk), Final(ip.lnk), ip.st, d, ip.fino) else [];
    forall dev, ino ensures NamesOut(out', dev, ino) + WaitingNames(left', dev, ino) == NamesIn(files, dev, ino) {
      StoreWaits(left, i, a, ip.(nlk := 0), dev, ino);
      if ip.nlk > 0 {
        GroupOut(out, Front(ip.lnk), Final(ip.lnk), ip.st, d, ip.fino, dev, ino);
        assert Front(ip.lnk) + [Final(ip.lnk)] == ip.lnk;
      } else {
        assert out' == out;
      }
      assert NamesOut(out, dev, ino) + WaitingNames(left, dev, ino) == NamesIn(files, dev, ino);
    }
  }
}
