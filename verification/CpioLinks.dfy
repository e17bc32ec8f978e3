/** Writing an SVR4 cpio archive: links to a file are collected until all are there or the run ends. */
module CpioLinks {

  datatype Stat = Stat(dev: int, ino: int, nlink: nat, isDir: bool)

  datatype File = File(name: string, st: Stat)

  /** What is handed to `addfile`; `dev` and `ino` are the numbers the archive shows. */
  datatype Entry = Entry(name: string, st: Stat, dev: nat, ino: nat, zeroLink: bool)

  /** `i_fino`, the links still expected, and the names collected so far. */
  datatype Islot = Islot(fino: nat, nlk: nat, st: Stat, lnk: seq<string>)

  datatype Dslot = Dslot(dev: int, fake: nat, cnt: nat, islots: map<int, Islot>)

  predicate Multi(st: Stat) { st.nlink > 1 && !st.isDir }

  // ---- How often a name has been seen, and where it is ----

  datatype Key = Key(name: string, dev: int, ino: int)

  function Seen(files: seq<File>, k: Key): nat {
    if files == [] then 0
    else
      var f := files[|files| - 1];
      Seen(files[..|files| - 1], k) + if Key(f.name, f.st.dev, f.st.ino) == k then 1 else 0
  }

  function Written(out: seq<Entry>, k: Key): nat {
    if out == [] then 0
    else
      var e := out[|out| - 1];
      Written(out[..|out| - 1], k) + if Key(e.name, e.st.dev, e.st.ino) == k then 1 else 0
  }

  function Times(names: seq<string>, name: string): nat {
    if names == [] then 0
    else Times(names[..|names| - 1], name) + if names[|names| - 1] == name then 1 else 0
  }

  /** How often a name waits in one device slot. */
  function HeldIn(d: Dslot, k: Key): nat {
    if d.dev == k.dev && k.ino in d.islots && d.islots[k.ino].nlk > 0 then Times(d.islots[k.ino].lnk, k.name) else 0
  }

  function Held(devices: seq<Dslot>, k: Key): nat {
    if devices == [] then 0 else Held(devices[..|devices| - 1], k) + HeldIn(devices[|devices| - 1], k)
  }

  /** Every name accepted has been written or waits, as often as it was accepted. */
  ghost predicate Conserved(files: seq<File>, out: seq<Entry>, devices: seq<Dslot>) {
    forall k :: Written(out, k) + Held(devices, k) == Seen(files, k)
  }

  lemma WrittenSnoc(out: seq<Entry>, e: Entry, k: Key)
    ensures Written(out + [e], k) == Written(out, k) + if Key(e.name, e.st.dev, e.st.ino) == k then 1 else 0
  {
    assert (out + [e])[..|out|] == out;
  }

  lemma {:induction false} HeldAt(devices: seq<Dslot>, i: nat, d: Dslot, k: Key)
    requires i < |devices|
    ensures Held(devices[i := d], k) == Held(devices, k) - HeldIn(devices[i], k) + HeldIn(d, k)
    ensures Held(devices, k) >= HeldIn(devices[i], k)
  {
    var n := |devices| - 1;
    if i == n {
      assert devices[i := d][..n] == devices[..n];
    } else {
      HeldAt(devices[..n], i, d, k);
      assert devices[i := d][..n] == devices[..n][i := d];
    }
  }

  // ---- The numbers shown ----

  /** Slots are numbered by their places; a file's inode has a slot of its own in one device slot only. */
  ghost predicate Numbered(devices: seq<Dslot>) {
    && (forall i {:trigger devices[i]} :: 0 <= i < |devices| ==> devices[i].fake == i + 1)
    && (forall i, a {:trigger devices[i].islots[a]} :: 0 <= i < |devices| && a in devices[i].islots ==>
          1 <= devices[i].islots[a].fino <= devices[i].cnt)
    && (forall i, a, b {:trigger devices[i].islots[a], devices[i].islots[b]} ::
          0 <= i < |devices| && a in devices[i].islots && b in devices[i].islots && a != b ==>
          devices[i].islots[a].fino != devices[i].islots[b].fino)
  }

  /** An inode is looked for, and entered, in the first slot of its device that has it or room for it. */
  ghost predicate Placed(devices: seq<Dslot>, maxino: nat) {
    forall i, j, a {:trigger devices[i].islots, a in devices[j].islots} ::
      0 <= i < j < |devices| && devices[i].dev == devices[j].dev && a in devices[j].islots ==>
      a !in devices[i].islots && devices[i].cnt >= maxino
  }

  /** Waiting names are there as long as links are expected. */
  ghost predicate Collecting(devices: seq<Dslot>) {
    forall i, a {:trigger devices[i].islots[a]} :: 0 <= i < |devices| && a in devices[i].islots ==>
      var ip := devices[i].islots[a];
      && (ip.nlk > 0 ==> ip.lnk != [] && ip.st.dev == devices[i].dev && ip.st.ino == a && Multi(ip.st))
  }

  /** The slot an entry of a file with several links comes from. */
  ghost predicate FromSlot(devices: seq<Dslot>, e: Entry) {
    && 1 <= e.dev <= |devices| && devices[e.dev - 1].dev == e.st.dev
    && e.st.ino in devices[e.dev - 1].islots && devices[e.dev - 1].islots[e.st.ino].fino == e.ino
  }

  ghost predicate AllFromSlots(devices: seq<Dslot>, out: seq<Entry>) {
    forall e {:trigger e in out} :: e in out && Multi(e.st) ==> FromSlot(devices, e)
  }

  /** Every zero-length entry is followed by another link of its file. */
  ghost predicate Grouped(out: seq<Entry>) {
    forall i {:trigger out[i]} :: 0 <= i < |out| && out[i].zeroLink ==> i + 1 < |out| && SameFile(out[i], out[i + 1])
  }

  predicate SameFile(d: Entry, e: Entry) {
    d.dev == e.dev && d.ino == e.ino && d.st.dev == e.st.dev && d.st.ino == e.st.ino
  }

  lemma SamePlace(devices: seq<Dslot>, maxino: nat, i: nat, j: nat, a: int)
    requires Placed(devices, maxino) && i < |devices| && j < |devices|
    requires a in devices[i].islots && a in devices[j].islots
    ensures devices[i].dev == devices[j].dev ==> i == j
  {
  }

  /** Links of one file show the same numbers, and other files with several links different ones. */
  lemma NumbersIdentify(devices: seq<Dslot>, maxino: nat, out: seq<Entry>, d: Entry, e: Entry)
    requires Numbered(devices) && Placed(devices, maxino) && AllFromSlots(devices, out)
    requires d in out && e in out && Multi(d.st) && Multi(e.st)
    ensures d.dev == e.dev && d.ino == e.ino <==> d.st.dev == e.st.dev && d.st.ino == e.st.ino
  {
    assert FromSlot(devices, d) && FromSlot(devices, e);
    if d.st.ino == e.st.ino {
      SamePlace(devices, maxino, d.dev - 1, e.dev - 1, d.st.ino);
    }
  }

  // ---- One slot changes ----

  /** The slot of inode `a` becomes `ip`; a new one takes the next number. */
  function Store(d: Dslot, a: int, ip: Islot): Dslot {
    d.(islots := d.islots[a := ip], cnt := if a in d.islots then d.cnt else d.cnt + 1)
  }

  /** The slot as it is found, or a new one. */
  function Fetch(d: Dslot, st: Stat): Islot {
    if st.ino in d.islots then d.islots[st.ino] else Islot(d.cnt + 1, st.nlink, st, [])
  }

  /** Slot `i` is the one where a file is looked for and entered. */
  ghost predicate Located(devices: seq<Dslot>, maxino: nat, i: nat, st: Stat) {
    && i < |devices| && devices[i].dev == st.dev && (st.ino in devices[i].islots || devices[i].cnt < maxino)
    && forall j {:trigger devices[j]} :: 0 <= j < i && devices[j].dev == st.dev ==>
        st.ino !in devices[j].islots && devices[j].cnt >= maxino
  }

  lemma StoreKeeps(devices: seq<Dslot>, maxino: nat, i: nat, st: Stat, ip: Islot)
    requires Numbered(devices) && Placed(devices, maxino) && Located(devices, maxino, i, st)
    requires ip.fino == Fetch(devices[i], st).fino
    ensures
      var devices' := devices[i := Store(devices[i], st.ino, ip)];
      Numbered(devices') && Placed(devices', maxino)
  {
    var a, d' := st.ino, Store(devices[i], st.ino, ip);
    var devices' := devices[i := d'];
    forall j, b {:trigger devices'[j].islots[b]} | 0 <= j < |devices'| && b in devices'[j].islots
      ensures 1 <= devices'[j].islots[b].fino <= devices'[j].cnt
    {
      if j != i || b != a {
        assert devices[j].islots[b] == devices'[j].islots[b];
      } else if a in devices[i].islots {
        assert devices[i].islots[a].fino == ip.fino;
      }
    }
    forall j, b, c {:trigger devices'[j].islots[b], devices'[j].islots[c]}
      | 0 <= j < |devices'| && b in devices'[j].islots && c in devices'[j].islots && b != c
      ensures devices'[j].islots[b].fino != devices'[j].islots[c].fino
    {
      if j == i {
        DistinctNumbers(devices, i, st, ip, b, c);
      } else {
        assert devices[j].islots[b] == devices'[j].islots[b] && devices[j].islots[c] == devices'[j].islots[c];
      }
    }
    forall k, j, b {:trigger devices'[k].islots, b in devices'[j].islots}
      | 0 <= k < j < |devices'| && devices'[k].dev == devices'[j].dev && b in devices'[j].islots
      ensures b !in devices'[k].islots && devices'[k].cnt >= maxino
    {
      assert devices'[k].dev == devices[k].dev && devices'[j].dev == devices[j].dev;
      PlaceKept(devices, maxino, i, st, k, j, b);
    }
  }

  lemma DistinctNumbers(devices: seq<Dslot>, i: nat, st: Stat, ip: Islot, b: int, c: int)
    requires Numbered(devices) && i < |devices| && ip.fino == Fetch(devices[i], st).fino && b != c
    requires b in devices[i].islots || b == st.ino
    requires c in devices[i].islots || c == st.ino
    ensures
      var m := devices[i].islots[st.ino := ip];
      m[b].fino != m[c].fino
  {
    var m := devices[i].islots;
    assert b in m ==> m[b].fino <= devices[i].cnt;
    assert c in m ==> m[c].fino <= devices[i].cnt;
    assert b in m && c in m ==> m[b].fino != m[c].fino;
  }

  lemma PlaceKept(devices: seq<Dslot>, maxino: nat, i: nat, st: Stat, k: nat, j: nat, b: int)
    requires Placed(devices, maxino) && Located(devices, maxino, i, st)
    requires k < j < |devices| && devices[k].dev == devices[j].dev
        && (b in devices[j].islots || (j == i && b == st.ino))
    ensures b !in devices[k].islots && devices[k].cnt >= maxino
    ensures k == i ==> b != st.ino || st.ino in devices[i].islots
  {
    if b in devices[j].islots {
      assert b !in devices[k].islots;
    }
  }

  // ---- Groups of links ----

  /** The entries of names whose file comes later: of zero length. */
  function Links(names: seq<string>, st: Stat, dev: nat, ino: nat): (es: seq<Entry>)
    ensures |es| == |names| && forall i :: 0 <= i < |es| ==> es[i] == Entry(names[i], st, dev, ino, true)
  {
    seq(|names|, i requires 0 <= i < |names| => Entry(names[i], st, dev, ino, true))
  }

  lemma {:induction false} LinksWritten(out: seq<Entry>, names: seq<string>, st: Stat, dev: nat, ino: nat, k: Key)
    ensures Written(out + Links(names, st, dev, ino), k) ==
      Written(out, k) + if st.dev == k.dev && st.ino == k.ino then Times(names, k.name) else 0
  {
    if names == [] {
      assert out + Links(names, st, dev, ino) == out;
    } else {
      var n := |names| - 1;
      var e := Entry(names[n], st, dev, ino, true);
      LinksWritten(out, names[..n], st, dev, ino, k);
      LinksSnoc(out, names, st, dev, ino);
      WrittenSnoc(out + Links(names[..n], st, dev, ino), e, k);
    }
  }

  lemma LinksSnoc(out: seq<Entry>, names: seq<string>, st: Stat, dev: nat, ino: nat)
    requires names != []
    ensures
      var n := |names| - 1;
      out + Links(names, st, dev, ino) == (out + Links(names[..n], st, dev, ino))
          + [Entry(names[n], st, dev, ino, true)]
  {
  }

  /** A group of links is complete: all but the last of zero length. */
  ghost function Group(names: seq<string>, name: string, st: Stat, dev: nat, ino: nat): seq<Entry> {
    Links(names, st, dev, ino) + [Entry(name, st, dev, ino, false)]
  }

  lemma GroupAdded(out: seq<Entry>, names: seq<string>, name: string, st: Stat, dev: nat, ino: nat)
    requires Grouped(out)
    ensures Grouped(out + Group(names, name, st, dev, ino))
    ensures forall k :: Written(out + Group(names, name, st, dev, ino), k)
                        == Written(out, k) + if st.dev == k.dev && st.ino == k.ino then Times(names + [name], k.name)
                            else 0
  {
    var es := Links(names, st, dev, ino);
    var all := out + Group(names, name, st, dev, ino);
    assert all == (out + es) + [Entry(name, st, dev, ino, false)];
    forall i {:trigger all[i]} | 0 <= i < |all| && all[i].zeroLink
        ensures i + 1 < |all| && SameFile(all[i], all[i + 1]) {
      if i < |out| {
        assert all[i] == out[i] && all[i + 1] == out[i + 1];
      }
    }
    forall k
        ensures Written(all, k) == Written(out, k)
        + if st.dev == k.dev && st.ino == k.ino then Times(names + [name], k.name) else 0 {
      LinksWritten(out, names, st, dev, ino, k);
      WrittenSnoc(out + es, Entry(name, st, dev, ino, false), k);
      assert (names + [name])[..|names|] == names;
    }
  }

  lemma SingleAdded(out: seq<Entry>, e: Entry)
    requires Grouped(out) && !e.zeroLink
    ensures Grouped(out + [e])
    ensures forall k :: Written(out + [e], k) == Written(out, k) + if Key(e.name, e.st.dev, e.st.ino) == k then 1 else 0
  {
    forall i {:trigger (out + [e])[i]} | 0 <= i < |out + [e]| && (out + [e])[i].zeroLink
      ensures i + 1 < |out + [e]| && SameFile((out + [e])[i], (out + [e])[i + 1])
    {
      assert out[i].zeroLink;
    }
    forall k ensures Written(out + [e], k) == Written(out, k) + if Key(e.name, e.st.dev, e.st.ino) == k then 1 else 0 {
      WrittenSnoc(out, e, k);
    }
  }

  // ---- What one file does to the books ----

  lemma SeenSnoc(files: seq<File>, f: File, k: Key)
    ensures Seen(files + [f], k) == Seen(files, k) + if Key(f.name, f.st.dev, f.st.ino) == k then 1 else 0
  {
    assert (files + [f])[..|files|] == files;
  }

  /** How often a name waits in an inode's slot. */
  function Waiting(ip: Islot, name: string): nat {
    if ip.nlk > 0 then Times(ip.lnk, name) else 0
  }

  lemma HeldStored(devices: seq<Dslot>, i: nat, st: Stat, ip: Islot, k: Key)
    requires i < |devices| && devices[i].dev == st.dev
    ensures Held(devices[i := Store(devices[i], st.ino, ip)], k) == Held(devices, k)
      + if st.dev == k.dev && st.ino == k.ino then Waiting(ip, k.name) - Waiting(Fetch(devices[i], st), k.name) else 0
  {
    HeldAt(devices, i, Store(devices[i], st.ino, ip), k);
    assert Times([], k.name) == 0;
  }

  /** The last expected link has come. */
  lemma BooksLast(files: seq<File>, out: seq<Entry>, devices: seq<Dslot>, i: nat, f: File, ip: Islot)
    requires Conserved(files, out, devices) && Grouped(out) && i < |devices| && devices[i].dev == f.st.dev
    requires ip == Fetch(devices[i], f.st) && ip.nlk == 1
    ensures
      var out' := out + Group(ip.lnk, f.name, f.st, i + 1, ip.fino);
      Conserved(files + [f], out', devices[i := Store(devices[i], f.st.ino, ip.(nlk := 0))]) && Grouped(out')
  {
    GroupAdded(out, ip.lnk, f.name, f.st, i + 1, ip.fino);
    var out', devices' := out + Group(ip.lnk, f.name, f.st, i + 1, ip.fino),
        devices[i := Store(devices[i], f.st.ino, ip.(nlk := 0))];
    forall k ensures Written(out', k) + Held(devices', k) == Seen(files + [f], k) {
      SeenSnoc(files, f, k);
      HeldStored(devices, i, f.st, ip.(nlk := 0), k);
      assert (ip.lnk + [f.name])[..|ip.lnk|] == ip.lnk;
    }
  }

  /** More links are expected: the name waits. */
  lemma BooksWait(files: seq<File>, out: seq<Entry>, devices: seq<Dslot>, i: nat, f: File, ip: Islot, ip': Islot)
    requires Conserved(files, out, devices) && i < |devices| && devices[i].dev == f.st.dev
    requires ip == Fetch(devices[i], f.st) && ip'.nlk > 0
    requires ip'.lnk == (if ip.nlk > 0 then ip.lnk else []) + [f.name]
    ensures Conserved(files + [f], out, devices[i := Store(devices[i], f.st.ino, ip')])
  {
    var devices' := devices[i := Store(devices[i], f.st.ino, ip')];
    forall k ensures Written(out, k) + Held(devices', k) == Seen(files + [f], k) {
      SeenSnoc(files, f, k);
      HeldStored(devices, i, f.st, ip', k);
      var before := if ip.nlk > 0 then ip.lnk else [];
      assert (before + [f.name])[..|before|] == before;
      assert Times([], k.name) == 0;
    }
  }

  lemma BooksSingle(files: seq<File>, out: seq<Entry>, devices: seq<Dslot>, f: File, dev: nat, ino: nat)
    requires Conserved(files, out, devices) && Grouped(out)
    ensures
      var out' := out + [Entry(f.name, f.st, dev, ino, false)];
      Conserved(files + [f], out', devices) && Grouped(out')
  {
    var e := Entry(f.name, f.st, dev, ino, false);
    SingleAdded(out, e);
    forall k ensures Written(out + [e], k) + Held(devices, k) == Seen(files + [f], k) {
      SeenSnoc(files, f, k);
    }
  }

  lemma CollectingKept(devices: seq<Dslot>, i: nat, a: int, ip: Islot)
    requires Collecting(devices) && i < |devices|
    requires ip.nlk > 0 ==> ip.lnk != [] && ip.st.dev == devices[i].dev && ip.st.ino == a && Multi(ip.st)
    ensures Collecting(devices[i := Store(devices[i], a, ip)])
  {
    var devices' := devices[i := Store(devices[i], a, ip)];
    forall j, b {:trigger devices'[j].islots[b]} | 0 <= j < |devices'| && b in devices'[j].islots
      ensures
        var jp := devices'[j].islots[b];
        jp.nlk > 0 ==> jp.lnk != [] && jp.st.dev == devices'[j].dev && jp.st.ino == b && Multi(jp.st)
    {
      if j != i || b != a {
        assert devices[j].islots[b] == devices'[j].islots[b];
      }
    }
  }

  lemma FromSlotsKept(devices: seq<Dslot>, out: seq<Entry>, i: nat, st: Stat, ip: Islot)
    requires AllFromSlots(devices, out) && i < |devices| && ip.fino == Fetch(devices[i], st).fino
    ensures AllFromSlots(devices[i := Store(devices[i], st.ino, ip)], out)
  {
    forall e {:trigger e in out} | e in out && Multi(e.st)
        ensures FromSlot(devices[i := Store(devices[i], st.ino, ip)], e) {
      assert FromSlot(devices, e);
    }
  }

  lemma FromSlotsGrow(devices: seq<Dslot>, out: seq<Entry>, names: seq<string>, name: string, st: Stat, dev: nat,
                      ino: nat)
    requires AllFromSlots(devices, out)
    requires FromSlot(devices, Entry(name, st, dev, ino, false))
    ensures AllFromSlots(devices, out + Group(names, name, st, dev, ino))
  {
  }

  // ---- Files with a single link ----

  /** Their numbers fall: device `dev` down to inode number `ino` has been given out, and nothing below. */
  ghost predicate Falling(out: seq<Entry>, maxino: nat, dev: int, ino: int) {
    && 0 <= ino <= maxino
    && (forall i {:trigger out[i]} :: 0 <= i < |out| && !Multi(out[i].st) ==>
          1 <= out[i].ino <= maxino && Later(out[i].dev, out[i].ino, dev, ino))
    && (forall i, j {:trigger out[i], out[j]} :: 0 <= i < j < |out| && !Multi(out[i].st) && !Multi(out[j].st) ==>
          Later(out[i].dev, out[i].ino, out[j].dev, out[j].ino))
  }

  /** The first pair of numbers is above the second. */
  predicate Later(dev: int, ino: int, dev': int, ino': int) {
    dev > dev' || (dev == dev' && ino > ino')
  }

  lemma SingleFalls(out: seq<Entry>, maxino: nat, dev: int, ino: int, e: Entry)
    requires Falling(out, maxino, dev, ino) && !Multi(e.st) && maxino >= 1
    requires (ino > 0 && e.dev == dev && e.ino == ino) || (ino == 0 && e.dev == dev - 1 && e.ino == maxino)
    ensures Falling(out + [e], maxino, e.dev, e.ino - 1)
  {
  }

  lemma GroupFalls(out: seq<Entry>, maxino: nat, dev: int, ino: int, names: seq<string>, name: string, st: Stat, d: nat,
                   n: nat)
    requires Falling(out, maxino, dev, ino) && Multi(st)
    ensures Falling(out + Group(names, name, st, d, n), maxino, dev, ino)
  {
  }

  function Front(names: seq<string>): seq<string>
    requires names != []
  {
    names[..|names| - 1]
  }

  function Final(names: seq<string>): string
    requires names != []
  {
    names[|names| - 1]
  }
}
