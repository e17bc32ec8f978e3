/** The script for `ed` that puts changes of the third file into the first: what it was meant to
    do, and what becomes of it because every entry ends with `w` and `q`. */
module Diff3Script {
  import opened Wrappers
  import opened Diff3
  import opened Diff3Merge
  import opened DiffOutput

  datatype EdCommand<T> = Append(at: int, lines: seq<T>) | Replace(from: int, to: int, lines: seq<T>) | Write | Quit

  /** Lines that bracket an overlap under `-E` and `-X`. */
  datatype Marks<T> = Marks(first: T, middle: T, third: T)

  // ---- What entries mean ----

  ghost function EntryText<T>(f1: seq<T>, f3: seq<T>, e: Entry, oflag: bool, marks: Marks<T>): seq<T> {
    if oflag && e.overlap then [marks.first] + Slice(f1, e.was) + [marks.middle] + Slice(f3, e.now) + [marks.third]
    else Slice(f3, e.now)
  }

  /** The first file up to line `upto` with all entries put in. */
  ghost function Spliced<T>(f1: seq<T>, f3: seq<T>, edits: seq<Entry>, oflag: bool, marks: Marks<T>,
                            upto: int): seq<T> {
    if edits == [] then Lines(f1, 1, upto - 1)
    else
      var e := edits[|edits| - 1];
      Spliced(f1, f3, edits[..|edits| - 1], oflag, marks, e.was.from) + EntryText(f1, f3, e, oflag, marks)
          + Lines(f1, e.was.to, upto - 1)
  }

  /** The entries ascend within the first `upto - 1` lines. */
  ghost predicate InOrder(edits: seq<Entry>, upto: int) {
    && 1 <= upto
    && (edits != [] ==>
          var e := edits[|edits| - 1];
          1 <= e.was.from <= e.was.to <= upto && InOrder(edits[..|edits| - 1], e.was.from))
  }

  // ---- The editor ----

  ghost function Execute<T>(buf: seq<T>, cmd: EdCommand<T>): Option<seq<T>> {
    match cmd
    case Append(n, lines) => if 0 <= n <= |buf| then Some(buf[..n] + lines + buf[n..]) else None
    case Replace(a, b, lines) => if 1 <= a <= b <= |buf| then Some(buf[..a - 1] + lines + buf[b..]) else None
    case _ => Some(buf)
  }

  /** The file after the editor has read the script, or nothing if some address was wrong. */
  ghost function Edited<T>(buf: seq<T>, file: seq<T>, script: seq<EdCommand<T>>): Option<seq<T>>
    decreases |script|
  {
    if script == [] || script[0].Quit? then Some(file)
    else if script[0].Write? then Edited(buf, buf, script[1..])
    else match Execute(buf, script[0])
      case None => None
      case Some(next) => Edited(next, file, script[1..])
  }

  /** `prange` and the lines that follow it. */
  function Put<T>(was: Range, lines: seq<T>): EdCommand<T> {
    if was.to <= was.from then Append(was.from - 1, lines) else Replace(was.from, was.to - 1, lines)
  }

  ghost function Commands<T>(f3: seq<T>, e: Entry, oflag: bool, marks: Marks<T>): seq<EdCommand<T>> {
    if oflag && e.overlap then
      [Append(e.was.to - 1, [marks.middle] + Slice(f3, e.now) + [marks.third]), Append(e.was.from - 1, [marks.first])]
    else [Put(e.was, Slice(f3, e.now))]
  }

  /** The last entry comes first, so that line numbers of those to come stay right;
      `done` is what follows each of them. */
  ghost function Script<T>(f3: seq<T>, edits: seq<Entry>, oflag: bool, marks: Marks<T>,
                           done: seq<EdCommand<T>>): seq<EdCommand<T>> {
    if edits == [] then []
    else Commands(f3, edits[|edits| - 1], oflag, marks) + done + Script(f3, edits[..|edits| - 1], oflag, marks, done)
  }

  /** `edscript`. */
  method EdScript<T>(f3: seq<T>, edits: seq<Entry>, oflag: bool, marks: Marks<T>) returns (script: seq<EdCommand<T>>)
    requires forall k :: 0 <= k < |edits| ==> 1 <= edits[k].now.from <= edits[k].now.to <= |f3| + 1
    ensures script == Script(f3, edits, oflag, marks, [Write, Quit])
  {
    hide Script, Commands;
    script := [];
    var n := |edits|;
    assert edits[..n] == edits;
    while n > 0
      invariant 0 <= n <= |edits|
      invariant script + Script(f3, edits[..n], oflag, marks, [Write, Quit])
          == Script(f3, edits, oflag, marks, [Write, Quit])
    {
      var e := edits[n - 1];
      var block := f3[e.now.from - 1..e.now.to - 1];
      ghost var so := script;
      if !oflag || !e.overlap {
        script := script + [Put(e.was, block), Write, Quit];
      } else {
        script := script
            + [Append(e.was.to - 1, [marks.middle] + block + [marks.third]), Append(e.was.from - 1, [marks.first]),
               Write, Quit];
      }
      CommandsAre(f3, e, oflag, marks);
      assert script == so + (Commands(f3, e, oflag, marks) + [Write, Quit]);
      assert edits[..n][..n - 1] == edits[..n - 1];
      n := n - 1;
      ScriptStep(f3, edits[..n + 1], oflag, marks, so);
    }
    EmptyScript(f3, edits[..0], oflag, marks);
  }

  lemma CommandsAre<T>(f3: seq<T>, e: Entry, oflag: bool, marks: Marks<T>)
    requires 1 <= e.now.from <= e.now.to <= |f3| + 1
    ensures
      var block := f3[e.now.from - 1..e.now.to - 1];
      Commands(f3, e, oflag, marks) ==
        if !oflag || !e.overlap then [Put(e.was, block)]
        else [Append(e.was.to - 1, [marks.middle] + block + [marks.third]), Append(e.was.from - 1, [marks.first])]
  {
  }

  lemma EmptyScript<T>(f3: seq<T>, edits: seq<Entry>, oflag: bool, marks: Marks<T>)
    requires edits == []
    ensures Script(f3, edits, oflag, marks, [Write, Quit]) == []
  {
  }

  lemma ScriptStep<T>(f3: seq<T>, edits: seq<Entry>, oflag: bool, marks: Marks<T>, before: seq<EdCommand<T>>)
    requires edits != []
    ensures
      var done := [Write, Quit];
      before + Script(f3, edits, oflag, marks, done)
      == before + (Commands(f3, edits[|edits| - 1], oflag, marks) + done)
          + Script(f3, edits[..|edits| - 1], oflag, marks, done)
  {
  }

  // ---- Running it ----

  lemma {:induction false} Appending<T>(buf: seq<T>, file: seq<T>, cmd: EdCommand<T>, rest: seq<EdCommand<T>>,
                                        next: seq<T>)
    requires !cmd.Write? && !cmd.Quit? && Execute(buf, cmd) == Some(next)
    ensures Edited(buf, file, [cmd] + rest) == Edited(next, file, rest)
  {
    assert ([cmd] + rest)[1..] == rest;
  }

  lemma PutRuns<T>(head: seq<T>, body: seq<T>, after: seq<T>, text: seq<T>, file: seq<T>, rest: seq<EdCommand<T>>)
    ensures
      Edited(head + body + after, file, [Put(Range(|head| + 1, |head| + |body| + 1), text)] + rest)
      == Edited(head + text + after, file, rest)
  {
    hide Edited;
    var buf := head + body + after;
    assert buf[..|head|] == head && buf[|head| + |body|..] == after;
    Appending(buf, file, Put(Range(|head| + 1, |head| + |body| + 1), text), rest, head + text + after);
  }

  lemma AppendRuns<T>(head: seq<T>, after: seq<T>, text: seq<T>, file: seq<T>, rest: seq<EdCommand<T>>)
    ensures Edited(head + after, file, [Append(|head|, text)] + rest) == Edited(head + text + after, file, rest)
  {
    hide Edited;
    var buf := head + after;
    assert buf[..|head|] == head && buf[|head|..] == after;
    Appending(buf, file, Append(|head|, text), rest, head + text + after);
  }

  lemma MarksRun<T>(head: seq<T>, body: seq<T>, after: seq<T>, low: seq<T>, high: seq<T>, file: seq<T>,
                    rest: seq<EdCommand<T>>)
    ensures
      Edited(head + body + after, file, [Append(|head| + |body|, high), Append(|head|, low)] + rest)
      == Edited(head + low + body + high + after, file, rest)
  {
    hide Edited;
    AppendRuns(head + body, after, high, file, [Append(|head|, low)] + rest);
    assert [Append(|head| + |body|, high), Append(|head|, low)] + rest == [Append(|head| + |body|, high)]
        + ([Append(|head|, low)] + rest);
    AppendRuns(head, body + high + after, low, file, rest);
    assert head + (body + high + after) == head + body + high + after;
    assert head + low + (body + high + after) == head + low + body + high + after;
  }

  lemma Cut<T>(f: seq<T>, i: int, j: int, n: int, tail: seq<T>)
    requires 0 <= i <= j <= n <= |f|
    ensures f[..n] + tail == f[..i] + f[i..j] + (f[j..n] + tail)
  {
    assert f[..n] == f[..i] + f[i..j] + f[j..n];
  }

  lemma EntryParts<T>(f1: seq<T>, f3: seq<T>, e: Entry, oflag: bool, marks: Marks<T>, body: seq<T>)
    requires 1 <= e.was.from <= e.was.to <= |f1| + 1 && body == f1[e.was.from - 1..e.was.to - 1]
    ensures
      if oflag && e.overlap then
        && EntryText(f1, f3, e, oflag, marks) == [marks.first] + body
            + ([marks.middle] + Slice(f3, e.now) + [marks.third])
        && Commands(f3, e, oflag, marks)
           == [Append(e.was.to - 1, [marks.middle] + Slice(f3, e.now) + [marks.third]),
               Append(e.was.from - 1, [marks.first])]
      else
        EntryText(f1, f3, e, oflag, marks) == Slice(f3, e.now)
            && Commands(f3, e, oflag, marks) == [Put(e.was, Slice(f3, e.now))]
  {
  }

  /** The commands of one entry act on its lines only. */
  lemma EntryRuns<T>(f1: seq<T>, f3: seq<T>, e: Entry, oflag: bool, marks: Marks<T>, upto: int, tail: seq<T>,
                     file: seq<T>, rest: seq<EdCommand<T>>)
    requires 1 <= e.was.from <= e.was.to <= upto <= |f1| + 1
    ensures
      Edited(f1[..upto - 1] + tail, file, Commands(f3, e, oflag, marks) + rest)
      == Edited(f1[..e.was.from - 1] + (EntryText(f1, f3, e, oflag, marks) + Lines(f1, e.was.to, upto - 1) + tail),
                file, rest)
  {
    hide Edited, Lines, Slice, EntryText, Commands;
    var from, to := e.was.from, e.was.to;
    LinesAreSlices(f1, to, upto - 1);
    var head, body, after := f1[..from - 1], f1[from - 1..to - 1], f1[to - 1..upto - 1];
    Cut(f1, from - 1, to - 1, upto - 1, tail);
    EntryParts(f1, f3, e, oflag, marks, body);
    var more, text := EntryText(f1, f3, e, oflag, marks), Slice(f3, e.now);
    Regroup(head, more, after, tail);
    if oflag && e.overlap {
      var low, high := [marks.first], [marks.middle] + text + [marks.third];
      MarksRun(head, body, after + tail, low, high, file, rest);
      Regroup4(head, low, body, high, after + tail);
    } else {
      PutRuns(head, body, after + tail, text, file, rest);
      assert Range(|head| + 1, |head| + |body| + 1) == e.was;
    }
  }

  lemma Regroup<T>(a: seq<T>, b: seq<T>, c: seq<T>, d: seq<T>)
    ensures a + (b + c + d) == a + b + (c + d)
  {
  }

  lemma Regroup4<T>(a: seq<T>, b: seq<T>, c: seq<T>, d: seq<T>, e: seq<T>)
    ensures a + (b + c + d) + e == a + b + c + d + e
  {
  }

  lemma Finishing<T>(buf: seq<T>, file: seq<T>, rest: seq<EdCommand<T>>)
    ensures Edited(buf, file, [Write] + rest) == Edited(buf, buf, rest)
    ensures Edited(buf, file, [Write, Quit] + rest) == Some(buf)
  {
    assert ([Write] + rest)[1..] == rest;
    var s := [Write, Quit] + rest;
    assert s[1..] == [Quit] + rest;
  }

  /** Without `q`, the script would put in every entry, whatever text follows. */
  lemma {:induction false} ScriptRuns<T>(f1: seq<T>, f3: seq<T>, edits: seq<Entry>, oflag: bool, marks: Marks<T>,
                                         upto: int, tail: seq<T>)
    requires InOrder(edits, upto) && upto <= |f1| + 1
    ensures
      Edited(f1[..upto - 1] + tail, f1[..upto - 1] + tail, Script(f3, edits, oflag, marks, [Write]))
      == Some(Spliced(f1, f3, edits, oflag, marks, upto) + tail)
    decreases |edits|
  {
    hide Edited, EntryText, Commands, Lines;
    var file := f1[..upto - 1] + tail;
    if edits == [] {
      LinesAreSlices(f1, 1, upto - 1);
      assert Edited(file, file, []) == Some(file) by { NoScript(file); }
    } else {
      var e, front := edits[|edits| - 1], edits[..|edits| - 1];
      var more := EntryText(f1, f3, e, oflag, marks) + Lines(f1, e.was.to, upto - 1) + tail;
      var rest := Script(f3, front, oflag, marks, [Write]);
      var next := f1[..e.was.from - 1] + more;
      assert Script(f3, edits, oflag, marks, [Write]) == Commands(f3, e, oflag, marks) + ([Write] + rest);
      EntryRuns(f1, f3, e, oflag, marks, upto, tail, file, [Write] + rest);
      Finishing(next, file, rest);
      ScriptRuns(f1, f3, front, oflag, marks, e.was.from, more);
      assert Spliced(f1, f3, edits, oflag, marks, upto) + tail == Spliced(f1, f3, front, oflag, marks, e.was.from)
          + more;
    }
  }

  lemma SplicedAt<T>(f1: seq<T>, f3: seq<T>, edits: seq<Entry>, oflag: bool, marks: Marks<T>, upto: int)
    requires edits != []
    ensures
      var e := edits[|edits| - 1];
      Spliced(f1, f3, edits, oflag, marks, upto)
      == Spliced(f1, f3, edits[..|edits| - 1], oflag, marks, e.was.from)
          + (EntryText(f1, f3, e, oflag, marks) + Lines(f1, e.was.to, upto - 1))
  {
    hide EntryText, Lines;
  }

  lemma NothingSpliced<T>(f1: seq<T>, f3: seq<T>, edits: seq<Entry>, oflag: bool, marks: Marks<T>, upto: int)
    requires edits == [] && 1 <= upto <= |f1| + 1
    ensures Spliced(f1, f3, edits, oflag, marks, upto) == f1[..upto - 1]
  {
    LinesAreSlices(f1, 1, upto - 1);
  }

  lemma NoScript<T>(file: seq<T>)
    ensures Edited(file, file, []) == Some(file)
  {
  }

  /** With it, the editor is gone after the entry that comes first: the last one. */
  lemma ScriptStops<T>(f1: seq<T>, f3: seq<T>, edits: seq<Entry>, oflag: bool, marks: Marks<T>)
    requires InOrder(edits, |f1| + 1)
    ensures
      Edited(f1, f1, Script(f3, edits, oflag, marks, [Write, Quit]))
      == Some(Spliced(f1, f3, if edits == [] then [] else [edits[|edits| - 1]], oflag, marks, |f1| + 1))
  {
    hide Edited, EntryText, Commands, Lines, Spliced;
    assert f1[..|f1|] + [] == f1;
    if edits == [] {
      NothingSpliced(f1, f3, edits, oflag, marks, |f1| + 1);
      assert f1[..|f1|] == f1;
      NoScript(f1);
    } else {
      var e, front := edits[|edits| - 1], edits[..|edits| - 1];
      var rest := Script(f3, front, oflag, marks, [Write, Quit]);
      var more := EntryText(f1, f3, e, oflag, marks) + Lines(f1, e.was.to, |f1|);
      assert Script(f3, edits, oflag, marks, [Write, Quit]) == Commands(f3, e, oflag, marks) + ([Write, Quit] + rest);
      EntryRuns(f1, f3, e, oflag, marks, |f1| + 1, [], f1, [Write, Quit] + rest);
      assert more + [] == more;
      Finishing(f1[..e.was.from - 1] + more, f1, rest);
      SplicedAt(f1, f3, [e], oflag, marks, |f1| + 1);
      NothingSpliced(f1, f3, [e][..0], oflag, marks, e.was.from);
    }
  }

  /** The file is as the manual promises exactly if the entries but the last, taken alone, would
      change nothing: certainly if there are none. */
  lemma ScriptSuffices<T>(f1: seq<T>, f3: seq<T>, edits: seq<Entry>, oflag: bool, marks: Marks<T>)
    requires InOrder(edits, |f1| + 1)
    ensures |edits| <= 1 ==>
      Edited(f1, f1, Script(f3, edits, oflag, marks, [Write, Quit]))
          == Some(Spliced(f1, f3, edits, oflag, marks, |f1| + 1))
    ensures |edits| > 1 ==>
      var e, front := edits[|edits| - 1], edits[..|edits| - 1];
      (Edited(f1, f1, Script(f3, edits, oflag, marks, [Write, Quit]))
          == Some(Spliced(f1, f3, edits, oflag, marks, |f1| + 1))
       <==> Spliced(f1, f3, front, oflag, marks, e.was.from) == f1[..e.was.from - 1])
  {
    hide Edited, EntryText, Commands, Lines, Spliced, Script;
    ScriptStops(f1, f3, edits, oflag, marks);
    if |edits| == 1 {
      assert edits == [edits[0]];
    } else if |edits| > 1 {
      var e, front := edits[|edits| - 1], edits[..|edits| - 1];
      var more := EntryText(f1, f3, e, oflag, marks) + Lines(f1, e.was.to, |f1|);
      SplicedAt(f1, f3, edits, oflag, marks, |f1| + 1);
      SplicedAt(f1, f3, [e], oflag, marks, |f1| + 1);
      NothingSpliced(f1, f3, [e][..0], oflag, marks, e.was.from);
      SameEnd(Spliced(f1, f3, front, oflag, marks, e.was.from), f1[..e.was.from - 1], more,
              Spliced(f1, f3, edits, oflag, marks, |f1| + 1), Spliced(f1, f3, [e], oflag, marks, |f1| + 1));
    }
  }

  lemma SameEnd<T>(x: seq<T>, y: seq<T>, z: seq<T>, xz: seq<T>, yz: seq<T>)
    requires xz == x + z && yz == y + z
    ensures xz == yz <==> x == y
  {
    if xz == yz {
      assert |x| == |y|;
      assert x == xz[..|x|];
      assert y == yz[..|y|];
    }
  }

  // ---- Entries of regions ----

  lemma {:induction false} EntriesInOrder<T>(f1: seq<T>, f2: seq<T>, f3: seq<T>, eflag: int, regions: seq<Region>,
                                             upto: int)
    requires Chained(f1, f2, f3, regions) && End1(regions) <= upto
    ensures InOrder(Entries(eflag, regions), upto)
    ensures forall e :: e in Entries(eflag, regions) ==> 1 <= e.now.from <= e.now.to <= |f3| + 1
    decreases |regions|
  {
    if regions != [] {
      var r, front := regions[|regions| - 1], regions[..|regions| - 1];
      EntriesInOrder(f1, f2, f3, eflag, front, r.one.from);
      LooserOrder(Entries(eflag, front), r.one.from, upto);
      assert Entries(eflag, regions)
          == if InScript(eflag, r.kind) then Entries(eflag, front) + [Entry(r.one, r.three, r.kind == AllDiffer)]
              else Entries(eflag, front);
      if InScript(eflag, r.kind) {
        assert Entries(eflag, regions)[..|Entries(eflag, front)|] == Entries(eflag, front);
      }
    }
  }

  lemma LooserOrder(edits: seq<Entry>, low: int, high: int)
    requires InOrder(edits, low) && low <= high
    ensures InOrder(edits, high)
  {
  }

  lemma LinesLonger<T>(f: seq<T>, from: int, low: int, high: int)
    requires 1 <= from <= low <= high <= |f| + 1
    ensures Lines(f, from, high - 1) == Lines(f, from, low - 1) + f[low - 1..high - 1]
  {
    LinesAreSlices(f, from, low - 1);
    LinesAreSlices(f, from, high - 1);
  }

  /** Lines after all entries are copied. */
  lemma SplicedLonger<T>(f1: seq<T>, f3: seq<T>, edits: seq<Entry>, oflag: bool, marks: Marks<T>, low: int, high: int)
    requires InOrder(edits, low) && low <= high <= |f1| + 1
    ensures Spliced(f1, f3, edits, oflag, marks, high) == Spliced(f1, f3, edits, oflag, marks, low)
        + f1[low - 1..high - 1]
  {
    hide EntryText, Spliced, Lines;
    if edits == [] {
      NothingSpliced(f1, f3, edits, oflag, marks, low);
      NothingSpliced(f1, f3, edits, oflag, marks, high);
      assert f1[..high - 1] == f1[..low - 1] + f1[low - 1..high - 1];
    } else {
      SplicedAt(f1, f3, edits, oflag, marks, low);
      SplicedAt(f1, f3, edits, oflag, marks, high);
      LinesLonger(f1, edits[|edits| - 1].was.to, low, high);
    }
  }

  lemma SliceIs<T>(s: seq<T>, r: Range)
    requires 1 <= r.from <= r.to <= |s| + 1
    ensures Slice(s, r) == s[r.from - 1..r.to - 1]
  {
  }

  lemma EndsInside<T>(f1: seq<T>, f2: seq<T>, f3: seq<T>, regions: seq<Region>)
    requires Partition(f1, f2, f3, regions)
    ensures End1(regions) <= |f1| + 1
  {
  }
}
