/** Reading lines of a file through the index: from line to line by their lengths, in a `short`,
    and through a cache of one block. */
module BfsRead {
  import opened Arith
  import opened BfsIndex

  /** What a `short` holds of a sum. */
  function Wrap(x: int): (r: int)
    ensures -0x8000 <= r < 0x8000
  {
    (x + 0x8000) % 0x1_0000 - 0x8000
  }

  predicate FitsShort(x: int) {
    -0x8000 <= x < 0x8000
  }

  lemma WrapFits(x: int)
    ensures Wrap(x) == x <==> FitsShort(x)
  {
  }

  lemma WrapTwice(x: int, y: int)
    ensures Wrap(Wrap(x) + y) == Wrap(x + y)
  {
    DivModBasics(x + 0x8000, 0x1_0000);
    DivModBasics(x + y + 0x8000, 0x1_0000);
    var q, q' := (x + 0x8000) / 0x1_0000, (x + y + 0x8000) / 0x1_0000;
    DivModUnique(Wrap(x) + y + 0x8000, 0x1_0000, q' - q, (x + y + 0x8000) % 0x1_0000);
  }

  /** The lengths of lines `a` to before `b`. */
  lemma {:induction false} SumOfLengths(file: string, x: Index, a: nat, b: nat)
    requires IndexOf(file, x) && 1 <= a <= b <= x.dollar + 1
    ensures Sum(x.lincnt, a, b) == Start(file, b) - Start(file, a)
    decreases b
  {
    hide Start;
    if a < b {
      SumOfLengths(file, x, a, b - 1);
      assert x.lincnt[b - 1] == Start(file, b) - Start(file, b - 1);
    }
  }

  function Sum(s: seq<int>, a: nat, b: nat): int
    requires a <= b <= |s|
    decreases b
  {
    if a == b then 0 else Sum(s, a, b - 1) + s[b - 1]
  }

  lemma {:induction false} SumFront(s: seq<int>, a: nat, b: nat)
    requires a < b <= |s|
    ensures Sum(s, a, b) == s[a] + Sum(s, a + 1, b)
    decreases b
  {
    if a + 1 < b {
      SumFront(s, a, b - 1);
    }
  }

  /** The offset from the base block that `bigread` adds up for line `l`, before any wrapping. */
  ghost function Offset(file: string, x: Index, prevline: nat, prevoff: int, l: nat): int
    requires 1 <= l && (l - 1) / 64 < |x.segoff|
  {
    if -32 <= l - prevline <= 32 then prevoff + Start(file, l) - Start(file, prevline)
    else x.segoff[(l - 1) / 64] + Start(file, l) - Start(file, 64 * ((l - 1) / 64) + 1)
  }

  /** Forward over the lengths of lines `a` to before `b`. */
  method Add(lincnt: seq<int>, start: int, a: nat, b: nat) returns (off: int)
    requires a <= b <= |lincnt| && FitsShort(start)
    ensures off == Wrap(start + Sum(lincnt, a, b))
  {
    hide Wrap, FitsShort;
    off := start;
    WrapFits(start);
    for i := a to b
      invariant off == Wrap(start + Sum(lincnt, a, i))
    {
      WrapTwice(start + Sum(lincnt, a, i), lincnt[i]);
      off := Wrap(off + lincnt[i]);
    }
  }

  /** Backward over them. */
  method Subtract(lincnt: seq<int>, start: int, a: nat, b: nat) returns (off: int)
    requires a <= b <= |lincnt| && FitsShort(start)
    ensures off == Wrap(start - Sum(lincnt, a, b))
  {
    hide Wrap, FitsShort;
    off := start;
    WrapFits(start);
    var i := b;
    while i > a
      invariant a <= i <= b && off == Wrap(start - Sum(lincnt, i, b))
    {
      i := i - 1;
      SumFront(lincnt, i, b);
      WrapTwice(start - Sum(lincnt, i + 1, b), -lincnt[i]);
      off := Wrap(off - lincnt[i]);
    }
  }

  /** Every file position a line can have is inside the file. */
  lemma LineInside(file: string, x: Index, l: nat)
    requires IndexOf(file, x) && 1 <= l <= x.dollar
    ensures Start(file, l) < |file|
  {
    hide Start;
    StartsAscend(file, l, x.dollar);
  }

  /** At most a block from where the file stands. */
  function NextRead(file: string, fd: nat): (text: string)
    ensures |text| <= 512 && (text == "" <==> fd >= |file|) && (text != "" ==> fd + |text| <= |file|)
  {
    if fd >= |file| then "" else if fd + 512 <= |file| then file[fd..fd + 512] else file[fd..]
  }

  lemma SeekRead(file: string, blk: nat)
    ensures NextRead(file, 512 * blk) == Block(file, blk)
  {
  }

  lemma ReadOn(file: string, blk: nat, more: string)
    requires more == NextRead(file, 512 * blk + |Block(file, blk)|) && 512 * blk <= |file|
    ensures more != "" ==> more == Block(file, blk + 1) && |Block(file, blk)| == 512
  {
    SeekRead(file, blk + 1);
  }

  class Reader {
    const file: string
    const index: Index
    var lprev: nat
    var prevblk: int
    var prevoff: int
    var saveblk: int
    var savetxt: string
    var fd: nat

    ghost predicate Valid()
      reads this
    {
      IndexOf(file, index) && 1 <= lprev && (lprev <= index.dollar || lprev == 1) && 0 <= prevoff < 512
          && |savetxt| <= 512
    }

    /** The cached block is the one it is taken for, and the next block can be read on from it. */
    ghost predicate CacheHolds()
      reads this
    {
      saveblk >= -1 && (saveblk >= 0 ==> savetxt == Block(file, saveblk) && fd == 512 * saveblk + |savetxt|)
    }

    ghost function Position(): int
      reads this
    {
      512 * prevblk + prevoff
    }

    /** How far the position is from the beginning of the line that was read last. */
    ghost function Drift(): int
      reads this
    {
      Position() - Start(file, lprev)
    }

    constructor (file: string)
      ensures this.file == file && Valid() && CacheHolds() && Drift() == 0 && lprev == 1
    {
      var x := BigOpen(file);
      this.file, index := file, x;
      lprev, prevblk, prevoff, saveblk, savetxt, fd := 1, 0, 0, -1, "", 0;
    }

    /** The block to count from and the offset in it, as far as a `short` holds it. */
    method CountLengths(l: nat) returns (base: int, off: int)
      requires Valid() && 1 <= l <= index.dollar
      ensures (l - 1) / 64 < |index.segblk| == |index.segoff|
      ensures off == Wrap(Offset(file, index, lprev, prevoff, l))
      ensures base == if -32 <= l - lprev <= 32 then prevblk else index.segblk[(l - 1) / 64]
    {
      hide Start, Wrap, Sum, IndexOf;
      LastSegment(l, index.dollar);
      var s := (l - 1) / 64;
      SegmentAt(s);
      base := prevblk;
      var i := l - lprev;
      if i == 1 {
        NextLength(lprev);
        off := Wrap(prevoff + index.lincnt[lprev]);
      } else if 0 <= i <= 32 {
        SumOfLengths(file, index, lprev, l);
        off := Add(index.lincnt, prevoff, lprev, l);
      } else if -32 <= i < 0 {
        SumOfLengths(file, index, l, lprev);
        off := Subtract(index.lincnt, prevoff, l, lprev);
      } else {
        base := index.segblk[s];
        SumOfLengths(file, index, 64 * s + 1, l);
        off := Add(index.lincnt, index.segoff[s], 64 * s + 1, l);
      }
    }

    /** The first half of `bigread`: the position of line `l`. It is right exactly if the offset fits. */
    method Locate(l: nat)
      requires Valid() && 1 <= l <= index.dollar
      modifies this`lprev, this`prevblk, this`prevoff
      ensures Valid() && lprev == l && (l - 1) / 64 < |index.segoff|
      ensures
        var o := Offset(file, index, old(lprev), old(prevoff), l);
        Drift() == (if -32 <= l - old(lprev) <= 32 then old(Drift()) else 0) + Wrap(o) - o
    {
      hide Start, Wrap, IndexOf;
      LastSegment(l, index.dollar);
      SegmentAt((l - 1) / 64);
      var base, off := CountLengths(l);
      prevblk := base + off / 512;
      prevoff := off % 512;
      DivModBasics(off, 512);
      assert Position() == 512 * base + off;
      lprev := l;
    }

    lemma LastSegment(l: nat, n: nat)
      requires 1 <= l <= n
      ensures (l - 1) / 64 < (n + 63) / 64 && 64 * ((l - 1) / 64) + 1 <= l
    {
    }

    lemma NextLength(k: nat)
      requires Valid() && 1 <= k < index.dollar
      ensures |index.lincnt| == index.dollar + 1 && index.lincnt[k] == Start(file, k + 1) - Start(file, k)
    {
    }

    lemma SegmentAt(s: nat)
      requires Valid() && s < (index.dollar + 63) / 64
      ensures |index.lincnt| == index.dollar + 1 && |index.segoff| == |index.segblk| == (index.dollar + 63) / 64
      ensures 0 <= index.segoff[s] < 512 && index.segblk[s] >= 0
          && 512 * index.segblk[s] + index.segoff[s] == Start(file, 64 * s + 1)
    {
    }

    /** `read`: at most a block from where the file stands. */
    method ReadBlock() returns (text: string)
      modifies this`fd
      ensures text == NextRead(file, old(fd)) && fd == old(fd) + |text|
    {
      text := NextRead(file, fd);
      fd := fd + |text|;
    }

    /** The cached block is where the line begins, and nothing of it has been copied. */
    lemma LineBegins(l: nat)
      requires Valid() && CacheHolds() && 1 <= l <= index.dollar && Drift() == 0 && lprev == l && saveblk == prevblk
      ensures Reading(l, prevoff, "") && prevoff < |savetxt|
    {
      LineInside(file, index, l);
    }

    /** The part of line `l` before offset `b` of the cached block has been copied. */
    ghost predicate Reading(l: nat, b: int, rec: string)
      reads this
    {
      && CacheHolds() && saveblk >= 0 && 0 <= b <= |savetxt|
      && Start(file, l) <= 512 * saveblk + b <= |file|
      && rec == file[Start(file, l)..512 * saveblk + b] && '\n' !in rec
    }

    lemma Copied(l: nat, b: int, rec: string)
      requires Reading(l, b, rec) && b < |savetxt|
      ensures savetxt[b] == '\n' ==> rec == LineText(file, l)
      ensures savetxt[b] != '\n' ==> Reading(l, b + 1, rec + [savetxt[b]])
    {
      hide Start;
      var p, q := Start(file, l), 512 * saveblk + b;
      assert savetxt[b] == file[q];
      assert file[p..q + 1] == file[p..q] + [file[q]];
      if file[q] == '\n' {
        NoNewline(file, p, q);
      }
    }

    lemma FileEnds(l: nat, rec: string)
      requires Reading(l, |savetxt|, rec) && fd >= |file|
      ensures rec == LineText(file, l)
    {
      hide Start;
      NoNewline(file, Start(file, l), |file|);
    }

    /** Characters of the cached block, up to a newline if there is one. */
    method CopyBlock(off: int, rec0: string, ghost l: nat, ghost good: bool) returns (rec: string, done: bool)
      requires off >= 0 && (good ==> Reading(l, off, rec0))
      ensures good ==> if done then rec == LineText(file, l) else Reading(l, |savetxt|, rec)
    {
      hide Reading, LineText;
      if good {
        ReadingInside(l, off, rec0);
      }
      rec := rec0;
      var b := off;
      while b < |savetxt|
        invariant b >= 0 && (good ==> b <= |savetxt| && Reading(l, b, rec))
      {
        if good {
          Copied(l, b, rec);
        }
        if savetxt[b] == '\n' {
          return rec, true;
        }
        rec := rec + [savetxt[b]];
        b := b + 1;
      }
      return rec, false;
    }

    lemma ReadingInside(l: nat, b: int, rec: string)
      requires Reading(l, b, rec)
      ensures 0 <= b <= |savetxt|
    {
    }

    /** The block of the position is read unless it is the one in the cache. */
    method Load(l: nat)
      requires Valid() && 1 <= l <= index.dollar && lprev == l
      modifies this`saveblk, this`savetxt, this`fd
      ensures Valid()
      ensures old(CacheHolds()) && Drift() == 0 ==> Reading(l, prevoff, "") && prevoff < |savetxt|
    {
      hide Start, IndexOf, Block, NextRead, Reading;
      ghost var good := CacheHolds() && Drift() == 0;
      if good {
        LineInside(file, index, l);
      }
      if prevblk != saveblk {
        saveblk := prevblk;
        if prevblk >= 0 {
          SeekRead(file, prevblk);
          fd := 512 * prevblk;
        }
        savetxt := ReadBlock();
      }
      if good {
        LineBegins(l);
      }
    }

    /** The line goes on in the next block, if the file does. */
    method LoadNext(ghost l: nat, ghost rec: string, ghost good: bool) returns (more: bool)
      requires Valid() && |savetxt| > 0 && (good ==> Reading(l, |savetxt|, rec))
      modifies this`saveblk, this`savetxt, this`fd
      ensures Valid() && (good && !more ==> rec == LineText(file, l) && CacheHolds())
      ensures more ==> (good ==> Reading(l, 0, rec)) && |savetxt| > 0 && old(fd) < fd <= |file|
    {
      hide IndexOf, Block, NextRead, LineText, Start;
      if good {
        if fd >= |file| {
          FileEnds(l, rec);
        }
        ReadOn(file, saveblk, NextRead(file, fd));
      }
      var next := ReadBlock();
      if next == "" {
        return false;
      }
      savetxt := next;
      saveblk := saveblk + 1;
      return true;
    }

    /** The second half of `bigread`: the block, if it is not in the cache, and the line. */
    method Fetch(l: nat) returns (rec: string)
      requires Valid() && 1 <= l <= index.dollar && lprev == l
      modifies this`saveblk, this`savetxt, this`fd
      ensures Valid()
      ensures old(CacheHolds()) && Drift() == 0 ==> CacheHolds() && rec == LineText(file, l)
    {
      hide Start, IndexOf, LineText, Reading;
      ghost var good := CacheHolds() && Drift() == 0;
      Load(l);
      rec := "";
      var off := prevoff;
      while |savetxt| > 0
        invariant Valid() && off >= 0
        invariant good ==> Reading(l, off, rec) && |savetxt| > 0
        decreases |file| - fd
      {
        if good {
          ReadingCaches(l, off, rec);
        }
        var done;
        rec, done := CopyBlock(off, rec, l, good);
        if done {
          return;
        }
        var more := LoadNext(l, rec, good);
        if !more {
          return;
        }
        off := 0;
      }
    }

    lemma ReadingCaches(l: nat, b: int, rec: string)
      requires Reading(l, b, rec)
      ensures CacheHolds()
    {
    }

    /** `bigread`: the position is right exactly if the offset fits, and then so is the line. */
    method BigRead(l: nat) returns (rec: string)
      requires Valid() && 1 <= l <= index.dollar
      modifies this
      ensures Valid() && lprev == l
      ensures (l - 1) / 64 < |index.segoff|
      ensures old(Drift()) == 0 ==> (Drift() == 0 <==> FitsShort(Offset(file, index, old(lprev), old(prevoff), l)))
      ensures old(CacheHolds()) && Drift() == 0 ==> CacheHolds() && rec == LineText(file, l)
    {
      hide Start, Wrap, IndexOf;
      LastSegment(l, index.dollar);
      SegmentAt((l - 1) / 64);
      WrapFits(Offset(file, index, lprev, prevoff, l));
      Locate(l);
      rec := Fetch(l);
    }
  }

  lemma NoNewline(file: string, p: nat, q: nat)
    requires p <= q <= |file| && '\n' !in file[p..q] && (q < |file| ==> file[q] == '\n')
    ensures LineEnd(file, p) == q
  {
    forall i | p <= i < q ensures file[i] != '\n' {
      assert file[i] == file[p..q][i - p];
    }
    LineEndIs(file, p, q);
  }

  // ---- Whole histories ----

  /** No offset of a history of requests overflows, starting from line `prevline`. */
  ghost predicate AllFit(file: string, x: Index, prevline: nat, lines: seq<nat>)
    requires IndexOf(file, x) && forall l :: l in lines ==> 1 <= l <= x.dollar
    decreases |lines|
  {
    lines == [] ||
    var l := lines[0];
    assert l in lines && (l - 1) / 64 < (x.dollar + 63) / 64;
    assert forall n :: n in lines[1..] ==> n in lines;
    FitsShort(Offset(file, x, prevline, Start(file, prevline) % 512, l)) && AllFit(file, x, l, lines[1..])
  }

  /** Whatever is asked for in whatever order: as long as the offsets fit, every request gets its line. */
  method ReadMany(file: string, lines: seq<nat>) returns (texts: seq<string>, ghost x: Index)
    requires forall l :: l in lines ==> 1 <= l && Start(file, l) < |file|
    ensures IndexOf(file, x) && forall l :: l in lines ==> 1 <= l <= x.dollar
    ensures AllFit(file, x, 1, lines) ==> |texts| == |lines| && forall k :: 0 <= k < |lines| ==>
        texts[k] == LineText(file, lines[k])
  {
    hide Start, IndexOf, LineText, FitsShort, Offset;
    var r := new Reader(file);
    x := r.index;
    forall l | l in lines ensures 1 <= l <= x.dollar {
      LineNumbers(file, x, l);
    }
    texts := [];
    ghost var good := AllFit(file, x, 1, lines);
    assert lines[0..] == lines;
    for i := 0 to |lines|
      invariant fresh(r) && r.Valid() && r.file == file && r.index == x && |texts| == i
      invariant forall l :: l in lines ==> 1 <= l <= x.dollar
      invariant forall l :: l in lines[i..] ==> l in lines
      invariant good ==> r.CacheHolds() && r.Drift() == 0 && AllFit(file, x, r.lprev, lines[i..])
      invariant good ==> forall k :: 0 <= k < i ==> texts[k] == LineText(file, lines[k])
    {
      assert forall n :: n in lines[i + 1..] ==> n in lines;
      assert lines[i] in lines && lines[i..][0] == lines[i] && lines[i..][1..] == lines[i + 1..];
      if good {
        PositionInBlock(file, r.lprev, r.prevblk, r.prevoff);
      }
      var text := r.BigRead(lines[i]);
      texts := texts + [text];
    }
  }

  lemma PositionInBlock(file: string, l: nat, blk: int, off: int)
    requires 512 * blk + off == Start(file, l) && 0 <= off < 512
    ensures off == Start(file, l) % 512
  {
    DivModUnique(Start(file, l), 512, blk, off);
  }

  lemma LineNumbers(file: string, x: Index, l: nat)
    requires IndexOf(file, x) && 1 <= l && Start(file, l) < |file|
    ensures l <= x.dollar
  {
    hide Start;
    if l > x.dollar {
      StartsAscend(file, x.dollar + 1, l);
      EmptyStarts(file);
    }
  }

  lemma EmptyStarts(file: string)
    ensures Start(file, 1) == 0
  {
  }

  /** Lines of at most 512 bytes, newline included, are always found. */
  lemma {:induction false} ShortLinesFit(file: string, x: Index, prevline: nat, lines: seq<nat>)
    requires IndexOf(file, x) && (forall l :: l in lines ==> 1 <= l <= x.dollar) && 1 <= prevline <= x.dollar + 1
    requires forall k :: 1 <= k <= x.dollar ==> Start(file, k + 1) - Start(file, k) <= 512
    ensures AllFit(file, x, prevline, lines)
    decreases |lines|
  {
    hide Start, IndexOf;
    if lines != [] {
      var l := lines[0];
      assert l in lines;
      assert forall n :: n in lines[1..] ==> n in lines;
      ShortLinesFit(file, x, l, lines[1..]);
      SegmentOffset(file, x, l);
      if l >= prevline {
        Span(file, x, prevline, l);
      } else {
        Span(file, x, l, prevline);
      }
      Span(file, x, 64 * ((l - 1) / 64) + 1, l);
    }
  }

  lemma SegmentOffset(file: string, x: Index, l: nat)
    requires IndexOf(file, x) && 1 <= l <= x.dollar
    ensures (l - 1) / 64 < |x.segoff| && 0 <= x.segoff[(l - 1) / 64] < 512
    ensures 1 <= 64 * ((l - 1) / 64) + 1 <= l <= 64 * ((l - 1) / 64) + 64
  {
    assert (l - 1) / 64 < (x.dollar + 63) / 64;
  }

  lemma {:induction false} Span(file: string, x: Index, a: nat, b: nat)
    requires 1 <= a <= b <= x.dollar + 1
    requires forall k :: 1 <= k <= x.dollar ==> Start(file, k + 1) - Start(file, k) <= 512
    ensures 0 <= Start(file, b) - Start(file, a) <= 512 * (b - a)
    decreases b
  {
    hide Start;
    if a < b {
      Span(file, x, a, b - 1);
      StartsAscend(file, b - 1, b);
      assert Start(file, b - 1 + 1) - Start(file, b - 1) <= 512;
    }
  }

  /** A first line of more than 32767 bytes: the second is then not found from the first. */
  lemma LongLineMissed(file: string, x: Index)
    requires IndexOf(file, x) && x.dollar >= 2 && Start(file, 2) >= 0x8000
    ensures !AllFit(file, x, 1, [2])
  {
    EmptyStarts(file);
  }
}
