/** Circular windows: the copy loops of three decompressors against the byte-by-byte expansion
    of RFC 1951, section 3.2.3 over unbounded output. */
module Window {
  import opened Arith

  /** Output byte `i`; what lies before the start of the output reads as zero. */
  function At(text: seq<int>, i: int): int
    requires i < |text|
  {
    if i < 0 then 0 else text[i]
  }

  /** The meaning of a length/distance pair: each byte is copied from `dist` bytes back, new bytes included. */
  function Expand(text: seq<int>, dist: nat, len: nat): (r: seq<int>)
    requires dist > 0
    ensures |r| == |text| + len
    decreases len
  {
    if len == 0 then text
    else
      var t := Expand(text, dist, len - 1);
      t + [At(t, |t| - dist)]
  }

  lemma ExpandNone(text: seq<int>, dist: nat)
    requires dist > 0
    ensures Expand(text, dist, 0) == text
  {
  }

  lemma {:induction false} ExpandSplits(text: seq<int>, dist: nat, m: nat, n: nat)
    requires dist > 0
    ensures Expand(text, dist, m + n) == Expand(Expand(text, dist, m), dist, n)
    decreases n
  {
    if n > 0 {
      ExpandSplits(text, dist, m, n - 1);
    }
  }

  /** Every byte of the copy equals the one `dist` before it. */
  lemma {:induction false} ExpandRepeats(text: seq<int>, dist: nat, len: nat, i: nat)
    requires dist > 0 && |text| <= i < |text| + len
    ensures Expand(text, dist, len)[i] == At(Expand(text, dist, len), i - dist)
    decreases len
  {
    if i < |text| + len - 1 {
      ExpandRepeats(text, dist, len - 1, i);
    }
  }

  /** The window holds the last `size` bytes of the output, byte `i` in cell `i % size`. */
  ghost predicate Holds(cells: seq<int>, size: nat, text: seq<int>) {
    && size > 0 && |cells| == size
    && forall c {:trigger cells[c]} :: 0 <= c < size ==> cells[c] == At(text, Latest(c, size, |text|))
  }

  /** The last output position below `len` that falls into cell `c`. */
  function Latest(c: nat, size: nat, len: nat): (i: int)
    requires c < size
    ensures len - size <= i < len
  {
    len - 1 - (len - 1 - c) % size
  }

  lemma LatestIsCell(c: nat, size: nat, len: nat, i: int)
    requires c < size && len - size <= i < len && (i - c) % size == 0
    ensures Latest(c, size, len) == i
  {
    var q := (i - c) / size;
    assert i - c == size * q;
    assert len - 1 - c == q * size + (len - 1 - i);
    DivModUnique(len - 1 - c, size, q, len - 1 - i);
  }

  /** One byte appended to the output goes to the next cell and disturbs no other. */
  lemma Append(cells: seq<int>, size: nat, text: seq<int>, b: int)
    requires Holds(cells, size, text)
    ensures Holds(cells[|text| % size := b], size, text + [b])
  {
    var n := |text|;
    var w := n % size;
    assert n == size * (n / size) + w;
    var cells' := cells[w := b];
    forall c {:trigger cells'[c]} | 0 <= c < size ensures cells'[c] == At(text + [b], Latest(c, size, n + 1)) {
      if c == w {
        assert n - w == size * (n / size);
        assert (n - w) % size == 0 by { DivModUnique(n - w, size, n / size, 0); }
        LatestIsCell(w, size, n + 1, n);
      } else {
        LatestUnmoved(c, size, n);
      }
    }
  }

  lemma LatestUnmoved(c: nat, size: nat, n: nat)
    requires c < size && c != n % size
    ensures Latest(c, size, n + 1) == Latest(c, size, n)
  {
    var q, r := (n - 1 - c) / size, (n - 1 - c) % size;
    assert n - 1 - c == q * size + r;
    if r == size - 1 {
      MulAdd(q, 1, size);
      DivModUnique(n, size, q + 1, c);
    } else {
      DivModUnique(n - c, size, q, r + 1);
    }
  }

  /** The byte `dist` back is found in the cell the copy loops compute. */
  lemma SourceCell(cells: seq<int>, size: nat, text: seq<int>, dist: nat, c: nat)
    requires Holds(cells, size, text) && 1 <= dist <= size && c < size
    requires c == (|text| - dist) % size
    ensures cells[c] == At(text, |text| - dist)
  {
    var i := |text| - dist;
    assert i - c == size * (i / size);
    assert (i - c) % size == 0 by { DivModUnique(i - c, size, i / size, 0); }
    LatestIsCell(c, size, |text|, i);
  }

  lemma ModStep(x: int, k: nat, size: nat)
    requires size > 0 && x % size + k < size
    ensures (x + k) % size == x % size + k
  {
    assert x == (x / size) * size + x % size;
    DivModUnique(x + k, size, x / size, x % size + k);
  }

  /** One step of a byte-by-byte copy. */
  lemma CopyByte(cells: seq<int>, size: nat, text: seq<int>, dist: nat, w: nat, d: nat, k: nat)
    requires 1 <= dist <= size && Holds(cells, size, Expand(text, dist, k))
    requires w == |text| % size && d == (|text| - dist) % size && w + k < size && d + k < size
    ensures Holds(cells[w + k := cells[d + k]], size, Expand(text, dist, k + 1))
    ensures Expand(text, dist, k + 1) == Expand(text, dist, k) + [cells[d + k]]
  {
    var t := Expand(text, dist, k);
    ModStep(|text|, k, size);
    ModStep(|text| - dist, k, size);
    SourceCell(cells, size, t, dist, d + k);
    Append(cells, size, t, cells[d + k]);
  }

  /** Cells `d` to `d + e` moved to `w`, all read before any is written. */
  ghost function Moved(cells: seq<int>, w: nat, d: nat, e: nat): (r: seq<int>)
    requires w + e <= |cells| && d + e <= |cells|
    ensures |r| == |cells|
    ensures forall c :: 0 <= c < |r| ==> r[c] == if w <= c < w + e then cells[d + c - w] else cells[c]
  {
    cells[..w] + cells[d..d + e] + cells[w + e..]
  }

  lemma MovedNone(cells: seq<int>, w: nat, d: nat)
    requires w <= |cells| && d <= |cells|
    ensures Moved(cells, w, d, 0) == cells
  {
  }

  lemma HoldsSize(cells: seq<int>, size: nat, text: seq<int>)
    requires Holds(cells, size, text)
    ensures |cells| == size
  {
  }

  lemma MoveOneMore(cells: seq<int>, w: nat, d: nat, e: nat)
    requires w + e + 1 <= |cells| && d + e + 1 <= |cells|
    requires d > w || w - d >= e + 1
    ensures Moved(cells, w, d, e)[d + e] == cells[d + e]
    ensures Moved(cells, w, d, e + 1) == Moved(cells, w, d, e)[w + e := cells[d + e]]
  {
  }

  lemma SliceGrows(cells: seq<int>, text: seq<int>, d: nat, e: nat)
    requires d + e < |cells|
    ensures text + cells[d..d + e] + [cells[d + e]] == text + cells[d..d + e + 1]
  {
  }

  lemma CopyBlockStep(cells: seq<int>, size: nat, text: seq<int>, dist: nat, w: nat, d: nat, e: nat)
    requires 1 <= dist <= size == |cells| && w + e < size && d + e < size
    requires Holds(Moved(cells, w, d, e), size, Expand(text, dist, e))
    requires w == |text| % size && d == (|text| - dist) % size
    requires d > w || w - d >= e + 1
    ensures Holds(Moved(cells, w, d, e + 1), size, Expand(text, dist, e + 1))
    ensures Expand(text, dist, e + 1) == Expand(text, dist, e) + [cells[d + e]]
  {
    MoveOneMore(cells, w, d, e);
    CopyByte(Moved(cells, w, d, e), size, text, dist, w, d, e);
  }

  /** A block copied at once: right where source and target do not overlap, and where the source
      lies above the target, because no byte is overwritten before it would have been read. */
  lemma {:induction false} CopyBlock(cells: seq<int>, size: nat, text: seq<int>, dist: nat, w: nat, d: nat, e: nat)
    requires Holds(cells, size, text) && 1 <= dist <= size
    requires w == |text| % size && d == (|text| - dist) % size && w + e <= size && d + e <= size
    requires d > w || w - d >= e
    ensures Holds(Moved(cells, w, d, e), size, Expand(text, dist, e))
    ensures Expand(text, dist, e) == text + cells[d..d + e]
    decreases e
  {
    hide Holds, Moved, Expand;
    HoldsSize(cells, size, text);
    if e == 0 {
      MovedNone(cells, w, d);
      ExpandNone(text, dist);
    } else {
      CopyBlock(cells, size, text, dist, w, d, e - 1);
      CopyBlockStep(cells, size, text, dist, w, d, e - 1);
      SliceGrows(cells, text, d, e - 1);
    }
  }

  ghost function Zeros(n: nat): (r: seq<int>)
    ensures |r| == n && forall c :: 0 <= c < n ==> r[c] == 0
  {
    if n == 0 then [] else Zeros(n - 1) + [0]
  }

  /** Cells `w` to `w + e` set to zero. */
  ghost function Zeroed(cells: seq<int>, w: nat, e: nat): (r: seq<int>)
    requires w + e <= |cells|
    ensures |r| == |cells|
    ensures forall c :: 0 <= c < |r| ==> r[c] == if w <= c < w + e then 0 else cells[c]
  {
    cells[..w] + Zeros(e) + cells[w + e..]
  }

  lemma ZeroByte(cells: seq<int>, size: nat, text: seq<int>, dist: nat, e: nat)
    requires |text| < dist <= size && |text| + e < size && e < dist - |text|
    requires Holds(cells, size, Expand(text, dist, e))
    ensures Holds(cells[|text| + e := 0], size, Expand(text, dist, e + 1))
    ensures Expand(text, dist, e + 1) == Expand(text, dist, e) + [0]
  {
    DivModUnique(|text| + e, size, 0, |text| + e);
    Append(cells, size, Expand(text, dist, e), 0);
  }

  lemma ZeroStep(cells: seq<int>, size: nat, text: seq<int>, dist: nat, e: nat)
    requires |text| < dist <= size == |cells| && |text| + e < size && e < dist - |text|
    requires Holds(Zeroed(cells, |text|, e), size, Expand(text, dist, e))
    ensures Holds(Zeroed(cells, |text|, e + 1), size, Expand(text, dist, e + 1))
    ensures Expand(text, dist, e + 1) == Expand(text, dist, e) + [0]
  {
    ZeroByte(Zeroed(cells, |text|, e), size, text, dist, e);
    assert Zeroed(cells, |text|, e)[|text| + e := 0] == Zeroed(cells, |text|, e + 1);
  }

  /** Copying from before the start of the output is filling with zeros. */
  lemma {:induction false} ZeroBlock(cells: seq<int>, size: nat, text: seq<int>, dist: nat, e: nat)
    requires Holds(cells, size, text) && |text| < dist <= size
    requires |text| + e <= size && e <= dist - |text|
    ensures Holds(Zeroed(cells, |text|, e), size, Expand(text, dist, e))
    ensures Expand(text, dist, e) == text + Zeros(e)
    decreases e
  {
    if e == 0 {
      assert Zeroed(cells, |text|, 0) == cells;
    } else {
      ZeroBlock(cells, size, text, dist, e - 1);
      ZeroStep(cells, size, text, dist, e - 1);
    }
  }

  lemma ZeroedPrefix(cells: seq<int>, written: seq<int>, w: nat, e: nat)
    requires w + e <= |cells|
    ensures written + Zeroed(cells, w, e)[..w + e] == written + cells[..w] + Zeros(e)
  {
    assert Zeroed(cells, w, e)[..w + e] == cells[..w] + Zeros(e);
  }

  lemma PrefixGrows(cells: seq<int>, written: seq<int>, w: nat, b: int)
    requires w < |cells|
    ensures written + cells[w := b][..w + 1] == written + cells[..w] + [b]
  {
  }

  lemma MovedPrefix(cells: seq<int>, written: seq<int>, w: nat, d: nat, e: nat)
    requires w + e <= |cells| && d + e <= |cells|
    ensures written + Moved(cells, w, d, e)[..w + e] == written + cells[..w] + cells[d..d + e]
  {
    assert Moved(cells, w, d, e)[..w + e] == cells[..w] + cells[d..d + e];
  }

  // ---- The 64K slide of inflate and explode ----

  const WSIZE: nat := 65536

  /** `& (WSIZE - 1)` of an unsigned difference. */
  function Mask(x: int): int { x % WSIZE }

  class Slide {
    var slide: array<int>
    var w: int
    var written: seq<int>

    /** Everything decompressed so far, flushed or not. */
    ghost function Text(): seq<int>
      reads this, slide
      requires 0 <= w <= slide.Length
    {
      written + slide[..w]
    }

    /** Valid, except that a full slide may still await its flush. */
    ghost predicate Sound()
      reads this, slide
    {
      && slide.Length == WSIZE && 0 <= w <= WSIZE && |written| % WSIZE == 0
      && Holds(slide[..], WSIZE, Text())
    }

    ghost predicate Valid()
      reads this, slide
    {
      Sound() && w < WSIZE
    }

    constructor ()
      ensures Valid() && fresh(slide) && Text() == []
    {
      slide := new int[WSIZE](_ => 0);
      w := 0;
      written := [];
    }

    method Flush()
      requires Sound() && w == WSIZE
      modifies this
      ensures Valid() && Text() == old(Text()) && slide == old(slide) && written != [] && w == 0
    {
      written := written + slide[..w];
      w := 0;
      assert Text() == old(Text());
    }

    lemma Position()
      requires Valid()
      ensures w == |Text()| % WSIZE
    {
      DivModUnique(|Text()|, WSIZE, |written| / WSIZE, w);
    }

    method PutByte(b: int)
      requires Valid()
      modifies this, slide
      ensures Valid() && Text() == old(Text()) + [b] && slide == old(slide)
      ensures if w == 0 then written != [] else written == old(written)
    {
      Position();
      Append(slide[..], WSIZE, Text(), b);
      ghost var cells := slide[..];
      slide[w] := b;
      assert slide[..] == cells[w := b];
      w := w + 1;
      assert Text() == old(Text()) + [b];
      if w == WSIZE {
        Flush();
      }
    }

    method MemCpy(d: int, e: int)
      requires 0 <= w && 0 <= d && 0 <= e && w + e <= slide.Length && d + e <= slide.Length
      modifies slide
      ensures slide[..] == Moved(old(slide[..]), w, d, e)
    {
      forall k | 0 <= k < e {
        slide[w + k] := slide[d + k];
      }
    }

    method SlowByte(from: int, k: int, dist: nat, ghost text: seq<int>, ghost w0: int, ghost d: int)
      requires 1 <= dist <= WSIZE && 0 <= k && w0 == |text| % WSIZE && d == (|text| - dist) % WSIZE
      requires Sound() && w == w0 + k < WSIZE && from == d + k < WSIZE && Text() == Expand(text, dist, k)
      modifies this`w, slide
      ensures Sound() && w == old(w) + 1 && Text() == Expand(text, dist, k + 1)
    {
      ghost var cells := slide[..];
      CopyByte(cells, WSIZE, text, dist, w0, d, k);
      slide[w] := slide[from];
      w := w + 1;
      assert slide[..] == cells[w0 + k := cells[d + k]];
      PrefixGrows(cells, written, w0 + k, cells[d + k]);
    }

    /** The overlapping case: the slow loop, one byte after the other. */
    method CopySlowly(d: int, e: int, dist: nat)
      requires Valid() && 1 <= dist <= WSIZE && 1 <= e
      requires d == Mask(|Text()| - dist) && d + e <= WSIZE && w + e <= WSIZE
      modifies this`w, slide
      ensures Sound() && w == old(w) + e && Text() == Expand(old(Text()), dist, e)
    {
      hide Holds, Expand;
      Position();
      ghost var text, w0 := Text(), w;
      ExpandNone(text, dist);
      var k := 0;
      while k < e
        invariant 0 <= k <= e && w == w0 + k
        invariant Sound() && Text() == Expand(text, dist, k)
      {
        SlowByte(d + k, k, dist, text, w0, d);
        k := k + 1;
      }
    }

    method CopyFast(d: int, e: int, dist: nat)
      requires Valid() && 1 <= dist <= WSIZE && 1 <= e
      requires d == Mask(|Text()| - dist) && d + e <= WSIZE && w + e <= WSIZE
      requires d > w || w - d >= e
      modifies this`w, slide
      ensures Sound() && w == old(w) + e && Text() == Expand(old(Text()), dist, e)
    {
      hide Holds, Expand;
      Position();
      ghost var text, cells := Text(), slide[..];
      CopyBlock(cells, WSIZE, text, dist, w, d, e);
      MemCpy(d, e);
      w := w + e;
      MovedPrefix(cells, written, w - e, d, e);
    }

    /** One run of the copy: up to the end of the slide on either side, or to the end of the string. */
    method CopyRun(d: int, e: int, dist: nat)
      requires Valid() && 1 <= dist <= WSIZE && 1 <= e
      requires d == Mask(|Text()| - dist) && d + e <= WSIZE && w + e <= WSIZE
      modifies this, slide
      ensures Valid() && slide == old(slide) && Text() == Expand(old(Text()), dist, e)
    {
      if d > w || w - d >= e {
        CopyFast(d, e, dist);
      } else {
        CopySlowly(d, e, dist);
      }
      if w == WSIZE {
        Flush();
      }
    }

    method CopyStep(d: int, n: int, dist: nat) returns (d': int, n': int)
      requires Valid() && 1 <= dist <= WSIZE && 1 <= n
      requires Mask(d) == Mask(|Text()| - dist)
      modifies this, slide
      ensures Valid() && slide == old(slide) && 0 <= n' < n && Text() == Expand(old(Text()), dist, n - n')
      ensures Mask(d') == Mask(|Text()| - dist)
    {
      hide Holds, Expand;
      d' := Mask(d);
      var e := WSIZE - if d' > w then d' else w;
      if e > n {
        e := n;
      }
      n' := n - e;
      MaskedAdvance(|Text()| - dist, d', e);
      CopyRun(d', e, dist);
      d' := d' + e;
    }

    /** The copy loop of `inflate_codes`, in runs, by block or byte by byte. The source index is
        unsigned and masked, hence taken modulo the size of the slide. */
    method Copy(dist: nat, len: nat)
      requires Valid() && 1 <= dist <= WSIZE && 1 <= len
      modifies this, slide
      ensures Valid() && Text() == Expand(old(Text()), dist, len) && slide == old(slide)
    {
      hide Holds, Expand, Mask;
      ghost var text := Text();
      var d, n := w - dist, len;
      Position();
      ExpandNone(text, dist);
      MaskedSource(|text|, w, dist);
      while n > 0
        invariant Valid() && slide == old(slide) && 0 <= n <= len && Text() == Expand(text, dist, len - n)
        invariant Mask(d) == Mask(|Text()| - dist)
        decreases n
      {
        ghost var m := n;
        d, n := CopyStep(d, n, dist);
        ExpandSplits(text, dist, len - m, m - n);
      }
    }

    method MemZero(e: int)
      requires 0 <= w && 0 <= e && w + e <= slide.Length
      modifies slide
      ensures slide[..] == Zeroed(old(slide[..]), w, e)
    {
      forall k | 0 <= k < e {
        slide[w + k] := 0;
      }
    }

    method ZeroRun(d: int, e: int, dist: nat)
      requires Valid() && written == [] && 1 <= dist <= WSIZE && 1 <= e
      requires d == Mask(|Text()| - dist) && w <= d && d + e <= WSIZE
      modifies this`w, slide
      ensures Sound() && w == old(w) + e && Text() == Expand(old(Text()), dist, e)
    {
      ghost var text, cells := Text(), slide[..];
      assert |text| == w;
      BeforeStart(w, dist, d);
      ZeroBlock(cells, WSIZE, text, dist, e);
      MemZero(e);
      w := w + e;
      ZeroedPrefix(cells, written, w - e, e);
    }

    /** One run of the copy loop of `explode_*`, which keeps track of whether the slide was ever flushed. */
    method ExplodeRun(d: int, e: int, dist: nat, u: bool) returns (u': bool)
      requires Valid() && 1 <= dist <= WSIZE && 1 <= e && u == (written == [])
      requires d == Mask(|Text()| - dist) && d + e <= WSIZE && w + e <= WSIZE
      modifies this, slide
      ensures Valid() && slide == old(slide) && Text() == Expand(old(Text()), dist, e)
      ensures u' == (written == [])
    {
      u' := u;
      if u && w <= d {
        ZeroRun(d, e, dist);
      } else if d > w || w - d >= e {
        CopyFast(d, e, dist);
      } else {
        CopySlowly(d, e, dist);
      }
      if w == WSIZE {
        Flush();
        u' := false;
      }
    }

    method ExplodeStep(d: int, n: int, dist: nat, u: bool) returns (d': int, n': int, u': bool)
      requires Valid() && 1 <= dist <= WSIZE && 1 <= n && u == (written == [])
      requires Mask(d) == Mask(|Text()| - dist)
      modifies this, slide
      ensures Valid() && slide == old(slide) && 0 <= n' < n && Text() == Expand(old(Text()), dist, n - n')
      ensures Mask(d') == Mask(|Text()| - dist) && u' == (written == [])
    {
      hide Holds, Expand;
      d' := Mask(d);
      var e := WSIZE - if d' > w then d' else w;
      if e > n {
        e := n;
      }
      n' := n - e;
      MaskedAdvance(|Text()| - dist, d', e);
      u' := ExplodeRun(d', e, dist, u);
      d' := d' + e;
    }

    /** The copy loop of the `explode_*` functions. */
    method ExplodeCopy(dist: nat, len: nat, u: bool) returns (u': bool)
      requires Valid() && 1 <= dist <= WSIZE && 1 <= len && u == (written == [])
      modifies this, slide
      ensures Valid() && Text() == Expand(old(Text()), dist, len) && slide == old(slide)
      ensures u' == (written == [])
    {
      hide Holds, Expand, Mask;
      ghost var text := Text();
      var d, n := w - dist, len;
      u' := u;
      Position();
      ExpandNone(text, dist);
      MaskedSource(|text|, w, dist);
      while n > 0
        invariant Valid() && slide == old(slide) && 0 <= n <= len && Text() == Expand(text, dist, len - n)
        invariant Mask(d) == Mask(|Text()| - dist) && u' == (written == [])
        decreases n
      {
        ghost var m := n;
        d, n, u' := ExplodeStep(d, n, dist, u');
        ExpandSplits(text, dist, len - m, m - n);
      }
    }
  }

  lemma BeforeStart(w: int, dist: int, d: int)
    requires 0 <= w < WSIZE && 1 <= dist <= WSIZE && d == (w - dist) % WSIZE && w <= d
    ensures d == w - dist + WSIZE
  {
    if w >= dist {
      DivModUnique(w - dist, WSIZE, 0, w - dist);
    } else {
      DivModUnique(w - dist, WSIZE, -1, w - dist + WSIZE);
    }
  }

  lemma MaskedAdvance(x: int, d: int, e: int)
    requires d == x % WSIZE
    ensures Mask(d + e) == Mask(x + e)
  {
    var q, r := (d + e) / WSIZE, (d + e) % WSIZE;
    assert x + e == (x / WSIZE + q) * WSIZE + r;
    DivModUnique(x + e, WSIZE, x / WSIZE + q, r);
  }

  lemma MaskedSource(length: int, w: int, dist: int)
    requires w == length % WSIZE
    ensures Mask(w - dist) == Mask(length - dist)
  {
    MaskedAdvance(length, w, -dist);
  }
}
