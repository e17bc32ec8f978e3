/** The line index `bfs` builds when it opens a file: every line's length, and the position of every 64th line. */
module BfsIndex {
  import opened Arith

  /** The first newline at or after `p`, or the end of the file. */
  function LineEnd(file: string, p: nat): (e: nat)
    requires p <= |file|
    ensures p <= e <= |file| && (e < |file| ==> file[e] == '\n') && forall i :: p <= i < e ==> file[i] != '\n'
    decreases |file| - p
  {
    if p == |file| || file[p] == '\n' then p else LineEnd(file, p + 1)
  }

  /** Where line `k` begins, counted from 1; the end of the file if there is no such line. */
  function Start(file: string, k: nat): (p: nat)
    ensures p <= |file|
  {
    if k <= 1 then 0
    else
      var e := LineEnd(file, Start(file, k - 1));
      if e < |file| then e + 1 else e
  }

  function LineText(file: string, k: nat): string {
    file[Start(file, k)..LineEnd(file, Start(file, k))]
  }

  lemma LineEndIs(file: string, p: nat, e: nat)
    requires p <= e <= |file| && (e < |file| ==> file[e] == '\n') && forall i :: p <= i < e ==> file[i] != '\n'
    ensures LineEnd(file, p) == e
  {
    var f := LineEnd(file, p);
    assert f < |file| ==> file[f] == '\n';
    assert e < |file| ==> file[e] == '\n';
  }

  lemma {:induction false} StartsAscend(file: string, k: nat, n: nat)
    requires k <= n
    ensures Start(file, k) <= Start(file, n)
    ensures k < n && n > 1 && Start(file, k) < |file| ==> Start(file, k) < Start(file, n)
    decreases n
  {
    if k < n {
      StartsAscend(file, k, n - 1);
    }
  }

  /** `lincnt[k]` is the length of line `k` with its newline; entry 0 is not used. */
  ghost predicate Lengths(file: string, lincnt: seq<int>, n: nat) {
    |lincnt| == n && (n > 0 ==> lincnt[0] == 0) && forall k :: 1 <= k < n ==>
        lincnt[k] == Start(file, k + 1) - Start(file, k)
  }

  /** Segment `s` is the position of line `64 * s + 1`. */
  ghost predicate Segments(file: string, segblk: seq<int>, segoff: seq<int>, n: nat) {
    && |segblk| == |segoff| == n
    && forall s {:trigger segblk[s]} {:trigger segoff[s]} :: 0 <= s < n ==>
         0 <= segoff[s] < 512 && 0 <= segblk[s] && 512 * segblk[s] + segoff[s] == Start(file, 64 * s + 1)
  }

  /** `l` lines have begun before `pos`; the last of them is finished if `newline`. */
  ghost predicate Scanned(file: string, pos: nat, l: nat, cnt: int, newline: bool) {
    && pos <= |file|
    && if l == 0 then pos == 0 && cnt == 0 && newline
       else
         var p := Start(file, l);
         && p < pos && cnt == pos - p
         && (forall i :: p <= i < pos - 1 ==> file[i] != '\n')
         && (newline <==> file[pos - 1] == '\n')
  }

  lemma Begin(file: string, pos: nat, l: nat, cnt: int)
    requires Scanned(file, pos, l, cnt, true) && pos < |file|
    ensures Start(file, l + 1) == pos && (l > 0 ==> cnt == Start(file, l + 1) - Start(file, l))
    ensures Scanned(file, pos + 1, l + 1, 1, file[pos] == '\n')
  {
    if l > 0 {
      LineEndIs(file, Start(file, l), pos - 1);
    }
  }

  lemma Continue(file: string, pos: nat, l: nat, cnt: int)
    requires Scanned(file, pos, l, cnt, false) && pos < |file|
    ensures Scanned(file, pos + 1, l, cnt + 1, file[pos] == '\n')
  {
  }

  lemma Finish(file: string, l: nat, cnt: int, newline: bool)
    requires Scanned(file, |file|, l, cnt, newline)
    ensures l > 0 ==> Start(file, l) < |file| == Start(file, l + 1) && cnt == Start(file, l + 1) - Start(file, l)
    ensures l == 0 ==> file == ""
  {
    if l > 0 {
      LineEndIs(file, Start(file, l), if newline then |file| - 1 else |file|);
    }
  }

  /** The number of lines. */
  ghost predicate LastLine(file: string, n: nat) {
    if n == 0 then file == "" else Start(file, n) < |file| == Start(file, n + 1)
  }

  function Block(file: string, blk: nat): string {
    if 512 * blk >= |file| then ""
    else if 512 * blk + 512 <= |file| then file[512 * blk..512 * blk + 512] else file[512 * blk..]
  }

  datatype Index = Index(lincnt: seq<int>, segblk: seq<int>, segoff: seq<int>, dollar: nat)

  ghost predicate IndexOf(file: string, x: Index) {
    && LastLine(file, x.dollar) && Lengths(file, x.lincnt, x.dollar + 1)
    && Segments(file, x.segblk, x.segoff, (x.dollar + 63) / 64)
  }

  lemma AddLength(file: string, lincnt: seq<int>, l: nat, cnt: int)
    requires Lengths(file, lincnt, l) && if l > 0 then cnt == Start(file, l + 1) - Start(file, l) else cnt == 0
    ensures Lengths(file, lincnt + [cnt], l + 1)
  {
  }

  lemma AddSegment(file: string, segblk: seq<int>, segoff: seq<int>, l: nat, blk: int, off: int)
    requires Segments(file, segblk, segoff, (l + 63) / 64) && 0 <= off < 512 && blk >= 0
    requires Start(file, l + 1) == 512 * blk + off
    ensures l % 64 == 0 ==> Segments(file, segblk + [blk], segoff + [off], (l + 1 + 63) / 64)
    ensures l % 64 != 0 ==> Segments(file, segblk, segoff, (l + 1 + 63) / 64)
  {
    if l % 64 == 0 {
      assert l == 64 * (l / 64) && (l + 64) / 64 == l / 64 + 1 && (l + 63) / 64 == l / 64;
    } else {
      assert (l + 64) / 64 == (l + 63) / 64;
    }
  }

  /** The indexing loops of `bigopen`, for a file that is read in full blocks. */
  method BigOpen(file: string) returns (x: Index)
    ensures IndexOf(file, x)
  {
    hide Scanned, Lengths, Segments, Start;
    var lincnt, segblk, segoff: seq<int> := [], [], [];
    var l, cnt, newline := 0, 0, true;
    var blk := -1;
    Opening(file);
    var block := Block(file, blk + 1);
    while |block| > 0
      invariant blk >= -1 && block == Block(file, blk + 1) && l >= 0
      invariant Scanned(file, if 512 * (blk + 1) <= |file| then 512 * (blk + 1) else |file|, l, cnt, newline)
      invariant Lengths(file, lincnt, l) && Segments(file, segblk, segoff, (l + 63) / 64)
      decreases |file| - 512 * blk
    {
      blk := blk + 1;
      for off := 0 to |block|
        invariant Scanned(file, 512 * blk + off, l, cnt, newline) && l >= 0
        invariant Lengths(file, lincnt, l) && Segments(file, segblk, segoff, (l + 63) / 64)
      {
        ghost var pos := 512 * blk + off;
        assert block[off] == file[pos];
        if newline {
          Begin(file, pos, l, cnt);
          FirstCount(file, pos, l, cnt);
          newline := false;
          AddLength(file, lincnt, l, cnt);
          lincnt := lincnt + [cnt];
          cnt := 0;
          AddSegment(file, segblk, segoff, l, blk, off);
          if l % 64 == 0 {
            segblk, segoff := segblk + [blk], segoff + [off];
          }
          l := l + 1;
        } else {
          Continue(file, pos, l, cnt);
        }
        if block[off] == '\n' {
          newline := true;
        }
        cnt := cnt + 1;
      }
      block := Block(file, blk + 1);
    }
    Finish(file, l, cnt, newline);
    FirstCount(file, |file|, l, cnt);
    AddLength(file, lincnt, l, cnt);
    lincnt := lincnt + [cnt];
    return Index(lincnt, segblk, segoff, l);
  }

  lemma Opening(file: string)
    ensures Scanned(file, 0, 0, 0, true) && Lengths(file, [], 0) && Segments(file, [], [], 0)
  {
  }

  lemma FirstCount(file: string, pos: nat, l: nat, cnt: int)
    ensures (exists newline :: Scanned(file, pos, l, cnt, newline)) && l == 0 ==> cnt == 0
  {
  }
}
