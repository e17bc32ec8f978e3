/** The 4K output window of the PKWARE DCL decompressor. Its memory starts out uninitialised; the
    check of distances in the first window full keeps that from showing. */
module BlastWindow {
  import opened Arith
  import opened Window
  import opened Blast

  /** Copies reaching no further back than the text itself do not depend on what is before it. */
  lemma {:induction false} ExpandWithin(before: seq<int>, text: seq<int>, dist: nat, len: nat)
    requires 1 <= dist <= |text|
    ensures Expand(before + text, dist, len) == before + Expand(text, dist, len)
    decreases len
  {
    if len > 0 {
      ExpandWithin(before, text, dist, len - 1);
      var t := Expand(text, dist, len - 1);
      assert before + t + [t[|t| - dist]] == before + (t + [t[|t| - dist]]);
    }
  }

  lemma Cancel(before: seq<int>, a: seq<int>, b: seq<int>)
    requires before + a == before + b
    ensures a == b
  {
    assert a == (before + a)[|before|..];
    assert b == (before + b)[|before|..];
  }

  class Output {
    var out: array<int>
    var next: int
    var first: bool
    var written: seq<int>
    /** What the uninitialised buffer happened to hold. */
    ghost var garbage: seq<int>

    ghost function Text(): seq<int>
      reads this, out
      requires 0 <= next <= out.Length
    {
      written + out[..next]
    }

    ghost function History(): seq<int>
      reads this, out
      requires 0 <= next <= out.Length
    {
      garbage + Text()
    }

    /** Valid, except that a full buffer may still await delivery. */
    ghost predicate Sound()
      reads this, out
    {
      && out.Length == MAXWIN && 0 <= next <= MAXWIN && |written| % MAXWIN == 0 && |garbage| == MAXWIN
      && (first <==> written == [])
      && Holds(out[..], MAXWIN, History())
    }

    ghost predicate Valid()
      reads this, out
    {
      Sound() && next < MAXWIN
    }

    constructor ()
      ensures Valid() && fresh(out) && Text() == [] && first
    {
      out := new int[MAXWIN];
      next, first, written := 0, true, [];
      new;
      garbage := out[..];
      assert History() == out[..];
      forall c | 0 <= c < MAXWIN ensures out[c] == At(out[..], Latest(c, MAXWIN, MAXWIN)) {
        LatestIsCell(c, MAXWIN, MAXWIN, c);
      }
    }

    lemma Position()
      requires Valid()
      ensures next == |History()| % MAXWIN && |Text()| == |written| + next
    {
      DivModUnique(|History()|, MAXWIN, 1 + |written| / MAXWIN, next);
    }

    /** Hands a full buffer to `outfun`. */
    method Deliver()
      requires Sound() && next == MAXWIN
      modifies this
      ensures Valid() && Text() == old(Text()) && out == old(out) && garbage == old(garbage)
    {
      written := written + out[..next];
      next, first := 0, false;
      assert Text() == old(Text());
    }

    method PutByte(b: int)
      requires Valid()
      modifies this, out
      ensures Valid() && Text() == old(Text()) + [b] && out == old(out)
    {
      Position();
      Append(out[..], MAXWIN, History(), b);
      ghost var cells, text := out[..], Text();
      out[next] := b;
      next := next + 1;
      assert out[..] == cells[next - 1 := b];
      PrefixGrows(cells, written, next - 1, b);
      assert garbage + (text + [b]) == garbage + text + [b];
      if next == MAXWIN {
        Deliver();
      }
    }

    /** Byte `k` of a run from cell `from` to cell `to`. */
    method RunByte(from: int, to: int, k: int, dist: nat, ghost text: seq<int>)
      requires 1 <= dist <= MAXWIN && 0 <= k
      requires to - k == |text| % MAXWIN && from - k == (|text| - dist) % MAXWIN && to < MAXWIN && from < MAXWIN
      requires out.Length == MAXWIN && Holds(out[..], MAXWIN, Expand(text, dist, k))
      modifies out
      ensures Holds(out[..], MAXWIN, Expand(text, dist, k + 1))
      ensures out[..] == old(out[..])[to := old(out[from])]
      ensures Expand(text, dist, k + 1) == Expand(text, dist, k) + [old(out[from])]
    {
      CopyByte(out[..], MAXWIN, text, dist, to - k, from - k, k);
      ghost var cells := out[..];
      out[to] := out[from];
      assert out[..] == cells[to := cells[from]];
    }

    /** The inner copy loop. */
    method MoveBytes(from0: int, to0: int, copy: nat, dist: nat, ghost shown: seq<int>, ghost text: seq<int>)
      requires out.Length == MAXWIN && 1 <= dist <= MAXWIN
      requires 0 <= from0 && 0 <= to0 && from0 + copy <= MAXWIN && to0 + copy <= MAXWIN
      requires from0 == (|text| - dist) % MAXWIN && to0 == |text| % MAXWIN
      requires Holds(out[..], MAXWIN, text) && text == shown + out[..to0]
      modifies out
      ensures Holds(out[..], MAXWIN, Expand(text, dist, copy)) == true
      ensures shown + out[..to0 + copy] == Expand(text, dist, copy)
    {
      hide Expand, Holds;
      var to, from, left := to0, from0, copy;
      ExpandNone(text, dist);
      while left > 0
        invariant 0 <= left <= copy && to == to0 + copy - left && from == from0 + copy - left
        invariant Holds(out[..], MAXWIN, Expand(text, dist, copy - left)) == true
        invariant shown + out[..to] == Expand(text, dist, copy - left)
        decreases left
      {
        ghost var cells := out[..];
        RunByte(from, to, copy - left, dist, text);
        PrefixGrows(cells, shown, to, cells[from]);
        to, from, left := to + 1, from + 1, left - 1;
      }
    }

    /** One run of the copy loop. As in the source, `next` moves before the bytes do. */
    method CopyRun(from: int, copy: int, dist: nat)
      requires Valid() && 1 <= dist <= MAXWIN && 1 <= copy
      requires from == (|History()| - dist) % MAXWIN && from + copy <= MAXWIN && next + copy <= MAXWIN
      modifies this`next, out
      ensures Sound() && next == old(next) + copy
      ensures History() == Expand(old(History()), dist, copy)
    {
      Position();
      ghost var text, shown := History(), garbage + written;
      assert text == shown + out[..next];
      var to := next;
      next := next + copy;
      MoveBytes(from, to, copy, dist, shown, text);
      assert History() == shown + out[..next];
    }

    /** The first run boundary and source cell for a copy from `dist` back. */
    method RunLength(dist: nat, len: nat) returns (from: int, copy: nat)
      requires Valid() && 1 <= dist <= MAXWIN && 1 <= len
      ensures 1 <= copy <= len && next + copy <= MAXWIN && from + copy <= MAXWIN
      ensures from == (|History()| - dist) % MAXWIN
    {
      from, copy := next - dist, MAXWIN;
      Position();
      ghost var n := |History()|;
      if next < dist {
        from := from + copy;
        copy := dist;
        DivModUnique(n - dist, MAXWIN, |written| / MAXWIN, from);
      } else {
        DivModUnique(n - dist, MAXWIN, 1 + |written| / MAXWIN, from);
      }
      copy := copy - next;
      if copy > len {
        copy := len;
      }
    }

    method CopyStep(dist: nat, len: nat) returns (copy: nat)
      requires Valid() && 1 <= dist <= MAXWIN && 1 <= len
      modifies this, out
      ensures Valid() && out == old(out) && garbage == old(garbage) && 1 <= copy <= len
      ensures History() == Expand(old(History()), dist, copy)
    {
      var from;
      from, copy := RunLength(dist, len);
      CopyRun(from, copy, dist);
      if next == MAXWIN {
        Deliver();
      }
    }

    /** Copies `len` bytes from `dist` back; fails when that lies before the start of the output. */
    method Copy(dist: nat, len: nat) returns (ok: bool)
      requires Valid() && 1 <= dist <= MAXWIN && 1 <= len
      modifies this, out
      ensures Valid() && out == old(out)
      ensures ok <==> dist <= |old(Text())|
      ensures Text() == if ok then Expand(old(Text()), dist, len) else old(Text())
    {
      hide Holds, Expand;
      Position();
      if first && dist > next {
        return false;
      }
      ghost var text, history := Text(), History();
      ExpandNone(history, dist);
      var left := len;
      while left > 0
        invariant Valid() == true
        invariant out == old(out) && 0 <= left <= len && garbage == old(garbage)
        invariant History() == Expand(history, dist, len - left)
        decreases left
      {
        var copy := CopyStep(dist, left);
        ExpandSplits(history, dist, len - left, copy);
        left := left - copy;
      }
      ok := true;
      ExpandWithin(garbage, text, dist, len);
      Cancel(garbage, Text(), Expand(text, dist, len));
    }
  }
}
