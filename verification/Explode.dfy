/** Imploded data: the trees at its head, and the loop that decodes literals, distances and lengths. */
module Explode {
  import opened Arith
  import opened Bits
  import opened BitBuffer
  import opened Canonical
  import opened Window
  import opened HuftBits
  import opened HuftTables
  import opened HuftLists
  import opened HuftDriver
  import opened ExplodeTables
  import Inflate

  const INBUF: nat := 4096

  // ---- The reference (PKWARE APPNOTE, section 5.3) ----

  /** The `n` bits from position `p`; the input reads as ones behind its end. */
  function Ahead(bits: seq<bool>, p: nat, n: nat): (r: seq<bool>)
    ensures |r| == n
  {
    seq(n, i requires 0 <= i < n => if p + i < |bits| then bits[p + i] else true)
  }

  function Inverted(bs: seq<bool>): (r: seq<bool>)
    ensures |r| == |bs|
  {
    seq(|bs|, i requires 0 <= i < |bs| => !bs[i])
  }

  ghost function Number(bits: seq<bool>, p: nat, n: nat): nat { Lsb(Ahead(bits, p, n)) }

  /** Codes arrive with their bits inverted. */
  ghost function CodeBits(bits: seq<bool>, p: nat): (r: seq<bool>)
    ensures |r| == BMAX
  {
    Inverted(Ahead(bits, p, BMAX))
  }

  ghost predicate HasCode(L: seq<int>, bits: seq<bool>, p: nat) { Inflate.Starts(L, CodeBits(bits, p)) }

  ghost function CodeAt(L: seq<int>, bits: seq<bool>, p: nat): (s: nat)
    requires HasCode(L, bits, p)
    ensures s < |L| && 0 < L[s] <= BMAX
  {
    Inflate.FirstSymbol(L, CodeBits(bits, p))
  }

  /** Code lengths of literals (none if literals are sent plainly), lengths and distances, and how many
      low bits of a distance are sent plainly. */
  datatype Trees = Trees(lb: seq<int>, ll: seq<int>, ld: seq<int>, low: nat) {
    ghost predicate Valid() {
      && (lb == [] || |lb| == 256) && |ll| == |ld| == 64 && (low == 6 || low == 7)
    }

    function Shortest(): nat { if lb == [] then 2 else 3 }
  }

  datatype Outcome = Text(text: seq<int>, p: nat) | Bad

  /** The meaning of `left` bytes of imploded data from bit `p`: a literal after a one, a copy after a zero. */
  ghost function Exploded(T: Trees, bits: seq<bool>, p: nat, left: int, text: seq<int>): Outcome
    requires T.Valid()
    decreases left
  {
    if left <= 0 then Text(text, p)
    else if Number(bits, p, 1) == 1 then
      if T.lb == [] then Exploded(T, bits, p + 9, left - 1, text + [Number(bits, p + 1, 8)])
      else if HasCode(T.lb, bits, p + 1) then
        var s := CodeAt(T.lb, bits, p + 1);
        Exploded(T, bits, p + 1 + T.lb[s], left - 1, text + [s])
      else Bad
    else
      var c := CopyAt(T, bits, p + 1);
      if c.NoCopy? then Bad
      else Exploded(T, bits, c.p, left - c.n, Expand(text, c.dist, c.n))
  }

  lemma ExplodedLiteral(T: Trees, bits: seq<bool>, p: nat, left: int, text: seq<int>)
    requires T.Valid() && left > 0 && Number(bits, p, 1) == 1
    ensures Exploded(T, bits, p, left, text) ==
      if T.lb == [] then Exploded(T, bits, p + 9, left - 1, text + [Number(bits, p + 1, 8)])
      else if HasCode(T.lb, bits, p + 1) then
        var s := CodeAt(T.lb, bits, p + 1);
        Exploded(T, bits, p + 1 + T.lb[s], left - 1, text + [s])
      else Bad
  {
    hide Number, HasCode, CodeAt;
  }

  lemma ExplodedCopy(T: Trees, bits: seq<bool>, p: nat, left: int, text: seq<int>)
    requires T.Valid() && left > 0 && Number(bits, p, 1) != 1
    ensures Exploded(T, bits, p, left, text) ==
      var c := CopyAt(T, bits, p + 1);
      if c.NoCopy? then Bad else Exploded(T, bits, c.p, left - c.n, Expand(text, c.dist, c.n))
  {
    hide Number, CopyAt;
  }

  lemma ExplodedDone(T: Trees, bits: seq<bool>, p: nat, left: int, text: seq<int>)
    requires T.Valid() && left <= 0
    ensures Exploded(T, bits, p, left, text) == Text(text, p)
  {
  }

  datatype Copy = Copy(dist: nat, n: nat, p: nat) | NoCopy

  /** The low bits of the distance, the code of its upper bits, the code of the length; the greatest
      length has eight more bits. */
  ghost function CopyAt(T: Trees, bits: seq<bool>, p: nat): (c: Copy)
    requires T.Valid()
    ensures c.Copy? ==> 1 <= c.dist <= 8192 && c.n >= 2
  {
    hide HasCode, Number, Pow2;
    var p1 := p + T.low;
    if !HasCode(T.ld, bits, p1) then NoCopy
    else
      var d := CodeAt(T.ld, bits, p1);
      var p2 := p1 + T.ld[d];
      LowBelow(bits, p, T.low);
      if !HasCode(T.ll, bits, p2) then NoCopy
      else
        var l := CodeAt(T.ll, bits, p2);
        var p3 := p2 + T.ll[l];
        var dist, n := d * Pow2(T.low) + Number(bits, p, T.low) + 1, l + T.Shortest();
        DistanceBound(d, T.low, Number(bits, p, T.low));
        if l == 63 then Copy(dist, n + Number(bits, p3, 8), p3 + 8) else Copy(dist, n, p3)
  }

  lemma LowBelow(bits: seq<bool>, p: nat, n: nat)
    ensures Number(bits, p, n) < Pow2(n)
  {
    BitsOfLsb(Ahead(bits, p, n));
  }

  lemma LowPowers()
    ensures Pow2(6) == 64 && Pow2(7) == 128
  {
  }

  lemma DistanceBound(d: nat, low: nat, v: nat)
    requires d < 64 && (low == 6 || low == 7) && v < Pow2(low)
    ensures d * Pow2(low) + v < 8192
  {
    hide Pow2;
    LowPowers();
  }

  // ---- Bits ahead ----

  lemma AheadSplits(bits: seq<bool>, p: nat, m: nat, n: nat)
    ensures Ahead(bits, p, m + n) == Ahead(bits, p, m) + Ahead(bits, p + m, n)
    ensures Ahead(bits, p, m + n)[..m] == Ahead(bits, p, m) && Ahead(bits, p, m + n)[m..] == Ahead(bits, p + m, n)
  {
  }

  lemma InvertedSplits(bs: seq<bool>, m: nat)
    requires m <= |bs|
    ensures Inverted(bs)[..m] == Inverted(bs[..m]) && Inverted(bs)[m..] == Inverted(bs[m..])
  {
  }

  lemma {:induction false} LsbOfInverted(bs: seq<bool>)
    ensures Lsb(Inverted(bs)) == Pow2(|bs|) - 1 - Lsb(bs)
  {
    if bs != [] {
      LsbOfInverted(bs[1..]);
      assert Inverted(bs)[1..] == Inverted(bs[1..]);
    }
  }

  /** A byte of the input; -1 behind its end. */
  function ByteAt(all: seq<int>, q: nat): int { if q < |all| then all[q] else -1 }

  lemma ByteRange(all: seq<int>, q: nat)
    requires AreBytes(all)
    ensures 0 <= ByteAt(all, q) % 256 < 256 && -1 <= ByteAt(all, q) < 256
    ensures q < |all| ==> ByteAt(all, q) % 256 == all[q]
    ensures q >= |all| ==> ByteAt(all, q) % 256 == 255
  {
  }

  lemma Ones()
    ensures BitsOf(255, 8) == [true, true, true, true, true, true, true, true]
  {
    assert BitsOf(15, 4) == [true, true, true, true];
  }

  lemma {:induction false} ByteAhead(all: seq<int>, q: nat)
    requires AreBytes(all)
    ensures 0 <= ByteAt(all, q) % 256 && Ahead(ByteBits(all), 8 * q, 8) == BitsOf(ByteAt(all, q) % 256, 8)
    decreases |all|
  {
    hide BitsOf;
    ByteRange(all, q);
    if all == [] {
      Ones();
      assert ByteBits(all) == [];
      assert Ahead([], 8 * q, 8) == [true, true, true, true, true, true, true, true];
    } else {
      assert ByteBits(all) == BitsOf(all[0], 8) + ByteBits(all[1..]);
      if q == 0 {
        assert Ahead(ByteBits(all), 0, 8) == BitsOf(all[0], 8);
      } else {
        ByteAhead(all[1..], q - 1);
        AheadBehind(BitsOf(all[0], 8), ByteBits(all[1..]), 8 * (q - 1), 8);
        assert ByteAt(all[1..], q - 1) == ByteAt(all, q);
      }
    }
  }

  lemma AheadBehind(first: seq<bool>, rest: seq<bool>, p: nat, n: nat)
    ensures Ahead(first + rest, |first| + p, n) == Ahead(rest, p, n)
  {
  }

  // ---- Input ----

  /** Of `left` bytes, `incnt` are in the buffer, which is filled with full blocks while there are any. */
  ghost predicate Buffered(pos: nat, left: nat, incnt: int) {
    && (incnt == 0 ==> left == 0 || pos % INBUF == 0)
    && (incnt > 0 ==> (incnt == left || (pos + incnt) % INBUF == 0) && 0 < pos % INBUF && pos % INBUF + incnt <= INBUF)
  }

  lemma NextInBuffer(pos: nat, left: nat, incnt: int)
    requires Buffered(pos, left, incnt) && 0 < incnt <= left
    ensures Buffered(pos + 1, left - 1, incnt - 1)
  {
    if incnt > 1 {
      DivModUnique(pos + 1, INBUF, pos / INBUF, pos % INBUF + 1);
    }
  }

  lemma NextBuffer(pos: nat, left: nat, incnt: int)
    requires pos % INBUF == 0 && left > 0 && incnt == if left > INBUF then INBUF else left
    ensures Buffered(pos + 1, left - 1, incnt - 1)
  {
    DivModUnique(pos + 1, INBUF, pos / INBUF, 1);
    DivModUnique(pos + INBUF, INBUF, pos / INBUF + 1, 0);
  }

  lemma NothingBuffered(pos: nat, incnt: int)
    requires incnt < 0
    ensures Buffered(pos, 0, incnt)
  {
  }

  lemma BufferEmpty(pos: nat, left: nat)
    requires Buffered(pos, left, 0) && left > 0
    ensures pos % INBUF == 0
  {
  }

  /** The compressed data of a file, read through a buffer (`NEXTBYTE` and `readbyte`). */
  class Source {
    const all: seq<int>
    var bytes: seq<int>  // not delivered yet
    var incnt: int       // bytes left in the buffer; below 0 after reading behind the end

    ghost predicate Valid()
      reads this
    {
      && AreBytes(all) && |bytes| <= |all| && bytes == all[|all| - |bytes|..] && incnt <= |bytes|
      && (incnt < 0 ==> bytes == [])
      && Buffered(|all| - |bytes|, |bytes|, incnt)
    }

    /** How many bytes have been asked for. */
    ghost function Asked(): nat
      reads this
      requires Valid()
    {
      |all| - |bytes| + if incnt < 0 then -incnt else 0
    }

    constructor (all: seq<int>)
      requires AreBytes(all)
      ensures Valid() && Asked() == 0 && this.all == all
    {
      this.all, bytes, incnt := all, all, 0;
    }

    method NextByte() returns (c: int)
      requires Valid()
      modifies this
      ensures Valid() && AreBytes(all) && Asked() == old(Asked()) + 1 && c == ByteAt(all, old(Asked()))
    {
      hide Buffered;
      ghost var pos, left, was := |all| - |bytes|, |bytes|, incnt;
      incnt := incnt - 1;
      if incnt >= 0 {
        NextInBuffer(pos, left, was);
        c, bytes := bytes[0], bytes[1..];
      } else if bytes == [] {
        c := -1;
        NothingBuffered(pos, incnt);
      } else {
        incnt := if |bytes| > INBUF then INBUF else |bytes|;
        BufferEmpty(pos, left);
        NextBuffer(pos, left, incnt);
        incnt := incnt - 1;
        c, bytes := bytes[0], bytes[1..];
      }
    }
  }

  // ---- The trees ----

  /** What the pairs from `q` to `q + m` list: so many codes of so many bits each. */
  ghost function Listed(all: seq<int>, q: nat, m: nat): (L: seq<int>)
    requires AreBytes(all)
    ensures |L| >= m && forall i :: 0 <= i < |L| ==> 1 <= L[i] <= BMAX
  {
    if m == 0 then []
    else
      var c := ByteAt(all, q + m - 1) % 256;
      Listed(all, q, m - 1) + Repeat(c % 16 + 1, c / 16 + 1)
  }

  /** The number of pairs: one more than the byte says, which is never less than one. */
  ghost function Pairs(all: seq<int>, q: nat): (m: nat)
    requires AreBytes(all)
    ensures m >= 1
  {
    ByteAt(all, q) % 256 + 1
  }

  /** The code lengths listed at `q`. */
  ghost function TreeAt(all: seq<int>, q: nat): seq<int>
    requires AreBytes(all)
  {
    Listed(all, q + 1, Pairs(all, q))
  }

  lemma {:induction false} ListedGrows(all: seq<int>, q: nat, m: nat, m': nat)
    requires AreBytes(all) && m <= m'
    ensures |Listed(all, q, m)| + (m' - m) <= |Listed(all, q, m')|
    decreases m'
  {
    if m < m' {
      ListedGrows(all, q, m, m' - 1);
    }
  }

  /** Behind the end of the input every pair stands for 16 codes of 16 bits. */
  lemma {:induction false} ListedBehindEnd(all: seq<int>, q: nat, m: nat)
    requires AreBytes(all) && q >= |all|
    ensures |Listed(all, q, m)| == 16 * m
  {
    if m > 0 {
      ListedBehindEnd(all, q, m - 1);
    }
  }

  /** `i = NEXTBYTE + 1` and `--i` of an unsigned number. */
  function Decremented(i: nat): nat { if i == 0 then 0xffff_ffff else i - 1 }

  /** A pair entered into the list. */
  method EnterCodes(l: array<int>, k0: nat, b: int, j0: nat) returns (k: nat)
    requires k0 + j0 <= l.Length && j0 > 0
    modifies l
    ensures k == k0 + j0 && l[..k] == old(l[..k0]) + Repeat(b, j0)
  {
    k := k0;
    var j := j0;
    while true
      invariant 0 < j <= j0 && k == k0 + j0 - j
      invariant l[..k] == old(l[..k0]) + Repeat(b, k - k0)
      decreases j
    {
      l[k] := b;
      assert l[..k + 1] == l[..k] + [b];
      k := k + 1;
      j := j - 1;
      if j == 0 {
        break;
      }
    }
  }

  lemma ListedNone(all: seq<int>, q: nat)
    requires AreBytes(all)
    ensures Listed(all, q, 0) == []
  {
  }

  lemma ListedStep(all: seq<int>, q: nat, m: nat, pair: int)
    requires AreBytes(all) && pair == ByteAt(all, q + m)
    ensures 0 <= pair % 16 < 16 && 0 <= pair / 16 % 16 < 16
    ensures Listed(all, q, m + 1) == Listed(all, q, m) + Repeat(pair % 16 + 1, pair / 16 % 16 + 1)
  {
    ByteRange(all, q + m);
    PairSizes(pair);
  }

  lemma StaysBehindEnd(all: seq<int>, q: nat, m: nat)
    requires AreBytes(all) && ByteAt(all, q) == -1
    ensures ByteAt(all, q + m) == -1
  {
  }

  lemma TooMany(all: seq<int>, q: nat, m: nat, c: int, n: nat)
    requires AreBytes(all) && c == ByteAt(all, q) && n <= 256
    requires |Listed(all, q + 1, m + 1)| > n && (c == -1 || m + 1 <= Pairs(all, q))
    ensures |TreeAt(all, q)| > n
  {
    if c == -1 {
      ListedBehindEnd(all, q + 1, 256);
    } else {
      ListedGrows(all, q + 1, m + 1, Pairs(all, q));
    }
  }

  lemma TreeEnds(all: seq<int>, q: nat, m: nat)
    requires AreBytes(all)
    ensures m == Pairs(all, q) ==> Listed(all, q + 1, m) == TreeAt(all, q)
  {
  }

  lemma PairSizes(c: int)
    requires -1 <= c < 256
    ensures c % 256 % 16 == c % 16 && c % 256 / 16 == c / 16 % 16 && 0 <= c % 16 < 16 && 0 <= c / 16 % 16 < 16
  {
  }

  /** `get_tree`: the code lengths come in pairs of a length and how many codes have it. */
  method GetTree(g: Source, l: array<int>, n: nat) returns (rc: int)
    requires g.Valid() && 0 < n <= l.Length == 256
    modifies g, l
    ensures g.Valid()
    ensures rc == if |TreeAt(g.all, old(g.Asked()))| == n then 0 else 4
    ensures rc == 0 ==>
        l[..n] == TreeAt(g.all, old(g.Asked())) && g.Asked() == old(g.Asked()) + 1 + Pairs(g.all, old(g.Asked()))
  {
    hide Source.Valid, Source.Asked, Listed, TreeAt, ByteAt, Repeat;
    ghost var q, m := g.Asked(), 0;
    var c := g.NextByte();
    ByteRange(g.all, q);
    var i: nat, k := c + 1, 0;
    ListedNone(g.all, q + 1);
    while true
      invariant g.Valid() && g.Asked() == q + 1 + m && k <= n && l[..k] == Listed(g.all, q + 1, m)
      invariant c == -1 ==> k == 16 * m && i == if m == 0 then 0 else 0x1_0000_0000 - m
      invariant c >= 0 ==> i == Pairs(g.all, q) - m && i > 0
      decreases n - k
    {
      var pair := g.NextByte();
      ListedStep(g.all, q + 1, m, pair);
      if c == -1 {
        StaysBehindEnd(g.all, q, m + 1);
      }
      var b, j := pair % 16 + 1, pair / 16 % 16 + 1;
      if k + j > n {
        TooMany(g.all, q, m, c, n);
        return 4;
      }
      k := EnterCodes(l, k, b, j);
      m := m + 1;
      i := Decremented(i);
      if i == 0 {
        break;
      }
    }
    TreeEnds(g.all, q, m);
    rc := if k != n then 4 else 0;
  }
}
