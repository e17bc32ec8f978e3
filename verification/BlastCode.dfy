/** The Huffman codes of the PKWARE DCL format: tables built from packed lengths, decoding bit by
    bit from a buffer that is refilled a byte at a time. Code bits are stored inverted. */
module BlastCode {
  import opened Wrappers
  import opened Arith
  import opened Bits
  import opened BitBuffer
  import opened Canonical
  import opened Blast

  // ---- Building the tables ----

  /** Each byte stands for `high nibble + 1` symbols of length `low nibble`. */
  function Unpack(rep: seq<int>): seq<int>
    requires AreBytes(rep)
  {
    if rep == [] then [] else Unpack(rep[..|rep| - 1]) + Repeat(rep[|rep| - 1] % 16, rep[|rep| - 1] / 16 + 1)
  }

  lemma {:induction false} UnpackGrows(rep: seq<int>, i: nat)
    requires AreBytes(rep) && i < |rep|
    ensures Unpack(rep[..i + 1]) == Unpack(rep[..i]) + Repeat(rep[i] % 16, rep[i] / 16 + 1)
    ensures |Unpack(rep[..i + 1])| <= |Unpack(rep)|
    decreases |rep|
  {
    assert rep[..i + 1][..i] == rep[..i];
    if i + 1 == |rep| {
      assert rep[..i + 1] == rep;
    } else {
      var r := rep[..|rep| - 1];
      UnpackGrows(r, i);
      assert r[..i + 1] == rep[..i + 1];
    }
  }

  class Huffman {
    const count: array<int>
    const symbol: array<int>

    constructor (symbols: nat)
      ensures fresh(count) && fresh(symbol) && count != symbol && count.Length == MAXBITS + 1
          && symbol.Length == symbols
    {
      count := new int[MAXBITS + 1];
      symbol := new int[symbols];
    }

    /** The tables of the canonical code with lengths `L`. */
    ghost predicate Built(L: seq<int>)
      reads count, symbol
    {
      && Bounded(L, MAXBITS)
      && count.Length == MAXBITS + 1
      && (forall k :: 0 <= k <= MAXBITS ==> count[k] == Count(L, k))
      && CodeOrder(L, symbol[..])
    }

    method UnpackLengths(rep: seq<int>) returns (length: array<int>, n: nat)
      requires AreBytes(rep) && |rep| >= 1 && |Unpack(rep)| <= 256
      ensures fresh(length) && n == |Unpack(rep)| <= length.Length && length[..n] == Unpack(rep)
    {
      length := new int[256];
      n := 0;
      var i := 0;
      while i < |rep|
        invariant 0 <= i <= |rep| && n == |Unpack(rep[..i])| <= 256
        invariant length[..n] == Unpack(rep[..i])
      {
        UnpackGrows(rep, i);
        ghost var done := Unpack(rep[..i]);
        var len, left := rep[i] % 16, rep[i] / 16 + 1;
        ghost var run := left;
        while left > 0
          invariant 0 <= left <= run && n == |done| + run - left
          invariant length[..n] == done + Repeat(len, run - left)
        {
          length[n] := len;
          n := n + 1;
          left := left - 1;
        }
        i := i + 1;
      }
      assert rep[..i] == rep;
    }

    method CountLengths(length: array<int>, n: nat, ghost L: seq<int>)
      requires n == |L| <= length.Length && length[..n] == L && Bounded(L, MAXBITS)
      requires count.Length == MAXBITS + 1 && count != length
      modifies count
      ensures forall k :: 0 <= k <= MAXBITS ==> count[k] == Count(L, k)
    {
      var len := 0;
      while len <= MAXBITS
        invariant 0 <= len <= MAXBITS + 1
        invariant forall k :: 0 <= k < len ==> count[k] == 0
      {
        count[len] := 0;
        len := len + 1;
      }
      var s := 0;
      while s < n
        invariant 0 <= s <= n && length[..n] == L
        invariant forall k :: 0 <= k <= MAXBITS ==> count[k] == CountTo(L, k, s)
      {
        assert length[s] == L[s];
        count[length[s]] := count[length[s]] + 1;
        s := s + 1;
      }
    }

    /** The codes left over: the first negative balance, or the final one. */
    method Balance(ghost L: seq<int>) returns (left: int)
      requires count.Length == MAXBITS + 1
      requires forall k :: 0 <= k <= MAXBITS ==> count[k] == Count(L, k)
      ensures left < 0 <==> Left(L, MAXBITS) < 0
      ensures left >= 0 ==> left == Left(L, MAXBITS)
    {
      left := 1;
      var len := 1;
      while len <= MAXBITS
        invariant 1 <= len <= MAXBITS + 1 && left == Left(L, len - 1) >= 0
      {
        LeftStep(L, len);
        left := left * 2;
        left := left - count[len];
        if left < 0 {
          LeftDrops(L, len, MAXBITS);
          return;
        }
        len := len + 1;
      }
    }

    method Offsets(ghost L: seq<int>) returns (offs: array<int>)
      requires count.Length == MAXBITS + 1 && forall k :: 0 <= k <= MAXBITS ==> count[k] == Count(L, k)
      ensures fresh(offs) && offs.Length == MAXBITS + 1
      ensures forall k :: 1 <= k <= MAXBITS ==> offs[k] == Offset(L, k)
    {
      offs := new int[MAXBITS + 1];
      offs[1] := 0;
      var len := 1;
      while len < MAXBITS
        invariant 1 <= len <= MAXBITS
        invariant forall k :: 1 <= k <= len ==> offs[k] == Offset(L, k)
      {
        offs[len + 1] := offs[len] + count[len];
        len := len + 1;
      }
    }

    /** Symbol `s` of length `len` goes to the next free place of its length. */
    method PutSymbol(s: nat, len: int, offs: array<int>, ghost L: seq<int>)
      requires s < |L| <= symbol.Length && Bounded(L, MAXBITS) && len == L[s]
      requires offs.Length == MAXBITS + 1 && offs != symbol
      requires forall k :: 1 <= k <= MAXBITS ==> offs[k] == Offset(L, k) + CountTo(L, k, s)
      requires Placed(L, symbol[..], s)
      modifies symbol, offs
      ensures forall k :: 1 <= k <= MAXBITS ==> offs[k] == Offset(L, k) + CountTo(L, k, s + 1)
      ensures Placed(L, symbol[..], s + 1)
    {
      ghost var table := symbol[..];
      PlaceSymbol(L, table, s);
      if len != 0 {
        assert offs[len] == Place(L, s);
        symbol[offs[len]] := s;
        assert symbol[..] == table[Place(L, s) := s];
        offs[len] := offs[len] + 1;
      }
    }

    method SortSymbols(length: array<int>, n: nat, ghost L: seq<int>)
      requires n == |L| <= length.Length && length[..n] == L && Bounded(L, MAXBITS)
      requires count.Length == MAXBITS + 1 && n <= symbol.Length && count != symbol && symbol != length
      requires forall k :: 0 <= k <= MAXBITS ==> count[k] == Count(L, k)
      modifies symbol
      ensures CodeOrder(L, symbol[..])
    {
      var offs := Offsets(L);
      var s := 0;
      while s < n
        invariant 0 <= s <= n && length[..n] == L
        invariant forall k :: 1 <= k <= MAXBITS ==> offs[k] == Offset(L, k) + CountTo(L, k, s)
        invariant Placed(L, symbol[..], s)
      {
        assert length[s] == L[s];
        PutSymbol(s, length[s], offs, L);
        s := s + 1;
      }
    }

    /** Tables for the packed lengths; zero for a full set of codes (or none at all), positive for
        an incomplete one, negative for an over-subscribed one, whose tables cannot be used. */
    method Construct(rep: seq<int>) returns (left: int)
      requires AreBytes(rep) && |rep| >= 1 && |Unpack(rep)| <= 256 && Bounded(Unpack(rep), MAXBITS)
      requires count.Length == MAXBITS + 1 && count != symbol && |Unpack(rep)| <= symbol.Length
      modifies count, symbol
      ensures left >= 0 ==> Built(Unpack(rep))
      ensures
        var L := Unpack(rep);
        if Count(L, 0) == |L| then left == 0
        else if KraftSum(L, MAXBITS, |L|) > Pow2(MAXBITS) then left < 0
        else left == Pow2(MAXBITS) - KraftSum(L, MAXBITS, |L|)
    {
      ghost var L := Unpack(rep);
      var length, n := UnpackLengths(rep);
      CountLengths(length, n, L);
      LeftIsKraft(L, MAXBITS, |L|);
      if count[0] == n {
        AllAbsent(L, |L|);
        return 0;
      }
      left := Balance(L);
      if left < 0 {
        return;
      }
      SortSymbols(length, n, L);
    }
  }

  // ---- Decoding ----

  /** Code bits are stored inverted. */
  function Invert(bs: seq<bool>): (r: seq<bool>)
    ensures |r| == |bs| && forall i :: 0 <= i < |bs| ==> r[i] == !bs[i]
  {
    if bs == [] then [] else Invert(bs[..|bs| - 1]) + [!bs[|bs| - 1]]
  }

  datatype Decoded = Symbol(value: int) | Invalid | OutOfInput

  /** The stream starts with the stored code of `s`. */
  ghost predicate Coded(L: seq<int>, stream: seq<bool>, s: int) {
    StartsWith(L, Invert(stream), s)
  }

  /** The decoder's variables before it takes bit number `len` of the stream. */
  ghost predicate Decoding(L: seq<int>, stream: seq<bool>, len: nat, code: int, first: int, index: int,
                           buf: nat, avail: nat, rest: seq<int>)
  {
    && 1 <= len && len - 1 <= |stream|
    && code == 2 * Msb(Invert(stream)[..len - 1]) && first == FirstCode(L, len) && index == Offset(L, len)
    && Past(L, Invert(stream), len - 1)
    && AreBytes(rest) && buf < Pow2(avail) && Pending(buf, avail, rest) == stream[len - 1..]
  }

  lemma NextBit(buf: nat, avail: nat, rest: seq<int>)
    requires AreBytes(rest) && buf < Pow2(avail) && avail > 0
    ensures buf / 2 < Pow2(avail - 1)
    ensures Pending(buf, avail, rest) == [buf % 2 == 1] + Pending(buf / 2, avail - 1, rest)
  {
  }

  lemma NoCodeYet(L: seq<int>, bs: seq<bool>, k: nat)
    requires k <= |bs| && Past(L, bs, k) && (k == |bs| || Bounded(L, k))
    ensures forall s :: !StartsWith(L, bs, s)
  {
    forall s | StartsWith(L, bs, s) ensures false {
      PastMeansNone(L, bs, k, s);
    }
  }

  lemma SplitHead(stream: seq<bool>, i: nat, b: bool, rest: seq<bool>)
    requires i <= |stream| && stream[i..] == [b] + rest
    ensures i < |stream| && stream[i] == b && stream[i + 1..] == rest
  {
    assert stream[i] == stream[i..][0];
    assert stream[i + 1..] == stream[i..][1..];
  }

  lemma MsbNext(bs: seq<bool>, len: nat)
    requires 1 <= len <= |bs|
    ensures Msb(bs[..len]) == 2 * Msb(bs[..len - 1]) + if bs[len - 1] then 1 else 0
  {
    assert bs[..len] == bs[..len - 1] + [bs[len - 1]];
    MsbSnoc(bs[..len - 1], bs[len - 1]);
  }

  /** Taking one bit: either the code is complete, or the search goes on at the next length. */
  lemma DecodeBit(L: seq<int>, stream: seq<bool>, len: nat, code: int, first: int, index: int,
                  buf: nat, avail: nat, rest: seq<int>, c: int, half: nat, count: int)
    returns (s: int)
    requires Decoding(L, stream, len, code, first, index, buf, avail, rest) && avail > 0
    requires c == code + 1 - buf % 2 && half == buf / 2 && count == Count(L, len)
    ensures half < Pow2(avail - 1) && len <= |stream|
    ensures AreBytes(rest) && Pending(half, avail - 1, rest) == stream[len..]
    ensures c < first + count ==> Coded(L, stream, s) && L[s] == len && index + (c - first) == Place(L, s)
    ensures c >= first + count ==>
      Decoding(L, stream, len + 1, 2 * c, 2 * (first + count), index + count, half, avail - 1, rest)
  {
    s := 0;
    NextBit(buf, avail, rest);
    var inv := Invert(stream);
    SplitHead(stream, len - 1, buf % 2 == 1, Pending(half, avail - 1, rest));
    MsbNext(inv, len);
    if c < first + count {
      s := CodeFound(L, inv, len);
    }
  }

  /** Where a decoder with `len - 1` bits behind it stands among the bytes: the bits left to look at
      are all that is buffered, unless the longest code ends before. */
  ghost predicate Buffered(cnt0: nat, len: nat, left: nat, avail: nat, refills: nat) {
    && 1 <= len <= MAXBITS + 1 && avail <= 8
    && avail == cnt0 + 8 * refills - (len - 1)
    && left == if avail <= MAXBITS + 1 - len then avail else MAXBITS + 1 - len
  }

  /** The decoder's local variables. */
  datatype Scan = Scan(buf: nat, left: nat, len: nat, code: int, first: int, index: int)

  ghost predicate Scanning(L: seq<int>, stream: seq<bool>, sc: Scan, cnt0: nat, avail: nat, refills: nat,
                           rest: seq<int>) {
    && Buffered(cnt0, sc.len, sc.left, avail, refills)
    && Decoding(L, stream, sc.len, sc.code, sc.first, sc.index, sc.buf, avail, rest)
  }

  /** Takes one bit from the buffer. */
  method DecodeStep(s: State, h: Huffman, sc: Scan, ghost cnt0: nat, ghost L: seq<int>, ghost stream: seq<bool>,
                    ghost avail: nat, ghost refills: nat)
    returns (sym: Option<int>, sc': Scan)
    requires h.Built(L) && s.bitcnt == cnt0 && AreBytes(s.input) && AreChunks(s.chunks)
    requires Scanning(L, stream, sc, cnt0, avail, refills, s.Rest()) && sc.left > 0
    modifies s`bitbuf, s`bitcnt
    ensures sym.Some? ==> Coded(L, stream, sym.value) && s.Valid() && s.Stream() == stream[L[sym.value]..]
    ensures sym.None? ==> s.bitcnt == cnt0 && sc'.left == sc.left - 1 && sc'.len == sc.len + 1
    ensures sym.None? ==> avail > 0 && Scanning(L, stream, sc', cnt0, avail - 1, refills, s.Rest())
  {
    hide Msb, Invert, Pending;
    var c, half, count := sc.code + 1 - sc.buf % 2, sc.buf / 2, h.count[sc.len];
    ghost var x := DecodeBit(L, stream, sc.len, sc.code, sc.first, sc.index, sc.buf, avail, s.Rest(), c, half, count);
    if c < sc.first + count {
      sym := Some(h.symbol[sc.index + (c - sc.first)]);
      s.bitbuf := half;
      s.bitcnt := (s.bitcnt - sc.len) % 8;
      ModuloEight(cnt0 - sc.len, avail - 1, refills);
      sc' := sc;
    } else {
      sym := None;
      sc' := Scan(half, sc.left - 1, sc.len + 1, 2 * c, 2 * (sc.first + count), sc.index + count);
    }
  }

  lemma ModuloEight(x: int, y: nat, k: nat)
    requires y == x + 8 * k && y < 8
    ensures x % 8 == y
  {
  }

  /** Looks at the bits in the buffer until a code is complete or the bits to look at run out. */
  method DecodeBuffered(s: State, h: Huffman, sc: Scan, ghost cnt0: nat, ghost L: seq<int>, ghost stream: seq<bool>,
                        ghost avail: nat, ghost refills: nat)
    returns (sym: Option<int>, sc': Scan, ghost avail': nat)
    requires h.Built(L) && s.bitcnt == cnt0 && AreBytes(s.input) && AreChunks(s.chunks)
    requires Scanning(L, stream, sc, cnt0, avail, refills, s.Rest())
    modifies s`bitbuf, s`bitcnt
    ensures sym.Some? ==> Coded(L, stream, sym.value) && s.Valid() && s.Stream() == stream[L[sym.value]..]
    ensures sym.None? ==> sc'.len == sc.len + sc.left <= MAXBITS + 1
    ensures sym.None? ==>
        s.bitcnt == cnt0 && sc'.left == 0 && Scanning(L, stream, sc', cnt0, avail', refills, s.Rest()) == true
  {
    sc', sym, avail' := sc, None, avail;
    while sc'.left > 0
      invariant s.bitcnt == cnt0 && AreBytes(s.input) && AreChunks(s.chunks)
      invariant Scanning(L, stream, sc', cnt0, avail', refills, s.Rest()) == true
      invariant sc'.len + sc'.left == sc.len + sc.left
      decreases sc'.left
    {
      sym, sc' := DecodeStep(s, h, sc', cnt0, L, stream, avail', refills);
      if sym.Some? {
        return;
      }
      avail' := avail' - 1;
    }
    sym := None;
  }

  /** Puts the next byte into the empty buffer. */
  method Refill(s: State, sc: Scan, ghost cnt0: nat, ghost L: seq<int>, ghost stream: seq<bool>, ghost avail: nat,
                ghost refills: nat)
    returns (ok: bool, sc': Scan)
    requires AreBytes(s.input) && AreChunks(s.chunks)
    requires Scanning(L, stream, sc, cnt0, avail, refills, s.Rest()) && sc.left == 0 && sc.len <= MAXBITS
    modifies s`chunks, s`input
    ensures AreBytes(s.input) && AreChunks(s.chunks)
    ensures ok ==> sc'.len == sc.len && sc'.left > 0 && Scanning(L, stream, sc', cnt0, 8, refills + 1, s.Rest())
    ensures !ok ==> |stream| < MAXBITS && forall x :: !Coded(L, stream, x)
  {
    ghost var rest := s.Rest();
    var left := MAXBITS + 1 - sc.len;
    var b := s.NextByte();
    if b.None? {
      ScanEnds(L, stream, sc, cnt0, avail, refills, rest);
      return false, sc;
    }
    ScanByte(L, stream, sc, cnt0, avail, refills, rest, b.value);
    ok, sc' := true, sc.(buf := b.value, left := if left > 8 then 8 else left);
  }

  /** A symbol if one of its codes starts the stream; no symbol only if none does. */
  method Decode(s: State, h: Huffman, ghost L: seq<int>) returns (r: Decoded)
    requires s.Valid() && h.Built(L)
    modifies s
    ensures r.Symbol? ==> Coded(L, old(s.Stream()), r.value) && s.Valid() && s.Stream() == old(s.Stream())[L[r.value]..]
    ensures !r.Symbol? ==> forall x :: !Coded(L, old(s.Stream()), x)
    ensures r.Invalid? ==> |old(s.Stream())| >= MAXBITS
    ensures r.OutOfInput? ==> |old(s.Stream())| < MAXBITS
  {
    hide Decoding, Buffered, Pending, Coded, StartsWith;
    ghost var stream, cnt0: nat := s.Stream(), s.bitcnt;
    var sc := Scan(s.bitbuf, s.bitcnt, 1, 0, 0, 0);
    ghost var avail: nat, refills: nat := s.bitcnt, 0;
    StartScan(L, stream, sc, cnt0, s.Rest());
    while true
      invariant h.Built(L) && s.bitcnt == cnt0 && AreBytes(s.input) && AreChunks(s.chunks)
      invariant Scanning(L, stream, sc, cnt0, avail, refills, s.Rest()) == true
      decreases MAXBITS + 1 - sc.len, sc.left == 0
    {
      var sym;
      sym, sc, avail := DecodeBuffered(s, h, sc, cnt0, L, stream, avail, refills);
      if sym.Some? {
        return Symbol(sym.value);
      }
      if sc.len == MAXBITS + 1 {
        break;
      }
      var ok;
      ok, sc := Refill(s, sc, cnt0, L, stream, avail, refills);
      if !ok {
        return OutOfInput;
      }
      avail, refills := 8, refills + 1;
    }
    ScanFails(L, stream, sc, cnt0, avail, refills, s.Rest());
    r := Invalid;
  }

  lemma StartScan(L: seq<int>, stream: seq<bool>, sc: Scan, cnt0: nat, rest: seq<int>)
    requires AreBytes(rest) && cnt0 < 8 && sc.buf < Pow2(cnt0) && stream == Pending(sc.buf, cnt0, rest)
    requires sc == Scan(sc.buf, cnt0, 1, 0, 0, 0)
    ensures Scanning(L, stream, sc, cnt0, cnt0, 0, rest)
  {
    assert Invert(stream)[..0] == [] && stream[0..] == stream;
  }

  lemma ScanEnds(L: seq<int>, stream: seq<bool>, sc: Scan, cnt0: nat, avail: nat, refills: nat, rest: seq<int>)
    requires Scanning(L, stream, sc, cnt0, avail, refills, rest)
    requires sc.left == 0 && sc.len <= MAXBITS && rest == []
    ensures |stream| == sc.len - 1 && forall x :: !Coded(L, stream, x)
  {
    assert |stream[sc.len - 1..]| == 0;
    NoCodeYet(L, Invert(stream), sc.len - 1);
  }

  lemma ScanFails(L: seq<int>, stream: seq<bool>, sc: Scan, cnt0: nat, avail: nat, refills: nat, rest: seq<int>)
    requires Scanning(L, stream, sc, cnt0, avail, refills, rest) && sc.len == MAXBITS + 1 && Bounded(L, MAXBITS)
    ensures |stream| >= MAXBITS && forall x :: !Coded(L, stream, x)
  {
    hide Pending, StartsWith;
    NoCodeYet(L, Invert(stream), MAXBITS);
  }

  lemma ScanByte(L: seq<int>, stream: seq<bool>, sc: Scan, cnt0: nat, avail: nat, refills: nat, rest: seq<int>, b: int)
    requires Scanning(L, stream, sc, cnt0, avail, refills, rest)
    requires sc.left == 0 && sc.len <= MAXBITS && rest != [] && b == rest[0]
    ensures 0 <= b < 256
    ensures Scanning(L, stream, sc.(buf := b, left := if MAXBITS + 1 - sc.len > 8 then 8 else MAXBITS + 1 - sc.len),
                     cnt0, 8, refills + 1, rest[1..])
  {
    hide Past, Msb, Invert, FirstCode, Offset, Pending, StartsWith;
    BytePower();
    assert avail == 0;
    NextPending(sc.buf, rest);
  }

  lemma NextPending(buf: nat, rest: seq<int>)
    requires AreBytes(rest) && rest != []
    ensures Pending(rest[0], 8, rest[1..]) == Pending(buf, 0, rest)
  {
    assert BitsOf(buf, 0) == [];
  }
}
