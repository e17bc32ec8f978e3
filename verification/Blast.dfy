/** The PKWARE DCL decompressor: bit input in chunks, canonical decoding, and the 4K window. */
module Blast {
  import opened Wrappers
  import opened Arith
  import opened Bits
  import opened BitBuffer
  import opened Canonical
  import opened Window

  const MAXBITS: nat := 13
  const MAXWIN: nat := 4096

  /** What `infun` will deliver: one chunk a call, an empty chunk or none at all being the end of input. */
  ghost function Coming(chunks: seq<seq<int>>): seq<int> {
    if chunks == [] || chunks[0] == [] then [] else chunks[0] + Coming(chunks[1..])
  }

  ghost predicate AreChunks(chunks: seq<seq<int>>) {
    forall i :: 0 <= i < |chunks| ==> AreBytes(chunks[i])
  }

  lemma {:induction false} ComingAreBytes(chunks: seq<seq<int>>)
    requires AreChunks(chunks)
    ensures AreBytes(Coming(chunks))
  {
    if chunks != [] && chunks[0] != [] {
      ComingAreBytes(chunks[1..]);
    }
  }

  class State {
    var chunks: seq<seq<int>>
    var input: seq<int>
    var bitbuf: int
    var bitcnt: int

    /** The bytes not yet taken into the bit buffer. */
    ghost function Rest(): seq<int>
      reads this
    {
      input + Coming(chunks)
    }

    /** Zero to seven bits are buffered. */
    ghost predicate Valid()
      reads this
    {
      && AreBytes(input) && AreChunks(chunks) && AreBytes(Rest())
      && 0 <= bitcnt < 8 && 0 <= bitbuf < Pow2(bitcnt)
    }

    /** The bits still to come. */
    ghost function Stream(): seq<bool>
      reads this
      requires Valid()
    {
      Pending(bitbuf, bitcnt, Rest())
    }

    constructor (chunks: seq<seq<int>>)
      requires AreChunks(chunks)
      ensures Valid() && Rest() == Coming(chunks) && Stream() == ByteBits(Coming(chunks))
    {
      this.chunks := chunks;
      input := [];
      bitbuf := 0;
      bitcnt := 0;
      ComingAreBytes(chunks);
    }

    /** The next input byte, through a refill if the chunk is used up. */
    method NextByte() returns (b: Option<int>)
      requires AreBytes(input) && AreChunks(chunks)
      modifies this`chunks, this`input
      ensures AreBytes(input) && AreChunks(chunks)
      ensures b == None <==> old(Rest()) == []
      ensures b.Some? ==> b.value == old(Rest())[0] && 0 <= b.value < 256 && Rest() == old(Rest())[1..]
      ensures b.None? ==> Rest() == []
    {
      if input == [] {
        if chunks == [] || chunks[0] == [] {
          return None;
        }
        input, chunks := chunks[0], chunks[1..];
        assert input + Coming(chunks) == old(Coming(chunks));
      }
      b := Some(input[0]);
      assert Rest() == [input[0]] + (input[1..] + Coming(chunks));
      input := input[1..];
    }

    /** Loads bytes above the buffered bits until there are at least `need`. */
    method Load(need: nat) returns (ok: bool, val: nat, cnt: nat)
      requires Valid()
      modifies this`chunks, this`input
      ensures AreBytes(input) && AreChunks(chunks) && AreBytes(Rest())
      ensures ok ==> need <= cnt && (cnt < 8 || cnt < need + 8) && val < Pow2(cnt)
      ensures ok ==> Pending(val, cnt, Rest()) == old(Stream())
      ensures !ok ==> |old(Stream())| < need
    {
      val, cnt := bitbuf, bitcnt;
      while cnt < need
        invariant AreBytes(input) && AreChunks(chunks) && AreBytes(Rest())
        invariant val < Pow2(cnt) && (cnt < 8 || cnt < need + 8)
        invariant Pending(val, cnt, Rest()) == old(Stream())
        decreases need - cnt
      {
        ghost var rest := Rest();
        var b := NextByte();
        if b.None? {
          assert ByteBits(rest) == [];
          return false, val, cnt;
        }
        TakeByte(val, cnt, rest, b.value);
        val := OrAbove(val, cnt, b.value);
        cnt := cnt + 8;
      }
      ok := true;
    }

    /** `need` bits from the stream, least significant first, or nothing when the input ends. */
    method GetBits(need: nat) returns (r: Option<int>)
      requires Valid()
      modifies this
      ensures r.Some? ==> Valid() && need <= |old(Stream())| && Stream() == old(Stream())[need..]
      ensures r.Some? ==> 0 <= r.value < Pow2(need) && BitsOf(r.value, need) == old(Stream())[..need]
      ensures r.None? ==> |old(Stream())| < need
    {
      var ok, val, cnt := Load(need);
      if !ok {
        return None;
      }
      DropBits(val, cnt, need, Rest());
      bitbuf := Shr(val, need);
      bitcnt := cnt - need;
      r := Some(Low(val, need));
    }
  }
}
