/** A bit buffer: bytes enter above the bits already held, and bits leave at the bottom. */
module BitBuffer {
  import opened Arith
  import opened Bits

  /** A byte put above `cnt` buffered bits. */
  function OrAbove(val: nat, cnt: nat, b: nat): nat { val + b * Pow2(cnt) }

  /** Buffered bits and the bytes after them. */
  ghost function Pending(val: nat, cnt: nat, rest: seq<int>): seq<bool>
    requires AreBytes(rest)
  {
    BitsOf(val, cnt) + ByteBits(rest)
  }

  lemma TakeByte(val: nat, cnt: nat, rest: seq<int>, b: int)
    requires AreBytes(rest) && rest != [] && b == rest[0] && val < Pow2(cnt)
    ensures OrAbove(val, cnt, b) < Pow2(cnt + 8)
    ensures Pending(OrAbove(val, cnt, b), cnt + 8, rest[1..]) == Pending(val, cnt, rest)
  {
    hide Pow2, BitsOf;
    BytePower();
    BitsOfJoin(val, cnt, b, 8);
    Pow2Adds(cnt, 8);
    MulAdd(b, 1, Pow2(cnt));
    MulMono(b + 1, 256, Pow2(cnt));
  }

  lemma BytePower()
    ensures Pow2(8) == 256
  {
  }

  lemma DropBits(val: nat, cnt: nat, need: nat, rest: seq<int>)
    requires AreBytes(rest) && need <= cnt && val < Pow2(cnt)
    ensures Shr(val, need) < Pow2(cnt - need)
    ensures Pending(val, cnt, rest)[..need] == BitsOf(Low(val, need), need)
    ensures Pending(val, cnt, rest)[need..] == Pending(Shr(val, need), cnt - need, rest)
  {
    BitsOfSplit(val, cnt, need);
    ShrBelow(val, cnt, need);
    var bits, more := BitsOf(val, cnt), ByteBits(rest);
    assert (bits + more)[..need] == bits[..need];
    assert (bits + more)[need..] == bits[need..] + more;
  }
}
