/** Bits of a stream, least significant bit of each byte first, and the numbers read from them. */
module Bits {
  import opened Arith

  function Pow2(n: nat): (r: nat)
    ensures r >= 1
  {
    if n == 0 then 1 else 2 * Pow2(n - 1)
  }

  lemma {:induction false} Pow2Adds(m: nat, n: nat)
    ensures Pow2(m + n) == Pow2(m) * Pow2(n)
  {
    if m > 0 {
      Pow2Adds(m - 1, n);
    }
  }

  lemma {:induction false} Pow2Monotone(m: nat, n: nat)
    requires m <= n
    ensures Pow2(m) <= Pow2(n)
    decreases n
  {
    if m < n {
      Pow2Monotone(m, n - 1);
    }
  }

  /** The `n` low bits of `v`, least significant first. */
  function BitsOf(v: nat, n: nat): (bs: seq<bool>)
    ensures |bs| == n
  {
    if n == 0 then [] else [v % 2 == 1] + BitsOf(v / 2, n - 1)
  }

  /** Bits as a number, the first the most significant: the order in which code bits arrive. */
  function Msb(bs: seq<bool>): nat {
    if bs == [] then 0 else 2 * Msb(bs[..|bs| - 1]) + if bs[|bs| - 1] then 1 else 0
  }

  function MsbBits(c: nat, n: nat): (bs: seq<bool>)
    ensures |bs| == n
  {
    if n == 0 then [] else MsbBits(c / 2, n - 1) + [c % 2 == 1]
  }

  lemma {:induction false} MsbOfBits(c: nat, n: nat)
    requires c < Pow2(n)
    ensures Msb(MsbBits(c, n)) == c
  {
    if n > 0 {
      MsbOfBits(c / 2, n - 1);
      assert MsbBits(c, n)[..n - 1] == MsbBits(c / 2, n - 1);
    }
  }

  lemma {:induction false} BitsOfMsb(bs: seq<bool>)
    ensures Msb(bs) < Pow2(|bs|) && MsbBits(Msb(bs), |bs|) == bs
  {
    if bs != [] {
      var r := bs[..|bs| - 1];
      BitsOfMsb(r);
      assert bs == r + [bs[|bs| - 1]];
    }
  }

  lemma MsbSnoc(bs: seq<bool>, b: bool)
    ensures Msb(bs + [b]) == 2 * Msb(bs) + if b then 1 else 0
  {
    assert (bs + [b])[..|bs|] == bs;
  }

  /** Cutting `n` bits short divides by the matching power of two. */
  lemma {:induction false} MsbPrefix(bs: seq<bool>, k: nat)
    requires k <= |bs|
    ensures Msb(bs[..k]) * Pow2(|bs| - k) <= Msb(bs) < (Msb(bs[..k]) + 1) * Pow2(|bs| - k)
    decreases |bs|
  {
    if k == |bs| {
      assert bs[..k] == bs;
    } else {
      var r := bs[..|bs| - 1];
      MsbPrefix(r, k);
      assert r[..k] == bs[..k];
      MulTwice(Msb(bs[..k]), Pow2(|r| - k));
      MulTwice(Msb(bs[..k]) + 1, Pow2(|r| - k));
    }
  }

  // ---- Splitting and joining bit buffers ----

  /** `v >> k` and `v & ((1 << k) - 1)` of a number that is not negative. */
  function Shr(v: nat, k: nat): nat
  {
    DivModBasics(v, Pow2(k));
    v / Pow2(k)
  }

  function Low(v: nat, k: nat): (r: nat)
    ensures r < Pow2(k)
  {
    v % Pow2(k)
  }

  lemma ShrLow(v: nat, k: nat)
    ensures v == Shr(v, k) * Pow2(k) + Low(v, k)
  {
    DivModBasics(v, Pow2(k));
  }

  lemma ShrLowUnique(v: nat, k: nat, q: nat, r: nat)
    requires v == q * Pow2(k) + r && r < Pow2(k)
    ensures Shr(v, k) == q && Low(v, k) == r
  {
    DivModUnique(v, Pow2(k), q, r);
  }

  lemma ShrBelow(v: nat, n: nat, k: nat)
    requires v < Pow2(n) && k <= n
    ensures Shr(v, k) < Pow2(n - k)
  {
    ShrLow(v, k);
    Pow2Adds(n - k, k);
    if Shr(v, k) >= Pow2(n - k) {
      MulMono(Pow2(n - k), Shr(v, k), Pow2(k));
    }
  }

  lemma ShrSmall(v: nat, k: nat)
    requires v < Pow2(k)
    ensures Shr(v, k) == 0 && Low(v, k) == v
  {
    ShrLowUnique(v, k, 0, v);
  }

  lemma {:induction false} BitsOfSplit(v: nat, n: nat, k: nat)
    requires k <= n
    ensures BitsOf(v, n)[..k] == BitsOf(Low(v, k), k)
    ensures BitsOf(v, n)[k..] == BitsOf(Shr(v, k), n - k)
    decreases k
  {
    if k == 0 {
      ShrLowUnique(v, 0, v, 0);
    } else {
      BitsOfSplit(v / 2, n - 1, k - 1);
      HalveModulo(v, Pow2(k - 1));
      assert BitsOf(v, n)[1..] == BitsOf(v / 2, n - 1);
      assert BitsOf(v, n)[..k] == [v % 2 == 1] + BitsOf(v / 2, n - 1)[..k - 1];
    }
  }

  lemma HalveModulo(v: nat, p: nat)
    requires p >= 1
    ensures (v % (2 * p)) / 2 == (v / 2) % p && (v % (2 * p)) % 2 == v % 2 && v / (2 * p) == (v / 2) / p
  {
    var q, r := (v / 2) / p, (v / 2) % p;
    var s := 2 * r + v % 2;
    assert v == 2 * (v / 2) + v % 2;
    assert v / 2 == q * p + r;
    assert v == q * (2 * p) + s && 0 <= s < 2 * p;
    DivModUnique(v, 2 * p, q, s);
  }

  lemma {:induction false} BitsOfJoin(v: nat, n: nat, b: nat, m: nat)
    requires v < Pow2(n)
    ensures BitsOf(v + b * Pow2(n), n + m) == BitsOf(v, n) + BitsOf(b, m)
    decreases n
  {
    var w := v + b * Pow2(n);
    if n == 0 {
      assert w == b;
    } else {
      assert b * Pow2(n) == 2 * (b * Pow2(n - 1));
      assert w % 2 == v % 2 && w / 2 == v / 2 + b * Pow2(n - 1);
      BitsOfJoin(v / 2, n - 1, b, m);
    }
  }

  /** The bits of a run of bytes. */
  function ByteBits(bytes: seq<int>): seq<bool>
    requires forall i :: 0 <= i < |bytes| ==> 0 <= bytes[i] < 256
  {
    if bytes == [] then [] else BitsOf(bytes[0], 8) + ByteBits(bytes[1..])
  }

  ghost predicate AreBytes(bytes: seq<int>) {
    forall i :: 0 <= i < |bytes| ==> 0 <= bytes[i] < 256
  }
}
