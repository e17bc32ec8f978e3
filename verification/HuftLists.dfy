/** What `huft_build` works out before it makes tables: counts, bounds, offsets, and values in code order. */
module HuftLists {
  import opened Wrappers
  import opened Arith
  import opened Bits
  import opened Canonical
  import opened HuftBits
  import opened HuftTables
  import opened HuftWork

  const N_MAX: nat := 288

  /** Symbols below `simple` stand for themselves; the others are looked up in the lists. */
  datatype Lists = Lists(simple: nat, base: seq<int>, extra: seq<int>, nob: int, eob: int)

  ghost predicate Covers(lists: Lists, L: seq<int>) {
    forall s :: 0 <= s < |L| && L[s] > 0 && s >= lists.simple ==>
        s - lists.simple < |lists.base| && s - lists.simple < |lists.extra|
  }

  function EntryE(lists: Lists, s: nat): int
    requires s >= lists.simple ==> s - lists.simple < |lists.extra|
  {
    if s < lists.simple then (if s < 256 then lists.nob else lists.eob) else lists.extra[s - lists.simple]
  }

  function EntryN(lists: Lists, s: nat): int
    requires s >= lists.simple ==> s - lists.simple < |lists.base|
  {
    if s < lists.simple then s else lists.base[s - lists.simple]
  }

  /** `s` is the only symbol with a code, and that has one bit. */
  ghost predicate Lone(L: seq<int>, s: int) {
    0 <= s < |L| && L[s] == 1 && forall i :: 0 <= i < |L| && i != s ==> L[i] == 0
  }

  /** What entries for no code hold besides the mark: the value of a lone symbol, as nothing else has been
      there; for other sets nothing is said. */
  ghost function Leftover(L: seq<int>, lists: Lists): Option<int>
    requires Covers(lists, L)
  {
    if exists s :: Lone(L, s) then
      var s :| Lone(L, s);
      Some(EntryN(lists, s))
    else None
  }

  lemma LoneLeftover(L: seq<int>, lists: Lists, s: int)
    requires Covers(lists, L) && 0 <= s < |L| && L[s] > 0
    ensures Leftover(L, lists).Some? ==> Lone(L, s) && Leftover(L, lists) == Some(EntryN(lists, s))
    ensures Lone(L, s) ==> Leftover(L, lists).Some?
  {
  }

  /** The code set the tables decode: the given lengths, filled up with `y` codes of length `g`. */
  ghost predicate Full(code: CodeSet, L: seq<int>, lists: Lists, g: nat, y: nat) {
    && 0 < g <= BMAX && Bounded(L, g) && Covers(lists, L)
    && code.L == Extended(L, g, y) && code.reals == |L| && |code.es| == |code.ns| == |L|
    && (forall s :: 0 <= s < |L| && L[s] > 0 ==> code.es[s] == EntryE(lists, s) && code.ns[s] == EntryN(lists, s))
    && y == Left(L, g) && Count(code.L, g) > 0 && code.left == Leftover(L, lists) && Count(L, g) > 0
  }

  // ---- The tables of counts, offsets and values ----

  method CountLengths(L: seq<int>, c: array<nat>)
    requires Bounded(L, BMAX) && c.Length == BMAX + 1
    modifies c
    ensures forall k :: 0 <= k <= BMAX ==> c[k] == Count(L, k)
  {
    forall k | 0 <= k <= BMAX {
      c[k] := 0;
    }
    var n := 0;
    while n < |L|
      invariant 0 <= n <= |L|
      invariant forall k :: 0 <= k <= BMAX ==> c[k] == CountTo(L, k, n)
    {
      c[L[n]] := c[L[n]] + 1;
      n := n + 1;
    }
  }

  /** The shortest and the longest length in use. */
  method FindBounds(L: seq<int>, c: array<nat>) returns (k: nat, g: nat)
    requires Bounded(L, BMAX) && c.Length == BMAX + 1 && forall k :: 0 <= k <= BMAX ==> c[k] == Count(L, k)
    requires Count(L, 0) < |L|
    ensures 1 <= k <= g <= BMAX && Count(L, k) > 0 && Count(L, g) > 0
    ensures forall j :: 1 <= j < k || g < j <= BMAX ==> Count(L, j) == 0
    ensures Bounded(L, g)
  {
    var s := SomePresent(L, |L|);
    RankBelowCount(L, s);
    k := 1;
    while k <= BMAX && c[k] == 0
      invariant 1 <= k <= BMAX + 1
      invariant forall j :: 1 <= j < k ==> Count(L, j) == 0
    {
      k := k + 1;
    }
    g := BMAX;
    while g > 0 && c[g] == 0
      invariant 0 <= g <= BMAX
      invariant forall j :: g < j <= BMAX ==> Count(L, j) == 0
    {
      g := g - 1;
    }
    forall i | 0 <= i < |L| ensures L[i] <= g {
      RankBelowCount(L, i);
    }
  }

  lemma {:induction false} SomePresent(L: seq<int>, n: nat) returns (s: nat)
    requires n <= |L| && CountTo(L, 0, n) < n
    ensures s < n && L[s] != 0
  {
    if L[n - 1] != 0 {
      s := n - 1;
    } else {
      s := SomePresent(L, n - 1);
    }
  }

  lemma {:induction false} NoneShorter(L: seq<int>, k: nat)
    requires forall j :: 1 <= j <= k ==> Count(L, j) == 0
    ensures End(L, k) == 0
  {
    if k > 0 {
      NoneShorter(L, k - 1);
      assert Count(L, k) == 0;
    }
  }

  /** The patterns left over at the longest length, or nothing if some length has too many codes. */
  method Balance(L: seq<int>, c: array<nat>, k: nat, g: nat) returns (y: int)
    requires c.Length == BMAX + 1 && forall j :: 0 <= j <= BMAX ==> c[j] == Count(L, j)
    requires 1 <= k <= g <= BMAX && forall j :: 1 <= j < k ==> Count(L, j) == 0
    ensures y < 0 <==> Left(L, g) < 0
    ensures y >= 0 ==> y == Left(L, g)
  {
    NoneShorter(L, k - 1);
    y := Pow2(k);
    var j := k;
    while j < g
      invariant k <= j <= g && y == 2 * Left(L, j - 1)
    {
      LeftStep(L, j);
      y := y - c[j];
      if y < 0 {
        LeftDrops(L, j, g);
        return;
      }
      j := j + 1;
      y := y * 2;
    }
    LeftStep(L, g);
    y := y - c[g];
  }

  method StartingOffsets(L: seq<int>, c: array<nat>, x: array<nat>, g: nat)
    requires c.Length == BMAX + 1 && x.Length == BMAX + 1 && c != x && 1 <= g <= BMAX
    requires forall j :: 0 <= j < g ==> c[j] == Count(L, j)
    modifies x
    ensures forall k :: 1 <= k <= g ==> x[k] == Offset(L, k)
  {
    x[1] := 0;
    var j, k := 0, 1;
    while k < g
      invariant 1 <= k <= g && j == Offset(L, k)
      invariant forall i :: 1 <= i <= k ==> x[i] == Offset(L, i)
    {
      j := j + c[k];
      k := k + 1;
      x[k] := j;
    }
  }

  method PutValue(L: seq<int>, v: array<nat>, x: array<nat>, g: nat, s: nat)
    requires v.Length == N_MAX && x.Length == BMAX + 1 && v != x
    requires s < |L| <= N_MAX && 1 <= g <= BMAX && Bounded(L, g)
    requires forall k :: 1 <= k <= g ==> x[k] == Offset(L, k) + CountTo(L, k, s)
    requires Placed(L, v[..], s)
    modifies v, x
    ensures forall k :: 1 <= k <= g ==> x[k] == Offset(L, k) + CountTo(L, k, s + 1)
    ensures Placed(L, v[..], s + 1)
  {
    ghost var table := v[..];
    PlaceSymbol(L, table, s);
    var j := L[s];
    if j != 0 {
      assert x[j] == Place(L, s);
      v[x[j]] := s;
      assert v[..] == table[Place(L, s) := s];
      x[j] := x[j] + 1;
    }
  }

  /** Values in order of bit lengths; returns how many there are. */
  method SortValues(L: seq<int>, v: array<nat>, x: array<nat>, g: nat) returns (n: int)
    requires v.Length == N_MAX && x.Length == BMAX + 1 && v != x
    requires |L| <= N_MAX && 1 <= g <= BMAX && Bounded(L, g)
    requires forall k :: 1 <= k <= g ==> x[k] == Offset(L, k)
    modifies v, x
    ensures CodeOrder(L, v[..]) && n == Offset(L, g) + Count(L, g)
  {
    var s := 0;
    while s < |L|
      invariant 0 <= s <= |L|
      invariant forall k :: 1 <= k <= g ==> x[k] == Offset(L, k) + CountTo(L, k, s)
      invariant Placed(L, v[..], s)
    {
      PutValue(L, v, x, g, s);
      s := s + 1;
    }
    n := x[g];
  }

  // ---- Choosing the width of a table ----

  /** Patterns of `i` bits left over by codes of `k` to `i` bits, when `a` codes of `k` bits follow the present one. */
  ghost function Spare(c: seq<nat>, k: nat, a: nat, i: nat): int
    requires k <= i < |c|
    decreases i
  {
    if i == k then Pow2(k) - (a + 1) else 2 * Spare(c, k, a, i - 1) - c[i]
  }

  /** Patterns remain before the greatest length. */
  ghost predicate SpareUpTo(c: seq<nat>, k: nat, a: nat, g: nat) {
    g < |c| && forall i :: k <= i < g ==> Spare(c, k, a, i) > 0
  }

  /** A table for codes of `k` bits below the `w` bits already decoded: wide enough for the shortest
      of them, and for longer ones as far as `m` allows and codes are there to use the bits. `a` codes
      of `k` bits follow the present one. */
  method ChooseWidth(c: array<nat>, k: nat, w: nat, a: nat, g: nat, m: nat, el: nat) returns (j: nat)
    requires c.Length == BMAX + 1 && w < k <= g <= BMAX
    requires k == g ==> Pow2(k - w) <= a + 1
    ensures 1 <= j && w + j <= g && (w < el ==> w + j <= el)
    ensures w == 0 && m >= g && el >= g && SpareUpTo(c[..], k, a, g) ==> j == g
  {
    ghost var counts := c[..];
    ghost var wide := w == 0 && m >= g && el >= g && SpareUpTo(counts, k, a, g);
    var z := if g - w > m then m else g - w;
    j := k - w;
    var f := Pow2(j);
    if f > a + 1 {
      f := f - (a + 1);
      var xp := k;
      j := j + 1;
      while j < z
        invariant k - w < j <= g - w && xp == w + j - 1
        invariant wide ==> f == Spare(counts, k, a, xp)
        decreases z - j
      {
        xp := xp + 1;
        f := f * 2;
        if f <= c[xp] {
          break;
        }
        f := f - c[xp];
        j := j + 1;
      }
    }
    if w + j > el && w < el {
      j := el - w;
    }
  }
}
