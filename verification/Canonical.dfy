/** Canonical Huffman codes as RFC 1951, section 3.2.2 assigns them from code lengths alone:
    codes of one length are consecutive numbers in symbol order, and shorter codes come first. */
module Canonical {
  import opened Arith
  import opened Bits

  /** How many of the first `n` symbols have codes of length `k`. */
  function CountTo(L: seq<int>, k: int, n: nat): nat
    requires n <= |L|
  {
    if n == 0 then 0 else CountTo(L, k, n - 1) + if L[n - 1] == k then 1 else 0
  }

  function Count(L: seq<int>, k: int): nat { CountTo(L, k, |L|) }

  /** One past the last code of length `k` or, seen at length `k`, of any shorter one; `n` limits the symbols. */
  function EndTo(L: seq<int>, k: nat, n: nat): nat
    requires n <= |L|
  {
    if k == 0 then 0 else 2 * EndTo(L, k - 1, n) + CountTo(L, k, n)
  }

  function End(L: seq<int>, k: nat): nat { EndTo(L, k, |L|) }

  /** The first code of length `k`. */
  function FirstCode(L: seq<int>, k: nat): nat
    requires k > 0
  {
    2 * End(L, k - 1)
  }

  /** How many patterns of `k` bits no code of length up to `k` starts; negative when oversubscribed. */
  function Left(L: seq<int>, k: nat): int { Pow2(k) - End(L, k) }

  /** The position of a symbol among those of its length. */
  function Rank(L: seq<int>, s: nat): nat
    requires s < |L|
  {
    CountTo(L, L[s], s)
  }

  function Code(L: seq<int>, s: nat): nat
    requires s < |L| && L[s] > 0
  {
    FirstCode(L, L[s]) + Rank(L, s)
  }

  /** Where the symbols with codes of length `k` start when symbols are ordered by code. */
  function Offset(L: seq<int>, k: nat): nat {
    if k <= 1 then 0 else Offset(L, k - 1) + Count(L, k - 1)
  }

  ghost predicate Bounded(L: seq<int>, max: nat) {
    forall i :: 0 <= i < |L| ==> 0 <= L[i] <= max
  }

  /** The bits start with the code of `s`. */
  ghost predicate StartsWith(L: seq<int>, bs: seq<bool>, s: int) {
    0 <= s < |L| && 0 < L[s] <= |bs| && Msb(bs[..L[s]]) == Code(L, s)
  }

  // ---- Kraft sums ----

  /** The sum of `2^(g - length)` over all symbols that have a code: at most `2^g` for a decodable set. */
  function KraftSum(L: seq<int>, g: nat, n: nat): nat
    requires n <= |L|
  {
    if n == 0 then 0
    else KraftSum(L, g, n - 1) + if 1 <= L[n - 1] <= g then Pow2(g - L[n - 1]) else 0
  }

  lemma {:induction false} EndStep(L: seq<int>, g: nat, n: nat)
    requires n < |L|
    ensures EndTo(L, g, n + 1) == EndTo(L, g, n) + if 1 <= L[n] <= g then Pow2(g - L[n]) else 0
  {
    if g > 0 {
      EndStep(L, g - 1, n);
    }
  }

  lemma {:induction false} EndNone(L: seq<int>, g: nat)
    ensures EndTo(L, g, 0) == 0
  {
    if g > 0 {
      EndNone(L, g - 1);
    }
  }

  /** The decoder's running balance is the Kraft sum: zero left exactly when it is one. */
  lemma {:induction false} LeftIsKraft(L: seq<int>, g: nat, n: nat)
    requires n <= |L|
    ensures EndTo(L, g, n) == KraftSum(L, g, n)
    ensures n == |L| ==> Left(L, g) == Pow2(g) - KraftSum(L, g, n)
  {
    if n == 0 {
      EndNone(L, g);
    } else {
      LeftIsKraft(L, g, n - 1);
      EndStep(L, g, n - 1);
    }
  }

  lemma LeftStep(L: seq<int>, k: nat)
    requires k > 0
    ensures Left(L, k) == 2 * Left(L, k - 1) - Count(L, k)
  {
  }

  lemma {:induction false} EndGrows(L: seq<int>, k: nat, m: nat)
    requires k <= m
    ensures End(L, k) * Pow2(m - k) <= End(L, m)
    ensures k < m ==> End(L, k) * Pow2(m - k) <= FirstCode(L, m)
    decreases m
  {
    if k < m {
      EndGrows(L, k, m - 1);
      MulTwice(End(L, k), Pow2(m - 1 - k));
    }
  }

  /** Once too many codes, always too many. */
  lemma {:induction false} LeftDrops(L: seq<int>, k: nat, m: nat)
    requires k <= m
    ensures Left(L, k) <= 0 ==> Left(L, m) <= 0
    ensures Left(L, k) < 0 ==> Left(L, m) < 0
    decreases m
  {
    if k < m {
      LeftDrops(L, k, m - 1);
      LeftStep(L, m);
    }
  }

  // ---- Ranks ----

  lemma {:induction false} CountMonotone(L: seq<int>, k: int, m: nat, n: nat)
    requires m <= n <= |L|
    ensures CountTo(L, k, m) <= CountTo(L, k, n)
    decreases n
  {
    if m < n {
      CountMonotone(L, k, m, n - 1);
    }
  }

  lemma {:induction false} CountSkips(L: seq<int>, k: int, i: nat, j: nat)
    requires i <= j <= |L| && forall x :: i <= x < j ==> L[x] != k
    ensures CountTo(L, k, j) == CountTo(L, k, i)
    decreases j
  {
    if i < j {
      CountSkips(L, k, i, j - 1);
    }
  }

  lemma {:induction false} CountRuns(L: seq<int>, k: int, i: nat, j: nat)
    requires i <= j <= |L| && forall x :: i <= x < j ==> L[x] == k
    ensures CountTo(L, k, j) == CountTo(L, k, i) + j - i
    decreases j
  {
    if i < j {
      CountRuns(L, k, i, j - 1);
    }
  }

  lemma RankBelowCount(L: seq<int>, s: nat)
    requires s < |L|
    ensures Rank(L, s) < Count(L, L[s])
  {
    CountMonotone(L, L[s], s + 1, |L|);
  }

  lemma RankOrders(L: seq<int>, s: nat, t: nat)
    requires s < t < |L| && L[s] == L[t]
    ensures Rank(L, s) < Rank(L, t)
  {
    CountMonotone(L, L[s], s + 1, t);
  }

  /** The symbol of a given length and rank. */
  lemma {:induction false} SymbolOfRank(L: seq<int>, k: int, r: nat, n: nat) returns (s: nat)
    requires n <= |L| && r < CountTo(L, k, n)
    ensures s < n && L[s] == k && Rank(L, s) == r
  {
    if L[n - 1] == k && r == CountTo(L, k, n - 1) {
      s := n - 1;
    } else {
      s := SymbolOfRank(L, k, r, n - 1);
    }
  }

  // ---- No two codes start the same bits, and a full set leaves no bits without a code ----

  lemma NoShorterCode(L: seq<int>, bs: seq<bool>, k: nat, m: nat)
    requires 0 < k < m <= |bs|
    requires Msb(bs[..k]) < End(L, k)
    ensures Msb(bs[..m]) < FirstCode(L, m)
  {
    MsbPrefix(bs[..m], k);
    assert bs[..m][..k] == bs[..k];
    MulMono(Msb(bs[..k]) + 1, End(L, k), Pow2(m - k));
    EndGrows(L, k, m);
  }

  lemma PrefixFree(L: seq<int>, bs: seq<bool>, s: int, t: int)
    requires StartsWith(L, bs, s) && StartsWith(L, bs, t)
    ensures s == t
  {
    RankBelowCount(L, s);
    RankBelowCount(L, t);
    if L[s] < L[t] {
      NoShorterCode(L, bs, L[s], L[t]);
    } else if L[t] < L[s] {
      NoShorterCode(L, bs, L[t], L[s]);
    } else if s < t {
      RankOrders(L, s, t);
    } else if t < s {
      RankOrders(L, t, s);
    }
  }

  /** Bits whose first `k` form no code or beginning of one. */
  ghost predicate Past(L: seq<int>, bs: seq<bool>, k: nat)
    requires k <= |bs|
  {
    k == 0 || Msb(bs[..k]) >= End(L, k)
  }

  lemma CodeWithin(L: seq<int>, bs: seq<bool>, k: nat, s: int)
    requires StartsWith(L, bs, s) && L[s] <= k <= |bs|
    ensures Msb(bs[..k]) < End(L, k)
  {
    RankBelowCount(L, s);
    if L[s] < k {
      NoShorterCode(L, bs, L[s], k);
    }
  }

  lemma PastMeansNone(L: seq<int>, bs: seq<bool>, k: nat, s: int)
    requires k <= |bs| && Past(L, bs, k) && StartsWith(L, bs, s)
    ensures L[s] > k
  {
    if L[s] <= k {
      CodeWithin(L, bs, k, s);
    }
  }

  /** The first length at which the bits fall below the end of the codes is the length of their code. */
  lemma CodeFound(L: seq<int>, bs: seq<bool>, k: nat) returns (s: nat)
    requires 0 < k <= |bs| && Past(L, bs, k - 1) && !Past(L, bs, k)
    ensures s < |L| && L[s] == k && StartsWith(L, bs, s)
    ensures Msb(bs[..k]) >= FirstCode(L, k) && Rank(L, s) == Msb(bs[..k]) - FirstCode(L, k)
  {
    assert bs[..k][..k - 1] == bs[..k - 1];
    s := SymbolOfRank(L, k, Msb(bs[..k]) - FirstCode(L, k), |L|);
  }

  lemma AllLeft(L: seq<int>)
    ensures Left(L, 0) == 1
  {
  }

  /** A full set decodes every sufficiently long stream. */
  lemma {:induction false} FullSetDecodes(L: seq<int>, bs: seq<bool>, g: nat) returns (s: nat)
    requires g <= |bs| && Left(L, g) == 0
    ensures StartsWith(L, bs, s) && L[s] <= g
  {
    BitsOfMsb(bs[..g]);
    AllLeft(L);
    var k := 1;
    while Past(L, bs, k)
      invariant 1 <= k <= g && Past(L, bs, k - 1)
      decreases g - k
    {
      k := k + 1;
    }
    s := CodeFound(L, bs, k);
  }

  // ---- Symbols in code order ----

  ghost predicate CodeOrder(L: seq<int>, table: seq<int>) {
    forall s :: 0 <= s < |L| && L[s] > 0 ==> Place(L, s) < |table| && table[Place(L, s)] == s
  }

  function Place(L: seq<int>, s: nat): nat
    requires s < |L| && L[s] > 0
  {
    Offset(L, L[s]) + Rank(L, s)
  }

  lemma {:induction false} OffsetGrows(L: seq<int>, j: nat, k: nat)
    requires 0 < j < k
    ensures Offset(L, j) + Count(L, j) <= Offset(L, k)
  {
    if j < k - 1 {
      OffsetGrows(L, j, k - 1);
    }
  }

  lemma PlacesDiffer(L: seq<int>, s: nat, t: nat)
    requires s < t < |L| && L[s] > 0 && L[t] > 0
    ensures Place(L, s) != Place(L, t)
  {
    RankBelowCount(L, s);
    RankBelowCount(L, t);
    if L[s] < L[t] {
      OffsetGrows(L, L[s], L[t]);
    } else if L[t] < L[s] {
      OffsetGrows(L, L[t], L[s]);
    } else {
      RankOrders(L, s, t);
    }
  }

  /** The first `n` symbols are in their places. */
  ghost predicate Placed(L: seq<int>, table: seq<int>, n: nat)
    requires n <= |L|
  {
    forall t :: 0 <= t < n && L[t] > 0 ==> Place(L, t) < |table| && table[Place(L, t)] == t
  }

  lemma PlaceSymbol(L: seq<int>, table: seq<int>, s: nat)
    requires s < |L| <= |table| && Placed(L, table, s)
    ensures L[s] > 0 ==> Place(L, s) < |table| && Placed(L, table[Place(L, s) := s], s + 1)
    ensures L[s] <= 0 ==> Placed(L, table, s + 1)
  {
    if L[s] > 0 {
      PlaceBelow(L, s);
      forall t | 0 <= t < s && L[t] > 0 ensures Place(L, t) != Place(L, s) {
        PlacesDiffer(L, t, s);
      }
    }
  }

  lemma {:induction false} AllAbsent(L: seq<int>, n: nat)
    requires n <= |L|
    ensures CountTo(L, 0, n) <= n
    ensures CountTo(L, 0, n) == n ==> forall i :: 0 <= i < n ==> L[i] == 0
  {
    if n > 0 {
      AllAbsent(L, n - 1);
    }
  }

  /** How many of the first `n` symbols have a code shorter than `k`. */
  function Shorter(L: seq<int>, k: int, n: nat): nat
    requires n <= |L|
  {
    if n == 0 then 0 else Shorter(L, k, n - 1) + if 1 <= L[n - 1] < k then 1 else 0
  }

  lemma {:induction false} ShorterStep(L: seq<int>, k: int, n: nat)
    requires n <= |L| && k >= 1
    ensures Shorter(L, k + 1, n) == Shorter(L, k, n) + CountTo(L, k, n) <= n
    ensures Shorter(L, 1, n) == 0
  {
    if n > 0 {
      ShorterStep(L, k, n - 1);
    }
  }

  lemma {:induction false} OffsetIsShorter(L: seq<int>, k: nat)
    requires k >= 1
    ensures Offset(L, k) == Shorter(L, k, |L|)
    ensures Offset(L, k) + Count(L, k) <= |L|
  {
    ShorterStep(L, k, |L|);
    if k > 1 {
      OffsetIsShorter(L, k - 1);
      ShorterStep(L, k - 1, |L|);
    }
  }

  lemma PlaceBelow(L: seq<int>, s: nat)
    requires s < |L| && L[s] > 0
    ensures Place(L, s) < |L|
  {
    OffsetIsShorter(L, L[s]);
    RankBelowCount(L, s);
  }

  // ---- Filling up an incomplete set ----

  function Repeat(x: int, n: nat): (r: seq<int>)
    ensures |r| == n && forall i :: 0 <= i < n ==> r[i] == x
  {
    if n == 0 then [] else Repeat(x, n - 1) + [x]
  }

  lemma {:induction false} KraftOfPrefix(L: seq<int>, M: seq<int>, g: nat, n: nat)
    requires n <= |L| && n <= |M| && L[..n] == M[..n]
    ensures KraftSum(L, g, n) == KraftSum(M, g, n)
  {
    if n > 0 {
      assert L[..n][n - 1] == L[n - 1] && M[..n][n - 1] == M[n - 1];
      assert L[..n - 1] == L[..n][..n - 1] && M[..n - 1] == M[..n][..n - 1];
      KraftOfPrefix(L, M, g, n - 1);
    }
  }

  /** Codes of one length more. */
  lemma {:induction false} KraftOfRepeat(L: seq<int>, g: nat, l: nat, n: nat)
    requires 1 <= l <= g
    ensures KraftSum(L + Repeat(l, n), g, |L| + n) == KraftSum(L, g, |L|) + n * Pow2(g - l)
  {
    hide KraftSum, Pow2;
    var X := L + Repeat(l, n);
    if n == 0 {
      assert X == L;
    } else {
      KraftOfRepeat(L, g, l, n - 1);
      KraftOfPrefix(X, L + Repeat(l, n - 1), g, |L| + n - 1);
      KraftStep(X, g, l, |L| + n);
      MulAdd(n - 1, 1, Pow2(g - l));
    }
  }

  lemma KraftStep(L: seq<int>, g: nat, l: nat, n: nat)
    requires 1 <= l <= g && 0 < n <= |L| && L[n - 1] == l
    ensures KraftSum(L, g, n) == KraftSum(L, g, n - 1) + Pow2(g - l)
  {
  }

  lemma {:induction false} NoneAbsent(L: seq<int>, n: nat)
    requires n <= |L| && forall i :: 0 <= i < n ==> L[i] > 0
    ensures CountTo(L, 0, n) == 0
  {
    if n > 0 {
      NoneAbsent(L, n - 1);
    }
  }

  /** The set with `y` further codes of length `g`. */
  function Extended(L: seq<int>, g: int, y: nat): (X: seq<int>)
    ensures |X| == |L| + y && X[..|L|] == L && forall i :: |L| <= i < |X| ==> X[i] == g
  {
    L + Repeat(g, y)
  }

  lemma {:induction false} CountOfPrefix(L: seq<int>, X: seq<int>, k: int, n: nat)
    requires n <= |L| <= |X| && X[..|L|] == L
    ensures CountTo(X, k, n) == CountTo(L, k, n)
  {
    if n > 0 {
      CountOfPrefix(L, X, k, n - 1);
      assert X[n - 1] == X[..|L|][n - 1];
    }
  }

  lemma {:induction false} CountOfFillers(L: seq<int>, g: int, y: nat, k: int, n: nat)
    requires n <= y
    ensures CountTo(Extended(L, g, y), k, |L| + n) == Count(L, k) + if k == g then n else 0
  {
    var X := Extended(L, g, y);
    if n == 0 {
      CountOfPrefix(L, X, k, |L|);
    } else {
      CountOfFillers(L, g, y, k, n - 1);
      assert X[|L| + n - 1] == g;
    }
  }

  lemma {:induction false} EndOfExtended(L: seq<int>, g: nat, y: nat, k: nat)
    requires k <= g && 0 < g
    ensures End(Extended(L, g, y), k) == End(L, k) + if k == g then y else 0
  {
    if k > 0 {
      EndOfExtended(L, g, y, k - 1);
      CountOfFillers(L, g, y, k, y);
    }
  }

  lemma {:induction false} OffsetOfExtended(L: seq<int>, g: nat, y: nat, k: nat)
    requires k <= g
    ensures Offset(Extended(L, g, y), k) == Offset(L, k)
  {
    if k > 1 {
      OffsetOfExtended(L, g, y, k - 1);
      CountOfFillers(L, g, y, k - 1, y);
    }
  }

  /** Fillers leave the codes of the proper symbols alone. */
  lemma CodeOfExtended(L: seq<int>, g: nat, y: nat, s: nat)
    requires s < |L| && 0 < L[s] <= g
    ensures Extended(L, g, y)[s] == L[s]
    ensures Code(Extended(L, g, y), s) == Code(L, s)
  {
    var X := Extended(L, g, y);
    assert X[s] == X[..|L|][s];
    EndOfExtended(L, g, y, L[s] - 1);
    CountOfPrefix(L, X, L[s], s);
  }

  lemma StartsWithExtended(L: seq<int>, g: nat, y: nat, bs: seq<bool>, s: int)
    requires Bounded(L, g)
    ensures s < |L| ==> (StartsWith(L, bs, s) <==> StartsWith(Extended(L, g, y), bs, s))
  {
    if 0 <= s < |L| {
      assert Extended(L, g, y)[s] == Extended(L, g, y)[..|L|][s];
      if L[s] > 0 {
        CodeOfExtended(L, g, y, s);
      }
    }
  }
}
