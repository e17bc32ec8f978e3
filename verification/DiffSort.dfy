/** The shellsort that orders the hashed lines of each file. Arrays are used from index 1. */
module DiffSort {
  import opened Bits

  datatype Line = Line(serial: int, value: int)

  predicate Precedes(x: Line, y: Line) {
    x.value < y.value || (x.value == y.value && x.serial < y.serial)
  }

  predicate Le(x: Line, y: Line) { !Precedes(y, x) }

  /** Places 1 to `n` are in order. */
  ghost predicate Sorted(s: seq<Line>, n: int)
    requires n < |s|
  {
    forall i, j :: 1 <= i < j <= n ==> Le(s[i], s[j])
  }

  lemma ExchangeKeepsElements<T>(s: seq<T>, i: nat, j: nat)
    requires i < j < |s|
    ensures multiset(s[i := s[j]][j := s[i]]) == multiset(s)
  {
    assert s == s[..i] + [s[i]] + s[i + 1..j] + [s[j]] + s[j + 1..];
    assert s[i := s[j]][j := s[i]] == s[..i] + [s[j]] + s[i + 1..j] + [s[i]] + s[j + 1..];
  }

  /** `t` is `s` with places 1 to `n` reordered. */
  ghost predicate Reordered(s: seq<Line>, t: seq<Line>, n: nat) {
    |s| == |t| && n < |s| && multiset(t[1..n + 1]) == multiset(s[1..n + 1]) &&
    forall k :: 0 <= k < |s| && (k == 0 || n < k) ==> t[k] == s[k]
  }

  lemma NotReordered(s: seq<Line>, n: nat)
    requires n < |s|
    ensures Reordered(s, s, n)
  {
  }

  lemma ReorderedTwice(s: seq<Line>, t: seq<Line>, u: seq<Line>, n: nat)
    requires Reordered(s, t, n) && Reordered(t, u, n)
    ensures Reordered(s, u, n)
  {
  }

  lemma ExchangeReorders(s: seq<Line>, i: nat, j: nat, n: nat)
    requires 1 <= i < j <= n < |s|
    ensures Reordered(s, s[i := s[j]][j := s[i]], n)
  {
    var t, mid := s[i := s[j]][j := s[i]], s[1..n + 1];
    ExchangeKeepsElements(mid, i - 1, j - 1);
    assert t[1..n + 1] == mid[i - 1 := mid[j - 1]][j - 1 := mid[i - 1]];
  }

  method Exchange(a: array<Line>, i: nat, j: nat, n: nat)
    requires 1 <= i < j <= n < a.Length
    modifies a
    ensures a[..] == old(a[..])[i := old(a[j])][j := old(a[i])]
    ensures Reordered(old(a[..]), a[..], n) == true
  {
    hide Reordered;
    ExchangeReorders(a[..], i, j, n);
    var w := a[i];
    a[i] := a[j];
    a[j] := w;
  }

  /** Sorted up to `hi` except that the element at `gap + 1` may still have to move down. */
  ghost predicate SortedBut(s: seq<Line>, hi: int, gap: int) {
    forall u, v :: 1 <= u < v <= hi && v < |s| && v != gap + 1 ==> Le(s[u], s[v])
  }

  /** Everything behind the element at `p + 1` is no smaller. */
  ghost predicate Behind(s: seq<Line>, hi: int, p: int) {
    forall v :: p + 1 < v <= hi && 0 <= p + 1 && v < |s| ==> Le(s[p + 1], s[v])
  }

  lemma SinkOnce(s: seq<Line>, hi: int, p: int)
    requires 1 <= p < hi < |s| && p + 1 <= hi
    requires SortedBut(s, hi, p) && !Precedes(s[p], s[p + 1]) && Behind(s, hi, p)
    ensures
      var t := s[p := s[p + 1]][p + 1 := s[p]];
      SortedBut(t, hi, p - 1) && Behind(t, hi, p - 1)
  {
  }

  lemma OneMore(s: seq<Line>, j: int)
    requires 1 <= j && j + 1 < |s|
    ensures SortedBut(s, j, -1) ==> SortedBut(s, j + 1, j) && Behind(s, j + 1, j)
  {
  }

  lemma InPlace(s: seq<Line>, hi: int, p: int)
    requires 1 <= p < hi < |s| && SortedBut(s, hi, p) && Precedes(s[p], s[p + 1]) && Behind(s, hi, p)
    ensures SortedBut(s, hi, -1)
  {
  }

  lemma AtFront(s: seq<Line>, hi: int)
    ensures SortedBut(s, hi, 0) ==> SortedBut(s, hi, -1)
  {
  }

  /** One insertion with gap `m`: element `j + m` is exchanged downwards while it is out of order. */
  method Sift(a: array<Line>, j: nat, m: nat, n: nat)
    requires 1 <= j && 1 <= m && j + m <= n < a.Length
    modifies a
    ensures Reordered(old(a[..]), a[..], n) == true
    ensures m == 1 && SortedBut(old(a[..]), j, -1) ==> SortedBut(a[..], j + 1, -1)
  {
    hide SortedBut, Le, Precedes, Behind, Reordered;
    ghost var was := a[..];
    NotReordered(was, n);
    ghost var tidy := m == 1 && SortedBut(a[..], j, -1);
    OneMore(a[..], j);
    var p: int := j;
    while p > 0
      invariant p <= j
      invariant Reordered(was, a[..], n) == true
      invariant tidy ==> p >= 0 && SortedBut(a[..], j + 1, p) && Behind(a[..], j + 1, p)
    {
      if Precedes(a[p], a[p + m]) {
        if tidy {
          InPlace(a[..], j + 1, p);
        }
        break;
      }
      if tidy {
        SinkOnce(a[..], j + 1, p);
      }
      ghost var now := a[..];
      Exchange(a, p, p + m, n);
      ReorderedTwice(was, now, a[..], n);
      p := p - m;
    }
    AtFront(a[..], j + 1);
  }

  method Sort(a: array<Line>, n: nat)
    requires n < a.Length
    modifies a
    ensures Sorted(a[..], n)
    ensures multiset(a[1..n + 1]) == multiset(old(a[1..n + 1]))
    ensures forall k :: 0 <= k < a.Length && (k == 0 || n < k) ==> a[k] == old(a[k])
  {
    if n == 0 {
      return;
    }
    var m, j := 0, 1;
    ghost var e := 0;
    while j <= n
      invariant e >= 0 && j == Pow2(e) && m == j - 1
      invariant j > 1 ==> m <= 2 * n
      decreases 2 * n - j
    {
      m := 2 * j - 1;
      j := j * 2;
      e := e + 1;
    }
    assert e > 0;
    m := m / 2;
    e := e - 1;
    while m != 0
      invariant e >= 0 && m == Pow2(e) - 1 && m <= n
      invariant multiset(a[1..n + 1]) == multiset(old(a[1..n + 1]))
      invariant forall k :: 0 <= k < a.Length && (k == 0 || n < k) ==> a[k] == old(a[k])
      invariant m == 0 ==> SortedBut(a[..], n, -1)
      decreases m
    {
      var k := n - m;
      j := 1;
      while j <= k
        invariant 1 <= j <= k + 1
        invariant multiset(a[1..n + 1]) == multiset(old(a[1..n + 1]))
        invariant forall i :: 0 <= i < a.Length && (i == 0 || n < i) ==> a[i] == old(a[i])
        invariant m == 1 ==> SortedBut(a[..], j, -1)
      {
        Sift(a, j, m, n);
        j := j + 1;
      }
      m := m / 2;
      e := e - 1;
    }
  }
}
