/** From sorted lines to equivalence classes: which old line falls into which class of equal new
    lines, and how the members of each class are listed. Arrays are used from index 1. */
module DiffClasses {
  import opened Arith
  import opened DiffSort

  // ---- Sorted lines as a rearrangement of the numbered file ----

  ghost function Numbered(values: seq<int>): (r: seq<Line>)
    ensures |r| == |values| && forall k :: 0 <= k < |r| ==> r[k] == Line(k + 1, values[k])
  {
    seq(|values|, k requires 0 <= k < |values| => Line(k + 1, values[k]))
  }

  /** Places 1 to `|values|` of `s` hold every numbered line exactly once. */
  ghost predicate Arranges(s: seq<Line>, values: seq<int>) {
    && |s| > |values|
    && (forall t :: 1 <= t <= |values| ==> 1 <= s[t].serial <= |values| && s[t].value == values[s[t].serial - 1])
    && (forall x :: 1 <= x <= |values| ==> Holds(s, values, x))
    && (forall t, u :: 1 <= t < u <= |values| ==> s[t] != s[u])
  }

  ghost predicate Holds(s: seq<Line>, values: seq<int>, x: int)
    requires |s| > |values| && 1 <= x <= |values|
  {
    exists t :: 1 <= t <= |values| && s[t] == Line(x, values[x - 1])
  }

  lemma {:induction false} CountAtMostOne(t: seq<Line>, x: Line)
    requires forall i, j :: 0 <= i < j < |t| ==> t[i] != t[j]
    ensures multiset(t)[x] <= 1
  {
    if t != [] {
      var r := t[..|t| - 1];
      assert t == r + [t[|t| - 1]];
      CountAtMostOne(r, x);
      if x == t[|t| - 1] {
        assert x !in r;
        assert x !in multiset(r);
      }
    }
  }

  lemma CountedTwice(s: seq<Line>, i: nat, j: nat)
    requires i < j < |s| && s[i] == s[j]
    ensures multiset(s)[s[i]] >= 2
  {
    assert s == s[..i] + [s[i]] + s[i + 1..j] + [s[j]] + s[j + 1..];
  }

  lemma RearrangedIsArranged(s: seq<Line>, values: seq<int>)
    requires |s| > |values| && multiset(s[1..|values| + 1]) == multiset(Numbered(values))
    ensures Arranges(s, values)
  {
    var r, t := s[1..|values| + 1], Numbered(values);
    forall i | 1 <= i <= |values| ensures 1 <= s[i].serial <= |values| && s[i].value == values[s[i].serial - 1] {
      assert r[i - 1] in multiset(r);
      assert s[i] in t;
    }
    forall x | 1 <= x <= |values| ensures Holds(s, values, x) {
      assert t[x - 1] in multiset(t);
      assert t[x - 1] in multiset(r);
      var i :| 0 <= i < |r| && r[i] == t[x - 1];
      assert s[i + 1] == Line(x, values[x - 1]);
    }
    forall i, j | 1 <= i < j <= |values| ensures s[i] != s[j] {
      if s[i] == s[j] {
        CountedTwice(r, i - 1, j - 1);
        CountAtMostOne(t, s[i]);
      }
    }
  }

  // ---- Classes ----

  /** The class number of a value: the first index in `b[1..m]` holding it, or 0. */
  ghost predicate IsClass(b: seq<Line>, m: nat, value: int, j: int)
    requires m < |b|
  {
    if j == 0 then forall t :: 1 <= t <= m ==> b[t].value != value
    else 1 <= j <= m && b[j].value == value && forall t :: 1 <= t < j ==> b[t].value < value
  }

  method AssignClasses(a: array<Line>, n: nat, b: array<Line>, m: nat)
    requires n < a.Length && m < b.Length && a != b
    requires Sorted(a[..], n) && Sorted(b[..], m)
    modifies a
    ensures forall i :: 1 <= i <= n ==>
        a[i].serial == old(a[i].serial) && IsClass(b[..], m, old(a[i].value), a[i].value)
  {
    var i, j := 1, 1;
    ghost var A := a[..];
    while i <= n && j <= m
      invariant 1 <= i <= n + 1 && 1 <= j <= m + 1
      invariant forall u :: i <= u <= n ==> a[u] == A[u]
      invariant forall u :: 1 <= u < i ==> a[u].serial == A[u].serial && IsClass(b[..], m, A[u].value, a[u].value)
      invariant forall t, u :: 1 <= t < j && i <= u <= n ==> b[t].value < A[u].value
      decreases n - i + m - j
    {
      if a[i].value < b[j].value {
        a[i] := a[i].(value := 0);
        i := i + 1;
      } else if a[i].value == b[j].value {
        a[i] := a[i].(value := j);
        i := i + 1;
      } else {
        j := j + 1;
      }
    }
    while i <= n
      invariant 1 <= i <= n + 1
      invariant i <= n ==> j == m + 1
      invariant forall u :: i <= u <= n ==> a[u] == A[u]
      invariant forall u :: 1 <= u < i ==> a[u].serial == A[u].serial && IsClass(b[..], m, A[u].value, a[u].value)
      invariant forall t, u :: 1 <= t < j && i <= u <= n ==> b[t].value < A[u].value
    {
      a[i] := a[i].(value := 0);
      i := i + 1;
    }
  }

  /** A member is listed by its serial number, negated when it opens its class. */
  ghost function Listed(b: seq<Line>, t: int): int
    requires 1 <= t < |b|
  {
    if t == 1 || b[t - 1].value != b[t].value then -b[t].serial else b[t].serial
  }

  method ListMembers(b: array<Line>, m: nat, c: array<int>)
    requires m + 1 < b.Length && m + 1 < c.Length
    requires forall t :: 1 <= t <= m ==> b[t].value != 0
    modifies b, c
    ensures forall t :: 1 <= t <= m ==> b[t] == old(b[t])
    ensures forall t :: 1 <= t <= m ==> c[t] == Listed(b[..], t)
    ensures c[m + 1] == -1
  {
    b[m + 1] := b[m + 1].(value := 0);
    ghost var b0 := b[..];
    var j := 1;
    while j <= m
      invariant 1 <= j <= m + 1 && b[..] == b0
      invariant forall t :: 1 <= t < j ==> c[t] == Listed(b[..], t)
      invariant 1 < j <= m ==> b[j - 1].value != b[j].value
    {
      c[j] := -b[j].serial;
      while b[j + 1].value == b[j].value
        invariant 1 <= j <= m && b[..] == b0
        invariant forall t :: 1 <= t <= j ==> c[t] == Listed(b[..], t)
        decreases m - j
      {
        j := j + 1;
        c[j] := b[j].serial;
      }
      j := j + 1;
    }
    c[j] := -1;
  }

  method Equiv(a: array<Line>, n: nat, b: array<Line>, m: nat, c: array<int>)
    requires n < a.Length && m + 1 < b.Length && m + 1 < c.Length && a != b
    requires Sorted(a[..], n) && Sorted(b[..], m)
    requires forall t :: 1 <= t <= m ==> b[t].value != 0
    modifies a, b, c
    ensures forall i :: 1 <= i <= n ==>
        a[i].serial == old(a[i].serial) && IsClass(old(b[..]), m, old(a[i].value), a[i].value)
    ensures forall t :: 1 <= t <= m ==> c[t] == Listed(old(b[..]), t)
    ensures c[m + 1] == -1
  {
    AssignClasses(a, n, b, m);
    ghost var b0 := b[..];
    ListMembers(b, m, c);
    forall t | 1 <= t <= m ensures c[t] == Listed(b0, t) {
      assert c[t] == Listed(b[..], t);
    }
  }

  method Unsort(f: array<Line>, l: nat, b: array<int>)
    requires l < f.Length && l < b.Length
    requires forall i :: 1 <= i <= l ==> 1 <= f[i].serial <= l
    requires forall i, k :: 1 <= i < k <= l && f[i].serial == f[k].serial ==> f[i].value == f[k].value
    modifies b
    ensures forall i :: 1 <= i <= l ==> b[f[i].serial] == f[i].value
  {
    var a := new int[l + 1];
    var i := 1;
    while i <= l
      invariant 1 <= i <= l + 1
      invariant forall k :: 1 <= k < i ==> a[f[k].serial] == f[k].value
    {
      a[f[i].serial] := f[i].value;
      i := i + 1;
    }
    i := 1;
    ghost var a0 := a[..];
    while i <= l
      invariant 1 <= i <= l + 1 && a[..] == a0
      invariant forall k :: 1 <= k < i ==> b[k] == a[k]
    {
      b[i] := a[i];
      i := i + 1;
    }
    assert forall k :: 1 <= k <= l ==> a[f[k].serial] == f[k].value;
  }

  // ---- What the tables mean ----

  ghost predicate Same(A: seq<int>, B: seq<int>, x: int, y: int) {
    1 <= x <= |A| && 1 <= y <= |B| && A[x - 1] == B[y - 1]
  }

  /** `member` lists each class of equal new lines in ascending order, its first member negated;
      `cls` leads each old line to the start of the class it equals, or to 0. */
  ghost predicate ClassTables(A: seq<int>, B: seq<int>, cls: seq<int>, member: seq<int>) {
    && |cls| > |A| && |member| > |B| + 1
    && (forall t :: 1 <= t <= |B| ==> 1 <= Abs(member[t]) <= |B|)
    && (forall x :: 1 <= x <= |A| ==> FirstMatch(A, B, x, cls[x], member))
    && (forall t :: 1 <= t <= |B| ==> NextMatch(B, t, member))
  }

  ghost predicate FirstMatch(A: seq<int>, B: seq<int>, x: int, j: int, member: seq<int>)
    requires |member| > |B| + 1
  {
    if j == 0 then forall y :: !Same(A, B, x, y)
    else
      1 <= j <= |B| && member[j] < 0 && Same(A, B, x, -member[j])
      && forall y :: y < -member[j] ==> !Same(A, B, x, y)
  }

  ghost predicate NextMatch(B: seq<int>, t: int, member: seq<int>)
    requires 1 <= t <= |B| && |member| > |B| + 1
  {
    var y, z := Abs(member[t]), member[t + 1];
    if z > 0
    then t < |B| && y < z && Same(B, B, y, z) && forall u :: y < u < z ==> !Same(B, B, y, u)
    else forall u :: y < u ==> !Same(B, B, y, u)
  }

  lemma SortedAt(s: seq<Line>, n: int, t: int, u: int)
    requires n < |s| && Sorted(s, n)
    ensures 1 <= t <= u <= n ==> Le(s[t], s[u])
  {
  }

  lemma PositionOf(s: seq<Line>, values: seq<int>, y: int) returns (t: int)
    requires Arranges(s, values) && 1 <= y <= |values|
    ensures 1 <= t <= |values| && s[t] == Line(y, values[y - 1])
  {
    assert Holds(s, values, y);
    t :| 1 <= t <= |values| && s[t] == Line(y, values[y - 1]);
  }

  /** Two adjacent places of the sorted lines have nothing between them. */
  lemma NothingBetween(s: seq<Line>, values: seq<int>, t: int, y: int)
    requires Arranges(s, values) && Sorted(s, |values|) && 1 <= t <= |values| && 1 <= y <= |values|
    requires Precedes(s[t], Line(y, values[y - 1]))
    ensures t < |values| && Le(s[t + 1], Line(y, values[y - 1]))
  {
    var u := PositionOf(s, values, y);
    SortedAt(s, |values|, u, t);
    SortedAt(s, |values|, t + 1, u);
  }

  lemma NothingBefore(s: seq<Line>, values: seq<int>, t: int, y: int)
    requires Arranges(s, values) && Sorted(s, |values|) && 1 <= t <= |values| && 1 <= y <= |values|
    requires Precedes(Line(y, values[y - 1]), s[t])
    ensures t > 1 && Le(Line(y, values[y - 1]), s[t - 1])
  {
    var u := PositionOf(s, values, y);
    SortedAt(s, |values|, t, u);
    SortedAt(s, |values|, u, t - 1);
  }

  lemma MembersAscend(s: seq<Line>, B: seq<int>, member: seq<int>, t: int)
    requires Arranges(s, B) && Sorted(s, |B|)
    requires |member| > |B| + 1 && 1 <= t <= |B|
    requires member[t] == Listed(s, t)
    requires member[t + 1] == if t < |B| then Listed(s, t + 1) else -1
    ensures 1 <= Abs(member[t]) <= |B| && NextMatch(B, t, member)
  {
    var y, z := Abs(member[t]), member[t + 1];
    assert y == s[t].serial && B[y - 1] == s[t].value;
    if t < |B| {
      assert Le(s[t], s[t + 1]) && s[t] != s[t + 1];
    }
    forall u | y < u && (z > 0 ==> u < z) ensures !Same(B, B, y, u) {
      if Same(B, B, y, u) {
        NothingBetween(s, B, t, u);
      }
    }
  }

  lemma ClassLeads(s: seq<Line>, A: seq<int>, B: seq<int>, member: seq<int>, x: int, j: int)
    requires Arranges(s, B) && Sorted(s, |B|)
    requires |member| > |B| + 1 && 1 <= x <= |A|
    requires forall t :: 1 <= t <= |B| ==> member[t] == Listed(s, t)
    requires IsClass(s, |B|, A[x - 1], j)
    ensures FirstMatch(A, B, x, j, member)
  {
    if j == 0 {
      forall y ensures !Same(A, B, x, y) {
        if Same(A, B, x, y) {
          var u := PositionOf(s, B, y);
        }
      }
    } else {
      assert member[j] == -s[j].serial;
      forall y | y < -member[j] ensures !Same(A, B, x, y) {
        if Same(A, B, x, y) {
          NothingBefore(s, B, j, y);
        }
      }
    }
  }
}
