/** Trial division along a wheel of 48 spokes, the residues modulo 210 that 2, 3, 5 and 7 do not divide. */
module Factor {
  import opened Arith

  ghost predicate Divides(d: int, n: int) {
    d != 0 && exists k :: n == d * k
  }

  lemma DividesIsMod(d: int, n: int)
    requires d > 0
    ensures Divides(d, n) <==> n % d == 0
  {
    if Divides(d, n) {
      var k :| n == d * k;
      DivModUnique(n, d, k, 0);
    }
    if n % d == 0 {
      assert n == d * (n / d);
    }
  }

  lemma DividesThrough(a: int, b: int, c: int)
    requires Divides(a, b) && Divides(b, c)
    ensures Divides(a, c)
  {
    var k :| b == a * k;
    var m :| c == b * m;
    MulAssoc(a, k, m);
    assert c == a * (k * m);
  }

  ghost predicate Prime(p: int) {
    p >= 2 && forall d :: 2 <= d < p ==> !Divides(d, p)
  }

  function Product(ps: seq<int>): int {
    if ps == [] then 1 else Product(ps[..|ps| - 1]) * ps[|ps| - 1]
  }

  ghost predicate Sorted(ps: seq<int>) {
    forall i, j :: 0 <= i < j < |ps| ==> ps[i] <= ps[j]
  }

  ghost predicate AllPrime(ps: seq<int>) {
    forall p :: p in ps ==> Prime(p)
  }

  /** No number from 2 up to before `t` divides `n`. */
  ghost predicate NoneBelow(n: int, t: int) {
    forall d :: 2 <= d < t ==> !Divides(d, n)
  }

  /** Factors found so far: primes in order, none above `t`, and `n` is what is left of `m`. */
  ghost predicate Found(ps: seq<int>, m: int, n: int, t: int) {
    AllPrime(ps) && Sorted(ps) && (forall p :: p in ps ==> p <= t) && Product(ps) * n == m && n >= 1
  }

  // ---- The wheel ----

  /** The table of steps from spoke to spoke. */
  function Tab(i: nat): int {
    if i == 0 then 10 else if i == 1 then 2 else if i == 2 then 4 else if i == 3 then 2 else if i == 4 then 4
        else if i == 5 then 6 else
    if i == 6 then 2 else if i == 7 then 6 else if i == 8 then 4 else if i == 9 then 2 else if i == 10 then 4
        else if i == 11 then 6 else
    if i == 12 then 6 else if i == 13 then 2 else if i == 14 then 6 else if i == 15 then 4 else if i == 16 then 2
        else if i == 17 then 6 else
    if i == 18 then 4 else if i == 19 then 6 else if i == 20 then 8 else if i == 21 then 4 else if i == 22 then 2
        else if i == 23 then 4 else
    if i == 24 then 2 else if i == 25 then 4 else if i == 26 then 8 else if i == 27 then 6 else if i == 28 then 4
        else if i == 29 then 6 else
    if i == 30 then 2 else if i == 31 then 4 else if i == 32 then 6 else if i == 33 then 2 else if i == 34 then 6
        else if i == 35 then 6 else
    if i == 36 then 4 else if i == 37 then 2 else if i == 38 then 4 else if i == 39 then 6 else if i == 40 then 2
        else if i == 41 then 6 else
    if i == 42 then 4 else if i == 43 then 2 else if i == 44 then 4 else if i == 45 then 2 else if i == 46 then 10
        else 2
  }

  /** The number at which the wheel stands after step `i` of its first turn. */
  function Spoke(i: nat): int {
    if i == 0 then 11 else if i == 1 then 13 else if i == 2 then 17 else if i == 3 then 19 else if i == 4 then 23
        else if i == 5 then 29 else
    if i == 6 then 31 else if i == 7 then 37 else if i == 8 then 41 else if i == 9 then 43 else if i == 10 then 47
        else if i == 11 then 53 else
    if i == 12 then 59 else if i == 13 then 61 else if i == 14 then 67 else if i == 15 then 71 else if i == 16 then 73
        else if i == 17 then 79 else
    if i == 18 then 83 else if i == 19 then 89 else if i == 20 then 97 else if i == 21 then 101 else if i == 22 then 103
        else if i == 23 then 107 else
    if i == 24 then 109 else if i == 25 then 113 else if i == 26 then 121 else if i == 27 then 127
        else if i == 28 then 131 else if i == 29 then 137 else
    if i == 30 then 139 else if i == 31 then 143 else if i == 32 then 149 else if i == 33 then 151
        else if i == 34 then 157 else if i == 35 then 163 else
    if i == 36 then 167 else if i == 37 then 169 else if i == 38 then 173 else if i == 39 then 179
        else if i == 40 then 181 else if i == 41 then 187 else
    if i == 42 then 191 else if i == 43 then 193 else if i == 44 then 197 else if i == 45 then 199
        else if i == 46 then 209 else 211
  }

  predicate SmallFactor(r: int) {
    r % 2 == 0 || r % 3 == 0 || r % 5 == 0 || r % 7 == 0
  }

  /** All numbers strictly between `at` and `at + width`, where no step is wider than 10. */
  predicate Skippable(at: int, width: int) {
    && 0 < width <= 10
    && (width > 1 ==> SmallFactor(at + 1)) && (width > 2 ==> SmallFactor(at + 2)) && (width > 3 ==> SmallFactor(at + 3))
    && (width > 4 ==> SmallFactor(at + 4)) && (width > 5 ==> SmallFactor(at + 5)) && (width > 6 ==> SmallFactor(at + 6))
    && (width > 7 ==> SmallFactor(at + 7)) && (width > 8 ==> SmallFactor(at + 8)) && (width > 9 ==> SmallFactor(at + 9))
  }

  lemma FirstQuarter(i: nat)
    requires 0 <= i < 12
    ensures Skippable(Spoke(i) - Tab(i), Tab(i))
  {
  }

  lemma SecondQuarter(i: nat)
    requires 12 <= i < 24
    ensures Skippable(Spoke(i) - Tab(i), Tab(i))
  {
  }

  lemma ThirdQuarter(i: nat)
    requires 24 <= i < 36
    ensures Skippable(Spoke(i) - Tab(i), Tab(i))
  {
  }

  lemma FourthQuarter(i: nat)
    requires 36 <= i < 48
    ensures Skippable(Spoke(i) - Tab(i), Tab(i))
  {
  }

  /** No number between two spokes can be prime, unless it is 2, 3, 5 or 7. */
  lemma WheelIsFine(i: nat)
    requires i < 48
    ensures Skippable(Spoke(i) - Tab(i), Tab(i))
  {
    hide Skippable, Spoke, Tab;
    if i < 12 {
      FirstQuarter(i);
    } else if i < 24 {
      SecondQuarter(i);
    } else if i < 36 {
      ThirdQuarter(i);
    } else {
      FourthQuarter(i);
    }
  }

  lemma WheelTurns(i: nat)
    requires i < 48
    ensures if i < 47 then Spoke(i) + Tab(i + 1) == Spoke(i + 1) else Spoke(i) + Tab(0) == Spoke(0) + 210
  {
  }

  // ---- Dividing ----

  lemma SmallFactorDivides(u: int)
    requires SmallFactor(u) && u > 0
    ensures exists q :: q in {2, 3, 5, 7} && Divides(q, u)
  {
    DividesIsMod(2, u);
    DividesIsMod(3, u);
    DividesIsMod(5, u);
    DividesIsMod(7, u);
    assert Divides(2, u) || Divides(3, u) || Divides(5, u) || Divides(7, u);
    assert 2 in {2, 3, 5, 7} && 3 in {2, 3, 5, 7} && 5 in {2, 3, 5, 7} && 7 in {2, 3, 5, 7};
  }

  /** A number with a divisor already tried need not be tried. */
  lemma Skip(n: int, t: int)
    requires t >= 8 && NoneBelow(n, t) && SmallFactor(t)
    ensures NoneBelow(n, t + 1)
  {
    SmallFactorDivides(t);
    var q :| q in {2, 3, 5, 7} && Divides(q, t);
    if Divides(t, n) {
      DividesThrough(q, t, n);
    }
  }

  /** The wheel stands at `t`. */
  ghost predicate OnSpoke(t: int, i: nat) {
    i < 48 && exists turns: nat :: t == Spoke(i) + 210 * turns
  }

  lemma SmallFactorTurns(r: int, turns: int)
    ensures SmallFactor(r) == SmallFactor(r + 210 * turns)
  {
    TurnMod(r, turns, 2, 105);
    TurnMod(r, turns, 3, 70);
    TurnMod(r, turns, 5, 42);
    TurnMod(r, turns, 7, 30);
  }

  lemma TurnMod(r: int, turns: int, d: int, e: int)
    requires d > 0 && d * e == 210
    ensures r % d == (r + 210 * turns) % d
  {
    DivModBasics(r, d);
    MulAssoc(d, e, turns);
    MulAdd(r / d, e * turns, d);
    DivModUnique(r + 210 * turns, d, r / d + e * turns, r % d);
  }

  /** From spoke to spoke, nothing is missed. */
  lemma NextSpoke(n: int, t: int, i: nat)
    requires OnSpoke(t, i) && t >= 11 && NoneBelow(n, t + 1)
    ensures
      var i' := if i + 1 == 48 then 0 else i + 1;
      OnSpoke(t + Tab(i'), i') && Tab(i') > 0 && NoneBelow(n, t + Tab(i'))
  {
    hide Spoke, Tab, NoneBelow, SmallFactor;
    var turns: nat :| t == Spoke(i) + 210 * turns;
    var i' := if i + 1 == 48 then 0 else i + 1;
    WheelTurns(i);
    WheelIsFine(i');
    FirstTurn();
    var at, more := Spoke(i') - Tab(i'), if i + 1 == 48 then turns + 1 else turns;
    assert t == at + 210 * more;
    var k := 1;
    while k < Tab(i')
      invariant 1 <= k <= Tab(i') && NoneBelow(n, t + k)
    {
      assert SmallFactor(at + k) by { Skipped(at, Tab(i'), k); }
      SmallFactorTurns(at + k, more);
      assert at + k + 210 * more == t + k;
      Skip(n, t + k);
      k := k + 1;
    }
    assert t + Tab(i') == Spoke(i') + 210 * more;
  }

  lemma FirstTurn()
    ensures Spoke(0) == 11 && Spoke(2) == 17
  {
  }

  lemma Skipped(at: int, width: int, k: int)
    requires Skippable(at, width) && 0 < k < width
    ensures SmallFactor(at + k)
  {
  }

  /** A divisor with no smaller divisor in it is prime. */
  lemma LeastDivisorPrime(n: int, t: int)
    requires t >= 2 && NoneBelow(n, t) && Divides(t, n)
    ensures Prime(t)
  {
    forall d | 2 <= d < t ensures !Divides(d, t) {
      if Divides(d, t) {
        DividesThrough(d, t, n);
      }
    }
  }

  /** What remains below the square of the next candidate is prime or 1. */
  lemma RestIsPrime(n: int, t: int)
    requires t >= 2 && NoneBelow(n, t) && 1 < n < t * t
    ensures Prime(n) && n >= t
  {
    DividesSelf(n);
    forall d | 2 <= d < n ensures !Divides(d, n) {
      if Divides(d, n) {
        var k :| n == d * k;
        Cofactor(n, d, k);
        if d >= t {
          assert k < t by {
            if k >= t {
              MulMono(t, d, t);
              MulMono(t, k, d);
            }
          }
          assert Divides(k, n);
        }
      }
    }
  }

  lemma DividesSelf(n: int)
    requires n > 0
    ensures Divides(n, n) && Divides(1, n)
  {
    assert n == n * 1 && n == 1 * n;
  }

  lemma Cofactor(n: int, d: int, k: int)
    requires n == d * k && 2 <= d < n
    ensures 2 <= k < n && n == k * d
  {
    if k <= 0 {
      MulMono(k, 0, d);
    } else {
      assert k != 1;
      MulMono(2, d, k);
    }
  }

  lemma Take(ps: seq<int>, m: int, n: int, t: int)
    requires Found(ps, m, n, t) && NoneBelow(n, t) && t >= 2 && n % t == 0
    ensures Found(ps + [t], m, n / t, t) && NoneBelow(n / t, t) && 1 <= n / t < n
  {
    hide Product;
    DividesIsMod(t, n);
    LeastDivisorPrime(n, t);
    var q := n / t;
    assert n == t * q;
    if q <= 0 {
      MulMono(q, 0, t);
    }
    MulMono(2, t, q);
    ProductMore(ps, t);
    SortedMore(ps, t);
    MulAssoc(Product(ps), t, q);
    assert Divides(q, n) by {
      assert n == q * t;
    }
    forall d | 2 <= d < t ensures !Divides(d, q) {
      if Divides(d, q) {
        DividesThrough(d, q, n);
      }
    }
    forall p | p in ps + [t] ensures Prime(p) && p <= t {
    }
  }

  lemma SortedMore(ps: seq<int>, x: int)
    requires Sorted(ps) && forall p :: p in ps ==> p <= x
    ensures Sorted(ps + [x])
  {
    forall i, j | 0 <= i < j < |ps| + 1 ensures (ps + [x])[i] <= (ps + [x])[j] {
      assert ps[i] in ps;
    }
  }

  lemma ProductMore(ps: seq<int>, p: int)
    ensures Product(ps + [p]) == Product(ps) * p
  {
    assert (ps + [p])[..|ps|] == ps;
  }

  /** A square root that is not too small: `t * t <= n` implies `t <= v`. */
  predicate RootOf(v: int, n: int) {
    v >= 0 && n < (v + 1) * (v + 1)
  }

  /** Any such number may come out; rounding up costs time only. */
  method Root(n: int) returns (v: int)
    requires n >= 0
    ensures RootOf(v, n)
  {
    assert RootOf(n, n) by { MulMono(1, n + 1, n + 1); }
    v :| v >= 0 && RootOf(v, n);
  }

  /** `xt`: all factors `t` are taken out. */
  method Xt(n0: int, v0: int, t: int, printed: seq<int>, ghost m: int) returns (n: int, v: int, ps: seq<int>)
    requires Found(printed, m, n0, t) && NoneBelow(n0, t) && t >= 2
    requires RootOf(v0, n0)
    ensures Found(ps, m, n, t) && NoneBelow(n, t + 1)
    ensures 1 <= n <= n0 && RootOf(v, n) && (n == n0 ==> v == v0)
  {
    hide Found, NoneBelow;
    n, v, ps := n0, v0, printed;
    FoundLeft(ps, m, n, t);
    while n % t == 0
      invariant 1 <= n <= n0 && Found(ps, m, n, t) && NoneBelow(n, t)
      invariant RootOf(v, n) && (n == n0 ==> v == v0)
      decreases n
    {
      Take(ps, m, n, t);
      ps := ps + [t];
      n := n / t;
      v := Root(n);
    }
    NotDivided(n, t);
  }

  lemma FoundLeft(ps: seq<int>, m: int, n: int, t: int)
    requires Found(ps, m, n, t)
    ensures n >= 1
  {
  }

  lemma NotDivided(n: int, t: int)
    requires NoneBelow(n, t) && t >= 2 && n % t != 0
    ensures NoneBelow(n, t + 1)
  {
    DividesIsMod(t, n);
  }

  lemma FoundLater(ps: seq<int>, m: int, n: int, t: int, u: int)
    requires Found(ps, m, n, t) && t <= u
    ensures Found(ps, m, n, u)
  {
  }

  lemma FoundAll(ps: seq<int>, m: int, n: int, t: int, v: int)
    requires Found(ps, m, n, t) && NoneBelow(n, t) && t >= 2 && t > v && RootOf(v, n)
    ensures
      var all := if n > 1 then ps + [n] else ps;
      AllPrime(all) && Sorted(all) && Product(all) == m
  {
    hide Product;
    MulMono(v + 1, t, v + 1);
    MulMono(v + 1, t, t);
    if n > 1 {
      RestIsPrime(n, t);
      SortedMore(ps, n);
      ProductMore(ps, n);
    }
  }

  datatype Answer = Nothing | Ouch | Factors(ps: seq<int>)

  /** `factor` for a number that is an integer; from `limit` on it could not be held exactly. */
  method Factor(m: int, limit: int) returns (answer: Answer)
    ensures answer.Nothing? <==> m == 0
    ensures answer.Ouch? <==> m < 0 || (m >= limit && m != 0)
    ensures answer.Factors? ==> AllPrime(answer.ps) && Sorted(answer.ps) && Product(answer.ps) == m
  {
    hide Found, NoneBelow, OnSpoke, Tab, AllPrime, Sorted, Product;
    if m == 0 {
      return Nothing;
    }
    if m < 0 || m >= limit {
      return Ouch;
    }
    var n, ps := m, [];
    var v := Root(n);
    FoundNothing(m);
    n, v, ps := Xt(n, v, 2, ps, m);
    FoundLater(ps, m, n, 2, 3);
    n, v, ps := Xt(n, v, 3, ps, m);
    FourSkipped(n);
    FoundLater(ps, m, n, 3, 5);
    n, v, ps := Xt(n, v, 5, ps, m);
    SixSkipped(n);
    FoundLater(ps, m, n, 5, 7);
    n, v, ps := Xt(n, v, 7, ps, m);
    Skip(n, 8); Skip(n, 9); Skip(n, 10);
    FoundLater(ps, m, n, 7, 11);
    n, v, ps := Xt(n, v, 11, ps, m);
    Skip(n, 12);
    FoundLater(ps, m, n, 11, 13);
    n, v, ps := Xt(n, v, 13, ps, m);
    Skip(n, 14); Skip(n, 15); Skip(n, 16);
    FoundLater(ps, m, n, 13, 17);
    var i, t := 2, 17;
    OnFirst();
    while t <= v
      invariant 0 <= i < 48 && t >= 17 && OnSpoke(t, i)
      invariant Found(ps, m, n, t) && NoneBelow(n, t) && RootOf(v, n) && n >= 1
      decreases n, v - t
    {
      n, v, ps := Xt(n, v, t, ps, m);
      NextSpoke(n, t, i);
      i := i + 1;
      if i == 48 {
        i := 0;
      }
      FoundLater(ps, m, n, t, t + Tab(i));
      t := t + Tab(i);
    }
    FoundAll(ps, m, n, t, v);
    if n > 1 {
      ps := ps + [n];
    }
    return Factors(ps);
  }

  lemma FoundNothing(m: int)
    requires m >= 1
    ensures Found([], m, m, 2) && NoneBelow(m, 2)
  {
  }

  lemma FourSkipped(n: int)
    requires NoneBelow(n, 4)
    ensures NoneBelow(n, 5)
  {
    DividesIsMod(2, 4);
    if Divides(4, n) {
      DividesThrough(2, 4, n);
    }
  }

  lemma SixSkipped(n: int)
    requires NoneBelow(n, 6)
    ensures NoneBelow(n, 7)
  {
    DividesIsMod(2, 6);
    if Divides(6, n) {
      DividesThrough(2, 6, n);
    }
  }

  lemma OnFirst()
    ensures OnSpoke(17, 2)
  {
    FirstTurn();
    assert 17 == Spoke(2) + 210 * 0;
  }
}
