/** What a compressor for the implode method may send (PKWARE APPNOTE, section 5.3), and that it means the text it was
    made of. */
module ExplodeSent {
  import opened Arith
  import opened Bits
  import opened Canonical
  import opened Window
  import opened HuftBits
  import opened Explode
  import opened Exploding
  import Inflate

  // ---- Pieces of the input ----

  /** The bits from position `p` on begin with `piece`. */
  ghost predicate Holds(bits: seq<bool>, p: nat, piece: seq<bool>) {
    p + |piece| <= |bits| && bits[p..p + |piece|] == piece
  }

  lemma HoldsBoth(bits: seq<bool>, p: nat, a: seq<bool>, b: seq<bool>)
    requires Holds(bits, p, a + b)
    ensures Holds(bits, p, a) && Holds(bits, p + |a|, b)
  {
    assert bits[p..p + |a|] == (a + b)[..|a|];
    assert bits[p + |a|..p + |a| + |b|] == (a + b)[|a|..];
  }

  lemma HeldAhead(bits: seq<bool>, p: nat, piece: seq<bool>)
    requires Holds(bits, p, piece)
    ensures Ahead(bits, p, |piece|) == piece
  {
    forall i | 0 <= i < |piece| ensures Ahead(bits, p, |piece|)[i] == piece[i] {
      assert bits[p..p + |piece|][i] == bits[p + i];
    }
  }

  lemma NumberHeld(bits: seq<bool>, p: nat, v: nat, n: nat)
    requires v < Pow2(n) && Holds(bits, p, BitsOf(v, n))
    ensures Number(bits, p, n) == v
  {
    HeldAhead(bits, p, BitsOf(v, n));
    LsbOfBits(v, n);
  }

  // ---- Codes ----

  /** A symbol's code, inverted. */
  ghost function StoredCode(L: seq<int>, s: nat): (r: seq<bool>)
    ensures s < |L| && L[s] > 0 ==> |r| == L[s]
  {
    if s < |L| && L[s] > 0 then Inverted(MsbBits(Code(L, s), L[s])) else []
  }

  lemma InvertedTwice(a: seq<bool>)
    ensures Inverted(Inverted(a)) == a
  {
  }

  lemma CodeFits(L: seq<int>, s: nat)
    requires Complete(L) && s < |L|
    ensures 1 <= L[s] <= BMAX && Code(L, s) < Pow2(L[s])
  {
    LeftIsKraft(L, BMAX, |L|);
    LeftDrops(L, L[s], BMAX);
    RankBelowCount(L, s);
    LeftStep(L, L[s]);
  }

  lemma CodeHeld(L: seq<int>, bits: seq<bool>, p: nat, s: nat)
    requires Complete(L) && s < |L| && Holds(bits, p, StoredCode(L, s))
    ensures L[s] >= 1 && HasCode(L, bits, p) && CodeAt(L, bits, p) == s
  {
    hide Code, Pow2, Complete, Ahead, Inverted;
    CodeFits(L, s);
    var code := MsbBits(Code(L, s), L[s]);
    MsbOfBits(Code(L, s), L[s]);
    HeldAhead(bits, p, StoredCode(L, s));
    AheadSplits(bits, p, L[s], BMAX - L[s]);
    InvertedSplits(Ahead(bits, p, BMAX), L[s]);
    InvertedTwice(code);
    var stream := CodeBits(bits, p);
    assert stream[..L[s]] == code;
    assert StartsWith(L, stream, s);
    PrefixFree(L, stream, s, CodeAt(L, bits, p));
  }

  // ---- Literals and copies ----

  datatype Token = Literal(byte: nat) | CopyOf(len: nat, dist: nat)

  /** The least copy pays for itself: two bytes where literals take nine bits, three where they are coded. */
  function Least(T: Trees): nat { if T.lb != [] then 3 else 2 }

  predicate TokenSendable(T: Trees, t: Token) {
    match t
    case Literal(b) => b < 256
    case CopyOf(len, dist) => Least(T) <= len < Least(T) + 63 + 256 && 1 <= dist <= 64 * Pow2(T.low)
  }

  ghost function LiteralBits(T: Trees, b: nat): seq<bool> { if T.lb == [] then BitsOf(b, 8) else StoredCode(T.lb, b) }

  /** Lengths that have no symbol of their own take the last one and eight bits more. */
  ghost function LengthBits(T: Trees, len: nat): seq<bool>
    requires len >= Least(T)
  {
    if len - Least(T) < 63 then StoredCode(T.ll, len - Least(T))
    else StoredCode(T.ll, 63) + BitsOf(len - Least(T) - 63, 8)
  }

  ghost function DistanceBits(T: Trees, dist: nat): seq<bool>
    requires dist >= 1
  {
    BitsOf(Low(dist - 1, T.low), T.low) + StoredCode(T.ld, Shr(dist - 1, T.low))
  }

  ghost function TokenBits(T: Trees, t: Token): seq<bool>
    requires TokenSendable(T, t)
  {
    match t
    case Literal(b) => [true] + LiteralBits(T, b)
    case CopyOf(len, dist) => [false] + (DistanceBits(T, dist) + LengthBits(T, len))
  }

  predicate Sendable(T: Trees, tokens: seq<Token>) {
    forall i :: 0 <= i < |tokens| ==> TokenSendable(T, tokens[i])
  }

  ghost function TokensBits(T: Trees, tokens: seq<Token>): seq<bool>
    requires Sendable(T, tokens)
  {
    if tokens == [] then [] else TokenBits(T, tokens[0]) + TokensBits(T, tokens[1..])
  }

  function Size(t: Token): nat { if t.Literal? then 1 else t.len }

  function TotalSize(tokens: seq<Token>): nat {
    if tokens == [] then 0 else Size(tokens[0]) + TotalSize(tokens[1..])
  }

  ghost function TokenText(t: Token, text: seq<int>): seq<int> {
    match t
    case Literal(b) => text + [b]
    case CopyOf(len, dist) => if dist > 0 then Expand(text, dist, len) else text
  }

  ghost function TokensText(tokens: seq<Token>, text: seq<int>): seq<int> {
    if tokens == [] then text else TokensText(tokens[1..], TokenText(tokens[0], text))
  }

  ghost predicate Built(T: Trees) {
    T.Valid() && (T.lb != [] ==> Complete(T.lb)) && Complete(T.ll) && Complete(T.ld)
  }

  lemma OneBit(bits: seq<bool>, p: nat, b: bool)
    requires Holds(bits, p, [b])
    ensures Number(bits, p, 1) == if b then 1 else 0
  {
    var v: nat := if b then 1 else 0;
    assert BitsOf(v, 1) == [b];
    assert Pow2(1) == 2;
    NumberHeld(bits, p, v, 1);
  }

  lemma SmallPowers()
    ensures Pow2(8) == 256 && Pow2(6) == 64 && Pow2(7) == 128
  {
  }

  lemma LiteralHeld(T: Trees, bits: seq<bool>, p: nat, b: nat, left: int, text: seq<int>)
    requires Built(T) && b < 256 && left > 0 && Holds(bits, p, [true] + LiteralBits(T, b))
    ensures Exploded(T, bits, p, left, text)
        == Exploded(T, bits, p + 1 + |LiteralBits(T, b)|, left - 1, text + [b])
  {
    hide Number, HasCode, CodeAt, Complete, Exploded, StoredCode, BitsOf, Pow2;
    SmallPowers();
    HoldsBoth(bits, p, [true], LiteralBits(T, b));
    OneBit(bits, p, true);
    ExplodedLiteral(T, bits, p, left, text);
    if T.lb == [] {
      NumberHeld(bits, p + 1, b, 8);
    } else {
      CodeHeld(T.lb, bits, p + 1, b);
    }
  }

  lemma DistanceParts(T: Trees, dist: nat)
    requires 1 <= dist <= 64 * Pow2(T.low)
    ensures Shr(dist - 1, T.low) < 64 && Shr(dist - 1, T.low) * Pow2(T.low) + Low(dist - 1, T.low) + 1 == dist
  {
    hide Pow2;
    ShrLow(dist - 1, T.low);
    if Shr(dist - 1, T.low) >= 64 {
      MulMono(64, Shr(dist - 1, T.low), Pow2(T.low));
    }
  }

  /** What is found of a copy. */
  lemma CopyHeld(T: Trees, bits: seq<bool>, p: nat, len: nat, dist: nat)
    requires Built(T) && TokenSendable(T, CopyOf(len, dist))
    requires Holds(bits, p, DistanceBits(T, dist) + LengthBits(T, len))
    ensures CopyAt(T, bits, p) == Copy(dist, len, p + |DistanceBits(T, dist)| + |LengthBits(T, len)|)
  {
    hide Number, HasCode, CodeAt, Complete, StoredCode, BitsOf, Pow2, Holds, Shr, Low;
    var p2 := p + |DistanceBits(T, dist)|;
    HoldsBoth(bits, p, DistanceBits(T, dist), LengthBits(T, len));
    var d, v := Shr(dist - 1, T.low), Low(dist - 1, T.low);
    DistanceParts(T, dist);
    HoldsBoth(bits, p, BitsOf(v, T.low), StoredCode(T.ld, d));
    NumberHeld(bits, p, v, T.low);
    CodeHeld(T.ld, bits, p + T.low, d);
    LengthHeld(T, bits, p2, len);
  }

  lemma LengthHeld(T: Trees, bits: seq<bool>, p: nat, len: nat)
    requires Built(T) && Least(T) <= len < Least(T) + 63 + 256 && Holds(bits, p, LengthBits(T, len))
    ensures HasCode(T.ll, bits, p)
    ensures
      var l := CodeAt(T.ll, bits, p);
      if l == 63 then
        len == l + T.Shortest() + Number(bits, p + T.ll[l], 8) && T.ll[l] + 8 == |LengthBits(T, len)|
      else len == l + T.Shortest() && T.ll[l] == |LengthBits(T, len)|
  {
    hide Number, HasCode, CodeAt, Complete, StoredCode, BitsOf, Pow2, Holds;
    SmallPowers();
    var x := len - Least(T);
    if x < 63 {
      CodeHeld(T.ll, bits, p, x);
    } else {
      HoldsBoth(bits, p, StoredCode(T.ll, 63), BitsOf(x - 63, 8));
      CodeHeld(T.ll, bits, p, 63);
      NumberHeld(bits, p + T.ll[63], x - 63, 8);
    }
  }

  /** One token is read back. */
  lemma TokenHeld(T: Trees, bits: seq<bool>, p: nat, t: Token, left: int, text: seq<int>)
    requires Built(T) && TokenSendable(T, t) && left > 0 && Holds(bits, p, TokenBits(T, t))
    ensures Exploded(T, bits, p, left, text)
        == Exploded(T, bits, p + |TokenBits(T, t)|, left - Size(t), TokenText(t, text))
  {
    hide Number, Complete, Exploded, LiteralBits, DistanceBits, LengthBits, CopyAt, Holds;
    match t {
      case Literal(b) =>
        LiteralHeld(T, bits, p, b, left, text);
      case CopyOf(len, dist) =>
        HoldsBoth(bits, p, [false], DistanceBits(T, dist) + LengthBits(T, len));
        OneBit(bits, p, false);
        CopyHeld(T, bits, p + 1, len, dist);
        ExplodedCopy(T, bits, p, left, text);
    }
  }

  /** Whatever literals and copies are sent: that is what the data mean. */
  lemma {:induction false} TokensHeld(T: Trees, bits: seq<bool>, p: nat, tokens: seq<Token>, text: seq<int>)
    requires Built(T) && Sendable(T, tokens) && Holds(bits, p, TokensBits(T, tokens))
    ensures Exploded(T, bits, p, TotalSize(tokens), text)
        == Text(TokensText(tokens, text), p + |TokensBits(T, tokens)|)
    decreases |tokens|
  {
    hide Complete, Exploded, TokenBits, Holds;
    if tokens == [] {
      ExplodedDone(T, bits, p, 0, text);
    } else {
      var t, later := tokens[0], tokens[1..];
      HoldsBoth(bits, p, TokenBits(T, t), TokensBits(T, later));
      TokenHeld(T, bits, p, t, TotalSize(tokens), text);
      TokensHeld(T, bits, p + |TokenBits(T, t)|, later, TokenText(t, text));
    }
  }

  // ---- Trees ----

  /** So many codes of one length. */
  datatype Pair = Pair(length: nat, count: nat)

  predicate Proper(pairs: seq<Pair>) {
    && 1 <= |pairs| <= 256
    && forall i :: 0 <= i < |pairs| ==> 1 <= pairs[i].length <= 16 && 1 <= pairs[i].count <= 16
  }

  function PairByte(c: Pair): int { 16 * (c.count - 1) + c.length - 1 }

  /** The number of pairs, less one, and a byte for each. */
  function TreeBytes(pairs: seq<Pair>): (r: seq<int>)
    ensures |r| == |pairs| + 1
  {
    [|pairs| - 1] + seq(|pairs|, i requires 0 <= i < |pairs| => PairByte(pairs[i]))
  }

  function Lengths(pairs: seq<Pair>): seq<int> {
    if pairs == [] then []
    else Lengths(pairs[..|pairs| - 1]) + Repeat(pairs[|pairs| - 1].length, pairs[|pairs| - 1].count)
  }

  ghost predicate Stands(all: seq<int>, q: nat, piece: seq<int>) {
    q + |piece| <= |all| && all[q..q + |piece|] == piece
  }

  lemma {:induction false} PairsListed(all: seq<int>, q: nat, pairs: seq<Pair>, m: nat)
    requires AreBytes(all) && Proper(pairs) && Stands(all, q, TreeBytes(pairs)) && m <= |pairs|
    ensures Listed(all, q + 1, m) == Lengths(pairs[..m])
  {
    if m > 0 {
      PairsListed(all, q, pairs, m - 1);
      LaterByte(all, q, pairs, m);
      hide Stands, Proper, TreeBytes;
      assert pairs[..m][..m - 1] == pairs[..m - 1];
    }
  }

  lemma LaterByte(all: seq<int>, q: nat, pairs: seq<Pair>, m: nat)
    requires AreBytes(all) && Proper(pairs) && Stands(all, q, TreeBytes(pairs)) && 1 <= m <= |pairs|
    ensures
      var c, b := pairs[m - 1], ByteAt(all, q + m) % 256;
      b % 16 + 1 == c.length && b / 16 + 1 == c.count
  {
    assert all[q + m] == all[q..q + |pairs| + 1][m] == PairByte(pairs[m - 1]);
  }

  /** A tree sent is the tree read. */
  lemma TreeHeld(all: seq<int>, q: nat, pairs: seq<Pair>)
    requires AreBytes(all) && Proper(pairs) && Stands(all, q, TreeBytes(pairs))
    ensures TreeAt(all, q) == Lengths(pairs) && Pairs(all, q) == |pairs|
  {
    hide Listed, Lengths;
    FirstByte(all, q, pairs);
    PairsListed(all, q, pairs, |pairs|);
    assert pairs[..|pairs|] == pairs;
  }

  lemma FirstByte(all: seq<int>, q: nat, pairs: seq<Pair>)
    requires AreBytes(all) && Proper(pairs) && Stands(all, q, TreeBytes(pairs))
    ensures q < |all| && all[q] == |pairs| - 1 && Pairs(all, q) == |pairs|
  {
    assert all[q] == all[q..q + |pairs| + 1][0] == |pairs| - 1;
  }

  // ---- Files ----

  /** The trees of a file, and which of them there are. */
  datatype Trio = Trio(lb: seq<Pair>, ll: seq<Pair>, ld: seq<Pair>)

  ghost predicate TrioSendable(f: Trio, coded: bool) {
    && (coded ==> Proper(f.lb) && |Lengths(f.lb)| == 256 && Complete(Lengths(f.lb)))
    && Proper(f.ll) && |Lengths(f.ll)| == 64 && Complete(Lengths(f.ll))
    && Proper(f.ld) && |Lengths(f.ld)| == 64 && Complete(Lengths(f.ld))
  }

  function HeadBytes(f: Trio, coded: bool): seq<int> {
    (if coded then TreeBytes(f.lb) else []) + (TreeBytes(f.ll) + TreeBytes(f.ld))
  }

  function TreesOf(f: Trio, coded: bool, far: bool): Trees {
    Trees(if coded then Lengths(f.lb) else [], Lengths(f.ll), Lengths(f.ld), if far then 7 else 6)
  }

  lemma StandsBoth(all: seq<int>, q: nat, a: seq<int>, b: seq<int>)
    requires Stands(all, q, a + b)
    ensures Stands(all, q, a) && Stands(all, q + |a|, b)
  {
    assert all[q..q + |a|] == (a + b)[..|a|];
    assert all[q + |a|..q + |a| + |b|] == (a + b)[|a|..];
  }

  lemma CompleteVerdict(L: seq<int>)
    requires Complete(L)
    ensures Verdict(L) == 0
  {
  }

  /** The head of a file is read back. */
  lemma HeadHeld(all: seq<int>, f: Trio, coded: bool, far: bool)
    requires AreBytes(all) && TrioSendable(f, coded) && Stands(all, 0, HeadBytes(f, coded))
    ensures HeadAt(all, coded, far) == Head(TreesOf(f, coded, far), |HeadBytes(f, coded)|)
    ensures Built(TreesOf(f, coded, far))
  {
    hide Complete, Verdict, TreeAt, Pairs, Stands, TreeBytes, Lengths, Proper;
    var q := if coded then |f.lb| + 1 else 0;
    var first := if coded then TreeBytes(f.lb) else [];
    StandsBoth(all, 0, first, TreeBytes(f.ll) + TreeBytes(f.ld));
    if coded {
      TreeHeld(all, 0, f.lb);
      CompleteVerdict(Lengths(f.lb));
    }
    StandsBoth(all, q, TreeBytes(f.ll), TreeBytes(f.ld));
    TreeHeld(all, q, f.ll);
    CompleteVerdict(Lengths(f.ll));
    TreeHeld(all, q + 1 + |f.ll|, f.ld);
    CompleteVerdict(Lengths(f.ld));
  }

  /** A file of trees and data means the text its tokens stand for. */
  lemma FileHeld(all: seq<int>, f: Trio, coded: bool, far: bool, tokens: seq<Token>)
    requires AreBytes(all) && TrioSendable(f, coded) && Stands(all, 0, HeadBytes(f, coded))
    requires
      var T, q := TreesOf(f, coded, far), |HeadBytes(f, coded)|;
      Sendable(T, tokens) && Holds(ByteBits(all), 8 * q, TokensBits(T, tokens))
    ensures
      var T, q := TreesOf(f, coded, far), |HeadBytes(f, coded)|;
      && HeadAt(all, coded, far) == Head(T, q) && T.Valid()
      && Exploded(T, ByteBits(all), 8 * q, TotalSize(tokens), [])
         == Text(TokensText(tokens, []), 8 * q + |TokensBits(T, tokens)|)
  {
    hide Complete, HeadAt, Exploded, TokensBits, Sendable, Stands, Holds, ByteBits, HeadBytes;
    HeadHeld(all, f, coded, far);
    TokensHeld(TreesOf(f, coded, far), ByteBits(all), 8 * |HeadBytes(f, coded)|, tokens, []);
  }

  /** `zipexplode` gives back what was sent, whatever it says about the end of the input. */
  method Restored(all: seq<int>, coded: bool, far: bool, ucsize: int, ghost f: Trio, ghost tokens: seq<Token>)
    returns (r: int, out: seq<int>)
    requires AreBytes(all) && TrioSendable(f, coded) && Stands(all, 0, HeadBytes(f, coded))
    requires
      var T, q := TreesOf(f, coded, far), |HeadBytes(f, coded)|;
      Sendable(T, tokens) && Holds(ByteBits(all), 8 * q, TokensBits(T, tokens))
    requires ucsize == TotalSize(tokens)
    ensures out == TokensText(tokens, []) && (r == 0 || r == 5)
  {
    hide Complete, HeadAt, Exploded, TokensBits, Sendable, Stands, Holds, ByteBits, HeadBytes, TreesOf, TrioSendable,
        Ends;
    FileHeld(all, f, coded, far, tokens);
    ghost var asked;
    r, out, asked := ZipExplode(all, ucsize, coded, far);
  }
}
