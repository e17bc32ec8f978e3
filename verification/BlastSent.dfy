/** What a compressor for the PKWARE DCL format may send, and that it means the text it was made of. */
module BlastSent {
  import opened Arith
  import opened Bits
  import opened Canonical
  import opened Window
  import opened HuftBits
  import opened Blast
  import opened BlastCode
  import opened BlastTables
  import opened BlastDecomp
  import opened DeflateCodes

  // ---- Lengths ----

  /** The symbol for a length: 3 and 2 come first, then those up to 9, then twice as many lengths for each. */
  function LengthSymbol(len: nat): Coded
    requires 2 <= len
  {
    if len == 3 then Coded(0, 0, 0)
    else if len == 2 then Coded(1, 0, 0)
    else if len < 10 then Coded(len - 2, 0, 0)
    else
      var c := CodedAs(len - 8, 1);
      Coded(c.i + 6, c.extra, c.v)
  }

  /** From symbol 7 on, lengths go on where those of the symbol before end, up to 519. */
  lemma LengthsConnect(symbol: nat)
    requires 2 <= symbol < 15
    ensures Base(symbol + 1) == Base(symbol) + Pow2(Extra(symbol)) && Base(2) == 4
    ensures Base(15) + Pow2(Extra(15)) - 1 == END == 519
    ensures Extra(symbol) == if symbol < 8 then 0 else symbol - 7
  {
    PowerIs(8);
    PowerIs(if symbol < 8 then 0 else symbol - 7);
  }

  lemma LongBase(e: nat)
    requires 1 <= e <= 8
    ensures Base(e + 7) == 8 + Pow2(e) && Extra(e + 7) == e
  {
    PowerIs(e);
  }

  /** Every length up to 519 is what its symbol and extra bits stand for. */
  lemma LengthIs(len: nat)
    requires 2 <= len <= 519
    ensures
      var c := LengthSymbol(len);
      c.i < 16 && c.extra == Extra(c.i) && c.v < Pow2(c.extra) && Base(c.i) + c.v == len
  {
    hide Pow2, CodedAs;
    FirstPowers();
    if len >= 10 {
      var c := CodedAs(len - 8, 1);
      CodedIs(len - 8, 1, 9);
      assert c.i - c.extra == 1;
      MulTwice(1, Pow2(c.extra));
      LongBase(c.extra);
    }
  }

  lemma FirstPowers()
    ensures Pow2(0) == 1 && Pow2(9) == 512
  {
    PowerIs(0);
    PowerIs(9);
  }

  // ---- Codes ----

  /** A symbol's code as it is stored: inverted, the most significant bit first. */
  ghost function StoredCode(L: seq<int>, s: nat): (bits: seq<bool>)
    ensures s < |L| && L[s] > 0 ==> |bits| == L[s]
  {
    if s < |L| && L[s] > 0 then Invert(MsbBits(Code(L, s), L[s])) else []
  }

  lemma {:induction false} InvertJoin(a: seq<bool>, b: seq<bool>)
    ensures Invert(Invert(a) + b) == a + Invert(b)
  {
  }

  lemma CodeFits(L: seq<int>, n: nat, s: nat)
    requires FullCode(L, n) && s < n
    ensures 0 < L[s] <= MAXBITS && Code(L, s) < Pow2(L[s])
  {
    LeftDrops(L, L[s], MAXBITS);
    RankBelowCount(L, s);
    LeftStep(L, L[s]);
  }

  lemma SymbolRead(L: seq<int>, n: nat, s: nat, rest: seq<bool>)
    requires FullCode(L, n) && s < n
    ensures ReadCode(L, StoredCode(L, s) + rest) == Field(s, rest)
  {
    hide Code, Pow2, FullCode, Left;
    CodeFits(L, n, s);
    ListSize(L, n);
    var code := MsbBits(Code(L, s), L[s]);
    MsbOfBits(Code(L, s), L[s]);
    var stream := StoredCode(L, s) + rest;
    InvertJoin(code, rest);
    assert Invert(stream)[..L[s]] == code;
    OneSymbol(L, stream, s);
    assert stream[L[s]..] == rest;
  }

  lemma ListSize(L: seq<int>, n: nat)
    requires FullCode(L, n)
    ensures |L| == n
  {
  }

  // ---- Literals and copies ----

  datatype Token = Literal(byte: nat) | Copy(len: nat, dist: nat)

  /** The low bits of a distance that are sent plainly. */
  function LowBits(len: nat, dict: nat): nat { if len == 2 then 2 else dict }

  predicate TokenSendable(dict: nat, t: Token) {
    match t
    case Literal(b) => b < 256
    case Copy(len, dist) => 2 <= len < 519 && 1 <= dist <= 64 * Pow2(LowBits(len, dict))
  }

  ghost function LengthBits(len: nat): seq<bool>
    requires 2 <= len
  {
    StoredCode(LengthCodes(), LengthSymbol(len).i) + BitsOf(LengthSymbol(len).v, LengthSymbol(len).extra)
  }

  ghost function DistanceBits(dist: nat, low: nat): seq<bool>
    requires dist >= 1
  {
    StoredCode(DistanceCodes(), Shr(dist - 1, low)) + BitsOf(Low(dist - 1, low), low)
  }

  ghost function TokenBits(lit: nat, dict: nat, t: Token): seq<bool>
    requires TokenSendable(dict, t)
  {
    match t
    case Literal(b) => [false] + if lit == 0 then BitsOf(b, 8) else StoredCode(LiteralCodes(), b)
    case Copy(len, dist) => [true] + LengthBits(len) + DistanceBits(dist, LowBits(len, dict))
  }

  /** Copies reach back no farther than what has been put out. */
  predicate Reaching(tokens: seq<Token>, size: nat) {
    tokens == [] ||
    match tokens[0]
    case Literal(_) => Reaching(tokens[1..], size + 1)
    case Copy(len, dist) => dist <= size && Reaching(tokens[1..], size + len)
  }

  ghost predicate Sendable(dict: nat, tokens: seq<Token>) {
    forall i :: 0 <= i < |tokens| ==> TokenSendable(dict, tokens[i])
  }

  /** The data: the tokens and the length that ends them. */
  ghost function TokensBits(lit: nat, dict: nat, tokens: seq<Token>): seq<bool>
    requires Sendable(dict, tokens)
  {
    if tokens == [] then [true] + LengthBits(519)
    else TokenBits(lit, dict, tokens[0]) + TokensBits(lit, dict, tokens[1..])
  }

  ghost function TokenText(t: Token, text: seq<int>): seq<int> {
    match t
    case Literal(b) => text + [b]
    case Copy(len, dist) => if dist > 0 then Expand(text, dist, len) else text
  }

  ghost function TokensText(tokens: seq<Token>, text: seq<int>): seq<int> {
    if tokens == [] then text else TokensText(tokens[1..], TokenText(tokens[0], text))
  }

  lemma LengthReadBack(len: nat, rest: seq<bool>)
    requires 2 <= len <= 519
    ensures ReadLength(LengthBits(len) + rest) == Field(len, rest)
  {
    hide ReadBits, ReadCode, LengthCodes, StoredCode, LengthSymbol, Pow2, BitsOf, FullCode, Base, Extra;
    LengthIs(len);
    var c := LengthSymbol(len);
    SymbolRead(LengthCodes(), 16, c.i, BitsOf(c.v, c.extra) + rest);
    BitsRead(c.v, c.extra, rest);
    Regroup(StoredCode(LengthCodes(), c.i), BitsOf(c.v, c.extra), rest, []);
  }

  lemma DistanceParts(dist: nat, low: nat)
    requires 1 <= dist <= 64 * Pow2(low)
    ensures Shr(dist - 1, low) < 64 && Scaled(Shr(dist - 1, low), low) + Low(dist - 1, low) + 1 == dist
  {
    hide Pow2;
    ShrLow(dist - 1, low);
    if Shr(dist - 1, low) >= 64 {
      MulMono(64, Shr(dist - 1, low), Pow2(low));
    }
  }

  lemma DistanceReadBack(len: nat, dict: nat, dist: nat, rest: seq<bool>)
    requires 1 <= dist <= 64 * Pow2(LowBits(len, dict))
    ensures ReadDistance(len, dict, DistanceBits(dist, LowBits(len, dict)) + rest) == Field(dist, rest)
  {
    hide ReadBits, ReadCode, DistanceCodes, StoredCode, Pow2, BitsOf, Shr, Low, Scaled, FullCode;
    var low := LowBits(len, dict);
    var s, v := Shr(dist - 1, low), Low(dist - 1, low);
    DistanceParts(dist, low);
    SymbolRead(DistanceCodes(), 64, s, BitsOf(v, low) + rest);
    BitsRead(v, low, rest);
    Regroup(StoredCode(DistanceCodes(), s), BitsOf(v, low), rest, []);
  }

  lemma LiteralReadBack(lit: nat, b: nat, rest: seq<bool>)
    requires b < 256
    ensures
      BlastDecomp.ReadLiteral(lit, (if lit == 0 then BitsOf(b, 8) else StoredCode(LiteralCodes(), b)) + rest)
      == Field(b, rest)
  {
    hide ReadBits, ReadCode, LiteralCodes, StoredCode, Pow2, BitsOf;
    PowerIs(8);
    if lit == 0 {
      BitsRead(b, 8, rest);
    } else {
      SymbolRead(LiteralCodes(), 256, b, rest);
    }
  }

  /** One step of the meaning. */
  lemma CopyStep(lit: nat, dict: nat, stream: seq<bool>, text: seq<int>, len: nat, dist: nat, after: seq<bool>,
                 rest: seq<bool>)
    requires ReadLength(stream) == Field(len, after) && len != END
    requires BlastDecomp.ReadDistance(len, dict, after) == Field(dist, rest) && 1 <= dist <= |text|
    ensures Exploded(lit, dict, [true] + stream, text) == Exploded(lit, dict, rest, Expand(text, dist, len))
  {
    hide ReadLength, BlastDecomp.ReadDistance, BlastDecomp.ReadLiteral;
    assert ([true] + stream)[1..] == stream;
  }

  lemma LiteralStep(lit: nat, dict: nat, stream: seq<bool>, text: seq<int>, b: nat, rest: seq<bool>)
    requires BlastDecomp.ReadLiteral(lit, stream) == Field(b, rest)
    ensures Exploded(lit, dict, [false] + stream, text) == Exploded(lit, dict, rest, text + [b])
  {
    hide ReadLength, BlastDecomp.ReadDistance, BlastDecomp.ReadLiteral;
    assert ([false] + stream)[1..] == stream;
  }

  lemma Regroup<T>(a: seq<T>, b: seq<T>, c: seq<T>, d: seq<T>)
    ensures a + b + c + d == a + (b + (c + d))
    ensures a + b + c == a + (b + c)
  {
  }

  lemma TokenRead(lit: nat, dict: nat, t: Token, rest: seq<bool>, text: seq<int>)
    requires TokenSendable(dict, t) && (t.Copy? ==> t.dist <= |text|)
    ensures Exploded(lit, dict, TokenBits(lit, dict, t) + rest, text) == Exploded(lit, dict, rest, TokenText(t, text))
  {
    hide Exploded;
    match t {
      case Literal(b) => LiteralTokenRead(lit, dict, b, rest, text);
      case Copy(len, dist) => CopyTokenRead(lit, dict, len, dist, rest, text);
    }
  }

  lemma LiteralTokenRead(lit: nat, dict: nat, b: nat, rest: seq<bool>, text: seq<int>)
    requires b < 256
    ensures Exploded(lit, dict, TokenBits(lit, dict, Literal(b)) + rest, text) == Exploded(lit, dict, rest, text + [b])
  {
    hide StoredCode, BitsOf, Exploded, BlastDecomp.ReadLiteral, LiteralCodes;
    var sent := if lit == 0 then BitsOf(b, 8) else StoredCode(LiteralCodes(), b);
    Regroup([false], sent, rest, []);
    LiteralReadBack(lit, b, rest);
    LiteralStep(lit, dict, sent + rest, text, b, rest);
  }

  lemma CopyTokenRead(lit: nat, dict: nat, len: nat, dist: nat, rest: seq<bool>, text: seq<int>)
    requires TokenSendable(dict, Copy(len, dist)) && dist <= |text|
    ensures
      Exploded(lit, dict, TokenBits(lit, dict, Copy(len, dist)) + rest, text)
      == Exploded(lit, dict, rest, Expand(text, dist, len))
  {
    hide ReadLength, BlastDecomp.ReadDistance, LengthBits, DistanceBits, Exploded;
    var low := LowBits(len, dict);
    var after := DistanceBits(dist, low) + rest;
    Regroup([true], LengthBits(len), DistanceBits(dist, low), rest);
    LengthReadBack(len, after);
    DistanceReadBack(len, dict, dist, rest);
    CopyStep(lit, dict, LengthBits(len) + after, text, len, dist, after, rest);
  }

  lemma EndRead(lit: nat, dict: nat, rest: seq<bool>, text: seq<int>)
    ensures Exploded(lit, dict, [true] + LengthBits(519) + rest, text) == Outcome(0, text)
  {
    hide ReadLength, LengthBits;
    var stream := [true] + LengthBits(519) + rest;
    assert stream[1..] == LengthBits(519) + rest;
    LengthReadBack(519, rest);
  }

  /** Whatever literals and copies are sent: that is what the data mean, and they end well. */
  lemma {:induction false} TokensRead(lit: nat, dict: nat, tokens: seq<Token>, rest: seq<bool>, text: seq<int>)
    requires Sendable(dict, tokens) && Reaching(tokens, |text|)
    ensures Exploded(lit, dict, TokensBits(lit, dict, tokens) + rest, text) == Outcome(0, TokensText(tokens, text))
    decreases |tokens|
  {
    hide Exploded, TokenBits, LengthBits;
    if tokens == [] {
      EndRead(lit, dict, rest, text);
    } else {
      var t, later := tokens[0], tokens[1..];
      assert TokensBits(lit, dict, tokens) + rest
          == TokenBits(lit, dict, t) + (TokensBits(lit, dict, later) + rest);
      TokenRead(lit, dict, t, TokensBits(lit, dict, later) + rest, text);
      TokensRead(lit, dict, later, rest, TokenText(t, text));
    }
  }

  /** A whole file: whether literals are coded, the size of the dictionary, and the data. */
  ghost function SentBits(lit: nat, dict: nat, tokens: seq<Token>): seq<bool>
    requires Sendable(dict, tokens)
  {
    BitsOf(lit, 8) + BitsOf(dict, 8) + TokensBits(lit, dict, tokens)
  }

  lemma SentRead(lit: nat, dict: nat, tokens: seq<Token>, rest: seq<bool>)
    requires lit <= 1 && 4 <= dict <= 6 && Sendable(dict, tokens) && Reaching(tokens, 0)
    ensures Blasted(SentBits(lit, dict, tokens) + rest) == Outcome(0, TokensText(tokens, []))
  {
    hide ReadBits, TokensBits, Exploded, BitsOf;
    PowerIs(8);
    var after := TokensBits(lit, dict, tokens) + rest;
    assert SentBits(lit, dict, tokens) + rest == BitsOf(lit, 8) + (BitsOf(dict, 8) + after);
    BitsRead(lit, 8, BitsOf(dict, 8) + after);
    BitsRead(dict, 8, after);
    TokensRead(lit, dict, tokens, rest, []);
  }

  // ---- The example of the format's documentation ----

  const EXAMPLE: seq<int> := [0x00, 0x04, 0x82, 0x24, 0x25, 0x8f, 0x80, 0x7f]

  const SIXTEEN: seq<int> := [2, 3, 3, 3, 4, 4, 4, 5, 5, 5, 5, 6, 6, 6, 7, 7]

  lemma SixteenLengths()
    ensures LengthCodes() == SIXTEEN
  {
    hide Unpack, Repeat;
    NothingUnpacked();
    UnpackMore([], 2, [2], [], [2]);
    UnpackMore([2], 35, [2, 35], [2], [2, 3, 3, 3]);
    UnpackMore([2, 35], 36, [2, 35, 36], [2, 3, 3, 3], [2, 3, 3, 3, 4, 4, 4]);
    UnpackMore([2, 35, 36], 53, [2, 35, 36, 53], [2, 3, 3, 3, 4, 4, 4], [2, 3, 3, 3, 4, 4, 4, 5, 5, 5, 5]);
    UnpackMore([2, 35, 36, 53], 38, [2, 35, 36, 53, 38], [2, 3, 3, 3, 4, 4, 4, 5, 5, 5, 5],
               [2, 3, 3, 3, 4, 4, 4, 5, 5, 5, 5, 6, 6, 6]);
    UnpackMore([2, 35, 36, 53, 38], 23, LENLEN, [2, 3, 3, 3, 4, 4, 4, 5, 5, 5, 5, 6, 6, 6], SIXTEEN);
  }

  lemma NothingUnpacked()
    ensures Unpack([]) == []
  {
  }

  lemma UnpackMore(rep: seq<int>, b: int, rep': seq<int>, L: seq<int>, L': seq<int>)
    requires AreBytes(rep) && 0 <= b < 256 && Unpack(rep) == L && rep' == rep + [b]
        && L' == L + Repeat(b % 16, b / 16 + 1)
    ensures AreBytes(rep') && Unpack(rep') == L'
  {
    assert rep'[..|rep|] == rep;
  }

  lemma CountOnly(L: seq<int>, k: int, i: nat, j: nat)
    requires i <= j <= |L| && forall x :: 0 <= x < |L| ==> (L[x] == k <==> i <= x < j)
    ensures Count(L, k) == j - i && CountTo(L, k, i) == 0 && (i < j ==> CountTo(L, k, i + 1) == 1)
  {
    CountSkips(L, k, 0, i);
    CountRuns(L, k, i, j);
    CountSkips(L, k, j, |L|);
    if i < j {
      CountRuns(L, k, i, i + 1);
    }
  }

  lemma ExampleLengthCodes()
    ensures Code(SIXTEEN, 8) == 27 && Code(SIXTEEN, 15) == 127
  {
    hide CountTo;
    CountOnly(SIXTEEN, 1, 0, 0);
    CountOnly(SIXTEEN, 2, 0, 1);
    CountOnly(SIXTEEN, 3, 1, 4);
    CountOnly(SIXTEEN, 4, 4, 7);
    CountOnly(SIXTEEN, 5, 7, 11);
    CountOnly(SIXTEEN, 6, 11, 14);
    CountOnly(SIXTEEN, 7, 14, 16);
    assert End(SIXTEEN, 0) == 0 && End(SIXTEEN, 1) == 0 && End(SIXTEEN, 2) == 1 && End(SIXTEEN, 3) == 5;
    assert End(SIXTEEN, 4) == 13 && End(SIXTEEN, 5) == 30 && End(SIXTEEN, 6) == 63;
  }

  lemma {:induction false} UnpackedFrom(rep: seq<int>, x: int)
    requires AreBytes(rep) && x in Unpack(rep)
    ensures exists i :: 0 <= i < |rep| && x == rep[i] % 16
  {
    var n := |rep| - 1;
    if x in Unpack(rep[..n]) {
      UnpackedFrom(rep[..n], x);
    } else {
      assert x == rep[n] % 16;
    }
  }

  lemma {:induction false} UnpackedFirst(rep: seq<int>)
    requires AreBytes(rep) && rep != []
    ensures Unpack(rep) != [] && Unpack(rep)[0] == rep[0] % 16
  {
    if |rep| > 1 {
      UnpackedFirst(rep[..|rep| - 1]);
    } else {
      assert rep[..0] == [];
    }
  }

  lemma NotOne(x: int)
    requires AreBytes(DISTLEN) && x in Unpack(DISTLEN)
    ensures x != 1
  {
    UnpackedFrom(DISTLEN, x);
    hide Unpack;
    var i :| 0 <= i < |DISTLEN| && x == DISTLEN[i] % 16;
  }

  lemma DistancesAre()
    ensures AreBytes(DISTLEN) && DistanceCodes() == Unpack(DISTLEN)
  {
    hide Unpack;
  }

  lemma ExampleDistanceCode()
    ensures DistanceCodes() != [] && DistanceCodes()[0] == 2 && Code(DistanceCodes(), 0) == 0
  {
    hide Unpack, CountTo, FirstCode, DistanceCodes, Rank, FullCode;
    DistancesAre();
    UnpackedFirst(DISTLEN);
    var L := DistanceCodes();
    forall x | x in L ensures x != 1 {
      NotOne(x);
    }
    hide AreBytes;
    NoOnes(L);
    NoRank(L);
  }

  lemma NoOnes(L: seq<int>)
    requires forall x :: x in L ==> x != 1
    ensures FirstCode(L, 2) == 0
  {
    hide CountTo;
    assert forall i :: 0 <= i < |L| ==> L[i] in L;
    CountOnly(L, 1, 0, 0);
    assert End(L, 0) == 0 && End(L, 1) == 0;
  }

  lemma NoRank(L: seq<int>)
    requires L != []
    ensures Rank(L, 0) == 0
  {
  }

  lemma ExampleSymbols()
    ensures LengthSymbol(11) == Coded(8, 1, 1) && LengthSymbol(519) == Coded(15, 8, 255)
    ensures Shr(1, 4) == 0 && Low(1, 4) == 1
  {
    PowerIs(8);
    PowerIs(4);
    PowerIs(1);
    assert Halvings(3, 1) == 1;
    assert Halvings(511, 1) == 8 by {
      assert Halvings(7, 1) == 2;
      assert Halvings(31, 1) == 4;
      assert Halvings(127, 1) == 6;
    }
  }

  const AI: seq<Token> := [Literal(65), Literal(73), Copy(11, 2)]

  lemma ExampleLiterals()
    ensures BitsOf(65, 8) == [true, false, false, false, false, false, true, false]
    ensures BitsOf(73, 8) == [true, false, false, true, false, false, true, false]
  {
    BitsOfByte(65, 1, 0, 0, 0, 0, 0, 1, 0);
    BitsOfByte(73, 1, 0, 0, 1, 0, 0, 1, 0);
  }

  /** The bits of a byte, one by one. */
  lemma BitsOfByte(v: nat, a: nat, b: nat, c: nat, d: nat, e: nat, f: nat, g: nat, h: nat)
    requires a < 2 && b < 2 && c < 2 && d < 2 && e < 2 && f < 2 && g < 2 && h < 2
    requires v == a + 2 * (b + 2 * (c + 2 * (d + 2 * (e + 2 * (f + 2 * (g + 2 * h))))))
    ensures BitsOf(v, 8) == [a == 1, b == 1, c == 1, d == 1, e == 1, f == 1, g == 1, h == 1]
  {
    hide BitsOf;
    BitsOfFour(v, a, b, c, d, e + 2 * (f + 2 * (g + 2 * h)), 4);
    BitsOfFour(e + 2 * (f + 2 * (g + 2 * h)), e, f, g, h, 0, 0);
    NoBits();
  }

  lemma NoBits()
    ensures BitsOf(0, 0) == []
  {
  }

  lemma BitsOfFour(v: nat, a: nat, b: nat, c: nat, d: nat, rest: nat, n: nat)
    requires a < 2 && b < 2 && c < 2 && d < 2 && v == a + 2 * (b + 2 * (c + 2 * (d + 2 * rest)))
    ensures BitsOf(v, n + 4) == [a == 1, b == 1, c == 1, d == 1] + BitsOf(rest, n)
  {
    hide BitsOf;
    OneBit(v, a, b + 2 * (c + 2 * (d + 2 * rest)), n + 3);
    OneBit(b + 2 * (c + 2 * (d + 2 * rest)), b, c + 2 * (d + 2 * rest), n + 2);
    OneBit(c + 2 * (d + 2 * rest), c, d + 2 * rest, n + 1);
    OneBit(d + 2 * rest, d, rest, n);
    FourBits(a == 1, b == 1, c == 1, d == 1, BitsOf(rest, n));
  }

  lemma FourBits(a: bool, b: bool, c: bool, d: bool, rest: seq<bool>)
    ensures [a] + ([b] + ([c] + ([d] + rest))) == [a, b, c, d] + rest
  {
  }

  lemma OneBit(v: nat, a: nat, rest: nat, n: nat)
    requires a < 2 && v == a + 2 * rest
    ensures BitsOf(v, n + 1) == [a == 1] + BitsOf(rest, n)
  {
  }

  /** One more bit of a stored code. */
  lemma StoredBit(c: nat, n: nat, front: seq<bool>)
    requires n > 0 && Invert(MsbBits(c / 2, n - 1)) == front
    ensures Invert(MsbBits(c, n)) == front + [c % 2 == 0]
  {
    assert MsbBits(c, n)[..n - 1] == MsbBits(c / 2, n - 1);
  }

  lemma NoStoredBits()
    ensures Invert(MsbBits(0, 0)) == []
  {
  }

  lemma ExampleStored()
    ensures Invert(MsbBits(27, 5)) == [false, false, true, false, false]
    ensures Invert(MsbBits(127, 7)) == [false, false, false, false, false, false, false]
    ensures Invert(MsbBits(0, 2)) == [true, true]
  {
    hide Invert, MsbBits;
    NoStoredBits();
    StoredBit(0, 1, []);
    StoredBit(0, 2, [true]);
    StoredBit(1, 1, []);
    StoredBit(3, 2, [false]);
    StoredBit(6, 3, [false, false]);
    StoredBit(13, 4, [false, false, true]);
    StoredBit(27, 5, [false, false, true, false]);
    StoredBit(7, 3, [false, false]);
    StoredBit(15, 4, [false, false, false]);
    StoredBit(31, 5, [false, false, false, false]);
    StoredBit(63, 6, [false, false, false, false, false]);
    StoredBit(127, 7, [false, false, false, false, false, false]);
  }

  lemma ExampleTokens()
    ensures LengthBits(11) == [false, false, true, false, false] + [true]
    ensures DistanceBits(2, 4) == [true, true] + [true, false, false, false]
    ensures LengthBits(519) == [false, false, false, false, false, false, false] + BitsOf(255, 8)
  {
    hide LengthCodes, DistanceCodes, LengthSymbol, Shr, Low, Code, Invert, MsbBits, BitsOf, FullCode;
    ExampleSymbols();
    SixteenLengths();
    ExampleLengthCodes();
    ExampleDistanceCode();
    ExampleStored();
    NoBits();
    OneBit(1, 1, 0, 0);
    BitsOfFour(1, 1, 0, 0, 0, 0, 0);
    assert [true] + [] == [true];
  }

  /** Two bytes side by side with pieces of other sizes. */
  lemma ExamplePieces(tail: seq<bool>)
    ensures
      [false] + BitsOf(65, 8) + ([false] + (BitsOf(73, 8) + tail))
      == BitsOf(0x82, 8) + (BitsOf(0x24, 8) + ([true, false] + tail))
  {
    hide BitsOf;
    ExampleLiterals();
    BitsOfByte(0x82, 0, 1, 0, 0, 0, 0, 0, 1);
    BitsOfByte(0x24, 0, 0, 1, 0, 0, 1, 0, 0);
  }

  lemma ExampleCopy(tail: seq<bool>)
    ensures [true, false] + ([true] + (LengthBits(11) + (DistanceBits(2, 4) + tail)))
        == BitsOf(0x25, 8) + ([true, true, true, true, false, false, false] + tail)
  {
    hide BitsOf, LengthBits, DistanceBits;
    ExampleTokens();
    BitsOfByte(0x25, 1, 0, 1, 0, 0, 1, 0, 0);
  }

  lemma LastBytes(zeros: seq<bool>, seven: seq<bool>)
    requires zeros == [false, false, false, false, false, false, false]
    requires seven == [true, true, true, true, true, true, true]
    ensures BitsOf(255, 8) == [true] + seven && BitsOf(0x7f, 8) == seven + [false]
    ensures BitsOf(0x8f, 8) == [true, true, true, true, false, false, false] + [true]
    ensures BitsOf(0x80, 8) == zeros + [true]
  {
    hide BitsOf;
    BitsOfByte(255, 1, 1, 1, 1, 1, 1, 1, 1);
    BitsOfByte(0x8f, 1, 1, 1, 1, 0, 0, 0, 1);
    BitsOfByte(0x80, 0, 0, 0, 0, 0, 0, 0, 1);
    BitsOfByte(0x7f, 1, 1, 1, 1, 1, 1, 1, 0);
  }

  lemma ExampleEnd()
    ensures [true, true, true, true, false, false, false] + ([true] + LengthBits(519)) + [false]
        == BitsOf(0x8f, 8) + (BitsOf(0x80, 8) + (BitsOf(0x7f, 8) + []))
  {
    hide BitsOf, LengthBits, DistanceBits;
    ExampleTokens();
    var zeros := [false, false, false, false, false, false, false];
    var seven := [true, true, true, true, true, true, true];
    LastBytes(zeros, seven);
    EndPieces([true, true, true, true, false, false, false], zeros, seven);
  }

  lemma EndPieces(a: seq<bool>, zeros: seq<bool>, seven: seq<bool>)
    ensures a + ([true] + (zeros + ([true] + seven))) + [false]
        == a + [true] + ((zeros + [true]) + ((seven + [false]) + []))
  {
  }

  lemma ExampleBytes()
    ensures AreBytes(EXAMPLE)
    ensures ByteBits(EXAMPLE)
        == BitsOf(0, 8) + (BitsOf(4, 8) + (BitsOf(0x82, 8) + (BitsOf(0x24, 8) + (BitsOf(0x25, 8) + (BitsOf(0x8f, 8)
           + (BitsOf(0x80, 8) + (BitsOf(0x7f, 8) + [])))))))
  {
    hide BitsOf, ByteBits;
    ByteMore(0x7f, [], [0x7f]);
    ByteMore(0x80, [0x7f], [0x80, 0x7f]);
    ByteMore(0x8f, [0x80, 0x7f], [0x8f, 0x80, 0x7f]);
    ByteMore(0x25, [0x8f, 0x80, 0x7f], [0x25, 0x8f, 0x80, 0x7f]);
    ByteMore(0x24, [0x25, 0x8f, 0x80, 0x7f], [0x24, 0x25, 0x8f, 0x80, 0x7f]);
    ByteMore(0x82, [0x24, 0x25, 0x8f, 0x80, 0x7f], [0x82, 0x24, 0x25, 0x8f, 0x80, 0x7f]);
    ByteMore(4, [0x82, 0x24, 0x25, 0x8f, 0x80, 0x7f], [4, 0x82, 0x24, 0x25, 0x8f, 0x80, 0x7f]);
    ByteMore(0, [4, 0x82, 0x24, 0x25, 0x8f, 0x80, 0x7f], EXAMPLE);
    NoBytes();
  }

  lemma NoBytes()
    ensures ByteBits([]) == []
  {
  }

  lemma ByteMore(b: int, rest: seq<int>, all: seq<int>)
    requires AreBytes(rest) && 0 <= b < 256 && all == [b] + rest
    ensures AreBytes(all) && ByteBits(all) == BitsOf(b, 8) + ByteBits(rest)
  {
    assert all[1..] == rest;
  }

  lemma ExampleSent()
    requires Sendable(4, AI)
    ensures SentBits(0, 4, AI)
        == BitsOf(0, 8) + BitsOf(4, 8) + ([false] + BitsOf(65, 8) + ([false] + BitsOf(73, 8)
           + ([true] + LengthBits(11) + DistanceBits(2, 4) + ([true] + LengthBits(519)))))
  {
    hide BitsOf, LengthBits, DistanceBits;
    assert AI[1..] == [Literal(73), Copy(11, 2)] && AI[1..][1..] == [Copy(11, 2)] && AI[1..][1..][1..] == [];
  }

  /** The bits of the file, one of them behind the end of the data. */
  lemma ExampleBits()
    requires Sendable(4, AI)
    ensures AreBytes(EXAMPLE) && ByteBits(EXAMPLE) == SentBits(0, 4, AI) + [false]
  {
    hide BitsOf, LengthBits, DistanceBits, ByteBits, SentBits;
    ExampleBytes();
    ExampleSent();
    var last := [true] + LengthBits(519) + [false];
    var copy := [true] + (LengthBits(11) + (DistanceBits(2, 4) + last));
    ExamplePieces(copy);
    ExampleCopy(last);
    ExampleEnd();
    assert SentBits(0, 4, AI) + [false]
        == BitsOf(0, 8) + (BitsOf(4, 8) + ([false] + BitsOf(65, 8) + ([false] + (BitsOf(73, 8) + copy))));
    assert [true, true, true, true, false, false, false] + last
        == [true, true, true, true, false, false, false] + ([true] + LengthBits(519)) + [false];
  }

  lemma TextMore(t: Token, later: seq<Token>, all: seq<Token>, text: seq<int>)
    requires all == [t] + later
    ensures TokensText(all, text) == TokensText(later, TokenText(t, text))
  {
    assert all[1..] == later;
  }

  lemma ExampleText()
    ensures TokensText(AI, []) == [65, 73, 65, 73, 65, 73, 65, 73, 65, 73, 65, 73, 65]
  {
    hide Expand, TokensText;
    TextMore(Literal(65), [Literal(73), Copy(11, 2)], AI, []);
    TextMore(Literal(73), [Copy(11, 2)], [Literal(73), Copy(11, 2)], [65]);
    TextMore(Copy(11, 2), [], [Copy(11, 2)], [65, 73]);
    assert [] + [65] == [65] && [65] + [73] == [65, 73];
    ExampleExpanded();
    NoText(Expand([65, 73], 2, 11));
  }

  lemma NoText(text: seq<int>)
    ensures TokensText([], text) == text
  {
  }

  lemma ExampleExpanded()
    ensures Expand([65, 73], 2, 11) == [65, 73, 65, 73, 65, 73, 65, 73, 65, 73, 65, 73, 65]
  {
    hide Expand;
    var t: seq<int> := [65, 73];
    ExpandNothing(t);
    var n := 0;
    while n < 11
      invariant n <= 11 && |t| == n + 2 && Expand([65, 73], 2, n) == t
      invariant forall i :: 0 <= i < |t| ==> t[i] == if i % 2 == 0 then 65 else 73
    {
      ExpandMore([65, 73], n, t);
      t := t + [t[|t| - 2]];
      n := n + 1;
    }
    assert t == [65, 73, 65, 73, 65, 73, 65, 73, 65, 73, 65, 73, 65];
  }

  lemma ExpandNothing(text: seq<int>)
    ensures Expand(text, 2, 0) == text
  {
  }

  lemma ExpandMore(text: seq<int>, n: nat, t: seq<int>)
    requires Expand(text, 2, n) == t && |t| >= 2
    ensures Expand(text, 2, n + 1) == t + [t[|t| - 2]]
  {
  }

  lemma ExampleSendable()
    ensures Sendable(4, AI) && Reaching(AI, 0)
  {
    PowerIs(4);
    assert AI[1..] == [Literal(73), Copy(11, 2)] && AI[1..][1..] == [Copy(11, 2)] && AI[1..][1..][1..] == [];
  }

  /** The documented example decompresses to `AIAIAIAIAIAIA`. */
  lemma ExampleMeans()
    ensures AreBytes(EXAMPLE)
    ensures Blasted(ByteBits(EXAMPLE)) == Outcome(0, [65, 73, 65, 73, 65, 73, 65, 73, 65, 73, 65, 73, 65])
  {
    hide SentBits, ByteBits, Blasted, TokensText, Sendable;
    ExampleSendable();
    ExampleBits();
    SentRead(0, 4, AI, [false]);
    ExampleText();
  }
}
