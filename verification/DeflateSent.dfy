/** What a compressor may send, and that the decoder's reference gives it back: round trips of literals and copies,
    of headers, and of whole streams of stored, fixed and dynamic blocks (RFC 1951, section 3.2). */
module DeflateSent {
  import opened Arith
  import opened Bits
  import opened Canonical
  import opened Window
  import opened HuftBits
  import opened HuftTables
  import opened HuftLists
  import opened HuftDriver
  import opened Inflate
  import opened InflateRoom
  import opened InflateBlocks
  import opened DeflateCodes

  // ---- Codes ----

  /** A symbol's code, the most significant bit first. */
  ghost function CodeBits(L: seq<int>, s: nat): seq<bool> {
    if s < |L| && L[s] > 0 then MsbBits(Code(L, s), L[s]) else []
  }

  /** The symbol has a code, and no length has more codes than there is room for. */
  ghost predicate Sendable(L: seq<int>, s: nat) {
    s < |L| && 0 < L[s] <= BMAX && KraftSum(L, BMAX, |L|) <= Pow2(BMAX)
  }

  lemma CodeFits(L: seq<int>, s: nat)
    requires Sendable(L, s)
    ensures Code(L, s) < Pow2(L[s])
  {
    LeftIsKraft(L, BMAX, |L|);
    LeftDrops(L, L[s], BMAX);
    RankBelowCount(L, s);
    LeftStep(L, L[s]);
  }

  lemma SymbolRead(L: seq<int>, s: nat, rest: seq<bool>)
    requires Sendable(L, s)
    ensures ReadSymbol(L, CodeBits(L, s) + rest) == Field(s, rest)
  {
    hide Code, Pow2, KraftSum;
    CodeFits(L, s);
    MsbOfBits(Code(L, s), L[s]);
    var stream := CodeBits(L, s) + rest;
    assert stream[..L[s]] == CodeBits(L, s) && stream[L[s]..] == rest;
    assert StartsWith(L, stream, s);
    PrefixFree(L, stream, s, FirstSymbol(L, stream));
  }

  // ---- Literals and copies ----

  datatype Token = Literal(byte: nat) | Copy(len: nat, dist: nat)

  ghost predicate TokenSendable(C: Codes, t: Token) {
    match t
    case Literal(b) => b < 256 && Sendable(C.ll, b)
    case Copy(len, dist) =>
      && 3 <= len <= MaxLength(C.defl64) && 1 <= dist <= MaxDistance(C.defl64)
      && Sendable(C.ll, 257 + LengthCode(C.defl64, len).i) && Sendable(C.dl, DistanceCode(dist).i)
  }

  /** A length or distance: its symbol and extra bits. */
  ghost function CodedBits(L: seq<int>, simple: nat, c: Coded): seq<bool> {
    CodeBits(L, simple + c.i) + BitsOf(c.v, c.extra)
  }

  ghost function TokenBits(C: Codes, t: Token): seq<bool> {
    match t
    case Literal(b) => CodeBits(C.ll, b)
    case Copy(len, dist) =>
      if len >= 3 && dist >= 1 then
        CodedBits(C.ll, 257, LengthCode(C.defl64, len)) + CodedBits(C.dl, 0, DistanceCode(dist))
      else []
  }

  /** The data of a block, with the end-of-block code. */
  ghost function TokensBits(C: Codes, tokens: seq<Token>): seq<bool> {
    if tokens == [] then CodeBits(C.ll, 256) else TokenBits(C, tokens[0]) + TokensBits(C, tokens[1..])
  }

  ghost function TokenText(t: Token, text: seq<int>): seq<int> {
    match t
    case Literal(b) => text + [b]
    case Copy(len, dist) => if dist > 0 then Expand(text, dist, len) else text
  }

  ghost function TokensText(tokens: seq<Token>, text: seq<int>): seq<int> {
    if tokens == [] then text else TokensText(tokens[1..], TokenText(tokens[0], text))
  }

  ghost predicate TokensSendable(C: Codes, tokens: seq<Token>) {
    Sendable(C.ll, 256) && forall i :: 0 <= i < |tokens| ==> TokenSendable(C, tokens[i])
  }

  lemma LiteralIs(C: Codes, b: nat, rest: seq<bool>)
    requires C.need.Free? && Sendable(C.ll, b)
    ensures ReadLiteral(C, CodeBits(C.ll, b) + rest) == Field(b, rest)
  {
    hide ReadSymbol, Sendable;
    SymbolRead(C.ll, b, rest);
  }

  lemma DistanceIsRead(C: Codes, dist: nat, rest: seq<bool>)
    requires C.need.Free? && 1 <= dist <= MaxDistance(C.defl64) && Sendable(C.dl, DistanceCode(dist).i)
    ensures ReadDistance(C, CodedBits(C.dl, 0, DistanceCode(dist)) + rest) == Field(dist, rest)
  {
    hide ReadSymbol, Sendable, ReadExtra, DistanceCode, CodeBits, DistanceLists;
    var c := DistanceCode(dist);
    SymbolRead(C.dl, c.i, BitsOf(c.v, c.extra) + rest);
    DistanceReadBack(C.defl64, dist, rest);
    assert CodedBits(C.dl, 0, c) + rest == CodeBits(C.dl, c.i) + (BitsOf(c.v, c.extra) + rest);
  }

  /** One token is read back. */
  lemma TokenStep(C: Codes, t: Token, rest: seq<bool>, text: seq<int>)
    requires C.need.Free? && TokenSendable(C, t)
    ensures StepOf(C, TokenBits(C, t) + rest, text) == Go(rest, TokenText(t, text))
  {
    hide ReadLiteral, ReadDistance, ReadExtra, Sendable, LengthCode, DistanceCode, CodeBits, LengthLists;
    match t {
      case Literal(b) => LiteralIs(C, b, rest);
      case Copy(len, dist) =>
        var c, d := LengthCode(C.defl64, len), DistanceCode(dist);
        var after := CodedBits(C.dl, 0, d) + rest;
        LiteralIs(C, 257 + c.i, BitsOf(c.v, c.extra) + after);
        LengthReadBack(C.defl64, len, after);
        DistanceIsRead(C, dist, rest);
        var stream := TokenBits(C, t) + rest;
        assert stream == CodeBits(C.ll, 257 + c.i) + (BitsOf(c.v, c.extra) + after);
        CodeNotEmpty(C.ll, 257 + c.i);
    }
  }

  lemma CodeNotEmpty(L: seq<int>, s: nat)
    requires Sendable(L, s)
    ensures |CodeBits(L, s)| > 0
  {
  }

  /** Whatever literals and copies are sent, with whatever codes: that is what the block means. */
  lemma {:induction false} TokensRead(C: Codes, tokens: seq<Token>, rest: seq<bool>, text: seq<int>)
    requires C.need.Free? && TokensSendable(C, tokens)
    ensures Inflated(C, TokensBits(C, tokens) + rest, text) == Done(TokensText(tokens, text), rest)
    decreases |tokens|
  {
    hide Inflated, StepOf, TokenBits, TokenText, TokenSendable, Sendable, CodeBits;
    InflatedSteps(C, TokensBits(C, tokens) + rest, text);
    if tokens == [] {
      EndStep(C, rest, text);
    } else {
      var t, later := tokens[0], tokens[1..];
      assert TokensBits(C, tokens) + rest == TokenBits(C, t) + (TokensBits(C, later) + rest);
      TokenStep(C, t, TokensBits(C, later) + rest, text);
      TokensRead(C, later, rest, TokenText(t, text));
    }
  }

  lemma EndStep(C: Codes, rest: seq<bool>, text: seq<int>)
    requires C.need.Free? && Sendable(C.ll, 256)
    ensures StepOf(C, CodeBits(C.ll, 256) + rest, text) == Stop(Done(text, rest))
  {
    hide ReadLiteral, ReadDistance, ReadExtra, Sendable, CodeBits, LengthLists;
    LiteralIs(C, 256, rest);
  }

  // ---- Code lengths ----

  /** A length, the last one again 3 to 6 times, or 3 to 138 zeros. */
  datatype LenToken = Len(l: nat) | Again(n: nat) | Zeros(n: nat)

  ghost predicate LenSendable(B: seq<int>, t: LenToken) {
    match t
    case Len(l) => l < 16 && Sendable(B, l)
    case Again(n) => 3 <= n <= 6 && Sendable(B, 16)
    case Zeros(n) => if n <= 10 then 3 <= n && Sendable(B, 17) else n <= 138 && Sendable(B, 18)
  }

  ghost function LenBits(B: seq<int>, t: LenToken): seq<bool> {
    match t
    case Len(l) => CodeBits(B, l)
    case Again(n) => if n >= 3 then CodeBits(B, 16) + BitsOf(n - 3, 2) else []
    case Zeros(n) =>
      if n >= 11 then CodeBits(B, 18) + BitsOf(n - 11, 7)
      else if n >= 3 then CodeBits(B, 17) + BitsOf(n - 3, 3) else []
  }

  function Previous(acc: seq<int>): int { if acc == [] then 0 else acc[|acc| - 1] }

  function LenTaken(t: LenToken, acc: seq<int>): seq<int> {
    match t
    case Len(l) => acc + [l]
    case Again(n) => acc + Repeat(Previous(acc), n)
    case Zeros(n) => acc + Repeat(0, n)
  }

  function LensTaken(lens: seq<LenToken>, acc: seq<int>): seq<int> {
    if lens == [] then acc else LensTaken(lens[1..], LenTaken(lens[0], acc))
  }

  ghost function LensBits(B: seq<int>, lens: seq<LenToken>): seq<bool> {
    if lens == [] then [] else LenBits(B, lens[0]) + LensBits(B, lens[1..])
  }

  lemma {:induction false} LensGrow(lens: seq<LenToken>, acc: seq<int>)
    ensures |LensTaken(lens, acc)| >= |acc|
  {
    if lens != [] {
      LensGrow(lens[1..], LenTaken(lens[0], acc));
    }
  }

  lemma BitSymbolRead(B: seq<int>, s: nat, rest: seq<bool>)
    requires Sendable(B, s)
    ensures ReadBitSymbol(BitCode(B, 0, false), CodeBits(B, s) + rest) == Field(s, rest)
  {
    hide ReadSymbol, Sendable, ReadBitSymbol, CodeBits;
    SymbolRead(B, s, rest);
    SameSymbol(B, 0, CodeBits(B, s) + rest);
  }

  lemma SmallRanges()
    ensures Pow2(2) == 4 && Pow2(3) == 8 && Pow2(7) == 128 && Pow2(4) == 16 && Pow2(5) == 32 && Pow2(8) == 256
  {
  }

  /** One token of the list of lengths. */
  lemma LenStep(B: seq<int>, t: LenToken, n: nat, acc: seq<int>, rest: seq<bool>)
    requires LenSendable(B, t) && |LenTaken(t, acc)| <= n
    ensures |acc| < |LenTaken(t, acc)|
    ensures
      var R := BitCode(B, 0, false);
      ReadLengths(R, n, acc, Previous(acc), LenBits(B, t) + rest)
      == ReadLengths(R, n, LenTaken(t, acc), Previous(LenTaken(t, acc)), rest)
  {
    hide ReadLengths, ReadBitSymbol, ReadBits, Sendable, CodeBits, Pow2;
    SmallRanges();
    var R := BitCode(B, 0, false);
    match t {
      case Len(l) =>
        BitSymbolRead(B, l, rest);
        LengthsStep(R, n, acc, Previous(acc), LenBits(B, t) + rest, l, rest);
      case Again(k) =>
        RunStep(R, 16, k - 3, n, acc, Previous(acc), rest);
      case Zeros(k) =>
        ZerosStep(B, k, n, acc, rest);
    }
  }

  lemma ZerosStep(B: seq<int>, k: nat, n: nat, acc: seq<int>, rest: seq<bool>)
    requires LenSendable(B, Zeros(k)) && |acc| + k <= n
    ensures k >= 3
    ensures
      var R := BitCode(B, 0, false);
      ReadLengths(R, n, acc, Previous(acc), LenBits(B, Zeros(k)) + rest)
      == ReadLengths(R, n, acc + Repeat(0, k), 0, rest)
  {
    hide ReadLengths, Sendable, CodeBits, Pow2, Previous;
    SmallRanges();
    if k >= 11 {
      RunStep(BitCode(B, 0, false), 18, k - 11, n, acc, 0, rest);
    } else {
      RunStep(BitCode(B, 0, false), 17, k - 3, n, acc, 0, rest);
    }
  }

  lemma RunStep(R: BitCode, s: nat, v: nat, n: nat, acc: seq<int>, again: int, rest: seq<bool>)
    requires R == BitCode(R.B, 0, false) && 16 <= s <= 18 && Sendable(R.B, s) && v < Pow2(RunBits(s))
    requires |acc| + RunBase(s) + v <= n && again == if s == 16 then Previous(acc) else 0
    ensures
      ReadLengths(R, n, acc, Previous(acc), CodeBits(R.B, s) + BitsOf(v, RunBits(s)) + rest)
      == ReadLengths(R, n, acc + Repeat(again, RunBase(s) + v), again, rest)
  {
    hide ReadLengths, ReadBitSymbol, ReadBits, Sendable, CodeBits, Pow2;
    var after := BitsOf(v, RunBits(s)) + rest;
    assert CodeBits(R.B, s) + BitsOf(v, RunBits(s)) + rest == CodeBits(R.B, s) + after;
    BitSymbolRead(R.B, s, after);
    BitsRead(v, RunBits(s), rest);
    LengthsStep(R, n, acc, Previous(acc), CodeBits(R.B, s) + after, s, after);
  }

  /** The lengths sent are the lengths read. */
  lemma {:induction false} LensRead(B: seq<int>, lens: seq<LenToken>, acc: seq<int>, rest: seq<bool>)
    requires forall i :: 0 <= i < |lens| ==> LenSendable(B, lens[i])
    ensures
      var all := LensTaken(lens, acc);
      ReadLengths(BitCode(B, 0, false), |all|, acc, Previous(acc), LensBits(B, lens) + rest) == Lens(all, rest)
    decreases |lens|
  {
    hide ReadLengths, LenSendable, LenBits, LenTaken, Previous;
    var all := LensTaken(lens, acc);
    if lens == [] {
      NoMore(BitCode(B, 0, false), |all|, acc, Previous(acc), rest);
      assert LensBits(B, lens) + rest == rest;
    } else {
      var t, later := lens[0], lens[1..];
      assert LensBits(B, lens) + rest == LenBits(B, t) + (LensBits(B, later) + rest);
      LensGrow(later, LenTaken(t, acc));
      LenStep(B, t, |all|, acc, LensBits(B, later) + rest);
      LensRead(B, later, LenTaken(t, acc), rest);
    }
  }

  // ---- Bit length codes ----

  ghost function BorderBits(B: seq<int>, j: nat, nb: nat): seq<bool>
    requires |B| == 19 && nb <= 19 && forall i :: 0 <= i < 19 ==> B[i] >= 0
    decreases nb - j
  {
    if j >= nb then [] else BitsOf(B[Order(j)], 3) + BorderBits(B, j + 1, nb)
  }

  /** The first `j` lengths have been entered, the others are zero. */
  ghost predicate Entered(B: seq<int>, ll: seq<int>, j: nat) {
    |B| == |ll| == 19 && forall i :: 0 <= i < 19 ==> ll[Order(i)] == if i < j then B[Order(i)] else 0
  }

  lemma EnterOne(B: seq<int>, ll: seq<int>, j: nat)
    requires j < 19 && Entered(B, ll, j)
    ensures |BORDER| == 19 && BORDER[j] == Order(j) && Entered(B, ll[Order(j) := B[Order(j)]], j + 1)
  {
    BorderIs(j);
    forall i | 0 <= i < 19 && i != j ensures Order(i) != Order(j) {
      BorderIs(i);
      BorderIsOrder(i);
      BorderIsOrder(j);
    }
  }

  lemma AllEntered(B: seq<int>, ll: seq<int>, nb: nat)
    requires Entered(B, ll, nb) && forall j :: nb <= j < 19 ==> B[Order(j)] == 0
    ensures ll == B
  {
    forall x | 0 <= x < 19 ensures ll[x] == B[x] {
      BorderIsOrder(x);
      BorderIs(PLACE[x]);
      assert Order(PLACE[x]) == x;
    }
  }

  lemma {:induction false} BorderRead(B: seq<int>, j: nat, nb: nat, ll: seq<int>, rest: seq<bool>)
    requires |B| == |ll| == 19 && j <= nb <= 19 && (forall i :: 0 <= i < 19 ==> 0 <= B[i] < 8) && Entered(B, ll, j)
    requires forall i :: nb <= i < 19 ==> B[Order(i)] == 0
    ensures ReadBitLengths(j, nb, ll, BorderBits(B, j, nb) + rest) == Lens(B, rest)
    decreases nb - j
  {
    hide ReadBits, Entered, Pow2;
    if j == nb {
      AllEntered(B, ll, nb);
      assert BorderBits(B, j, nb) + rest == rest;
    } else {
      var v, after := B[Order(j)], BorderBits(B, j + 1, nb) + rest;
      SmallRanges();
      BitsRead(v, 3, after);
      assert BorderBits(B, j, nb) + rest == BitsOf(v, 3) + after;
      EnterOne(B, ll, j);
      BorderRead(B, j + 1, nb, ll[Order(j) := v], rest);
    }
  }

  // ---- Headers ----

  /** The code lengths of both alphabets, the bit length code and how much of it is sent, and the list sent in it. */
  datatype Head = Head(ll: seq<int>, dl: seq<int>, B: seq<int>, nb: nat, lens: seq<LenToken>)

  ghost predicate BitsSendable(h: Head) {
    && 4 <= h.nb <= 19 && |h.B| == 19 && (forall i :: 0 <= i < 19 ==> 0 <= h.B[i] < 8)
    && (forall i :: h.nb <= i < 19 ==> h.B[Order(i)] == 0) && Usable(h.B)
  }

  ghost predicate HeadSendable(h: Head) {
    && 257 <= |h.ll| <= MAXLITLENS && 1 <= |h.dl| <= MAXDISTS && Usable(h.ll) && UsableDistances(h.dl, |h.ll|)
    && BitsSendable(h)
    && (forall i :: 0 <= i < |h.lens| ==> LenSendable(h.B, h.lens[i])) && LensTaken(h.lens, []) == h.ll + h.dl
  }

  ghost function HeadBits(h: Head): seq<bool>
    requires HeadSendable(h)
  {
    BitsOf(|h.ll| - 257, 5) + BitsOf(|h.dl| - 1, 5) + BitsOf(h.nb - 4, 4) + BorderBits(h.B, 0, h.nb)
    + LensBits(h.B, h.lens)
  }

  lemma TablesSent(defl64: bool, h: Head, rest: seq<bool>)
    requires HeadSendable(h)
    ensures
      ReadTables(false, defl64, |h.ll|, |h.dl|, h.nb, BorderBits(h.B, 0, h.nb) + LensBits(h.B, h.lens) + rest)
      == Header(Codes(h.ll, h.dl, defl64, Free), h.B, rest)
  {
    hide ReadBitLengths, ReadLengths, ReadTables, Usable, UsableDistances, LenSendable, BorderBits, LensBits, LensTaken;
    hide Entered, Order, Repeat;
    var after := LensBits(h.B, h.lens) + rest;
    var stream := BorderBits(h.B, 0, h.nb) + LensBits(h.B, h.lens) + rest;
    assert stream == BorderBits(h.B, 0, h.nb) + after;
    NoneEntered(h.B);
    BorderRead(h.B, 0, h.nb, Repeat(0, 19), after);
    LensRead(h.B, h.lens, [], rest);
    TablesRead(false, defl64, |h.ll|, |h.dl|, h.nb, stream);
    BothLists(h.ll, h.dl);
  }

  lemma NoneEntered(B: seq<int>)
    requires |B| == 19
    ensures Entered(B, Repeat(0, 19), 0)
  {
  }

  lemma BothLists(a: seq<int>, b: seq<int>)
    ensures |a + b| == |a| + |b| && (a + b)[..|a|] == a && (a + b)[|a|..] == b
  {
  }

  lemma Regroup5<T>(a: seq<T>, b: seq<T>, c: seq<T>, d: seq<T>, e: seq<T>, f: seq<T>)
    ensures a + b + c + d + e + f == a + (b + (c + (d + e + f)))
  {
  }

  lemma Regroup4<T>(a: seq<T>, b: seq<T>, c: seq<T>, d: seq<T>, e: seq<T>)
    ensures a + (b + (c + d)) + e == a + (b + (c + (d + e)))
  {
  }

  /** A header sent is the header read. */
  lemma HeaderSent(defl64: bool, h: Head, rest: seq<bool>)
    requires HeadSendable(h)
    ensures ReadHeader(false, defl64, HeadBits(h) + rest) == Header(Codes(h.ll, h.dl, defl64, Free), h.B, rest)
  {
    hide ReadTables, HeadSendable, BitsOf, ReadBits, BorderBits, LensBits;
    HeadCounts(h);
    var after := BorderBits(h.B, 0, h.nb) + LensBits(h.B, h.lens) + rest;
    var third := BitsOf(h.nb - 4, 4) + after;
    var second := BitsOf(|h.dl| - 1, 5) + third;
    var stream := BitsOf(|h.ll| - 257, 5) + second;
    Regroup5(BitsOf(|h.ll| - 257, 5), BitsOf(|h.dl| - 1, 5), BitsOf(h.nb - 4, 4), BorderBits(h.B, 0, h.nb),
             LensBits(h.B, h.lens), rest);
    CountsRead(|h.ll| - 257, 5, second);
    CountsRead(|h.dl| - 1, 5, third);
    CountsRead(h.nb - 4, 4, after);
    HeaderParts(defl64, stream);
    TablesSent(defl64, h, rest);
  }

  lemma CountsRead(v: nat, n: nat, rest: seq<bool>)
    requires (n == 5 && v < 32) || (n == 4 && v < 16)
    ensures ReadBits(n, BitsOf(v, n) + rest) == Field(v, rest)
  {
    hide ReadBits;
    SmallRanges();
    BitsRead(v, n, rest);
  }

  lemma HeaderParts(defl64: bool, stream: seq<bool>)
    ensures
      var f := ReadBits(5, stream);
      var d := if f.Field? then ReadBits(5, f.rest) else NoField;
      var b := if d.Field? then ReadBits(4, d.rest) else NoField;
      b.Field? ==>
        ReadHeader(false, defl64, stream) == ReadTables(false, defl64, 257 + f.value, 1 + d.value, 4 + b.value, b.rest)
  {
    hide ReadBits, ReadTables;
  }

  lemma HeadCounts(h: Head)
    requires HeadSendable(h)
    ensures 257 <= |h.ll| <= 288 && 1 <= |h.dl| <= 32 && 4 <= h.nb <= 19 && |h.B| == 19
    ensures forall i :: 0 <= i < 19 ==> h.B[i] >= 0
  {
  }

  // ---- Streams ----

  datatype Sent =
    | RawBlock(pad: seq<bool>, bytes: seq<int>)
    | FixedBlock(tokens: seq<Token>)
    | DynamicBlock(head: Head, tokens: seq<Token>)

  function KindOf(s: Sent): nat {
    match s
    case RawBlock(_, _) => 0
    case FixedBlock(_) => 1
    case DynamicBlock(_, _) => 2
  }

  /** The bits of bytes, which may be given as any integers. */
  ghost function RawBits(bytes: seq<int>): seq<bool> { if AreBytes(bytes) then ByteBits(bytes) else [] }

  ghost function BodyBits(defl64: bool, s: Sent): seq<bool> {
    match s
    case RawBlock(pad, bytes) =>
      pad + if |bytes| < 65536 then BitsOf(|bytes|, 16) + (BitsOf(65535 - |bytes|, 16) + RawBits(bytes)) else []
    case FixedBlock(tokens) => TokensBits(FixedCodes(defl64), tokens)
    case DynamicBlock(h, tokens) =>
      if HeadSendable(h) then HeadBits(h) + TokensBits(Codes(h.ll, h.dl, defl64, Free), tokens) else []
  }

  /** Whether a block can be sent like this before so many bits: stored bytes begin at a byte border. */
  ghost predicate BodySendable(defl64: bool, s: Sent, after: nat) {
    match s
    case RawBlock(pad, bytes) => AreBytes(bytes) && |bytes| < 65536 && |pad| < 8 && after % 8 == 0
    case FixedBlock(tokens) => TokensSendable(FixedCodes(defl64), tokens)
    case DynamicBlock(h, tokens) => HeadSendable(h) && TokensSendable(Codes(h.ll, h.dl, defl64, Free), tokens)
  }

  ghost function BodyText(s: Sent, text: seq<int>): seq<int> {
    match s
    case RawBlock(_, bytes) => text + bytes
    case FixedBlock(tokens) => TokensText(tokens, text)
    case DynamicBlock(_, tokens) => TokensText(tokens, text)
  }

  /** Blocks one after the other: a bit that tells the last one, two bits for the kind, and the block itself. */
  ghost function SentBits(defl64: bool, blocks: seq<Sent>): seq<bool> {
    if blocks == [] then []
    else
      [|blocks| == 1] + BitsOf(KindOf(blocks[0]), 2) + BodyBits(defl64, blocks[0]) + SentBits(defl64, blocks[1..])
  }

  /** Each block can be sent, with `after` bits behind the last one. */
  ghost predicate AllSendable(defl64: bool, blocks: seq<Sent>, after: nat) {
    blocks == [] ||
    (BodySendable(defl64, blocks[0], |SentBits(defl64, blocks[1..])| + after)
     && AllSendable(defl64, blocks[1..], after))
  }

  ghost function SentText(blocks: seq<Sent>, text: seq<int>): seq<int> {
    if blocks == [] then text else SentText(blocks[1..], BodyText(blocks[0], text))
  }

  lemma {:induction false} BytesRead(bytes: seq<int>, rest: seq<bool>, text: seq<int>)
    requires AreBytes(bytes)
    ensures StoredBytes(|bytes|, ByteBits(bytes) + rest, text) == Done(text + bytes, rest)
  {
    hide ReadBits, Pow2;
    if bytes == [] {
      assert ByteBits(bytes) + rest == rest && text + bytes == text;
    } else {
      var b, later := bytes[0], bytes[1..];
      SmallRanges();
      BitsRead(b, 8, ByteBits(later) + rest);
      assert ByteBits(bytes) + rest == BitsOf(b, 8) + (ByteBits(later) + rest);
      BytesRead(later, rest, text + [b]);
      assert text + [b] + later == text + bytes;
    }
  }

  lemma StoredHead(pad: seq<bool>, n: nat, data: seq<bool>, text: seq<int>)
    requires n < 65536 && |pad| < 8 && |data| % 8 == 0
    ensures Stored(pad + (BitsOf(n, 16) + (BitsOf(65535 - n, 16) + data)), text) == StoredBytes(n, data, text)
  {
    hide ReadBits, Pow2, StoredBytes, BitsOf;
    var second := BitsOf(65535 - n, 16) + data;
    var aligned := BitsOf(n, 16) + second;
    SixtyFour();
    BitsRead(n, 16, second);
    BitsRead(65535 - n, 16, data);
    assert (pad + aligned)[|pad + aligned| % 8..] == aligned;
  }

  lemma RawRead(pad: seq<bool>, bytes: seq<int>, rest: seq<bool>, text: seq<int>)
    requires AreBytes(bytes) && |bytes| < 65536 && |pad| < 8 && |rest| % 8 == 0
    ensures
      Stored(pad + (BitsOf(|bytes|, 16) + (BitsOf(65535 - |bytes|, 16) + (ByteBits(bytes) + rest))), text)
      == Done(text + bytes, rest)
  {
    hide Stored, StoredBytes, BitsOf, ByteBits;
    ByteBitsLength(bytes);
    StoredHead(pad, |bytes|, ByteBits(bytes) + rest, text);
    BytesRead(bytes, rest, text);
  }

  /** One block is read back. */
  lemma BodyRead(defl64: bool, s: Sent, rest: seq<bool>, text: seq<int>)
    requires BodySendable(defl64, s, |rest|)
    ensures Block(Free, KindOf(s), defl64, BodyBits(defl64, s) + rest, text) == Done(BodyText(s, text), rest)
  {
    hide Block, Stored, Inflated, FixedCodes, ReadHeader, BitsOf, ByteBits, TokensBits, TokensSendable, TokensText,
        HeadSendable,
        HeadBits;
    var stream := BodyBits(defl64, s) + rest;
    BlockKinds(Free, defl64, stream, text);
    match s {
      case RawBlock(pad, bytes) =>
        Regroup4(pad, BitsOf(|bytes|, 16), BitsOf(65535 - |bytes|, 16), ByteBits(bytes), rest);
        RawRead(pad, bytes, rest, text);
      case FixedBlock(tokens) =>
        FixedFree(defl64);
        TokensRead(FixedCodes(defl64), tokens, rest, text);
      case DynamicBlock(h, tokens) =>
        var C := Codes(h.ll, h.dl, defl64, Free);
        assert stream == HeadBits(h) + (TokensBits(C, tokens) + rest);
        HeaderSent(defl64, h, TokensBits(C, tokens) + rest);
        DynamicMeans(Free, defl64, stream, text);
        TokensRead(C, tokens, rest, text);
    }
  }

  lemma HeadRead(last: bool, kind: nat, rest: seq<bool>)
    requires kind < 4
    ensures ReadBits(1, [last] + BitsOf(kind, 2) + rest) == Field(if last then 1 else 0, BitsOf(kind, 2) + rest)
    ensures ReadBits(2, BitsOf(kind, 2) + rest) == Field(kind, rest)
  {
    hide ReadBits;
    SmallRanges();
    var v: nat := if last then 1 else 0;
    assert BitsOf(v, 1) == [last];
    assert Pow2(1) == 2;
    BitsRead(v, 1, BitsOf(kind, 2) + rest);
    assert [last] + BitsOf(kind, 2) + rest == BitsOf(v, 1) + (BitsOf(kind, 2) + rest);
    BitsRead(kind, 2, rest);
  }

  /** What the first block does to the whole. */
  lemma OneSent(defl64: bool, last: bool, s: Sent, after: seq<bool>, text: seq<int>)
    requires BodySendable(defl64, s, |after|)
    ensures
      var stream, text' := [last] + BitsOf(KindOf(s), 2) + (BodyBits(defl64, s) + after), BodyText(s, text);
      && Blocks(defl64, stream, text) == (if last then Done(text', after) else Blocks(defl64, after, text'))
      && (!s.DynamicBlock? && (last || RoomyBlocks(defl64, after, text')) ==> RoomyBlocks(defl64, stream, text))
  {
    hide Blocks, Block, ReadBits, BodyBits, BodySendable, BodyText, BitsOf, RoomyBlocks;
    var stream := [last] + BitsOf(KindOf(s), 2) + (BodyBits(defl64, s) + after);
    HeadRead(last, KindOf(s), BodyBits(defl64, s) + after);
    BodyRead(defl64, s, after, text);
    BlocksStep(defl64, stream, text);
    RoomyStep(defl64, stream, text);
  }

  lemma RoomyStep(defl64: bool, stream: seq<bool>, text: seq<int>)
    ensures
      var e := ReadBits(1, stream);
      var kind := if e.Field? then ReadBits(2, e.rest) else NoField;
      var r := if kind.Field? then Block(Free, kind.value, defl64, kind.rest, text) else Bad;
      kind.Field? && kind.value != 2 && r.Done? && (e.value == 1 || RoomyBlocks(defl64, r.rest, r.text)) ==>
        RoomyBlocks(defl64, stream, text)
  {
    hide Block, ReadBits;
  }

  lemma SentSplit(defl64: bool, blocks: seq<Sent>, rest: seq<bool>)
    requires blocks != [] && AllSendable(defl64, blocks, |rest|)
    ensures
      var s, after := blocks[0], SentBits(defl64, blocks[1..]) + rest;
      && SentBits(defl64, blocks) + rest
          == [|blocks| == 1] + BitsOf(KindOf(s), 2) + (BodyBits(defl64, s) + after)
      && BodySendable(defl64, s, |after|) && AllSendable(defl64, blocks[1..], |rest|)
      && (|blocks| == 1 ==> after == rest)
  {
    hide BodySendable, BodyBits;
  }

  /** Whatever blocks a compressor makes of a text, in whatever codes and with whatever repeats: their stream means
      that text. */
  lemma {:induction false} SentRead(defl64: bool, blocks: seq<Sent>, rest: seq<bool>, text: seq<int>)
    requires blocks != [] && AllSendable(defl64, blocks, |rest|)
    ensures Blocks(defl64, SentBits(defl64, blocks) + rest, text) == Done(SentText(blocks, text), rest)
    decreases |blocks|
  {
    hide Blocks, SentBits, BodyBits, AllSendable, BodySendable, BodyText, BitsOf, RoomyBlocks;
    SentSplit(defl64, blocks, rest);
    OneSent(defl64, |blocks| == 1, blocks[0], SentBits(defl64, blocks[1..]) + rest, text);
    if |blocks| > 1 {
      SentRead(defl64, blocks[1..], rest, BodyText(blocks[0], text));
    }
  }

  // ---- And the decoder ----

  ghost predicate NoneDynamic(blocks: seq<Sent>) { forall i :: 0 <= i < |blocks| ==> !blocks[i].DynamicBlock? }

  /** Stored and fixed blocks need no room behind them. */
  lemma {:induction false} SentRoomy(defl64: bool, blocks: seq<Sent>, rest: seq<bool>, text: seq<int>)
    requires blocks != [] && AllSendable(defl64, blocks, |rest|) && NoneDynamic(blocks)
    ensures RoomyBlocks(defl64, SentBits(defl64, blocks) + rest, text)
    decreases |blocks|
  {
    hide Blocks, SentBits, BodyBits, AllSendable, BodySendable, BodyText, BitsOf, RoomyBlocks;
    SentSplit(defl64, blocks, rest);
    OneSent(defl64, |blocks| == 1, blocks[0], SentBits(defl64, blocks[1..]) + rest, text);
    if |blocks| > 1 {
      SentRoomy(defl64, blocks[1..], rest, BodyText(blocks[0], text));
    }
  }

  /** `zipinflate` gives back what was sent in stored and fixed blocks; with dynamic ones also, where there is room
      for its lookups. */
  method Restored(bytes: seq<int>, defl64: bool, ghost blocks: seq<Sent>, ghost rest: seq<bool>)
    returns (r: int, out: seq<int>)
    requires AreBytes(bytes) && blocks != [] && AllSendable(defl64, blocks, |rest|)
    requires ByteBits(bytes) == SentBits(defl64, blocks) + rest
    ensures r == 0 ==> out == SentText(blocks, [])
    ensures NoneDynamic(blocks) || RoomyBlocks(defl64, ByteBits(bytes), []) ==> r == 0
  {
    hide Blocks, BlocksLooked, NeedsBuilt, ByteBits, RoomyBlocks, SentBits, AllSendable, SentText;
    SentRead(defl64, blocks, rest, []);
    if NoneDynamic(blocks) {
      SentRoomy(defl64, blocks, rest, []);
    }
    ghost var needs;
    r, out, needs := ZipInflate(bytes, defl64);
  }
}
