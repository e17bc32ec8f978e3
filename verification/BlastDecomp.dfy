/** The whole PKWARE DCL decompressor against a decoder that knows only canonical codes, a stream of
    bits and unbounded output. */
module BlastDecomp {
  import opened Wrappers
  import opened Arith
  import opened Bits
  import opened Canonical
  import opened Window
  import opened HuftBits
  import opened Blast
  import opened BlastCode
  import opened BlastWindow
  import opened BlastTables

  /** Base and extra bits of the length codes. */
  function Base(symbol: nat): (b: nat)
    requires symbol < 16
    ensures b >= 2
  {
    [3, 2, 4, 5, 6, 7, 8, 9, 10, 12, 16, 24, 40, 72, 136, 264][symbol]
  }

  function Extra(symbol: nat): (e: nat)
    requires symbol < 16
    ensures e <= 8
  {
    [0, 0, 0, 0, 0, 0, 0, 0, 1, 2, 3, 4, 5, 6, 7, 8][symbol]
  }

  /** The longest length ends the data. */
  const END: int := 519

  // ---- The reference ----

  /** Lengths of a code whose every symbol has one and that leaves no pattern unused. */
  ghost predicate FullCode(L: seq<int>, n: nat) {
    |L| == n && Bounded(L, MAXBITS) && (forall i :: 0 <= i < n ==> L[i] > 0) && Left(L, MAXBITS) == 0
  }

  ghost function LengthCodes(): (L: seq<int>)
    ensures FullCode(L, 16)
  {
    LengthsFull();
    Unpack(LENLEN)
  }

  ghost function DistanceCodes(): (L: seq<int>)
    ensures FullCode(L, 64)
  {
    DistancesFull();
    Unpack(DISTLEN)
  }

  ghost function LiteralCodes(): (L: seq<int>)
    ensures FullCode(L, 256)
  {
    LiteralsFull();
    Unpack(LITLEN)
  }

  lemma SymbolInside(L: seq<int>, n: nat, stream: seq<bool>, s: int)
    requires FullCode(L, n) && Coded(L, stream, s)
    ensures 0 <= s < n && 0 < L[s] <= |stream|
  {
  }

  /** The symbol whose stored code starts the stream; there is at most one. */
  ghost function ReadCode(L: seq<int>, stream: seq<bool>): (f: Field)
    ensures f.Field? ==> Coded(L, stream, f.value) && f.rest == stream[L[f.value]..]
    ensures f.NoField? ==> forall s :: !Coded(L, stream, s)
  {
    if exists s :: Coded(L, stream, s) then
      var s :| Coded(L, stream, s);
      Field(s, stream[L[s]..])
    else NoField
  }

  ghost function ReadLength(stream: seq<bool>): (f: Field)
    ensures f.Field? ==> f.value >= 2 && |f.rest| < |stream|
  {
    hide FullCode, Coded, ReadBits, ReadCode, LengthCodes, Base, Extra;
    var symbol := ReadCode(LengthCodes(), stream);
    if symbol.NoField? then NoField
    else
      SymbolInside(LengthCodes(), 16, stream, symbol.value);
      var extra := ReadBits(Extra(symbol.value), symbol.rest);
      if extra.NoField? then NoField else Field(Base(symbol.value) + extra.value, extra.rest)
  }

  /** The distance after a length; the shortest strings have two low bits whatever the dictionary. */
  ghost function ReadDistance(len: nat, dict: nat, stream: seq<bool>): (f: Field)
    ensures f.Field? ==> f.value >= 1 && |f.rest| < |stream|
  {
    hide FullCode, Coded, ReadBits, ReadCode, Scaled, DistanceCodes;
    var low := if len == 2 then 2 else dict;
    var symbol := ReadCode(DistanceCodes(), stream);
    if symbol.NoField? then NoField
    else
      SymbolInside(DistanceCodes(), 64, stream, symbol.value);
      var extra := ReadBits(low, symbol.rest);
      if extra.NoField? then NoField else Field(Scaled(symbol.value, low) + extra.value + 1, extra.rest)
  }

  function Scaled(symbol: nat, low: nat): nat {
    MulNonNeg(symbol, Pow2(low));
    symbol * Pow2(low)
  }

  ghost function ReadLiteral(lit: nat, stream: seq<bool>): (f: Field)
    ensures f.Field? ==> |f.rest| < |stream|
  {
    hide FullCode, Coded, ReadBits, ReadCode;
    if lit == 0 then ReadBits(8, stream)
    else
      var symbol := ReadCode(LiteralCodes(), stream);
      if symbol.NoField? then NoField
      else
        SymbolInside(LiteralCodes(), 256, stream, symbol.value);
        symbol
  }

  /** The result as `blast` numbers it, and the output up to then. */
  datatype Outcome = Outcome(err: int, text: seq<int>)

  /** The meaning of the data after the header: a bit tells literals from length/distance pairs; the
      longest length ends the data. */
  ghost function Exploded(lit: nat, dict: nat, stream: seq<bool>, text: seq<int>): Outcome
    decreases |stream|
  {
    hide ReadLength, ReadDistance, ReadLiteral;
    if stream == [] then Outcome(2, text)
    else if stream[0] then
      match ReadLength(stream[1..])
      case NoField => Outcome(2, text)
      case Field(len, rest) =>
        if len == END then Outcome(0, text)
        else
          match ReadDistance(len, dict, rest)
          case NoField => Outcome(2, text)
          case Field(dist, rest') =>
            if dist > |text| then Outcome(-3, text) else Exploded(lit, dict, rest', Expand(text, dist, len))
    else
      match ReadLiteral(lit, stream[1..])
      case NoField => Outcome(2, text)
      case Field(b, rest) => Exploded(lit, dict, rest, text + [b])
  }

  datatype Header = Header(lit: nat, dict: nat, rest: seq<bool>) | NoHeader(err: int)

  /** Whether literals are coded, and the size of the dictionary. */
  ghost function ReadHeader(stream: seq<bool>): Header {
    match ReadBits(8, stream)
    case NoField => NoHeader(2)
    case Field(lit, rest) =>
      if lit > 1 then NoHeader(-1)
      else
        match ReadBits(8, rest)
        case NoField => NoHeader(2)
        case Field(dict, rest') => if dict < 4 || dict > 6 then NoHeader(-2) else Header(lit, dict, rest')
  }

  /** The meaning of a whole input. */
  ghost function Blasted(stream: seq<bool>): Outcome {
    match ReadHeader(stream)
    case NoHeader(err) => Outcome(err, [])
    case Header(lit, dict, rest) => Exploded(lit, dict, rest, [])
  }

  // ---- Reading ----

  /** The decoder returns the symbol of the reference, and without one the input is at its end. */
  method NextSymbol(s: State, h: Huffman, ghost L: seq<int>, ghost n: nat) returns (r: Option<int>)
    requires s.Valid() && FullCode(L, n) && h.Built(L)
    modifies s
    ensures r.Some? ==> s.Valid() && 0 <= r.value < n && ReadCode(L, old(s.Stream())) == Field(r.value, s.Stream())
    ensures r.None? ==> ReadCode(L, old(s.Stream())) == NoField
  {
    hide Coded, FullCode;
    ghost var stream := s.Stream();
    var d := Decode(s, h, L);
    match d {
      case Symbol(v) =>
        OneSymbol(L, stream, v);
        SymbolInside(L, n, stream, v);
        r := Some(v);
      case Invalid =>
        FullDecodes(L, n, stream);
        r := None;
      case OutOfInput =>
        r := None;
    }
  }

  lemma OneSymbol(L: seq<int>, stream: seq<bool>, v: int)
    requires Coded(L, stream, v)
    ensures v >= 0 && ReadCode(L, stream) == Field(v, stream[L[v]..])
  {
    var f := ReadCode(L, stream);
    assert f.Field?;
    PrefixFree(L, Invert(stream), v, f.value);
  }

  /** A full code has a symbol for every stream that is long enough. */
  lemma FullDecodes(L: seq<int>, n: nat, stream: seq<bool>)
    requires FullCode(L, n)
    ensures |stream| >= MAXBITS ==> exists s :: Coded(L, stream, s)
  {
    if |stream| >= MAXBITS {
      var s := FullSetDecodes(L, Invert(stream), MAXBITS);
      assert Coded(L, stream, s);
    }
  }

  method NextBits(s: State, n: nat) returns (r: Option<int>)
    requires s.Valid()
    modifies s
    ensures r.Some? ==>
        s.Valid() && 0 <= r.value < Pow2(n) && ReadBits(n, old(s.Stream())) == Field(r.value, s.Stream())
    ensures r.None? ==> ReadBits(n, old(s.Stream())) == NoField
  {
    r := s.GetBits(n);
    if r.Some? {
      LsbOfBits(r.value, n);
    }
  }

  method NextLength(s: State, lencode: Huffman) returns (r: Option<int>)
    requires s.Valid() && lencode.Built(LengthCodes())
    modifies s
    ensures r.Some? ==> s.Valid() && r.value >= 2 && ReadLength(old(s.Stream())) == Field(r.value, s.Stream())
    ensures r.None? ==> ReadLength(old(s.Stream())) == NoField
  {
    hide FullCode, ReadBits, ReadCode, LengthCodes, Base, Extra;
    var symbol := NextSymbol(s, lencode, LengthCodes(), 16);
    if symbol.None? {
      return None;
    }
    var extra := NextBits(s, Extra(symbol.value));
    if extra.None? {
      return None;
    }
    r := Some(Base(symbol.value) + extra.value);
  }

  method NextDistance(s: State, distcode: Huffman, len: nat, dict: nat) returns (r: Option<int>)
    requires s.Valid() && distcode.Built(DistanceCodes()) && 4 <= dict <= 6
    modifies s
    ensures r.Some? ==>
        s.Valid() && 1 <= r.value <= MAXWIN && ReadDistance(len, dict, old(s.Stream())) == Field(r.value, s.Stream())
    ensures r.None? ==> ReadDistance(len, dict, old(s.Stream())) == NoField
  {
    hide FullCode, ReadBits, ReadCode, DistanceCodes;
    var symbol := NextSymbol(s, distcode, DistanceCodes(), 64);
    if symbol.None? {
      return None;
    }
    var low := if len == 2 then 2 else dict;
    var dist := Scaled(symbol.value, low);
    var extra := NextBits(s, low);
    if extra.None? {
      return None;
    }
    DistanceFits(symbol.value, low, extra.value);
    r := Some(dist + extra.value + 1);
  }

  lemma DistanceFits(symbol: int, low: nat, extra: int)
    requires 0 <= symbol < 64 && low <= 6 && 0 <= extra < Pow2(low)
    ensures 0 <= symbol * Pow2(low) && symbol * Pow2(low) + extra + 1 <= MAXWIN
  {
    assert Pow2(6) == 64;
    Pow2Monotone(low, 6);
    MulNonNeg(symbol, Pow2(low));
    MulMono(symbol, 63, Pow2(low));
  }

  method NextLiteral(s: State, litcode: Huffman, lit: nat) returns (r: Option<int>)
    requires s.Valid() && litcode.Built(LiteralCodes())
    modifies s
    ensures r.Some? ==> s.Valid() && r.value >= 0 && ReadLiteral(lit, old(s.Stream())) == Field(r.value, s.Stream())
    ensures r.None? ==> ReadLiteral(lit, old(s.Stream())) == NoField
  {
    hide FullCode, ReadBits, ReadCode, LiteralCodes;
    if lit != 0 {
      r := NextSymbol(s, litcode, LiteralCodes(), 256);
    } else {
      r := NextBits(s, 8);
    }
  }

  // ---- The decompressor ----

  method BuildCode(rep: seq<int>, n: nat) returns (h: Huffman)
    requires Full(rep, n) && n <= 256
    ensures AreBytes(rep) && fresh(h) && fresh(h.count) && fresh(h.symbol) && h.Built(Unpack(rep))
  {
    hide KraftSum, Left, Unpack;
    h := new Huffman(n);
    var left := h.Construct(rep);
    LeftIsKraft(Unpack(rep), MAXBITS, |Unpack(rep)|);
  }

  datatype Codes = Codes(lit: Huffman, len: Huffman, dist: Huffman)

  /** The tables are built, and writing output does not touch them. */
  ghost predicate Ready(c: Codes, out: array<int>)
    reads c.lit.count, c.lit.symbol, c.len.count, c.len.symbol, c.dist.count, c.dist.symbol
  {
    && c.lit.Built(LiteralCodes()) && c.len.Built(LengthCodes()) && c.dist.Built(DistanceCodes())
    && out !in {c.lit.count, c.lit.symbol, c.len.count, c.len.symbol, c.dist.count, c.dist.symbol}
  }

  method BuildLiteralCode() returns (h: Huffman)
    ensures fresh(h.count) && fresh(h.symbol) && h.Built(LiteralCodes())
  {
    hide Full, Unpack, Huffman.Built;
    LiteralsFull();
    h := BuildCode(LITLEN, 256);
  }

  method BuildLengthCode() returns (h: Huffman)
    ensures fresh(h.count) && fresh(h.symbol) && h.Built(LengthCodes())
  {
    hide Full, Unpack, Huffman.Built;
    LengthsFull();
    h := BuildCode(LENLEN, 16);
  }

  method BuildDistanceCode() returns (h: Huffman)
    ensures fresh(h.count) && fresh(h.symbol) && h.Built(DistanceCodes())
  {
    hide Full, Unpack, Huffman.Built;
    DistancesFull();
    h := BuildCode(DISTLEN, 64);
  }

  method BuildCodes(out: array<int>) returns (c: Codes)
    ensures Ready(c, out)
    ensures fresh(c.lit.count) && fresh(c.lit.symbol) && fresh(c.len.count) && fresh(c.len.symbol)
    ensures fresh(c.dist.count) && fresh(c.dist.symbol)
  {
    hide Ready, LiteralCodes, LengthCodes, DistanceCodes, Huffman.Built;
    var litcode := BuildLiteralCode();
    var lencode := BuildLengthCode();
    var distcode := BuildDistanceCode();
    assert litcode.Built(LiteralCodes()) == true && lencode.Built(LengthCodes()) == true;
    c := Codes(litcode, lencode, distcode);
    AllReady(c, out);
  }

  lemma AllReady(c: Codes, out: array<int>)
    requires c.lit.Built(LiteralCodes()) && c.len.Built(LengthCodes()) && c.dist.Built(DistanceCodes())
    requires out !in {c.lit.count, c.lit.symbol, c.len.count, c.len.symbol, c.dist.count, c.dist.symbol}
    ensures Ready(c, out)
  {
    hide LiteralCodes, LengthCodes, DistanceCodes, Huffman.Built;
  }

  /** `decomp`, and what `blast` makes of input that ends early. */
  method Decomp(s: State, o: Output) returns (err: int)
    requires s.Valid() && o.Valid() && o.Text() == []
    modifies s, o, o.out
    ensures o.Valid() && o.out == old(o.out)
    ensures Outcome(err, o.Text()) == Blasted(old(s.Stream()))
  {
    hide Exploded, ReadHeader, Ready, State.Valid, State.Stream, Holds;
    ghost var stream := s.Stream();
    var codes := BuildCodes(o.out);
    assert s.Stream() == stream && o.Text() == [];
    var header, lit, dict := NextHeader(s);
    if header != 0 {
      return header;
    }
    err := DecodeAll(s, o, codes, lit, dict);
  }

  /** The first two bytes; zero if they are as they should be. */
  method NextHeader(s: State) returns (err: int, lit: nat, dict: nat)
    requires s.Valid()
    modifies s
    ensures err == 0 ==> s.Valid() && 4 <= dict <= 6 && ReadHeader(old(s.Stream())) == Header(lit, dict, s.Stream())
    ensures err != 0 ==> ReadHeader(old(s.Stream())) == NoHeader(err)
  {
    hide ReadBits;
    lit, dict := 0, 0;
    var l := NextBits(s, 8);
    if l.None? {
      return 2, lit, dict;
    }
    if l.value > 1 {
      return -1, lit, dict;
    }
    var d := NextBits(s, 8);
    if d.None? {
      return 2, lit, dict;
    }
    if d.value < 4 || d.value > 6 {
      return -2, lit, dict;
    }
    return 0, l.value, d.value;
  }

  lemma ExplodedPair(lit: nat, dict: nat, stream: seq<bool>, text: seq<int>)
    requires stream != [] && stream[0]
    ensures
      match ReadLength(stream[1..])
      case NoField => Exploded(lit, dict, stream, text) == Outcome(2, text)
      case Field(len, rest) =>
        if len == END then Exploded(lit, dict, stream, text) == Outcome(0, text)
        else
          match ReadDistance(len, dict, rest)
          case NoField => Exploded(lit, dict, stream, text) == Outcome(2, text)
          case Field(dist, rest') =>
            Exploded(lit, dict, stream, text)
            == if dist > |text| then Outcome(-3, text) else Exploded(lit, dict, rest', Expand(text, dist, len))
  {
    hide ReadLength, ReadDistance, Expand;
  }

  lemma ExplodedLiteral(lit: nat, dict: nat, stream: seq<bool>, text: seq<int>)
    requires stream != [] && !stream[0]
    ensures
      match ReadLiteral(lit, stream[1..])
      case NoField => Exploded(lit, dict, stream, text) == Outcome(2, text)
      case Field(b, rest) => Exploded(lit, dict, stream, text) == Exploded(lit, dict, rest, text + [b])
  {
    hide ReadLiteral;
  }

  lemma ExplodedNothing(lit: nat, dict: nat, text: seq<int>)
    ensures Exploded(lit, dict, [], text) == Outcome(2, text)
  {
  }

  /** The bit that tells pairs from literals. */
  method NextFlag(s: State) returns (r: Option<bool>)
    requires s.Valid()
    modifies s
    ensures r.Some? ==>
        s.Valid() && old(s.Stream()) != [] && r.value == old(s.Stream())[0] && s.Stream() == old(s.Stream())[1..]
    ensures r.None? ==> old(s.Stream()) == []
  {
    ghost var stream := s.Stream();
    var b := s.GetBits(1);
    if b.None? {
      return None;
    }
    assert BitsOf(b.value, 1)[0] == stream[..1][0] == stream[0];
    r := Some(b.value != 0);
  }

  /** A length/distance pair, or the end of the data: `None` when decompression goes on. */
  method DecodePair(s: State, o: Output, codes: Codes, lit: nat, dict: nat, ghost stream: seq<bool>)
    returns (done: Option<int>)
    requires s.Valid() && o.Valid() && 4 <= dict <= 6 && stream != [] && stream[0] && s.Stream() == stream[1..]
    requires Ready(codes, o.out)
    modifies s, o, o.out
    ensures o.Valid() && o.out == old(o.out) && Ready(codes, o.out)
    ensures done.Some? ==> Exploded(lit, dict, stream, old(o.Text())) == Outcome(done.value, o.Text())
    ensures done.None? ==> s.Valid() && |s.Stream()| < |stream|
    ensures done.None? ==> Exploded(lit, dict, stream, old(o.Text())) == Exploded(lit, dict, s.Stream(), o.Text())
  {
    hide Exploded, ReadLength, ReadDistance, Expand, FullCode, LengthCodes, DistanceCodes;
    ghost var text := o.Text();
    ExplodedPair(lit, dict, stream, text);
    var len := NextLength(s, codes.len);
    if len.None? {
      return Some(2);
    }
    if len.value == END {
      return Some(0);
    }
    var dist := NextDistance(s, codes.dist, len.value, dict);
    if dist.None? {
      return Some(2);
    }
    ghost var rest := s.Stream();
    var ok := o.Copy(dist.value, len.value);
    if !ok {
      return Some(-3);
    }
    assert s.Stream() == rest;
    done := None;
  }

  method DecodeLiteral(s: State, o: Output, codes: Codes, lit: nat, dict: nat, ghost stream: seq<bool>)
    returns (done: Option<int>)
    requires s.Valid() && o.Valid() && stream != [] && !stream[0] && s.Stream() == stream[1..]
    requires Ready(codes, o.out)
    modifies s, o, o.out
    ensures o.Valid() && o.out == old(o.out) && Ready(codes, o.out)
    ensures done.Some? ==> Exploded(lit, dict, stream, old(o.Text())) == Outcome(done.value, o.Text())
    ensures done.None? ==> s.Valid() && |s.Stream()| < |stream|
    ensures done.None? ==> Exploded(lit, dict, stream, old(o.Text())) == Exploded(lit, dict, s.Stream(), o.Text())
  {
    hide Exploded, ReadLiteral, FullCode, LiteralCodes;
    ExplodedLiteral(lit, dict, stream, o.Text());
    var b := NextLiteral(s, codes.lit, lit);
    if b.None? {
      return Some(2);
    }
    ghost var rest := s.Stream();
    o.PutByte(b.value);
    assert s.Stream() == rest;
    done := None;
  }

  /** The main loop of `decomp`. */
  method DecodeAll(s: State, o: Output, codes: Codes, lit: nat, dict: nat) returns (err: int)
    requires s.Valid() && o.Valid() && 4 <= dict <= 6
    requires Ready(codes, o.out)
    modifies s, o, o.out
    ensures o.Valid() && o.out == old(o.out)
    ensures Outcome(err, o.Text()) == Exploded(lit, dict, old(s.Stream()), old(o.Text()))
  {
    hide Exploded, FullCode, Ready, State.Valid, State.Stream, Holds;
    ghost var stream := s.Stream();
    ghost var result := Exploded(lit, dict, stream, o.Text());
    while true
      invariant s.Valid() && o.Valid() && o.out == old(o.out) && stream == s.Stream()
      invariant Ready(codes, o.out) == true
      invariant Exploded(lit, dict, stream, o.Text()) == result
      decreases |stream|
    {
      ExplodedNothing(lit, dict, o.Text());
      var flag := NextFlag(s);
      if flag.None? {
        return 2;
      }
      var done;
      if flag.value {
        done := DecodePair(s, o, codes, lit, dict, stream);
      } else {
        done := DecodeLiteral(s, o, codes, lit, dict, stream);
      }
      if done.Some? {
        return done.value;
      }
      stream := s.Stream();
    }
  }

  ghost function InputBits(chunks: seq<seq<int>>): seq<bool>
    requires AreChunks(chunks)
  {
    ComingAreBytes(chunks);
    ByteBits(Coming(chunks))
  }

  /** `blast`: all that was decompressed is delivered, also what was before an error. */
  method Decompress(chunks: seq<seq<int>>) returns (err: int, delivered: seq<int>)
    requires AreChunks(chunks)
    ensures Outcome(err, delivered) == Blasted(InputBits(chunks))
  {
    var s := new State(chunks);
    var o := new Output();
    err := Decomp(s, o);
    delivered := o.written;
    if o.next > 0 {
      delivered := delivered + o.out[..o.next];
    }
  }
}
