/** When the tables' habit of looking at more bits than a code has does no harm at the end of the input. */
module InflateRoom {
  import opened Arith
  import opened Bits
  import opened Canonical
  import opened Window
  import opened HuftBits
  import opened HuftTables
  import opened HuftLists
  import opened HuftDriver
  import opened Inflate

  /** The same codes, looked up without tables. */
  function Freed(C: Codes): Codes { C.(need := Free) }

  /** The tables that the codes are looked up with were built for them. */
  ghost predicate Built(C: Codes) {
    && C.need.Tables? && Bounded(C.ll, BMAX) && Bounded(C.dl, BMAX)
    && TablesFor(C.need.tl, BITS, C.need.bl, C.ll, LengthLists(C.defl64))
    && (|C.ll| <= 257 || TablesFor(C.need.td, BITS, C.need.bd, C.dl, DistanceLists(C.defl64)))
  }

  // ---- Success with tables is success ----

  lemma SameStep(C: Codes, stream: seq<bool>, text: seq<int>)
    ensures StepOf(C, stream, text) != Stop(Bad) ==> StepOf(Freed(C), stream, text) == StepOf(C, stream, text)
  {
    hide ReadSymbol, ReadExtra, LengthLists, DistanceLists, LiteralRoom, DistanceRoom;
    assert LiteralRoom(Freed(C), stream) by {
      FreeRoom(C, stream);
    }
    match ReadLiteral(C, stream) {
      case NoField =>
      case Field(s, rest) =>
        if s > 256 {
          match ReadExtra(LengthLists(C.defl64), s - 257, rest) {
            case NoField =>
            case Field(len, rest') => FreeRoom(C, rest');
          }
        }
    }
  }

  lemma FreeRoom(C: Codes, stream: seq<bool>)
    ensures LiteralRoom(Freed(C), stream) && DistanceRoom(Freed(C), stream)
  {
  }

  /** What tables decode is what the codes mean. */
  lemma {:induction false} TablesMean(C: Codes, stream: seq<bool>, text: seq<int>)
    ensures Inflated(C, stream, text).Done? ==> Inflated(Freed(C), stream, text) == Inflated(C, stream, text)
    decreases |stream|
  {
    hide StepOf, Inflated;
    InflatedSteps(C, stream, text);
    InflatedSteps(Freed(C), stream, text);
    SameStep(C, stream, text);
    match StepOf(C, stream, text) {
      case Stop(_) =>
      case Go(rest, text') => TablesMean(C, rest, text');
    }
  }

  // ---- What must follow a code ----

  lemma StopIsEnd(C: Codes, stream: seq<bool>, text: seq<int>)
    ensures
      var st := StepOf(C, stream, text);
      st.Stop? && st.r.Done? ==> |C.ll| > 256 && C.ll[256] > 0 && |stream| == C.ll[256] + |st.r.rest|
  {
    hide ReadExtra, LengthLists, DistanceLists, LiteralRoom, DistanceRoom, ReadDistance;
  }

  /** A block ends with its end-of-block code. */
  lemma {:induction false} EndsAfter(C: Codes, stream: seq<bool>, text: seq<int>)
    ensures
      var r := Inflated(C, stream, text);
      r.Done? ==> |C.ll| > 256 && C.ll[256] > 0 && |stream| >= C.ll[256] + |r.rest|
    decreases |stream|
  {
    hide StepOf, Inflated;
    InflatedSteps(C, stream, text);
    StopIsEnd(C, stream, text);
    match StepOf(C, stream, text) {
      case Stop(_) =>
      case Go(rest, text') => EndsAfter(C, rest, text');
    }
  }

  /** No code is so long that the lookup of another one could reach past the end-of-block code and the
      `n` bits behind it. A test on the code lengths alone. */
  ghost predicate Roomy(C: Codes, n: nat) {
    && |C.ll| > 256
    && (forall s, i :: 0 <= s < |C.ll| && C.ll[s] > 0 && s != 256 && 0 <= i < |C.ll| ==>
        C.ll[i] <= C.ll[s] + C.ll[256] + n)
    && (forall d, i :: 0 <= d < |C.dl| && C.dl[d] > 0 && 0 <= i < |C.dl| ==> C.dl[i] <= C.dl[d] + C.ll[256] + n)
  }

  lemma EnoughFor(pool: seq<seq<Huft>>, m: nat, L: seq<int>, lists: Lists, stream: seq<bool>)
    requires Decodes(pool, BITS, m, L, lists) && (Ample(L, |stream|) || StartsWith(L, stream, 256))
    ensures Enough(pool, m, stream)
  {
    hide Walk, Enough, StartsWith;
    EnoughIs(pool, m, L, lists, stream);
    if Starts(L, stream) {
      assert StartsWith(L, stream, FirstSymbol(L, stream));
    }
  }

  lemma LiteralHasRoom(C: Codes, stream: seq<bool>, s: nat, rest: seq<bool>, n: nat)
    requires Built(C) && Roomy(C, n) && ReadSymbol(C.ll, stream) == Field(s, rest) && |C.ll| > 256
    requires s != 256 ==> |rest| >= C.ll[256] + n
    ensures LiteralRoom(C, stream)
  {
    hide Decodes, Enough, LengthLists, DistanceLists;
    assert StartsWith(C.ll, stream, s);
    if s != 256 {
      assert forall i :: 0 <= i < |C.ll| ==> C.ll[i] <= C.ll[s] + C.ll[256] + n;
      assert Bounded(C.ll, |stream|);
    }
    EnoughFor(C.need.tl, C.need.bl, C.ll, LengthLists(C.defl64), stream);
  }

  lemma DistanceHasRoom(C: Codes, stream: seq<bool>, d: nat, rest: seq<bool>, n: nat)
    requires Built(C) && Roomy(C, n) && ReadSymbol(C.dl, stream) == Field(d, rest) && |C.ll| > 257
    requires |rest| >= C.ll[256] + n
    ensures DistanceRoom(C, stream)
  {
    hide Decodes, Enough, LengthLists, DistanceLists;
    assert StartsWith(C.dl, stream, d);
    assert forall i :: 0 <= i < |C.dl| ==> C.dl[i] <= C.dl[d] + C.ll[256] + n;
    assert Bounded(C.dl, |stream|);
    EnoughFor(C.need.td, C.need.bd, C.dl, DistanceLists(C.defl64), stream);
  }

  /** A step that leaves the end-of-block code and `n` bits is made with tables too. */
  lemma RoomyStep(C: Codes, stream: seq<bool>, text: seq<int>, n: nat)
    requires Built(C) && Roomy(C, n)
    ensures
      var st := StepOf(Freed(C), stream, text);
      (st.Go? && |st.rest| >= C.ll[256] + n) || (st.Stop? && st.r.Done?) ==> StepOf(C, stream, text) == st
  {
    hide Built, Roomy, ReadExtra, ReadSymbol, LengthLists, DistanceLists, LiteralRoom, DistanceRoom;
    HasEnd(C, n);
    var st := StepOf(Freed(C), stream, text);
    FreeRoom(C, stream);
    match ReadLiteral(Freed(C), stream) {
      case NoField =>
      case Field(s, rest) =>
        SymbolRead(C.ll, stream);
        if s <= 256 {
          if s == 256 || |rest| >= C.ll[256] + n {
            LiteralHasRoom(C, stream, s, rest, n);
          }
        } else {
          ExtraShrinks(LengthLists(C.defl64), s - 257, rest);
          match ReadExtra(LengthLists(C.defl64), s - 257, rest) {
            case NoField =>
            case Field(len, rest') =>
              FreeRoom(C, rest');
              match ReadSymbol(C.dl, rest') {
                case NoField =>
                case Field(d, rest1) =>
                  SymbolShrinks(C.dl, rest');
                  ExtraShrinks(DistanceLists(C.defl64), d, rest1);
                  if st.Go? && |st.rest| >= C.ll[256] + n {
                    LiteralHasRoom(C, stream, s, rest, n);
                    DistanceHasRoom(C, rest', d, rest1, n);
                  }
              }
          }
        }
    }
  }

  lemma HasEnd(C: Codes, n: nat)
    requires Roomy(C, n)
    ensures |C.ll| > 256
  {
  }

  lemma SymbolRead(L: seq<int>, stream: seq<bool>)
    ensures ReadSymbol(L, stream).Field? ==> ReadSymbol(L, stream).value < |L|
  {
  }

  /** Where there is room behind the block, tables decode all that the codes mean. */
  lemma {:induction false} RoomSuffices(C: Codes, stream: seq<bool>, text: seq<int>)
    requires Built(C)
    ensures
      var r := Inflated(Freed(C), stream, text);
      r.Done? && Roomy(C, |r.rest|) ==> Inflated(C, stream, text) == r
    decreases |stream|
  {
    hide StepOf, Inflated, Built, Roomy;
    var r := Inflated(Freed(C), stream, text);
    InflatedSteps(C, stream, text);
    InflatedSteps(Freed(C), stream, text);
    if r.Done? && Roomy(C, |r.rest|) {
      HasEnd(C, |r.rest|);
      RoomyStep(C, stream, text, |r.rest|);
      match StepOf(Freed(C), stream, text) {
        case Stop(_) =>
        case Go(rest, text') =>
          EndsAfter(Freed(C), rest, text');
          RoomSuffices(C, rest, text');
      }
    }
  }

  // ---- Where there is none ----

  lemma WideTable(pool: seq<seq<Huft>>, m: nat, L: seq<int>, lists: Lists, stream: seq<bool>)
    requires Marked(pool, BITS, m, L, lists)
    ensures Enough(pool, m, stream) ==> |stream| >= m
  {
    var longer := stream + Falses(BMAX);
    BitsOfLsb(longer[..m]);
  }
}
