/** `dd`: converting what is read, in pieces of any size, and writing it in blocks, although each write
    may take only part of what it is given. */
module Dd {
  import opened DdRecords

  /** A write: what it was given, and what it took. */
  datatype Call = Call(asked: nat, taken: nat)

  /** Writes that took a whole block. */
  function Wholes(calls: seq<Call>, obs: nat): nat {
    if calls == [] then 0
    else Wholes(calls[..|calls| - 1], obs) + if calls[|calls| - 1].taken == obs then 1 else 0
  }

  lemma OneCall(calls: seq<Call>, c: Call, obs: nat)
    ensures Wholes(calls + [c], obs) == Wholes(calls, obs) + if c.taken == obs then 1 else 0
  {
    assert (calls + [c])[..|calls|] == calls;
  }

  class Output {
    const obs: nat
    const unbuffered: bool   // `bs=` was given, and nothing is converted
    const oblok: array<int>  // output buffer
    var oflow: nat           // remaining bytes in it
    var owhole: nat          // records out
    var opartial: nat
    var written: seq<int>
    ghost var calls: seq<Call>

    ghost predicate Shape()
      reads this, oblok
    {
      obs > 0 && oblok.Length == obs && oflow <= obs
    }

    /** Every write is counted, and with a buffer each is given a whole block. */
    ghost predicate Counted()
      reads this
    {
      && owhole == Wholes(calls, obs) && owhole + opartial == |calls|
      && (!unbuffered ==> forall i :: 0 <= i < |calls| ==> calls[i].asked == obs)
    }

    ghost predicate Valid()
      reads this, oblok
    {
      Shape() && Counted()
    }

    /** All that has been handed over, written or not. */
    ghost function Sent(): seq<int>
      reads this, oblok
      requires Shape()
    {
      written + oblok[..oflow]
    }

    constructor (obs: nat, unbuffered: bool)
      requires obs > 0
      ensures Valid() && Sent() == [] && written == [] && oflow == 0 && fresh(oblok)
      ensures this.obs == obs && this.unbuffered == unbuffered && calls == []
    {
      this.obs, this.unbuffered, oflow, written := obs, unbuffered, 0, [];
      owhole, opartial, calls := 0, 0, [];
      oblok := new int[obs];
    }

    /** A write takes at least one byte, not always all. */
    method SWrite(data: seq<int>) returns (wrt: nat)
      requires data != []
      modifies `written, `calls
      ensures 1 <= wrt <= |data| && written == old(written) + data[..wrt]
      ensures calls == old(calls) + [Call(|data|, wrt)]
    {
      wrt :| 1 <= wrt <= |data|;
      written := written + data[..wrt];
      calls := calls + [Call(|data|, wrt)];
    }

    /** A write and the record it is counted as. */
    method Record(data: seq<int>) returns (wrt: nat)
      requires data != [] && Counted() && (unbuffered || |data| == obs)
      modifies `written, `calls, `owhole, `opartial
      ensures 1 <= wrt <= |data| && written == old(written) + data[..wrt] && Counted()
    {
      ghost var before := calls;
      wrt := SWrite(data);
      OneCall(before, Call(|data|, wrt), obs);
      if wrt == obs {
        owhole := owhole + 1;
      } else {
        opartial := opartial + 1;
      }
    }

    /** Without output buffering, if `bs=` was given. */
    method DWrite(data0: seq<int>)
      requires data0 != [] && Counted() && unbuffered
      modifies `written, `calls, `owhole, `opartial
      ensures written == old(written) + data0 && Counted()
    {
      var data := data0;
      while true
        invariant data != [] && written + data == old(written) + data0 && Counted()
        decreases |data|
      {
        var wrt := Record(data);
        assert data == data[..wrt] + data[wrt..];
        data := data[wrt..];
        if data == [] {
          break;
        }
      }
    }

    /** Bytes moved to the start of the buffer (as if by `memmove`). */
    method MoveDown(wrt: nat, n: nat)
      requires wrt + n <= oblok.Length
      modifies oblok
      ensures oblok[..n] == old(oblok[wrt..wrt + n])
    {
      forall i | 0 <= i < n {
        oblok[i] := oblok[i + wrt];
      }
    }

    method CopyIn(data: seq<int>)
      requires oflow + |data| <= oblok.Length
      modifies oblok
      ensures oblok[..oflow + |data|] == old(oblok[..oflow]) + data
    {
      forall i | 0 <= i < |data| {
        oblok[oflow + i] := data[i];
      }
    }

    /** The full buffer written out; what was not taken moves to its start. */
    method BufferOut()
      requires Valid() && oflow == obs
      modifies this, oblok
      ensures Valid() && oflow < obs && Sent() == old(Sent())
    {
      hide Wholes;
      ghost var held := oblok[..];
      var wrt := Record(oblok[..]);
      if wrt != obs {
        MoveDown(wrt, obs - wrt);
      }
      oflow := obs - wrt;
      assert held == held[..wrt] + held[wrt..] && oblok[..oflow] == held[wrt..];
    }

    /** A block written from the data; what was not taken goes into the buffer. */
    method DirectOut(data: seq<int>)
      requires Valid() && oflow == 0 && |data| == obs
      modifies this, oblok
      ensures Valid() && Sent() == old(Sent()) + data
    {
      var wrt := Record(data);
      assert data == data[..wrt] + data[wrt..];
      if wrt != obs {
        CopyIn(data[wrt..]);
      }
      oflow := obs - wrt;
    }

    /** One full block: what is in the buffer and as much of the data as fits. */
    method BlockOut(data: seq<int>) returns (rest: seq<int>)
      requires Valid() && oflow + |data| > obs
      modifies this, oblok
      ensures Valid() && Sent() + rest == old(Sent()) + data
      ensures |rest| < |data| || (rest == data && oflow < old(oflow))
    {
      var di := obs - oflow;
      rest := data[di..];
      assert data == data[..di] + rest;
      if oflow > 0 {
        CopyIn(data[..di]);
        oflow := obs;
        BufferOut();
      } else {
        DirectOut(data[..obs]);
      }
    }

    /** On a short write, the rest is kept in the buffer and written with the next block. */
    method BWrite(data0: seq<int>)
      requires Valid()
      modifies this, oblok
      ensures Valid() && Sent() == old(Sent()) + data0
    {
      var data := data0;
      while oflow + |data| > obs
        invariant Valid() && Sent() + data == old(Sent()) + data0
        decreases |data|, oflow
      {
        data := BlockOut(data);
      }
      if |data| == obs {
        var wrt := Record(data);
        assert data == data[..wrt] + data[wrt..];
        data := data[wrt..];
      }
      if data != [] {
        CopyIn(data);
        oflow := oflow + |data|;
      }
    }

    /** Every write is counted as a partial one here, also if it is given a whole block and takes it. */
    method WriteSome()
      requires Shape() && oflow > 0
      modifies this, oblok
      ensures Shape() && oflow < old(oflow) && Sent() == old(Sent())
      ensures calls == old(calls) + [Call(old(oflow), old(oflow) - oflow)]
      ensures owhole == old(owhole) && opartial == old(opartial) + 1
    {
      ghost var held := oblok[..oflow];
      var wrt := SWrite(oblok[..oflow]);
      assert held == held[..wrt] + held[wrt..];
      if wrt != oflow {
        MoveDown(wrt, obs - wrt);
        assert oblok[..oflow - wrt] == oblok[..obs - wrt][..oflow - wrt] == held[wrt..];
      }
      oflow := oflow - wrt;
      opartial := opartial + 1;
    }

    /** What is left in the buffer, in as many writes as it takes; `tail` are these. */
    method BFlush() returns (ghost tail: seq<Call>)
      requires Shape()
      modifies this, oblok
      ensures Shape() && oflow == 0 && written == old(Sent())
      ensures calls == old(calls) + tail && owhole == old(owhole) && opartial == old(opartial) + |tail|
      ensures Drained(tail, old(oflow), 0)
    {
      tail := [];
      while oflow > 0
        invariant Shape() && Sent() == old(Sent()) && calls == old(calls) + tail
        invariant owhole == old(owhole) && opartial == old(opartial) + |tail|
        invariant Drained(tail, old(oflow), oflow)
        decreases oflow
      {
        ghost var flow := oflow;
        WriteSome();
        OneDrained(tail, Call(flow, flow - oflow), old(oflow));
        tail := tail + [Call(flow, flow - oflow)];
      }
    }
  }

  /** Each write is given what the one before has left, until only `left` of `n` bytes are. */
  ghost predicate Drained(tail: seq<Call>, n: int, left: int) {
    if tail == [] then n == left
    else
      var c := tail[|tail| - 1];
      Drained(tail[..|tail| - 1], n, c.asked) && 1 <= c.taken <= c.asked && left == c.asked - c.taken
  }

  lemma OneDrained(tail: seq<Call>, c: Call, n: int)
    requires Drained(tail, n, c.asked) && 1 <= c.taken <= c.asked
    ensures Drained(tail + [c], n, c.asked - c.taken)
  {
    assert (tail + [c])[..|tail|] == tail;
  }

  lemma {:induction false} DrainedCount(tail: seq<Call>, n: int, left: int, obs: nat)
    requires Drained(tail, n, left) && n <= obs
    ensures tail != [] ==> left < n && tail[0].asked == n
    ensures Wholes(tail, obs) == if tail != [] && tail[0].taken == obs then 1 else 0
  {
    if tail != [] {
      var front, c := tail[..|tail| - 1], tail[|tail| - 1];
      DrainedCount(front, n, c.asked, obs);
      if front != [] {
        assert front[0] == tail[0] && c.taken < obs;
      }
    }
  }

  /** If writes take all they are given, at most one is left for the end. */
  lemma {:induction false} TakenWhole(tail: seq<Call>, n: int, left: int)
    requires Drained(tail, n, left) && forall i :: 0 <= i < |tail| ==> tail[i].taken == tail[i].asked
    ensures tail != [] ==> left == 0 && |tail| == 1 && tail[0].asked == tail[0].taken == n
  {
    if tail != [] {
      TakenWhole(tail[..|tail| - 1], n, tail[|tail| - 1].asked);
    }
  }

  lemma {:induction false} CallsJoin(a: seq<Call>, b: seq<Call>, obs: nat)
    ensures Wholes(a + b, obs) == Wholes(a, obs) + Wholes(b, obs)
  {
    if b == [] {
      assert a + b == a;
    } else {
      CallsJoin(a, b[..|b| - 1], obs);
      assert (a + b)[..|a + b| - 1] == a + b[..|b| - 1];
    }
  }

  /** The whole records counted are the writes that took a block, unless the buffer is full in the end and the write
      for it takes all: that one is counted as a partial record. */
  lemma RecordsOut(whole: seq<Call>, tail: seq<Call>, n: nat, obs: nat)
    requires n <= obs && Drained(tail, n, 0)
    ensures Wholes(whole + tail, obs) == Wholes(whole, obs) + if tail != [] && tail[0].taken == obs then 1 else 0
  {
    hide Wholes;
    CallsJoin(whole, tail, obs);
    DrainedCount(tail, n, 0, obs);
  }

  datatype Conversion = Plain | Block | Unblock

  class Converter {
    const o: Output
    const cbs: nat
    const cblok: array<int>  // conversion buffer
    var cflow: nat           // remaining bytes in it
    var ctrunc: int          // whether the rest of a line is being cut off
    var truncated: nat
    ghost var done: seq<int> // what has been converted
    ghost var line: seq<int> // and what is being converted

    ghost predicate Valid()
      reads this, cblok, o, o.oblok
    {
      cblok.Length == cbs + 1 && cblok != o.oblok && o.Valid() && cflow <= cbs
    }

    ghost predicate Fresh()
      reads this, cblok, o, o.oblok
    {
      Valid() && cflow == 0 && ctrunc == 0 && truncated == 0 && done == [] && line == [] && o.Sent() == []
    }

    ghost predicate Blocking()
      reads this, cblok, o, o.oblok
    {
      && Valid() && cbs > 0 && Lines(done) && NEWLINE !in line && 0 <= ctrunc <= 2
      && (if ctrunc == 0 then |line| == cflow < cbs && cblok[..cflow] == line
          else cflow == 0 && |line| >= cbs && (ctrunc == 2 <==> |line| > cbs))
      && o.Sent() == Blocked(cbs, done) + (if ctrunc == 0 then [] else Record(cbs, line))
      && truncated == TooLong(cbs, done) + if ctrunc == 2 then 1 else 0
    }

    ghost predicate Unblocking()
      reads this, cblok, o, o.oblok
    {
      Valid() && cbs > 0 && |done| % cbs == 0 && ctrunc == 0 && truncated == 0 && cblok[..cflow] == line
          && o.Sent() == Unblocked(cbs, done)
    }

    constructor (o: Output, cbs: nat)
      requires o.Valid() && o.Sent() == []
      ensures Fresh() && fresh(cblok) && this.o == o && this.cbs == cbs
    {
      this.o, this.cbs, cflow, ctrunc, truncated, done, line := o, cbs, 0, 0, 0, [], [];
      cblok := new int[cbs + 1];
    }

    method CFlush()
      requires Valid()
      modifies this`cflow, cblok, o, o.oblok
      ensures Valid() && cflow == 0
      ensures o.Sent() == old(o.Sent()) + if old(cflow) > 0 then Record(cbs, old(cblok[..cflow])) else []
    {
      if cflow > 0 {
        ghost var held := cblok[..cflow];
        while cflow < cbs
          modifies `cflow, cblok
          invariant |held| <= cflow <= cbs && cblok[..cflow] == held + Blanks(cflow - |held|)
        {
          cblok[cflow] := BLANK;
          cflow := cflow + 1;
        }
        o.BWrite(cblok[..cbs]);
        cflow := 0;
      }
    }

    /** The end of a line that fits its record. */
    method EndLine()
      requires Blocking() && ctrunc == 0
      modifies this, cblok, o, o.oblok
      ensures Blocking() && done == old(done + line) + [NEWLINE] && line == []
    {
      hide Blocked, Record, TooLong, Lines;
      LineEnded(cbs, done, line);
      if cflow == 0 {
        cblok[cflow] := BLANK;
        cflow := cflow + 1;
        BlankRecord(cbs, cblok[..cflow]);
      }
      CFlush();
      done, line := done + line + [NEWLINE], [];
    }

    /** One byte for `conv=block`. */
    method CPut(c: int)
      requires Blocking()
      modifies this, cblok, o, o.oblok
      ensures Blocking() && done + line == old(done + line) + [c]
    {
      hide Blocked, Record, TooLong, Lines;
      LineEnded(cbs, done, line);
      if ctrunc == 0 {
        cblok[cflow] := c;
        if c == NEWLINE {
          EndLine();
        } else {
          cflow := cflow + 1;
          line := line + [c];
          assert cblok[..cflow] == line;
          if cflow == cbs {
            CFlush();
            ctrunc := 1;
          }
        }
      } else {
        if c == NEWLINE {
          ctrunc := 0;
          done, line := done + line + [c], [];
        } else {
          LongLine(cbs, line, c);
          if ctrunc == 1 {
            truncated := truncated + 1;
            ctrunc := 2;
          }
          line := line + [c];
        }
      }
    }

    method CWrite(data: seq<int>)
      requires Blocking()
      modifies this, cblok, o, o.oblok
      ensures Blocking() && done + line == old(done + line) + data
    {
      hide Converter.Blocking;
      ghost var before := done + line;
      var i := 0;
      while i < |data|
        invariant 0 <= i <= |data| && Blocking() && done + line == before + data[..i]
      {
        CPut(data[i]);
        assert data[..i + 1] == data[..i] + [data[i]];
        i := i + 1;
      }
      assert data[..i] == data;
    }

    method UFlush()
      requires Valid()
      modifies this`cflow, cblok, o, o.oblok
      ensures Valid() && cflow == 0
      ensures o.Sent() == old(o.Sent()) + if old(cflow) > 0 then Trimmed(old(cblok[..cflow])) + [NEWLINE] else []
    {
      if cflow > 0 {
        ghost var held := cblok[..cflow];
        var cp := cflow - 1;
        while cp >= 0 && cblok[cp] == BLANK
          invariant -1 <= cp < cflow && Trimmed(held[..cp + 1]) == Trimmed(held)
        {
          assert held[..cp + 1][..cp] == held[..cp];
          cp := cp - 1;
        }
        cblok[cp + 1] := NEWLINE;
        assert cblok[..cp + 2] == held[..cp + 1] + [NEWLINE];
        o.BWrite(cblok[..cp + 2]);
        cflow := 0;
      }
    }

    method UPut(c: int)
      requires Unblocking() && cflow < cbs
      modifies this, cblok
      ensures Unblocking() && done + line == old(done + line) + [c] && cflow == old(cflow) + 1
    {
      cblok[cflow] := c;
      cflow := cflow + 1;
      assert done + (line + [c]) == (done + line) + [c];
      line := line + [c];
      assert cblok[..cflow] == line;
    }

    method EndRecord()
      requires Unblocking() && cflow == cbs
      modifies this, cblok, o, o.oblok
      ensures Unblocking() && done == old(done + line) && line == [] && cflow == 0
    {
      hide Unblocked, Trimmed;
      RecordEnded(cbs, done, line);
      UFlush();
      done, line := done + line, [];
    }

    method UWrite(data: seq<int>)
      requires Unblocking()
      modifies this, cblok, o, o.oblok
      ensures Unblocking() && done + line == old(done + line) + data
    {
      hide Converter.Unblocking;
      ghost var before := done + line;
      var i := 0;
      while i < |data|
        invariant 0 <= i <= |data| && Unblocking() && done + line == before + data[..i]
        decreases |data| - i, cflow
      {
        ghost var i0, cflow0 := i, cflow;
        while cflow < cbs
          modifies this, cblok
          invariant i0 <= i && (i == i0 ==> cflow == cflow0)
          invariant 0 <= i < |data| && Unblocking() && done + line == before + data[..i]
          decreases |data| - i
        {
          UPut(data[i]);
          assert data[..i + 1] == data[..i] + [data[i]];
          i := i + 1;
          if i == |data| {
            assert data[..i] == data;
            return;
          }
        }
        Within();
        EndRecord();
      }
      assert data[..i] == data;
    }

    lemma Within()
      requires Unblocking()
      ensures cflow <= cbs && cbs > 0
    {
    }

    // ---- Either conversion, or none ----

    ghost predicate Doing(conv: Conversion)
      reads this, cblok, o, o.oblok
    {
      match conv
      case Plain => Valid() && cflow == 0 && truncated == 0 && line == [] && o.Sent() == done
      case Block => Blocking()
      case Unblock => Unblocking()
    }

    lemma Starts(conv: Conversion)
      requires Fresh() && (conv != Plain ==> cbs > 0)
      ensures Doing(conv) && done + line == []
    {
    }

    method BlokConv(conv: Conversion, data: seq<int>)
      requires Doing(conv)
      modifies this, cblok, o, o.oblok
      ensures Doing(conv) && done + line == old(done + line) + data
    {
      hide Converter.Blocking, Converter.Unblocking;
      match conv {
        case Block => CWrite(data);
        case Unblock => UWrite(data);
        case Plain =>
          o.BWrite(data);
          done := done + data;
      }
    }

    method Direct(data: seq<int>)
      requires Doing(Plain) && o.oflow == 0 && data != [] && o.unbuffered
      modifies `done, o`written, o`calls, o`owhole, o`opartial
      ensures Doing(Plain) && done + line == old(done + line) + data
    {
      o.DWrite(data);
      done := done + data;
    }

    method FlushBlock()
      requires Blocking()
      modifies this, cblok, o, o.oblok
      ensures Valid() && cbs > 0 && cflow == 0 && o.Sent() == Blocked(cbs, old(done + line))
          && truncated == TooLong(cbs, old(done + line))
    {
      hide Blocked, Record, TooLong, Lines;
      LineEnded(cbs, done, line);
      CFlush();
    }

    method FlushUnblock()
      requires Unblocking()
      modifies this, cblok, o, o.oblok
      ensures Valid() && cbs > 0 && cflow == 0 && o.Sent() == Unblocked(cbs, old(done + line)) && truncated == 0
    {
      hide Unblocked, Trimmed;
      RecordEnded(cbs, done, line);
      UFlush();
    }

    /** What is still in the buffers when `dd` ends. */
    method Quit(conv: Conversion) returns (ghost whole: seq<Call>, ghost tail: seq<Call>)
      requires Doing(conv)
      modifies this, cblok, o, o.oblok
      ensures o.calls == whole + tail && o.owhole == Wholes(whole, o.obs) && o.owhole + o.opartial == |whole| + |tail|
      ensures !o.unbuffered ==> forall i :: 0 <= i < |whole| ==> whole[i].asked == o.obs
      ensures exists n :: 0 <= n <= o.obs && Drained(tail, n, 0)
      ensures o.written == Converted(conv, cbs, old(done + line))
      ensures truncated == if conv == Block then TooLong(cbs, old(done + line)) else 0
    {
      hide Blocked, Unblocked, TooLong, Converter.Blocking, Converter.Unblocking, Wholes, Drained;
      if conv == Block {
        FlushBlock();
      }
      if conv == Unblock {
        FlushUnblock();
      }
      whole := o.calls;
      assert o.Counted() && o.oflow <= o.obs;
      tail := o.BFlush();
    }
  }

  lemma BlankRecord(cbs: nat, r: seq<int>)
    requires cbs > 0 && r == [BLANK]
    ensures Record(cbs, r) == Record(cbs, [])
  {
  }

  lemma LongLine(cbs: nat, line: seq<int>, c: int)
    requires |line| >= cbs
    ensures Record(cbs, line + [c]) == Record(cbs, line)
  {
  }

  /** What the conversion is given: with `sync`, short blocks are filled up. */
  function Input(blocks: seq<seq<int>>, ibs: nat, sync: bool, fill: int): seq<int> {
    if blocks == [] then []
    else Padded(blocks[0], ibs, sync, fill) + Input(blocks[1..], ibs, sync, fill)
  }

  function Padded(block: seq<int>, ibs: nat, sync: bool, fill: int): seq<int> {
    if sync && |block| < ibs then block + seq(ibs - |block|, _ => fill) else block
  }

  lemma {:induction false} InputGrows(blocks: seq<seq<int>>, ibs: nat, sync: bool, fill: int, n: nat)
    requires n < |blocks|
    ensures Input(blocks[..n + 1], ibs, sync, fill) == Input(blocks[..n], ibs, sync, fill)
        + Padded(blocks[n], ibs, sync, fill)
    decreases n
  {
    if n == 0 {
      assert blocks[..1][1..] == [] && blocks[..0] == [];
    } else {
      assert blocks[..n + 1][1..] == blocks[1..][..n] && blocks[..n][1..] == blocks[1..][..n - 1];
      InputGrows(blocks[1..], ibs, sync, fill, n - 1);
    }
  }

  lemma InputNone(ibs: nat, sync: bool, fill: int)
    ensures Input([], ibs, sync, fill) == []
  {
  }

  /** What the output is to be. */
  function Converted(conv: Conversion, cbs: nat, text: seq<int>): seq<int> {
    if cbs == 0 then text
    else
      match conv
      case Plain => text
      case Block => Blocked(cbs, text)
      case Unblock => Unblocked(cbs, text)
  }

  /** `dd` without character conversions. Each read gives at most `ibs` bytes; `direct` is set if the
      block size was given by `bs=`. Without a record size there is no record conversion. */
  method DD(blocks: seq<seq<int>>, conv0: Conversion, ibs: nat, obs: nat, cbs: nat, sync: bool, direct: bool)
    returns (out: seq<int>, truncated: nat, owhole: nat, opartial: nat, ghost whole: seq<Call>, ghost tail: seq<Call>)
    requires obs > 0 && forall i :: 0 <= i < |blocks| ==> 0 < |blocks[i]| <= ibs
    ensures
      var text := Input(blocks, ibs, sync, if conv0 == Plain || cbs == 0 then 0 else BLANK);
      && out == Converted(conv0, cbs, text)
      && truncated == if cbs > 0 && conv0 == Block then TooLong(cbs, text) else 0
    ensures owhole == Wholes(whole, obs) && owhole + opartial == |whole| + |tail|
    ensures !direct || (conv0 != Plain && cbs > 0) ==> forall i :: 0 <= i < |whole| ==> whole[i].asked == obs
    ensures exists n :: 0 <= n <= obs && Drained(tail, n, 0)
  {
    hide Wholes, Drained;
    hide Input, Padded, Converter.Doing, Blocked, Unblocked, TooLong;
    InputNone(ibs, sync, if cbs > 0 && conv0 != Plain then BLANK else 0);
    var conv := if cbs > 0 then conv0 else Plain;
    var fill := if conv == Plain then 0 else BLANK;
    var o := new Output(obs, direct && conv == Plain);
    var c := new Converter(o, cbs);
    c.Starts(conv);
    assert blocks[..0] == [];
    var n := 0;
    while n < |blocks|
      invariant 0 <= n <= |blocks| && c.Doing(conv) && c.done + c.line == Input(blocks[..n], ibs, sync, fill)
      invariant (direct && conv == Plain ==> o.oflow == 0) && o == c.o
    {
      var block := Fill(blocks[n], ibs, sync, fill);
      InputGrows(blocks, ibs, sync, fill, n);
      if direct && conv == Plain {
        c.Direct(block);
      } else {
        c.BlokConv(conv, block);
      }
      n := n + 1;
    }
    assert blocks[..n] == blocks;
    whole, tail := c.Quit(conv);
    out, truncated, owhole, opartial := o.written, c.truncated, o.owhole, o.opartial;
  }

  method Fill(block0: seq<int>, ibs: nat, sync: bool, fill: int) returns (block: seq<int>)
    requires 0 < |block0| <= ibs
    ensures block == Padded(block0, ibs, sync, fill) && block != []
  {
    block := block0;
    if sync && |block| < ibs {
      block := block + seq(ibs - |block|, _ => fill);
    }
  }
}
