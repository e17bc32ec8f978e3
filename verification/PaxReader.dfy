/** Reading pax records back: the block is cut into strings in place. */
module PaxReader {
  import opened PaxRecords

  // ---- Scanning ----

  /** Where characters satisfying `p` end, looking no further than `stop`. */
  function SpanEnd(s: string, i: nat, stop: nat, p: char -> bool): (k: nat)
    requires i <= |s|
    ensures i <= k <= |s| && (k > i ==> k <= stop)
    decreases |s| - i
  {
    if i >= stop || i == |s| || !p(s[i]) then i else SpanEnd(s, i + 1, stop, p)
  }

  lemma {:induction false} SpanIs(s: string, i: nat, stop: nat, p: char -> bool, k: nat)
    requires i <= k <= |s| && k <= stop
    requires forall j :: i <= j < k ==> p(s[j])
    requires k == stop || k == |s| || !p(s[k])
    ensures SpanEnd(s, i, stop, p) == k
    decreases k - i
  {
    if i < k {
      SpanIs(s, i + 1, stop, p, k);
    }
  }

  /** The string that begins at `i`. */
  function CString(s: string, i: nat): string
    requires i <= |s|
  {
    s[i..SpanEnd(s, i, |s|, c => c != NUL)]
  }

  lemma {:induction false} SpanHolds(s: string, i: nat, stop: nat, p: char -> bool)
    requires i <= |s|
    ensures forall j :: i <= j < SpanEnd(s, i, stop, p) ==> p(s[j])
    decreases |s| - i
  {
    if i < stop && i < |s| && p(s[i]) {
      SpanHolds(s, i + 1, stop, p);
    }
  }

  /** `strtol` in base 10: the number, and where it ended; without digits, 0 and the start. */
  function Strtol(s: string, i: nat): (int, nat)
    requires i <= |s|
  {
    var j := SpanEnd(s, i, |s|, IsSpace);
    var k := if j < |s| && (s[j] == '-' || s[j] == '+') then j + 1 else j;
    var end := SpanEnd(s, k, |s|, IsDigit);
    if end == k then (0, i)
    else
      SpanHolds(s, k, |s|, IsDigit);
      (if s[j] == '-' then -(Number(s[k..end]) as int) else Number(s[k..end]), end)
  }

  // ---- One record ----

  datatype Outcome = Got(keyword: string, value: string, next: nat, block: string) | Overrun

  /** A block that ends with a NUL. */
  predicate Ended(s: string) {
    |s| > 0 && s[|s| - 1] == NUL
  }

  /** Lines that do not begin with a positive number are passed over. */
  function Junk(s: string, bp: nat): (b: nat)
    requires Ended(s) && bp < |s|
    ensures bp <= b < |s| && (s[b] == NUL || Strtol(s, b).0 > 0)
    decreases |s| - bp
  {
    if s[bp] == NUL || Strtol(s, bp).0 > 0 then bp else Junk(s, NextLine(s, bp))
  }

  function NextLine(s: string, bp: nat): (b: nat)
    requires Ended(s) && bp < |s| && s[bp] != NUL
    ensures bp < b < |s|
  {
    SpanEndBeforeLast(s, bp + 1);
    SpanEnd(s, bp + 1, |s|, c => c != NUL && c != '\n')
  }

  lemma {:induction false} SpanEndBeforeLast(s: string, i: nat)
    requires Ended(s) && i < |s|
    ensures SpanEnd(s, i, |s|, c => c != NUL && c != '\n') < |s|
    decreases |s| - i
  {
    if s[i] != NUL && s[i] != '\n' {
      SpanEndBeforeLast(s, i + 1);
    }
  }

  /** The bytes of the record from `b` on, of which the number says there are `n`, the rest from `x`. */
  function Cut(s: string, b: nat, n: nat, x: nat): Outcome
    requires Ended(s) && 0 < n && b + n < |s| && b <= x < |s|
  {
    var end := b + n;
    var k := SpanEnd(s, x, end, Blank);
    if k == end || s[k] == '=' then Got("", "", end, s)
    else
      var e := SpanEnd(s, k, end, c => c != '=');
      if e == end then Got(CString(s, k), "", end, s)
      else
        var t := s[e := NUL][end - 1 := NUL];
        Got(CString(t, k), if e + 1 < end then CString(t, e + 1) else "", end, t)
  }

  function GetRec(s: string, bp: nat): Outcome
    requires Ended(s) && bp < |s|
  {
    var b := Junk(s, bp);
    var (n, x) := Strtol(s, b);
    if s[b] == NUL || x >= |s| || s[x] == NUL then Got("", "", b + 1, s)
    else if b + n >= |s| then Overrun
    else Cut(s, b, n, x)
  }

  class Reader {
    const block: array<char>
    var bp: nat

    ghost predicate Valid()
      reads this, block
    {
      bp <= block.Length && Ended(block[..])
    }

    constructor (text: string)
      ensures Valid() && fresh(block) && block[..] == text + [NUL] && bp == 0
    {
      var b := new char[|text| + 1](i requires 0 <= i < |text| + 1 => if i < |text| then text[i] else NUL);
      assert b[..] == text + [NUL];
      block, bp := b, 0;
    }

    /** Pointer loops of the reader. */
    method Scan(i: nat, stop: nat, p: char -> bool) returns (k: nat)
      requires i <= block.Length
      ensures k == SpanEnd(block[..], i, stop, p)
    {
      k := i;
      while k < stop && k < block.Length && p(block[k])
        invariant i <= k <= block.Length
        invariant SpanEnd(block[..], i, stop, p) == SpanEnd(block[..], k, stop, p)
      {
        k := k + 1;
      }
    }

    /** `tgetrec`. */
    method TGetRec() returns (keyword: string, value: string, ok: bool)
      requires Valid() && bp < block.Length
      modifies this`bp, block
      ensures match GetRec(old(block[..]), old(bp))
              case Got(k, v, next, s) => ok && keyword == k && value == v && bp == next && block[..] == s
              case Overrun => !ok && block[..] == old(block[..])
      ensures Valid()
    {
      hide SpanEnd, Strtol, CString;
      ghost var s, start := block[..], bp;
      keyword, value, ok := "", "", true;
      while block[bp] != NUL && Strtol(block[..], bp).0 <= 0
        invariant bp < block.Length && block[..] == s && Junk(s, start) == Junk(s, bp)
        decreases block.Length - bp
      {
        ghost var before := bp;
        bp := Scan(bp + 1, block.Length, c => c != NUL && c != '\n');
        assert bp == NextLine(s, before);
      }
      var (n, x) := Strtol(block[..], bp);
      if block[bp] == NUL || x >= block.Length || block[x] == NUL {
        bp := bp + 1;
        return;
      }
      if bp + n >= block.Length {
        return "", "", false;
      }
      var end: nat := bp + n;
      StrtolForward(s, bp);
      x := Scan(x, end, Blank);
      if x == end || block[x] == '=' {
        bp := end;
        return;
      }
      var k := x;
      x := Scan(x, end, c => c != '=');
      if x == end {
        keyword := CString(block[..], k);
        bp := end;
        return;
      }
      block[x] := NUL;
      block[end - 1] := NUL;
      keyword := CString(block[..], k);
      if x + 1 < end {
        value := CString(block[..], x + 1);
      }
      bp := end;
    }
  }

  lemma StrtolForward(s: string, i: nat)
    requires i <= |s|
    ensures i <= Strtol(s, i).1 <= |s|
  {
  }
}
