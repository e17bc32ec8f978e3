/** Records of `dd`: what `conv=block` and `conv=unblock` mean, and when one undoes the other. */
module DdRecords {
  import opened Arith

  const NEWLINE: int := 10
  const BLANK: int := 32

  function Blanks(n: nat): (r: seq<int>)
    ensures |r| == n && forall i :: 0 <= i < n ==> r[i] == BLANK
  {
    seq(n, _ => BLANK)
  }

  /** The line before the first newline, or all of the text. */
  function LineEnd(text: seq<int>): (n: nat)
    ensures n <= |text| && NEWLINE !in text[..n] && (n < |text| ==> text[n] == NEWLINE)
  {
    if text == [] || text[0] == NEWLINE then 0
    else
      assert text[..LineEnd(text[1..]) + 1] == [text[0]] + text[1..][..LineEnd(text[1..])];
      LineEnd(text[1..]) + 1
  }

  /** A line as a record: cut off or filled up with blanks. */
  function Record(cbs: nat, line: seq<int>): (r: seq<int>)
    ensures |r| == cbs
  {
    if |line| >= cbs then line[..cbs] else line + Blanks(cbs - |line|)
  }

  /** `conv=block`: every line a record, also a last one without newline. */
  function Blocked(cbs: nat, text: seq<int>): seq<int>
    decreases |text|
  {
    var n := LineEnd(text);
    if text == [] then []
    else if n == |text| then Record(cbs, text)
    else Record(cbs, text[..n]) + Blocked(cbs, text[n + 1..])
  }

  /** How many lines do not fit their records. */
  function TooLong(cbs: nat, text: seq<int>): nat
    decreases |text|
  {
    var n := LineEnd(text);
    if text == [] then 0
    else (if n > cbs then 1 else 0) + if n == |text| then 0 else TooLong(cbs, text[n + 1..])
  }

  function Trimmed(record: seq<int>): (r: seq<int>)
    ensures r <= record && (r != [] ==> r[|r| - 1] != BLANK)
    ensures forall i :: |r| <= i < |record| ==> record[i] == BLANK
  {
    if record == [] || record[|record| - 1] != BLANK then record else Trimmed(record[..|record| - 1])
  }

  /** `conv=unblock`: every record, also a last one that is too short, a line without trailing blanks. */
  function Unblocked(cbs: nat, text: seq<int>): seq<int>
    requires cbs > 0
    decreases |text|
  {
    if text == [] then []
    else if |text| <= cbs then Trimmed(text) + [NEWLINE]
    else Trimmed(text[..cbs]) + [NEWLINE] + Unblocked(cbs, text[cbs..])
  }

  // ---- Putting texts together ----

  ghost predicate Lines(text: seq<int>) { text == [] || text[|text| - 1] == NEWLINE }

  lemma {:induction false} LineEndIs(text: seq<int>, n: nat)
    requires n <= |text| && NEWLINE !in text[..n] && (n < |text| ==> text[n] == NEWLINE)
    ensures LineEnd(text) == n
    decreases n
  {
    if n > 0 {
      assert text[0] == text[..n][0] && text[1..][..n - 1] == text[..n][1..];
      LineEndIs(text[1..], n - 1);
    }
  }

  lemma {:induction false} LineEndAtMost(text: seq<int>, i: nat)
    requires i < |text| && text[i] == NEWLINE
    ensures LineEnd(text) <= i
    decreases i
  {
    if i > 0 && text[0] != NEWLINE {
      LineEndAtMost(text[1..], i - 1);
    }
  }

  lemma BlockedIs(cbs: nat, text: seq<int>)
    requires text != []
    ensures
      var n := LineEnd(text);
      Blocked(cbs, text) == if n == |text| then Record(cbs, text)
          else Record(cbs, text[..n]) + Blocked(cbs, text[n + 1..])
    ensures
      var n := LineEnd(text);
      TooLong(cbs, text) == (if n > cbs then 1 else 0) + if n == |text| then 0 else TooLong(cbs, text[n + 1..])
  {
  }

  lemma FirstLine(cbs: nat, done: seq<int>, rest: seq<int>)
    requires Lines(done) && done != []
    ensures
      var n := LineEnd(done);
      && n < |done| && Lines(done[n + 1..])
      && Blocked(cbs, done + rest) == Record(cbs, done[..n]) + Blocked(cbs, done[n + 1..] + rest)
      && TooLong(cbs, done + rest) == (if n > cbs then 1 else 0) + TooLong(cbs, done[n + 1..] + rest)
      && Blocked(cbs, done) == Record(cbs, done[..n]) + Blocked(cbs, done[n + 1..])
      && TooLong(cbs, done) == (if n > cbs then 1 else 0) + TooLong(cbs, done[n + 1..])
  {
    hide Record, Blocked, TooLong, LineEnd;
    var n := LineEnd(done);
    LineEndAtMost(done, |done| - 1);
    assert (done + rest)[..n] == done[..n];
    LineEndIs(done + rest, n);
    assert (done + rest)[n + 1..] == done[n + 1..] + rest;
    BlockedIs(cbs, done + rest);
    BlockedIs(cbs, done);
  }

  lemma JoinRecord(record: seq<int>, more: seq<int>, rest: seq<int>, whole: seq<int>, part: seq<int>)
    requires part == record + more && whole == record + (more + rest)
    ensures whole == part + rest
  {
  }

  lemma NoRecords(cbs: nat)
    ensures Blocked(cbs, []) == [] && TooLong(cbs, []) == 0 && Cleaned(cbs, []) == []
    ensures cbs > 0 ==> Unblocked(cbs, []) == []
  {
  }

  lemma {:induction false} BlockedJoin(cbs: nat, done: seq<int>, rest: seq<int>)
    requires Lines(done)
    ensures Blocked(cbs, done + rest) == Blocked(cbs, done) + Blocked(cbs, rest)
    decreases |done|
  {
    hide Record, Blocked, TooLong, LineEnd, Lines;
    if done == [] {
      assert done + rest == rest;
      NoRecords(cbs);
    } else {
      FirstLine(cbs, done, rest);
      var n := LineEnd(done);
      BlockedJoin(cbs, done[n + 1..], rest);
      JoinRecord(Record(cbs, done[..n]), Blocked(cbs, done[n + 1..]), Blocked(cbs, rest), Blocked(cbs, done + rest),
                 Blocked(cbs, done));
    }
  }

  lemma {:induction false} TooLongJoin(cbs: nat, done: seq<int>, rest: seq<int>)
    requires Lines(done)
    ensures TooLong(cbs, done + rest) == TooLong(cbs, done) + TooLong(cbs, rest)
    decreases |done|
  {
    hide Record, Blocked, TooLong, LineEnd, Lines;
    if done == [] {
      assert done + rest == rest;
      NoRecords(cbs);
    } else {
      FirstLine(cbs, done, rest);
      TooLongJoin(cbs, done[LineEnd(done) + 1..], rest);
    }
  }

  lemma OneMore(cbs: nat, n: nat)
    ensures cbs > 0 && n % cbs == 0 ==> (cbs + n) % cbs == 0
  {
    if cbs > 0 && n % cbs == 0 {
      DivModBasics(n, cbs);
      MulAdd(n / cbs, 1, cbs);
      DivModUnique(cbs + n, cbs, n / cbs + 1, 0);
    }
  }

  /** Only whole records are written. */
  lemma {:induction false} BlockedWhole(cbs: nat, text: seq<int>)
    requires cbs > 0
    ensures |Blocked(cbs, text)| % cbs == 0
    decreases |text|
  {
    hide Record, Blocked, LineEnd;
    OneMore(cbs, 0);
    if text == [] {
      NoRecords(cbs);
    } else {
      BlockedIs(cbs, text);
      var n := LineEnd(text);
      if n < |text| {
        BlockedWhole(cbs, text[n + 1..]);
        OneMore(cbs, |Blocked(cbs, text[n + 1..])|);
      }
    }
  }

  lemma BlockedLine(cbs: nat, line: seq<int>)
    requires NEWLINE !in line
    ensures Blocked(cbs, line + [NEWLINE]) == Record(cbs, line)
    ensures Blocked(cbs, line) == if line == [] then [] else Record(cbs, line)
    ensures TooLong(cbs, line + [NEWLINE]) == (if |line| > cbs then 1 else 0) == TooLong(cbs, line)
  {
    var text := line + [NEWLINE];
    assert text[..|line|] == line && text[|line| + 1..] == [];
    LineEndIs(text, |line|);
    assert line[..|line|] == line;
    LineEndIs(line, |line|);
  }

  /** A line that ends is one more record. */
  lemma LineEnded(cbs: nat, done: seq<int>, line: seq<int>)
    requires Lines(done) && NEWLINE !in line
    ensures Lines(done + line + [NEWLINE])
    ensures Blocked(cbs, done + line + [NEWLINE]) == Blocked(cbs, done) + Record(cbs, line)
    ensures TooLong(cbs, done + line + [NEWLINE]) == TooLong(cbs, done) + if |line| > cbs then 1 else 0
    ensures Blocked(cbs, done + line) == Blocked(cbs, done) + if line == [] then [] else Record(cbs, line)
    ensures TooLong(cbs, done + line) == TooLong(cbs, done) + if |line| > cbs then 1 else 0
  {
    hide Blocked, Record, TooLong;
    assert done + line + [NEWLINE] == done + (line + [NEWLINE]);
    BlockedJoin(cbs, done, line + [NEWLINE]);
    BlockedJoin(cbs, done, line);
    TooLongJoin(cbs, done, line + [NEWLINE]);
    TooLongJoin(cbs, done, line);
    BlockedLine(cbs, line);
  }

  lemma {:induction false} UnblockedJoins(cbs: nat, done: seq<int>, rest: seq<int>)
    requires cbs > 0 && |done| % cbs == 0
    ensures Unblocked(cbs, done + rest) == Unblocked(cbs, done) + Unblocked(cbs, rest)
    decreases |done|
  {
    if done == [] {
      assert done + rest == rest;
    } else {
      WholeRecord(cbs, |done|);
      assert (done + rest)[..cbs] == done[..cbs];
      assert (done + rest)[cbs..] == done[cbs..] + rest;
      UnblockedJoins(cbs, done[cbs..], rest);
      if |done| == cbs {
        assert done[..cbs] == done && done[cbs..] == [];
        if rest == [] {
          assert done + rest == done;
        }
      }
    }
  }

  /** A full record is one more line. */
  lemma RecordEnded(cbs: nat, done: seq<int>, line: seq<int>)
    requires cbs > 0 && |done| % cbs == 0 && |line| <= cbs
    ensures Unblocked(cbs, done + line) == Unblocked(cbs, done) + if line == [] then [] else Trimmed(line) + [NEWLINE]
    ensures |line| == cbs ==> |done + line| % cbs == 0
  {
    hide Trimmed;
    UnblockedJoins(cbs, done, line);
    OneMore(cbs, |done|);
  }

  lemma WholeRecord(cbs: nat, n: nat)
    requires cbs > 0 && n > 0 && n % cbs == 0
    ensures n >= cbs && (n - cbs) % cbs == 0
  {
    DivModBasics(n, cbs);
    var q := n / cbs;
    if q <= 0 {
      MulMono(q, 0, cbs);
    }
    MulMono(1, q, cbs);
    MulSub(q, 1, cbs);
    DivModUnique(n - cbs, cbs, q - 1, 0);
  }

  // ---- One conversion after the other ----

  /** What is left of a text: lines cut off, trailing blanks dropped, a newline at the end. */
  function Cleaned(cbs: nat, text: seq<int>): seq<int>
    decreases |text|
  {
    var n := LineEnd(text);
    if text == [] then []
    else if n == |text| then Trimmed(Record(cbs, text)) + [NEWLINE]
    else Trimmed(Record(cbs, text[..n])) + [NEWLINE] + Cleaned(cbs, text[n + 1..])
  }

  lemma {:induction false} UnblockUndoes(cbs: nat, text: seq<int>)
    requires cbs > 0
    ensures Unblocked(cbs, Blocked(cbs, text)) == Cleaned(cbs, text)
    decreases |text|
  {
    hide Record, Trimmed, Blocked, Cleaned, LineEnd;
    if text == [] {
      NoRecords(cbs);
    } else {
      var n := LineEnd(text);
      BlockedIs(cbs, text);
      CleanedIs(cbs, text);
      if n < |text| {
        var record, rest := Record(cbs, text[..n]), Blocked(cbs, text[n + 1..]);
        OneMore(cbs, 0);
        UnblockedJoins(cbs, record, rest);
        UnblockUndoes(cbs, text[n + 1..]);
      }
    }
  }

  /** Lines that fit, end in no blank, and are all ended. */
  ghost predicate Tidy(cbs: nat, text: seq<int>)
    decreases |text|
  {
    var n := LineEnd(text);
    text == [] || (n < |text| && n <= cbs && (n > 0 ==> text[n - 1] != BLANK) && Tidy(cbs, text[n + 1..]))
  }

  lemma {:induction false} TrimmedBlanks(line: seq<int>, n: nat)
    ensures Trimmed(line + Blanks(n)) == Trimmed(line)
  {
    if n == 0 {
      assert line + Blanks(0) == line;
    } else {
      var r := line + Blanks(n);
      assert r[..|r| - 1] == line + Blanks(n - 1);
      TrimmedBlanks(line, n - 1);
    }
  }

  /** A line comes back from its record exactly if it fits and ends in no blank. */
  lemma LineBack(cbs: nat, line: seq<int>)
    ensures Trimmed(Record(cbs, line)) == line <==> |line| <= cbs && (line != [] ==> line[|line| - 1] != BLANK)
    ensures Trimmed(Record(cbs, line)) <= line
  {
    if |line| <= cbs {
      assert line[..|line|] == line;
      assert Record(cbs, line) == line + Blanks(cbs - |line|);
      TrimmedBlanks(line, cbs - |line|);
    }
  }

  lemma EarlierNewline(line: seq<int>, t: seq<int>, a: seq<int>, b: seq<int>)
    requires NEWLINE !in line && t < line
    ensures t + [NEWLINE] + a != line + [NEWLINE] + b
  {
    assert (t + [NEWLINE] + a)[|t|] == NEWLINE;
    assert (line + [NEWLINE] + b)[|t|] == line[|t|] && line[|t|] in line;
  }

  lemma SameTail(line: seq<int>, a: seq<int>, b: seq<int>)
    ensures line + [NEWLINE] + a == line + [NEWLINE] + b <==> a == b
  {
    assert (line + [NEWLINE] + a)[|line| + 1..] == a;
    assert (line + [NEWLINE] + b)[|line| + 1..] == b;
  }

  /** `conv=unblock` gives back what `conv=block` was given if and only if the text is tidy. */
  lemma BlockUnblock(cbs: nat, text: seq<int>)
    requires cbs > 0
    ensures Unblocked(cbs, Blocked(cbs, text)) == text <==> Tidy(cbs, text)
  {
    UnblockUndoes(cbs, text);
    CleanedTidy(cbs, text);
  }

  lemma CleanedIs(cbs: nat, text: seq<int>)
    requires text != []
    ensures
      var n := LineEnd(text);
      Cleaned(cbs, text) ==
        if n == |text| then Trimmed(Record(cbs, text)) + [NEWLINE]
        else Trimmed(Record(cbs, text[..n])) + [NEWLINE] + Cleaned(cbs, text[n + 1..])
  {
  }

  lemma CleanedSame(cbs: nat, text: seq<int>)
    requires text != []
    ensures
      var n := LineEnd(text);
      if n == |text| then Cleaned(cbs, text) != text
      else Cleaned(cbs, text) == text <==>
        Trimmed(Record(cbs, text[..n])) == text[..n] && Cleaned(cbs, text[n + 1..]) == text[n + 1..]
  {
    hide Trimmed, Record, Cleaned, LineEnd;
    CleanedIs(cbs, text);
    var n := LineEnd(text);
    var line, t := text[..n], Trimmed(Record(cbs, text[..n]));
    LineBack(cbs, line);
    if n == |text| {
      assert line == text;
      var c := Trimmed(Record(cbs, text)) + [NEWLINE];
      assert c[|c| - 1] == NEWLINE && text[|text| - 1] in text[..n];
    } else {
      var rest := text[n + 1..];
      assert text == line + [NEWLINE] + rest;
      SameTail(line, Cleaned(cbs, rest), rest);
      if t != line {
        EarlierNewline(line, t, Cleaned(cbs, rest), rest);
      }
    }
  }

  lemma {:induction false} CleanedTidy(cbs: nat, text: seq<int>)
    ensures Cleaned(cbs, text) == text <==> Tidy(cbs, text)
    decreases |text|
  {
    hide Trimmed, Record, Cleaned;
    var n := LineEnd(text);
    if text == [] {
      NoRecords(cbs);
    } else {
      CleanedSame(cbs, text);
      LineBack(cbs, text[..n]);
      if n < |text| {
        CleanedTidy(cbs, text[n + 1..]);
      }
    }
  }

  lemma RecordBack(record: seq<int>)
    ensures Record(|record|, Trimmed(record)) == record
  {
  }

  /** A newline inside makes one record more. */
  lemma ExtraRecord(cbs: nat, s: seq<int>)
    ensures |Blocked(cbs, s + [NEWLINE])| >= cbs
    ensures NEWLINE in s ==> |Blocked(cbs, s + [NEWLINE])| >= 2 * cbs
  {
    var text := s + [NEWLINE];
    var n := LineEnd(text);
    if NEWLINE in s {
      var i :| 0 <= i < |s| && s[i] == NEWLINE;
      LineEndAtMost(text, i);
      var rest := text[n + 1..];
      assert rest[|rest| - 1] == NEWLINE;
    } else {
      BlockedLine(cbs, s);
    }
  }

  lemma RecordAndRest(cbs: nat, text: seq<int>)
    requires cbs > 0 && |text| >= cbs
    ensures Unblocked(cbs, text) == Trimmed(text[..cbs]) + [NEWLINE] + Unblocked(cbs, text[cbs..])
  {
    if |text| == cbs {
      assert text[..cbs] == text && text[cbs..] == [];
    }
  }

  lemma {:induction false} UnblockBlockSize(cbs: nat, text: seq<int>)
    requires cbs > 0 && |text| % cbs == 0
    ensures NEWLINE in text ==> |Blocked(cbs, Unblocked(cbs, text))| > |text|
    ensures |Blocked(cbs, Unblocked(cbs, text))| >= |text|
    ensures NEWLINE !in text ==> Blocked(cbs, Unblocked(cbs, text)) == text
    decreases |text|
  {
    hide Blocked, Unblocked, Trimmed, Record;
    if text == [] {
      NoRecords(cbs);
    } else {
      WholeRecord(cbs, |text|);
      var record, rest := text[..cbs], text[cbs..];
      assert text == record + rest;
      var t := Trimmed(record);
      RecordAndRest(cbs, text);
      BlockedJoin(cbs, t + [NEWLINE], Unblocked(cbs, rest));
      UnblockBlockSize(cbs, rest);
      ExtraRecord(cbs, t);
      KeptNewline(record);
      if NEWLINE !in record {
        BlockedLine(cbs, t);
        RecordBack(record);
      }
    }
  }

  lemma KeptNewline(record: seq<int>)
    ensures NEWLINE in record <==> NEWLINE in Trimmed(record)
  {
  }

  /** `conv=block` gives back what `conv=unblock` was given if and only if it is records without newlines. */
  lemma UnblockBlock(cbs: nat, text: seq<int>)
    requires cbs > 0
    ensures Blocked(cbs, Unblocked(cbs, text)) == text <==> |text| % cbs == 0 && NEWLINE !in text
  {
    if |text| % cbs == 0 {
      UnblockBlockSize(cbs, text);
    }
    BlockedWhole(cbs, Unblocked(cbs, text));
  }
}
