/** Which pairs survive being written and read, and that all of them are read at the right place. */
module PaxRoundTrip {
  import opened PaxRecords
  import opened PaxReader

  datatype Pair = Pair(keyword: string, value: string)

  ghost predicate Plain(s: string) {
    NUL !in s
  }

  // ---- One record ----

  /** Keyword and value as they stand in a record. */
  function Text(p: Pair): string {
    p.keyword + "=" + p.value
  }

  /** What the reader makes of a record with this keyword and value. */
  function Received(p: Pair): Pair {
    var k := SpanEnd(p.keyword, 0, |p.keyword|, Blank);
    if k == |p.keyword| || p.keyword[k] == '=' then Pair("", "")
    else
      var e := SpanEnd(p.keyword, k, |p.keyword|, c => c != '=');
      Pair(p.keyword[k..e], Text(p)[e + 1..])
  }

  /** The condition under which a pair comes back, for a caller to check. */
  predicate Survives(p: Pair) {
    if p.keyword == "" then p.value == ""
    else !Blank(p.keyword[0]) && '=' !in p.keyword
  }

  lemma NoNul(s: string, i: nat, k: nat)
    requires i <= k < |s| && s[k] == NUL && forall j :: i <= j < k ==> s[j] != NUL
    ensures CString(s, i) == s[i..k]
  {
    SpanIs(s, i, |s|, c => c != NUL, k);
  }

  /** The number at the head of a record is its length. */
  lemma NumberRead(s: string, bp: nat, n: nat, digits: string)
    requires digits == Decimal(n) && bp + |digits| < |s|
    requires forall i :: 0 <= i < |digits| ==> s[bp + i] == digits[i]
    requires s[bp + |digits|] == ' '
    ensures Strtol(s, bp) == (n, bp + |digits|) && IsDigit(s[bp])
  {
    DecimalReads(n);
    assert IsDigit(digits[0]);
    SpanIs(s, bp, |s|, IsSpace, bp);
    forall j | bp <= j < bp + |digits| ensures IsDigit(s[j]) {
      assert s[j] == digits[j - bp] && digits[j - bp] in digits;
    }
    SpanIs(s, bp, |s|, IsDigit, bp + |digits|);
    assert s[bp..bp + |digits|] == digits;
  }

  /** Keyword and value lie at `y`, and the record ends before `end`. */
  ghost predicate BodyAt(s: string, y: nat, end: nat, p: Pair) {
    end < |s| && y + |Text(p)| + 1 == end && forall i :: 0 <= i < |Text(p)| ==> s[y + i] == Text(p)[i]
  }

  lemma BodyChar(s: string, y: nat, end: nat, p: Pair, i: nat)
    requires BodyAt(s, y, end, p) && i <= |p.keyword|
    ensures y + i < end && |p.keyword| < |Text(p)| && s[y + i] == Text(p)[i] == if i < |p.keyword| then p.keyword[i]
        else '='
  {
  }

  lemma BlanksSkipped(s: string, y: nat, end: nat, p: Pair)
    requires BodyAt(s, y, end, p) && y > 0 && s[y - 1] == ' '
    ensures
      var k0 := SpanEnd(p.keyword, 0, |p.keyword|, Blank);
      && k0 <= |p.keyword| && SpanEnd(s, y - 1, end, Blank) == y + k0 && y + k0 < end
      && s[y + k0] == if k0 == |p.keyword| then '=' else p.keyword[k0]
  {
    var k0 := SpanEnd(p.keyword, 0, |p.keyword|, Blank);
    SpanHolds(p.keyword, 0, |p.keyword|, Blank);
    SpanStops(p.keyword, 0, |p.keyword|, Blank);
    forall j | y - 1 <= j < y + k0 ensures Blank(s[j]) {
      if j >= y {
        BodyChar(s, y, end, p, j - y);
      }
    }
    BodyChar(s, y, end, p, k0);
    SpanIs(s, y - 1, end, Blank, y + k0);
  }

  lemma {:induction false} SpanStops(s: string, i: nat, stop: nat, p: char -> bool)
    requires i <= |s|
    ensures var k := SpanEnd(s, i, stop, p); k >= stop || k == |s| || !p(s[k])
    decreases |s| - i
  {
    if i < stop && i < |s| && p(s[i]) {
      SpanStops(s, i + 1, stop, p);
    }
  }

  lemma EqualsFound(s: string, y: nat, end: nat, p: Pair, k0: nat)
    requires BodyAt(s, y, end, p) && k0 < |p.keyword|
    ensures
      var e0 := SpanEnd(p.keyword, k0, |p.keyword|, c => c != '=');
      && e0 <= |p.keyword| && SpanEnd(s, y + k0, end, c => c != '=') == y + e0 && s[y + e0] == '='
  {
    var e0 := SpanEnd(p.keyword, k0, |p.keyword|, c => c != '=');
    SpanHolds(p.keyword, k0, |p.keyword|, c => c != '=');
    SpanStops(p.keyword, k0, |p.keyword|, c => c != '=');
    forall j | y + k0 <= j < y + e0 ensures s[j] != '=' {
      BodyChar(s, y, end, p, j - y);
    }
    BodyChar(s, y, end, p, e0);
    SpanIs(s, y + k0, end, c => c != '=', y + e0);
  }

  /** A string that was cut off at `k`. */
  lemma CutString(t: string, y: nat, text: string, i: nat, k: nat)
    requires i <= k <= |text| && y + k < |t| && t[y + k] == NUL
    requires forall j :: i <= j < k ==> t[y + j] == text[j] && text[j] != NUL
    ensures CString(t, y + i) == text[i..k]
  {
    hide CString;
    forall j | y + i <= j < y + k ensures t[j] != NUL {
      assert text[j - y] != NUL;
    }
    NoNul(t, y + i, y + k);
  }

  lemma PlainText(p: Pair)
    requires Plain(p.keyword) && Plain(p.value)
    ensures forall j :: 0 <= j < |Text(p)| ==> Text(p)[j] != NUL
  {
    forall j | 0 <= j < |Text(p)| ensures Text(p)[j] != NUL {
      assert j < |p.keyword| ==> p.keyword[j] in p.keyword;
      assert j > |p.keyword| ==> p.value[j - |p.keyword| - 1] in p.value;
    }
  }

  /** Both strings end where they should. */
  lemma StringsCut(s: string, y: nat, end: nat, p: Pair, k0: nat, e0: nat, t: string)
    requires BodyAt(s, y, end, p) && Plain(p.keyword) && Plain(p.value)
    requires k0 <= e0 <= |p.keyword| && t == s[y + e0 := NUL][end - 1 := NUL]
    ensures CString(t, y + k0) == p.keyword[k0..e0]
    ensures e0 < |Text(p)| && CString(t, y + e0 + 1) == Text(p)[e0 + 1..]
  {
    hide CString, Plain;
    PlainText(p);
    var text := Text(p);
    assert forall j :: 0 <= j < |text| && j != e0 ==> t[y + j] == text[j];
    CutString(t, y, text, k0, e0);
    CutString(t, y, text, e0 + 1, |text|);
    assert text[k0..e0] == p.keyword[k0..e0];
  }

  lemma CutBranches(s: string, b: nat, n: nat, x: nat, k: nat, e: nat)
    requires Ended(s) && 0 < n && b + n < |s| && b <= x < |s|
    requires k == SpanEnd(s, x, b + n, Blank) && k < b + n
    ensures s[k] == '=' ==> Cut(s, b, n, x) == Got("", "", b + n, s)
    ensures s[k] != '=' && e == SpanEnd(s, k, b + n, c => c != '=') && e + 1 < b + n ==>
      var t := s[e := NUL][b + n - 1 := NUL];
      Cut(s, b, n, x) == Got(CString(t, k), CString(t, e + 1), b + n, t) && t[b + n..] == s[b + n..]
  {
    hide SpanEnd, CString;
  }

  lemma BodyRead(s: string, b: nat, n: nat, x: nat, p: Pair)
    requires Ended(s) && 0 < n && b + n < |s| && b <= x < |s| && s[x] == ' '
    requires BodyAt(s, x + 1, b + n, p) && Plain(p.keyword) && Plain(p.value)
    ensures
      var o := Cut(s, b, n, x);
      o.Got? && Pair(o.keyword, o.value) == Received(p) && o.next == b + n && |o.block| == |s|
          && o.block[b + n..] == s[b + n..]
  {
    hide SpanEnd, CString, BodyAt, Cut, Plain, Text;
    BlanksSkipped(s, x + 1, b + n, p);
    var k0 := SpanEnd(p.keyword, 0, |p.keyword|, Blank);
    if k0 < |p.keyword| && p.keyword[k0] != '=' {
      EqualsFound(s, x + 1, b + n, p, k0);
      var e0 := SpanEnd(p.keyword, k0, |p.keyword|, c => c != '=');
      BodyChar(s, x + 1, b + n, p, e0);
      StringsCut(s, x + 1, b + n, p, k0, e0, s[x + 1 + e0 := NUL][b + n - 1 := NUL]);
      BodyEnds(s, x + 1, b + n, p);
      CutBranches(s, b, n, x, x + 1 + k0, x + 1 + e0);
    } else {
      CutBranches(s, b, n, x, x + 1 + k0, 0);
    }
  }

  lemma BodyEnds(s: string, y: nat, end: nat, p: Pair)
    requires BodyAt(s, y, end, p)
    ensures y + |p.keyword| + 1 < end
  {
  }

  function Encoded(p: Pair, d: nat): string {
    Record(d, p.keyword, p.value)
  }

  lemma RecordParts(p: Pair, d: nat, s: string, bp: nat, rest: string)
    requires CountsItself(d, |p.keyword| + |p.value| + 3) && bp <= |s| && s[bp..] == Encoded(p, d) + rest && rest != ""
    ensures
      var n := d + |p.keyword| + |p.value| + 3;
      && |Encoded(p, d)| == n && bp + n < |s| && |Decimal(n)| == d && s[bp + d] == ' '
      && BodyAt(s, bp + d + 1, bp + n, p) && s[bp + n..] == rest
      && forall i :: 0 <= i < d ==> s[bp + i] == Decimal(n)[i]
  {
    hide Decimal;
    var n := d + |p.keyword| + |p.value| + 3;
    var digits, t := Decimal(n), s[bp..];
    assert |Encoded(p, d)| == n;
    assert t == digits + [' '] + Text(p) + ['\n'] + rest;
    assert forall i :: 0 <= i < |t| ==> s[bp + i] == t[i];
    assert forall i :: 0 <= i < d ==> t[i] == digits[i];
    assert t[d] == ' ';
    forall i | 0 <= i < |Text(p)| ensures s[bp + d + 1 + i] == Text(p)[i] {
      assert t[d + 1 + i] == Text(p)[i];
    }
    assert t[n..] == rest;
    assert s[bp + n..] == t[n..];
  }

  /** A written record is read whole, and the rest of the block is left as it was. */
  lemma RecordRead(p: Pair, d: nat, s: string, bp: nat, rest: string)
    requires CountsItself(d, |p.keyword| + |p.value| + 3) && Plain(p.keyword) && Plain(p.value)
    requires Ended(s) && bp <= |s| && s[bp..] == Encoded(p, d) + rest && rest != ""
    ensures bp < |s|
    ensures
      var o := GetRec(s, bp);
      && o.Got? && Pair(o.keyword, o.value) == Received(p)
      && o.next == bp + |Encoded(p, d)| <= |s| == |o.block| && o.block[o.next..] == rest
  {
    hide Cut, Strtol, Encoded, Decimal;
    RecordParts(p, d, s, bp, rest);
    var n := d + |p.keyword| + |p.value| + 3;
    NumberRead(s, bp, n, Decimal(n));
    BodyRead(s, bp, n, bp + d, p);
  }

  /** A pair comes back exactly if its keyword is not empty, does not begin with a blank and has no `=`;
      the one exception is the empty pair. */
  lemma ReceivedSame(p: Pair)
    ensures Received(p) == p <==> Survives(p)
  {
    var kw := p.keyword;
    var k := SpanEnd(kw, 0, |kw|, Blank);
    SpanStops(kw, 0, |kw|, Blank);
    SpanHolds(kw, 0, |kw|, Blank);
    if k < |kw| && kw[k] != '=' {
      var e := SpanEnd(kw, k, |kw|, c => c != '=');
      SpanHolds(kw, k, |kw|, c => c != '=');
      SpanStops(kw, k, |kw|, c => c != '=');
      assert Text(p)[|kw| + 1..] == p.value;
      assert |kw[k..e]| == e - k;
    }
  }

  /** A keyword with an equals sign is cut there, and its rest goes to the value. */
  lemma EqualsSignExample()
    ensures Received(Pair("a=b", "c")) == Pair("a", "b=c")
  {
    assert Text(Pair("a=b", "c")) == "a=b=c";
    SpanStops("a=b", 0, 3, Blank);
    assert SpanEnd("a=b", 0, 3, c => c != '=') == 1;
    assert "a=b=c"[2..] == "b=c" && "a=b"[0..1] == "a";
  }

  // ---- A whole header ----

  /** The records of all pairs one after the other, each with the least length that counts itself. */
  ghost predicate Header(pairs: seq<Pair>, text: string)
    decreases |pairs|
  {
    if pairs == [] then text == ""
    else exists d: nat, rest: string ::
        Least(d, |pairs[0].keyword| + |pairs[0].value| + 3) && Header(pairs[1..], rest)
        && text == Encoded(pairs[0], d) + rest
  }

  function AllReceived(pairs: seq<Pair>): seq<Pair> {
    if pairs == [] then [] else [Received(pairs[0])] + AllReceived(pairs[1..])
  }

  lemma {:induction false} HeaderGrows(pairs: seq<Pair>, text: string, p: Pair, d: nat)
    requires Header(pairs, text) && Least(d, |p.keyword| + |p.value| + 3)
    ensures Header(pairs + [p], text + Encoded(p, d))
    decreases |pairs|
  {
    hide Least, Encoded;
    if pairs == [] {
      var none: seq<Pair> := [];
      assert Header(none, "");
      assert (pairs + [p])[1..] == none && text + Encoded(p, d) == Encoded(p, d) + "";
    } else {
      var e: nat, rest: string :| Least(e, |pairs[0].keyword| + |pairs[0].value| + 3) && Header(pairs[1..], rest)
          && text == Encoded(pairs[0], e) + rest;
      HeaderGrows(pairs[1..], rest, p, d);
      assert (pairs + [p])[1..] == pairs[1..] + [p];
      assert text + Encoded(p, d) == Encoded(pairs[0], e) + (rest + Encoded(p, d));
    }
  }

  /** The calls of `addrec` in `wrpax`. */
  method WriteHeader(pairs: seq<Pair>) returns (text: string, out: string)
    ensures Header(pairs, text)
    ensures |out| % 512 == 0 && |text| <= |out| < |text| + 512 && out[..|text|] == text
    ensures forall i :: |text| <= i < |out| ==> out[i] == NUL
  {
    hide Header;
    var w := new Writer();
    var i := 0;
    HeaderEmpty();
    assert pairs[..0] == [];
    while i < |pairs|
      invariant 0 <= i <= |pairs| && w.Valid() && fresh(w) && fresh(w.pdata) && Header(pairs[..i], w.Written())
    {
      ghost var so := w.Written();
      var d := w.AddRec(pairs[i].keyword, pairs[i].value);
      HeaderGrows(pairs[..i], so, pairs[i], d);
      assert pairs[..i + 1] == pairs[..i] + [pairs[i]];
      i := i + 1;
    }
    assert pairs[..i] == pairs;
    text := w.pdata[..w.pcur];
    out := w.Flush();
  }

  lemma HeaderEmpty()
    ensures Header([], "")
  {
  }

  ghost predicate AllPlain(pairs: seq<Pair>) {
    forall p :: p in pairs ==> Plain(p.keyword) && Plain(p.value)
  }

  /** The next record of a header. */
  lemma HeaderStep(pairs: seq<Pair>, text: string, s: string, bp: nat)
    requires Header(pairs, text) && pairs != [] && AllPlain(pairs) && Ended(s) && bp <= |s| && s[bp..] == text + [NUL]
    ensures bp < |s| - 1
    ensures
      var o := GetRec(s, bp);
      && o.Got? && Pair(o.keyword, o.value) == Received(pairs[0]) && bp < o.next < |s| == |o.block|
      && Header(pairs[1..], o.block[o.next..|s| - 1]) && o.block[o.next..] == o.block[o.next..|s| - 1] + [NUL]
  {
    hide GetRec, Encoded, Received;
    var p := pairs[0];
    var d: nat, rest: string :| Least(d, |p.keyword| + |p.value| + 3) && Header(pairs[1..], rest)
        && text == Encoded(p, d) + rest;
    assert Plain(p.keyword) && Plain(p.value);
    assert s[bp..] == Encoded(p, d) + (rest + [NUL]);
    RecordRead(p, d, s, bp, rest + [NUL]);
    EncodedLong(p, d);
    var o := GetRec(s, bp);
    assert |s| - o.next == |rest| + 1;
    assert o.block[o.next..|s| - 1] == o.block[o.next..][..|rest|] == rest;
  }

  lemma EncodedLong(p: Pair, d: nat)
    ensures |Encoded(p, d)| > 0
  {
  }

  /** The loop of `tgetpax`; it stops if a record claims to go on after the block. */
  method ReadHeader(text: string, ghost pairs: seq<Pair>) returns (read: seq<Pair>, ok: bool)
    ensures Header(pairs, text) && AllPlain(pairs) ==> ok && read == AllReceived(pairs)
  {
    hide GetRec, Header, AllReceived, AllPlain;
    var r := new Reader(text);
    read, ok := [], true;
    ghost var good, left, rest := Header(pairs, text) && AllPlain(pairs), pairs, text;
    assert [] + AllReceived(pairs) == AllReceived(pairs);
    assert r.block[0..] == r.block[..];
    HeaderLength(left, rest);
    while r.bp < |text|
      invariant fresh(r) && fresh(r.block) && r.Valid() && r.block.Length == |text| + 1
      invariant good ==> r.bp <= |text| && r.block[r.bp..] == rest + [NUL] && Header(left, rest) && AllPlain(left)
      invariant good ==> read + AllReceived(left) == AllReceived(pairs)
      invariant good && left == [] ==> rest == ""
      decreases |text| - r.bp
    {
      ghost var s, bp := r.block[..], r.bp;
      if good {
        assert s[bp..] == rest + [NUL];
        assert left != [];
        HeaderStep(left, rest, s, bp);
      }
      var keyword, value, went := r.TGetRec();
      if !went {
        return read, false;
      }
      GetRecForward(s, bp);
      read := read + [Pair(keyword, value)];
      if good {
        ReceivedStep(read[..|read| - 1], left, pairs);
        left := TailPlain(left);
        rest := GetRec(s, bp).block[r.bp..|s| - 1];
        assert r.block[r.bp..] == r.block[..][r.bp..];
        HeaderLength(left, rest);
      }
    }
    if good {
      HeaderDone(left, rest);
    }
  }

  lemma GetRecForward(s: string, bp: nat)
    requires Ended(s) && bp < |s|
    ensures GetRec(s, bp).Got? ==> bp < GetRec(s, bp).next
  {
  }

  ghost function TailPlain(pairs: seq<Pair>): (t: seq<Pair>)
    requires pairs != []
    ensures t == pairs[1..] && (AllPlain(pairs) ==> AllPlain(t))
  {
    pairs[1..]
  }

  lemma ReceivedStep(read: seq<Pair>, left: seq<Pair>, pairs: seq<Pair>)
    requires left != [] && read + AllReceived(left) == AllReceived(pairs)
    ensures read + [Received(left[0])] + AllReceived(left[1..]) == AllReceived(pairs)
  {
  }

  lemma HeaderLength(pairs: seq<Pair>, text: string)
    ensures Header(pairs, text) && pairs == [] ==> text == ""
  {
  }

  lemma HeaderHasText(pairs: seq<Pair>, text: string)
    requires Header(pairs, text) && pairs != []
    ensures text != ""
  {
    forall d: nat ensures |Encoded(pairs[0], d)| > 0 {
      EncodedLong(pairs[0], d);
    }
  }

  lemma HeaderDone(pairs: seq<Pair>, text: string)
    ensures Header(pairs, text) && text == "" ==> pairs == [] && AllReceived(pairs) == []
  {
    if Header(pairs, text) && pairs != [] {
      HeaderHasText(pairs, text);
    }
  }

  lemma {:induction false} AllReceivedSame(pairs: seq<Pair>)
    ensures AllReceived(pairs) == pairs <==> forall p :: p in pairs ==> Survives(p)
  {
    hide Received, Survives;
    if pairs != [] {
      AllReceivedSame(pairs[1..]);
      ReceivedSame(pairs[0]);
      assert pairs == [pairs[0]] + pairs[1..];
      var r := AllReceived(pairs);
      assert r[0] == Received(pairs[0]) && r[1..] == AllReceived(pairs[1..]);
      assert forall p :: p in pairs <==> p == pairs[0] || p in pairs[1..];
    }
  }

  /** Written and read again, all pairs come back exactly if every one of them can. */
  method RoundTrip(pairs: seq<Pair>) returns (read: seq<Pair>, ok: bool)
    requires AllPlain(pairs)
    ensures ok && (read == pairs <==> forall p :: p in pairs ==> Survives(p))
  {
    hide Header, AllPlain, AllReceived, Survives;
    var text, out := WriteHeader(pairs);
    read, ok := ReadHeader(out[..|text|], pairs);
    AllReceivedSame(pairs);
  }
}
