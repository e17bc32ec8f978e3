/** What an LZW compressor makes of a text, and that it means that text. */
module UnshrinkSent {
  import opened Wrappers
  import opened Unshrink

  // ---- Any compressor ----

  /** Each code stands for a beginning of what is left of the text, in the dictionary that also has the entry
      made of the string before and the character that follows it; the dictionary may be cleared in between. */
  ghost predicate Shrinks(codes: seq<int>, text: seq<int>, dict: Dictionary, last: int, prev: int)
    requires Assigned(dict, prev)
    decreases |codes|
  {
    if codes == [] then text == []
    else if codes[0] == BOGUSCODE then
      && |codes| >= 2
      && if codes[1] == 2 then
           Assigned(Cleared(dict), prev) && Shrinks(codes[2..], text, Cleared(dict), BOGUSCODE, prev)
         else Shrinks(codes[2..], text, dict, last, prev)
    else
      && text != [] && FirstFree(dict, last + 1) < HSIZE
      && var f := FirstFree(dict, last + 1);
      var more := Entered(dict, f, prev, text[0]);
      && Assigned(more, codes[0]) && Str(more, codes[0]) != [] && Str(more, codes[0]) <= text
      && Shrinks(codes[1..], text[|Str(more, codes[0])|..], more, f, codes[0])
  }

  /** The decompressor, which has no entry yet for the code just sent, finds the same string. */
  lemma SameString(dict: Dictionary, f: int, prev: int, c: int, text: seq<int>)
    requires Assigned(dict, prev) && f !in dict && f >= 256 && text != [] && Str(dict, prev) != []
    requires
      var more := Entered(dict, f, prev, text[0]);
      Assigned(more, c) && Str(more, c) != [] && Str(more, c) <= text
    ensures
      var s := Str(Entered(dict, f, prev, text[0]), c);
      (Assigned(dict, c) || c == f) && Translation(dict, c, prev) == s && s[0] == text[0]
  {
    var s := Str(Entered(dict, f, prev, text[0]), c);
    assert s[0] == text[0];
    if !Assigned(dict, c) {
      assert s == Str(dict, prev) + [text[0]];
      assert s[0] == Str(dict, prev)[0];
    }
  }

  lemma {:induction false} ShrinksMeans(codes: seq<int>, text: seq<int>, dict: Dictionary, last: int, prev: int)
    requires Tree(dict) && Assigned(dict, prev) && BOGUSCODE <= last < HSIZE && Shrinks(codes, text, dict, last, prev)
    ensures Lzw(codes, dict, last, prev) == Some(text)
    decreases |codes|
  {
    hide Tree, Cleared, FirstFree, Entered, Translation, Str;
    if codes != [] && codes[0] == BOGUSCODE {
      if codes[1] == 2 {
        ClearedTree(dict);
        ShrinksMeans(codes[2..], text, Cleared(dict), BOGUSCODE, prev);
      } else {
        ShrinksMeans(codes[2..], text, dict, last, prev);
      }
    } else if codes != [] {
      var f := FirstFree(dict, last + 1);
      FreeAbove(dict, last + 1);
      StrSize(dict, prev);
      SameString(dict, f, prev, codes[0], text);
      EnteredTree(dict, f, prev, text[0]);
      var more := Entered(dict, f, prev, text[0]);
      var s := Str(more, codes[0]);
      ShrinksMeans(codes[1..], text[|s|..], more, f, codes[0]);
      assert s + text[|s|..] == text;
    }
  }

  lemma FreeAbove(dict: Dictionary, c: int)
    requires c <= HSIZE
    ensures c <= FirstFree(dict, c) && (FirstFree(dict, c) < HSIZE ==> FirstFree(dict, c) !in dict)
  {
  }

  /** Whatever codes a compressor makes of a text, longest matches or not, with partial clears or without. */
  lemma SentMeans(codes: seq<int>, text: seq<int>)
    requires codes != [] && text != [] && 0 <= text[0] < 256 && codes[0] == text[0]
    requires Shrinks(codes[1..], text[1..], map[], BOGUSCODE, text[0])
    ensures Meaning(codes) == Some(text)
  {
    hide Lzw;
    ShrinksMeans(codes[1..], text[1..], map[], BOGUSCODE, text[0]);
    assert [text[0]] + text[1..] == text;
  }

  // ---- The textbook compressor ----

  /** The longest beginning of the text, up to `k` characters, that is a single one or in the table. */
  function Longest(table: seq<seq<int>>, text: seq<int>, k: nat): (n: nat)
    requires 1 <= k <= |text|
    ensures 1 <= n <= k && (n == 1 || text[..n] in table)
  {
    if k == 1 || text[..k] in table then k else Longest(table, text, k - 1)
  }

  function IndexOf(table: seq<seq<int>>, w: seq<int>): (i: nat)
    requires w in table
    ensures i < |table| && table[i] == w
  {
    if table[0] == w then 0 else 1 + IndexOf(table[1..], w)
  }

  /** Single characters are their own codes; strings are numbered from 257 on as they are entered. */
  function CodeOf(table: seq<seq<int>>, w: seq<int>): int
    requires |w| == 1 || w in table
  {
    if |w| == 1 then w[0] else BOGUSCODE + 1 + IndexOf(table, w)
  }

  /** The table after a code has been sent. */
  function NextTable(table: seq<seq<int>>, text: seq<int>, n: nat): seq<seq<int>> {
    if n < |text| then table + [text[..n + 1]] else table
  }

  /** The longest string there is, and a new one that is a character longer. */
  function Shrunk(text: seq<int>, table: seq<seq<int>>): seq<int>
    decreases |text|
  {
    if text == [] then []
    else
      var n := Longest(table, text, |text|);
      [CodeOf(table, text[..n])] + Shrunk(text[n..], NextTable(table, text, n))
  }

  /** The first `n` strings of the table are in the dictionary, and nothing else is. */
  ghost predicate Tabled(dict: Dictionary, table: seq<seq<int>>, n: nat) {
    && n <= |table|
    && (forall c :: c in dict <==> BOGUSCODE < c <= BOGUSCODE + n)
    && (forall i :: 0 <= i < n ==> dict[BOGUSCODE + 1 + i].str == table[i])
  }

  lemma NextTabled(dict: Dictionary, table: seq<seq<int>>, n: nat, prev: int, ch: int)
    requires Tabled(dict, table, n) && n < |table| && Assigned(dict, prev) && table[n] == Str(dict, prev) + [ch]
    ensures Tabled(Entered(dict, BOGUSCODE + 1 + n, prev, ch), table, n + 1)
    ensures n < HSIZE - BOGUSCODE - 1 ==> FirstFree(dict, BOGUSCODE + 1 + n) == BOGUSCODE + 1 + n
  {
  }

  lemma TabledCode(dict: Dictionary, table: seq<seq<int>>, w: seq<int>)
    requires Tabled(dict, table, |table|) && (|w| == 1 || w in table) && (|w| == 1 ==> 0 <= w[0] < 256)
    ensures CodeOf(table, w) != BOGUSCODE && Assigned(dict, CodeOf(table, w)) && Str(dict, CodeOf(table, w)) == w
  {
  }

  lemma TableLonger(dict: Dictionary, table: seq<seq<int>>, w: seq<int>)
    requires Tabled(dict, table, |table|)
    ensures Tabled(dict, table + [w], |table|)
  {
  }

  lemma ShrunkStep(text: seq<int>, table: seq<seq<int>>)
    requires text != []
    ensures
      var n := Longest(table, text, |text|);
      Shrunk(text, table) == [CodeOf(table, text[..n])] + Shrunk(text[n..], NextTable(table, text, n))
  {
  }

  lemma ShrinksStep(c: int, later: seq<int>, w: seq<int>, rest: seq<int>, dict: Dictionary, last: int, prev: int,
                    f: int)
    requires Assigned(dict, prev) && f == FirstFree(dict, last + 1) < HSIZE && w != [] && c != BOGUSCODE
    requires
      var more := Entered(dict, f, prev, w[0]);
      Assigned(more, c) && Str(more, c) == w && Shrinks(later, rest, more, f, c)
    ensures Shrinks([c] + later, w + rest, dict, last, prev)
  {
    hide Entered, FirstFree, Str;
    assert ([c] + later)[1..] == later && (w + rest)[|w|..] == rest;
  }

  lemma {:induction false} ShrunkShrinks(text: seq<int>, table: seq<seq<int>>, dict: Dictionary, prev: int)
    requires forall i :: 0 <= i < |text| ==> 0 <= text[i] < 256
    requires text != [] ==>
      && table != [] && Tabled(dict, table, |table| - 1) && |table| + |text| <= HSIZE - BOGUSCODE
      && Assigned(dict, prev) && table[|table| - 1] == Str(dict, prev) + [text[0]]
    requires Assigned(dict, prev)
    ensures Shrinks(Shrunk(text, table), text, dict, BOGUSCODE + |table| - 1, prev)
    decreases |text|
  {
    hide Tabled, Entered, FirstFree, Str, CodeOf, Longest, Shrinks, Shrunk;
    if text == [] {
      NothingLeft(table, dict, prev);
    } else {
      var n := Longest(table, text, |text|);
      var w, rest := text[..n], text[n..];
      var f := BOGUSCODE + |table|;
      NextTabled(dict, table, |table| - 1, prev, text[0]);
      var more := Entered(dict, f, prev, text[0]);
      TabledCode(more, table, w);
      var c, table' := CodeOf(table, w), NextTable(table, text, n);
      if rest != [] {
        TableLonger(more, table, text[..n + 1]);
        assert text[..n + 1] == w + [rest[0]];
        ShrunkShrinks(rest, table', more, c);
      } else {
        NothingLeft(table + [w], more, c);
        NothingShrunk(table');
        NothingShrunk(table + [w]);
      }
      ShrunkStep(text, table);
      assert w + rest == text;
      ShrinksStep(c, Shrunk(rest, table'), w, rest, dict, f - 1, prev, f);
    }
  }

  lemma NothingLeft(table: seq<seq<int>>, dict: Dictionary, prev: int)
    requires Assigned(dict, prev)
    ensures Shrinks(Shrunk([], table), [], dict, BOGUSCODE + |table| - 1, prev)
  {
  }

  lemma NothingShrunk(table: seq<seq<int>>)
    ensures Shrunk([], table) == [] && Meaning([]) == Some([])
  {
  }

  /** The table before the second code. */
  function FirstTable(text: seq<int>): seq<seq<int>>
    requires text != []
  {
    if |text| > 1 then [text[..2]] else []
  }

  lemma FirstCode(text: seq<int>)
    requires text != []
    ensures Shrunk(text, []) == [text[0]] + Shrunk(text[1..], FirstTable(text))
  {
    var n := Longest([], text, |text|);
    assert n == 1 && text[..1] == [text[0]];
    assert NextTable([], text, 1) == FirstTable(text);
  }

  lemma NothingTabled(text: seq<int>)
    requires |text| > 1 && 0 <= text[0] < 256
    ensures
      var table := FirstTable(text);
      Tabled(map[], table, |table| - 1) && table[|table| - 1] == Str(map[], text[0]) + [text[1..][0]]
  {
    assert text[..2] == [text[0]] + [text[1]];
  }

  /** Every text of up to 7935 characters is the meaning of what the compressor makes of it. */
  lemma ShrunkMeans(text: seq<int>)
    requires |text| <= HSIZE - BOGUSCODE - 1 && forall i :: 0 <= i < |text| ==> 0 <= text[i] < 256
    ensures Meaning(Shrunk(text, [])) == Some(text)
  {
    hide Shrunk, Shrinks, Tabled, Str, Meaning;
    if text == [] {
      NothingShrunk([]);
    } else {
      FirstCode(text);
      var codes, later := Shrunk(text, []), Shrunk(text[1..], FirstTable(text));
      assert codes[0] == text[0] && codes[1..] == later;
      if |text| > 1 {
        NothingTabled(text);
        ShrunkShrinks(text[1..], FirstTable(text), map[], text[0]);
      } else {
        ShrunkShrinks(text[1..], [], map[], text[0]);
        LastShrinks(later, text[1..], text[0]);
      }
      SentMeans(codes, text);
    }
  }

  lemma LastShrinks(codes: seq<int>, text: seq<int>, prev: int)
    requires 0 <= prev < 256 && text == [] && codes == Shrunk(text, [])
    ensures Shrinks(codes, text, map[], BOGUSCODE, prev)
  {
  }
}
