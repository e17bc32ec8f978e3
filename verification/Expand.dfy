/** `expand` and `unexpand` with a uniform tab stop: the second never changes what the first shows. */
module Expand {
  import opened Arith

  const BACKSPACE: char := 8 as char

  function Spaces(n: nat): string {
    seq(n, i => ' ')
  }

  /** Columns from `col` to the next tab stop, at least one. */
  function ToStop(tabstop: nat, col: nat): (n: nat)
    requires tabstop >= 1
    ensures 1 <= n <= tabstop
  {
    tabstop - col % tabstop
  }

  /** What one character shows at column `col`. */
  function Shown(tabstop: nat, col: nat, c: char): string
    requires tabstop >= 1
  {
    if c == '\t' then Spaces(ToStop(tabstop, col)) else [c]
  }

  /** The column after it. */
  function After(tabstop: nat, col: nat, c: char): nat
    requires tabstop >= 1
  {
    if c == '\n' then 0
    else if c == BACKSPACE then if col > 0 then col - 1 else 0
    else if c == '\t' then col + ToStop(tabstop, col)
    else col + 1
  }

  function Column(tabstop: nat, s: string): nat
    requires tabstop >= 1
  {
    if s == "" then 0 else After(tabstop, Column(tabstop, s[..|s| - 1]), s[|s| - 1])
  }

  /** The text with its tabs shown as spaces. */
  function Expanded(tabstop: nat, s: string): string
    requires tabstop >= 1
  {
    if s == "" then ""
    else Expanded(tabstop, s[..|s| - 1]) + Shown(tabstop, Column(tabstop, s[..|s| - 1]), s[|s| - 1])
  }

  lemma OneMore(tabstop: nat, s: string, c: char)
    requires tabstop >= 1
    ensures Column(tabstop, s + [c]) == After(tabstop, Column(tabstop, s), c)
    ensures Expanded(tabstop, s + [c]) == Expanded(tabstop, s) + Shown(tabstop, Column(tabstop, s), c)
  {
    assert (s + [c])[..|s|] == s;
  }

  lemma StopReached(tabstop: nat, col: nat, k: nat)
    requires tabstop >= 1 && 1 <= k <= ToStop(tabstop, col)
    ensures (col + k) % tabstop == 0 <==> k == ToStop(tabstop, col)
  {
    DivModBasics(col, tabstop);
    if k == ToStop(tabstop, col) {
      MulAdd(col / tabstop, 1, tabstop);
      DivModUnique(col + k, tabstop, col / tabstop + 1, 0);
    } else {
      DivModUnique(col + k, tabstop, col / tabstop, col % tabstop + k);
    }
  }

  /** The column moves on to a tab stop, past the one it may stand on. */
  method MoveToStop(tabstop: nat, col0: nat) returns (col: nat, out: string)
    requires tabstop >= 1
    ensures col == col0 + ToStop(tabstop, col0) && out == Spaces(ToStop(tabstop, col0))
  {
    col, out := col0, "";
    if col % tabstop == 0 {
      out := out + [' '];
      col := col + 1;
    }
    if col == col0 + 1 {
      StopReached(tabstop, col0, 1);
    }
    while col % tabstop != 0
      invariant col0 <= col <= col0 + ToStop(tabstop, col0) && out == Spaces(col - col0)
      invariant col == col0 ==> col % tabstop != 0
      invariant col % tabstop == 0 <==> col == col0 + ToStop(tabstop, col0)
      decreases col0 + ToStop(tabstop, col0) - col
    {
      StopReached(tabstop, col0, col + 1 - col0);
      out := out + [' '];
      col := col + 1;
    }
  }

  method Expand(tabstop: nat, s: string) returns (out: string)
    requires tabstop >= 1
    ensures out == Expanded(tabstop, s)
  {
    hide Expanded, Column;
    out := "";
    var col := 0;
    Nothing(tabstop);
    assert s[..0] == "";
    for i := 0 to |s|
      invariant out == Expanded(tabstop, s[..i]) && col == Column(tabstop, s[..i])
    {
      var c := s[i];
      OneMore(tabstop, s[..i], c);
      assert s[..i + 1] == s[..i] + [c];
      if c == '\t' {
        var blanks;
        col, blanks := MoveToStop(tabstop, col);
        out := out + blanks;
      } else {
        if c == '\n' {
          col := 0;
        } else if c == BACKSPACE {
          if col > 0 {
            col := col - 1;
          }
        } else {
          col := col + 1;
        }
        out := out + [c];
      }
    }
    assert s[..|s|] == s;
  }

  lemma Nothing(tabstop: nat)
    requires tabstop >= 1
    ensures Expanded(tabstop, "") == "" && Column(tabstop, "") == 0
  {
  }

  // ---- unexpand ----

  /** Written characters and `spc` pending spaces show what has been read. */
  ghost predicate Pending(tabstop: nat, read: string, out: string, col: nat, spc: nat)
    requires tabstop >= 1
  {
    && col == Column(tabstop, out) && Column(tabstop, read) == col + spc
    && Expanded(tabstop, read) == Expanded(tabstop, out) + Spaces(spc)
    && |out| + spc <= |read|
  }

  lemma SpacesAdd(a: nat, b: nat)
    ensures Spaces(a) + Spaces(b) == Spaces(a + b)
  {
  }

  /** A tab, or a single space, takes the place of the spaces before the next stop. */
  lemma PutTab(tabstop: nat, read: string, out: string, col: nat, spc: nat, c: char)
    requires tabstop >= 1 && Pending(tabstop, read, out, col, spc) && spc >= ToStop(tabstop, col)
    requires c == '\t' || (c == ' ' && ToStop(tabstop, col) == 1)
    ensures Pending(tabstop, read, out + [c], col + ToStop(tabstop, col), spc - ToStop(tabstop, col))
  {
    hide Expanded, Column;
    OneMore(tabstop, out, c);
    SpacesAdd(ToStop(tabstop, col), spc - ToStop(tabstop, col));
    assert Shown(tabstop, col, c) == Spaces(ToStop(tabstop, col));
    assert Expanded(tabstop, out) + (Spaces(ToStop(tabstop, col)) + Spaces(spc - ToStop(tabstop, col)))
        == Expanded(tabstop, out) + Spaces(ToStop(tabstop, col)) + Spaces(spc - ToStop(tabstop, col));
  }

  lemma PutSpace(tabstop: nat, read: string, out: string, col: nat, spc: nat)
    requires tabstop >= 1 && Pending(tabstop, read, out, col, spc) && spc > 0
    ensures Pending(tabstop, read, out + [' '], col + 1, spc - 1)
  {
    hide Expanded, Column;
    OneMore(tabstop, out, ' ');
    SpacesAdd(1, spc - 1);
    assert Shown(tabstop, col, ' ') == Spaces(1);
    assert Expanded(tabstop, out) + (Spaces(1) + Spaces(spc - 1)) == Expanded(tabstop, out) + Spaces(1)
        + Spaces(spc - 1);
  }

  // ---- What is written for blanks ----

  function Tabs(n: nat): string {
    seq(n, i => '\t')
  }

  /** Tab stops passed or reached by `n` blanks from column `col` on. */
  function Stops(tabstop: nat, col: nat, n: nat): (t: nat)
    requires tabstop >= 1
  {
    StopsGrow(tabstop, col, n);
    (col + n) / tabstop - col / tabstop
  }

  lemma StopsGrow(tabstop: nat, col: nat, n: nat)
    requires tabstop >= 1
    ensures (col + n) / tabstop >= col / tabstop
  {
    DivModBasics(col, tabstop);
    DivModBasics(col + n, tabstop);
    if (col + n) / tabstop < col / tabstop {
      MulMono((col + n) / tabstop + 1, col / tabstop, tabstop);
      MulAdd((col + n) / tabstop, 1, tabstop);
    }
  }

  /** A blank stays a blank where a tab would stand for this one only and nothing follows, but for the start of
      a line. */
  predicate Alone(tabstop: nat, col: nat, n: nat)
    requires tabstop >= 1
  {
    col > 0 && n > 0 && (col + n) % tabstop == 0 && (n == 1 || tabstop == 1)
  }

  /** A run of `n` blanks from column `col` on: a tab for each stop, and blanks behind the last one. */
  function Tabbed(tabstop: nat, col: nat, n: nat): string
    requires tabstop >= 1
  {
    var t := Stops(tabstop, col, n);
    if t == 0 then Spaces(n)
    else if Alone(tabstop, col, n) then Tabs(t - 1) + " "
    else Tabs(t) + Spaces((col + n) % tabstop)
  }

  /** One more stop is reached. */
  lemma NextStop(tabstop: nat, col: nat)
    requires tabstop >= 1
    ensures (col + ToStop(tabstop, col)) / tabstop == col / tabstop + 1 && (col + ToStop(tabstop, col)) % tabstop == 0
  {
    DivModBasics(col, tabstop);
    MulAdd(col / tabstop, 1, tabstop);
    DivModUnique(col + ToStop(tabstop, col), tabstop, col / tabstop + 1, 0);
  }

  lemma NoStop(tabstop: nat, col: nat, n: nat)
    requires tabstop >= 1 && n < ToStop(tabstop, col)
    ensures (col + n) / tabstop == col / tabstop && (col + n) % tabstop == col % tabstop + n
  {
    DivModBasics(col, tabstop);
    DivModUnique(col + n, tabstop, col / tabstop, col % tabstop + n);
  }

  /** What `spaces` has written when it stands at column `col`, `n` blanks from where it began. */
  ghost predicate Tabbing(tabstop: nat, col0: nat, n: nat, col: nat, written: string)
    requires tabstop >= 1
  {
    && col0 <= col <= col0 + n && (col == col0 || col % tabstop == 0)
    && var t := Stops(tabstop, col0, col - col0);
    written == if t > 0 && col == col0 + n && Alone(tabstop, col0, n) then Tabs(t - 1) + " " else Tabs(t)
  }

  lemma TabbingStep(tabstop: nat, col0: nat, n: nat, col: nat, written: string, c: char)
    requires tabstop >= 1 && Tabbing(tabstop, col0, n, col, written) && col0 + n - col >= ToStop(tabstop, col)
    requires c == if col0 + n - col == 1 && col0 > 0 then ' ' else '\t'
    ensures Tabbing(tabstop, col0, n, col + ToStop(tabstop, col), written + [c])
  {
    NextStop(tabstop, col);
    StopsGrow(tabstop, col0, col - col0);
    var t := Stops(tabstop, col0, col - col0);
    assert Stops(tabstop, col0, col + ToStop(tabstop, col) - col0) == t + 1;
    assert Tabs(t + 1) == Tabs(t) + ['\t'];
    assert " " == [' '];
    if c == ' ' {
      assert ToStop(tabstop, col) == 1 && col + 1 == col0 + n;
    }
  }

  lemma TabbingEnds(tabstop: nat, col0: nat, n: nat, col: nat, written: string)
    requires tabstop >= 1 && Tabbing(tabstop, col0, n, col, written) && col0 + n - col < ToStop(tabstop, col)
    ensures written + Spaces(col0 + n - col) == Tabbed(tabstop, col0, n)
  {
    NoStop(tabstop, col, col0 + n - col);
    var t := Stops(tabstop, col0, col - col0);
    assert Stops(tabstop, col0, n) == t;
    assert Tabs(0) == "" && Spaces(0) == "";
    if t == 0 && col != col0 {
      LaterStop(tabstop, col0, col);
    }
    if t > 0 {
      assert col != col0;
    }
  }

  /** At a stop behind it another one has been reached. */
  lemma LaterStop(tabstop: nat, col0: nat, col: nat)
    requires tabstop >= 1 && col0 < col && col % tabstop == 0
    ensures col / tabstop > col0 / tabstop
  {
    DivModBasics(col0, tabstop);
    DivModBasics(col, tabstop);
    if col / tabstop <= col0 / tabstop {
      MulMono(col / tabstop, col0 / tabstop, tabstop);
    }
  }

  /** `spaces` for a uniform tab stop. */
  method PutSpaces(tabstop: nat, spc0: nat, col0: nat, out0: string, ghost read: string) returns (col: nat, out: string)
    requires tabstop >= 1 && Pending(tabstop, read, out0, col0, spc0)
    ensures Pending(tabstop, read, out, col, 0) && col == col0 + spc0
    ensures out == out0 + Tabbed(tabstop, col0, spc0)
  {
    hide Pending, ToStop, Tabbing, Tabbed;
    var bol := col0 == 0;
    var spc: nat := spc0;
    col, out := col0, out0;
    ghost var written := "";
    TabbingStarts(tabstop, col0, spc0);
    assert out0 + "" == out0;
    var nsp := ToStop(tabstop, col);
    while spc >= nsp
      invariant Pending(tabstop, read, out, col, spc) && col + spc == col0 + spc0 && nsp == ToStop(tabstop, col)
      invariant out == out0 + written && Tabbing(tabstop, col0, spc0, col, written)
      decreases spc
    {
      var c := if spc == 1 && !bol then ' ' else '\t';
      PutTab(tabstop, read, out, col, spc, c);
      TabbingStep(tabstop, col0, spc0, col, written, c);
      out := out + [c];
      written := written + [c];
      spc, col := spc - nsp, col + nsp;
      nsp := ToStop(tabstop, col);
    }
    TabbingEnds(tabstop, col0, spc0, col, written);
    ghost var col1 := col;
    assert written + Spaces(0) == written;
    while spc > 0
      invariant Pending(tabstop, read, out, col, spc) && col + spc == col0 + spc0 && col >= col1
      invariant out == out0 + (written + Spaces(col - col1))
    {
      PutSpace(tabstop, read, out, col, spc);
      assert Spaces(col - col1) + [' '] == Spaces(col + 1 - col1);
      assert out + [' '] == out0 + (written + (Spaces(col - col1) + [' ']));
      out := out + [' '];
      col, spc := col + 1, spc - 1;
    }
  }

  lemma TabbingStarts(tabstop: nat, col: nat, n: nat)
    requires tabstop >= 1
    ensures Tabbing(tabstop, col, n, col, "")
  {
    assert Tabs(0) == "";
  }

  /** Blanks at the end. */
  function Trailing(s: string): (n: nat)
    ensures n <= |s|
  {
    if s == "" || s[|s| - 1] != ' ' then 0 else Trailing(s[..|s| - 1]) + 1
  }

  /** What `unexpand` writes: every run of blanks anew, or only those that begin a line. */
  function Retabbed(tabstop: nat, aflag: bool, s: string): string
    requires tabstop >= 1
    decreases |s|, 1
  {
    var n := Trailing(s);
    var head := s[..|s| - n];
    Kept(tabstop, aflag, head) + Run(tabstop, aflag, head, n)
  }

  /** Up to a character that is no blank. */
  function Kept(tabstop: nat, aflag: bool, head: string): string
    requires tabstop >= 1
    decreases |head|, 0
  {
    if head == "" then "" else Retabbed(tabstop, aflag, head[..|head| - 1]) + [head[|head| - 1]]
  }

  function Run(tabstop: nat, aflag: bool, head: string, n: nat): string
    requires tabstop >= 1
  {
    if aflag || Column(tabstop, head) == 0 then Tabbed(tabstop, Column(tabstop, head), n) else Spaces(n)
  }

  lemma {:induction false} TrailingIs(head: string, n: nat)
    requires head != "" ==> head[|head| - 1] != ' '
    ensures Trailing(head + Spaces(n)) == n
  {
    var s := head + Spaces(n);
    if n == 0 {
      assert s == head;
    } else {
      TrailingIs(head, n - 1);
      assert s[..|s| - 1] == head + Spaces(n - 1);
    }
  }

  /** Where a run ends is determined by the text. */
  lemma RunIs(tabstop: nat, aflag: bool, head: string, n: nat)
    requires tabstop >= 1 && (head != "" ==> head[|head| - 1] != ' ')
    ensures Retabbed(tabstop, aflag, head + Spaces(n)) == Kept(tabstop, aflag, head) + Run(tabstop, aflag, head, n)
  {
    TrailingIs(head, n);
    var s := head + Spaces(n);
    assert s[..|s| - n] == head;
  }

  lemma HoldSpace(tabstop: nat, read: string, out: string, col: nat, spc: nat)
    requires tabstop >= 1 && Pending(tabstop, read, out, col, spc)
    ensures Pending(tabstop, read + [' '], out, col, spc + 1)
  {
    hide Expanded, Column;
    OneMore(tabstop, read, ' ');
    SpacesAdd(spc, 1);
    assert Shown(tabstop, col + spc, ' ') == Spaces(1);
    assert Expanded(tabstop, out) + (Spaces(spc) + Spaces(1)) == Expanded(tabstop, out) + Spaces(spc) + Spaces(1);
  }

  lemma PutOther(tabstop: nat, read: string, out: string, col: nat, c: char)
    requires tabstop >= 1 && Pending(tabstop, read, out, col, 0)
    ensures Pending(tabstop, read + [c], out + [c], After(tabstop, col, c), 0)
  {
    hide Expanded, Column;
    OneMore(tabstop, read, c);
    OneMore(tabstop, out, c);
    assert Spaces(0) == "";
    assert Expanded(tabstop, out) + Spaces(0) == Expanded(tabstop, out);
    assert Expanded(tabstop, out + [c]) + Spaces(0) == Expanded(tabstop, out + [c]);
  }

  /** Read are `head` and `n` blanks; these are held back if they are to be written anew. */
  ghost predicate Flushed(tabstop: nat, aflag: bool, head: string, n: nat, out: string, col: nat, spc: nat)
    requires tabstop >= 1
  {
    && (head != "" ==> head[|head| - 1] != ' ')
    && if aflag || Column(tabstop, head) == 0 then
         spc == n && out == Kept(tabstop, aflag, head) && col == Column(tabstop, head)
       else
         spc == 0 && out == Kept(tabstop, aflag, head) + Spaces(n) && col == Column(tabstop, head) + n
  }

  lemma FlushBlank(tabstop: nat, aflag: bool, head: string, n: nat, out: string, col: nat, spc: nat)
    requires tabstop >= 1 && Flushed(tabstop, aflag, head, n, out, col, spc)
    ensures
      if col == 0 || aflag then Flushed(tabstop, aflag, head, n + 1, out, col, spc + 1)
      else spc == 0 && Flushed(tabstop, aflag, head, n + 1, out + [' '], col + 1, 0)
  {
    hide Column, Kept;
    assert Spaces(n + 1) == Spaces(n) + [' '];
  }

  /** With the blanks that were held back written, all is. */
  lemma FlushRun(tabstop: nat, aflag: bool, head: string, n: nat, out: string, col: nat, spc: nat)
    requires tabstop >= 1 && Flushed(tabstop, aflag, head, n, out, col, spc)
    ensures Retabbed(tabstop, aflag, head + Spaces(n))
        == if spc > 0 then out + Tabbed(tabstop, col, spc) else out
    ensures spc > 0 ==> col == 0 || aflag
  {
    hide Column, Kept, Retabbed;
    RunIs(tabstop, aflag, head, n);
    if spc == 0 && (aflag || Column(tabstop, head) == 0) {
      assert Spaces(0) == "" && (col + 0) / tabstop == col / tabstop;
      assert Kept(tabstop, aflag, head) + "" == Kept(tabstop, aflag, head);
    }
  }

  lemma FlushOther(tabstop: nat, aflag: bool, read: string, c: char)
    requires tabstop >= 1 && c != ' '
    ensures
      Flushed(tabstop, aflag, read + [c], 0, Retabbed(tabstop, aflag, read) + [c], Column(tabstop, read + [c]), 0)
  {
    hide Column, Retabbed;
    assert (read + [c])[..|read|] == read;
    var kept := Kept(tabstop, aflag, read + [c]);
    assert kept + Spaces(0) == kept;
  }

  /** `unexpand`, with or without `-a`: what it writes shows the same text and is no longer; with `-a` nothing
      shorter shows it, if there were no tabs yet. */
  method Unexpand(tabstop: nat, aflag: bool, s: string) returns (out: string)
    requires tabstop >= 1
    ensures out == Retabbed(tabstop, aflag, s)
    ensures Expanded(tabstop, out) == Expanded(tabstop, s)
    ensures |out| <= |s|
    ensures aflag && '\t' !in s ==>
      forall x {:trigger Expanded(tabstop, x)} :: Expanded(tabstop, x) == Expanded(tabstop, s) ==> |out| <= |x|
  {
    hide Pending, Expanded, Column, ToStop, Flushed, Retabbed, Tabbed;
    out := "";
    var col, spc: nat := 0, 0;
    ghost var head, n := "", 0;
    PendingNothing(tabstop);
    FlushNothing(tabstop, aflag);
    assert s[..0] == "" == "" + Spaces(0);
    for i := 0 to |s|
      invariant Pending(tabstop, s[..i], out, col, spc)
      invariant s[..i] == head + Spaces(n) && Flushed(tabstop, aflag, head, n, out, col, spc)
    {
      var c := s[i];
      assert s[..i + 1] == s[..i] + [c];
      FlushRun(tabstop, aflag, head, n, out, col, spc);
      if c == ' ' && (col == 0 || aflag) {
        HoldSpace(tabstop, s[..i], out, col, spc);
        FlushBlank(tabstop, aflag, head, n, out, col, spc);
        assert Spaces(n + 1) == Spaces(n) + [' '];
        spc := spc + 1;
        n := n + 1;
      } else {
        if c == ' ' {
          FlushBlank(tabstop, aflag, head, n, out, col, spc);
          assert Spaces(n + 1) == Spaces(n) + [' '];
        }
        if spc > 0 && (col == 0 || aflag) {
          col, out := PutSpaces(tabstop, spc, col, out, s[..i]);
          spc := 0;
        }
        PutOther(tabstop, s[..i], out, col, c);
        if c == '\n' {
          col := 0;
        } else if c == BACKSPACE {
          if col > 0 {
            col := col - 1;
          }
        } else if c == '\t' {
          var blanks;
          col, blanks := MoveToStop(tabstop, col);
        } else {
          col := col + 1;
        }
        out := out + [c];
        if c == ' ' {
          n := n + 1;
        } else {
          FlushOther(tabstop, aflag, s[..i], c);
          ColumnRead(tabstop, s[..i + 1], out, col);
          head, n := s[..i + 1], 0;
          assert head + Spaces(0) == head;
        }
      }
    }
    assert s[..|s|] == s;
    FlushRun(tabstop, aflag, head, n, out, col, spc);
    if spc > 0 && (col == 0 || aflag) {
      col, out := PutSpaces(tabstop, spc, col, out, s);
    }
    PendingDone(tabstop, s, out, col);
    if aflag && '\t' !in s {
      forall x {:trigger Expanded(tabstop, x)} | Expanded(tabstop, x) == Expanded(tabstop, s) ensures |out| <= |x| {
        RetabbedShortest(tabstop, s, x);
      }
    }
  }

  lemma FlushNothing(tabstop: nat, aflag: bool)
    requires tabstop >= 1
    ensures Flushed(tabstop, aflag, "", 0, "", 0, 0)
  {
    assert Spaces(0) == "";
  }

  lemma ColumnRead(tabstop: nat, read: string, out: string, col: nat)
    requires tabstop >= 1 && Pending(tabstop, read, out, col, 0)
    ensures col == Column(tabstop, read)
  {
  }

  lemma PendingNothing(tabstop: nat)
    requires tabstop >= 1
    ensures Pending(tabstop, "", "", 0, 0)
  {
  }

  lemma PendingDone(tabstop: nat, read: string, out: string, col: nat)
    requires tabstop >= 1 && Pending(tabstop, read, out, col, 0)
    ensures Expanded(tabstop, out) == Expanded(tabstop, read) && |out| <= |read|
  {
    assert Spaces(0) == "";
  }

  // ---- Consequences ----

  /** Spaces move the column as a tab would. */
  lemma {:induction false} AppendSpaces(tabstop: nat, s: string, n: nat)
    requires tabstop >= 1
    ensures Column(tabstop, s + Spaces(n)) == Column(tabstop, s) + n
    ensures Expanded(tabstop, s + Spaces(n)) == Expanded(tabstop, s) + Spaces(n)
  {
    hide Expanded, Column;
    if n == 0 {
      assert s + Spaces(0) == s;
    } else {
      AppendSpaces(tabstop, s, n - 1);
      assert s + Spaces(n) == (s + Spaces(n - 1)) + [' '];
      OneMore(tabstop, s + Spaces(n - 1), ' ');
      SpacesAdd(n - 1, 1);
      assert Expanded(tabstop, s) + Spaces(n - 1) + Spaces(1) == Expanded(tabstop, s) + (Spaces(n - 1) + Spaces(1));
      assert [' '] == Spaces(1);
    }
  }

  /** Expanding leaves no tab, keeps the column, and a second time changes nothing. */
  lemma {:induction false} ExpandedStays(tabstop: nat, s: string)
    requires tabstop >= 1
    ensures '\t' !in Expanded(tabstop, s)
    ensures Column(tabstop, Expanded(tabstop, s)) == Column(tabstop, s)
    ensures Expanded(tabstop, Expanded(tabstop, s)) == Expanded(tabstop, s)
  {
    hide Expanded, Column;
    if s == "" {
      Nothing(tabstop);
    } else {
      var front, c := s[..|s| - 1], s[|s| - 1];
      assert s == front + [c];
      OneMore(tabstop, front, c);
      ExpandedStays(tabstop, front);
      var e, col := Expanded(tabstop, front), Column(tabstop, front);
      if c == '\t' {
        AppendSpaces(tabstop, e, ToStop(tabstop, col));
      } else {
        OneMore(tabstop, e, c);
      }
    }
  }

  // ---- What is written is the shortest text that shows the same ----

  function TabbedSize(tabstop: nat, col: nat, n: nat): nat
    requires tabstop >= 1
  {
    var t := Stops(tabstop, col, n);
    if t == 0 then n else t + (col + n) % tabstop
  }

  lemma TabbedLength(tabstop: nat, col: nat, n: nat)
    requires tabstop >= 1
    ensures |Tabbed(tabstop, col, n)| == TabbedSize(tabstop, col, n)
  {
  }

  /** Blanks up to the next stop, or one more, lengthen a run by one character at most. */
  lemma OneMoreCell(tabstop: nat, col: nat, n: nat, k: nat)
    requires tabstop >= 1 && (k == ToStop(tabstop, col + n) || k == 1)
    ensures TabbedSize(tabstop, col, n + k) <= TabbedSize(tabstop, col, n) + 1
  {
    StopsGrow(tabstop, col, n);
    if k == ToStop(tabstop, col + n) {
      NextStop(tabstop, col + n);
    } else {
      NoStop(tabstop, col + n, k);
    }
    assert (col + n) + k == col + (n + k);
  }

  lemma SplitRun(s: string) returns (head: string, n: nat)
    ensures s == head + Spaces(n) && (head != "" ==> head[|head| - 1] != ' ')
    decreases |s|
  {
    if s == "" || s[|s| - 1] != ' ' {
      head, n := s, 0;
      assert Spaces(0) == "";
    } else {
      head, n := SplitRun(s[..|s| - 1]);
      assert Spaces(n + 1) == Spaces(n) + [' '];
      assert s == s[..|s| - 1] + [' '];
      n := n + 1;
    }
  }

  lemma RunSize(tabstop: nat, head: string, n: nat)
    requires tabstop >= 1 && (head != "" ==> head[|head| - 1] != ' ')
    ensures |Retabbed(tabstop, true, head + Spaces(n))|
        == |Kept(tabstop, true, head)| + TabbedSize(tabstop, Column(tabstop, head), n)
  {
    hide Column, Retabbed, Tabbed, TabbedSize;
    RunIs(tabstop, true, head, n);
    TabbedLength(tabstop, Column(tabstop, head), n);
  }

  lemma JoinRun(head: string, n: nat, k: nat)
    ensures head + Spaces(n) + Spaces(k) == head + Spaces(n + k)
  {
  }

  /** A last character that shows as blanks. */
  lemma ShorterRun(tabstop: nat, e: string, k: nat)
    requires tabstop >= 1 && (k == ToStop(tabstop, Column(tabstop, e)) || k == 1)
    ensures |Retabbed(tabstop, true, e + Spaces(k))| <= |Retabbed(tabstop, true, e)| + 1
  {
    hide Column, Retabbed, Tabbed, ToStop, TabbedSize, Kept;
    var head, n := SplitRun(e);
    JoinRun(head, n, k);
    hide Spaces;
    RunSize(tabstop, head, n);
    RunSize(tabstop, head, n + k);
    AppendSpaces(tabstop, head, n);
    OneMoreCell(tabstop, Column(tabstop, head), n, k);
  }

  /** Whatever shows a text has at least as many characters as `unexpand -a` makes of it. */
  lemma {:induction false} Shortest(tabstop: nat, x: string)
    requires tabstop >= 1
    ensures |Retabbed(tabstop, true, Expanded(tabstop, x))| <= |x|
  {
    hide Column, Retabbed, Expanded;
    if x == "" {
      Nothing(tabstop);
      RetabbedNothing(tabstop, true);
    } else {
      var front, c := x[..|x| - 1], x[|x| - 1];
      assert x == front + [c];
      OneMore(tabstop, front, c);
      Shortest(tabstop, front);
      ExpandedStays(tabstop, front);
      var e := Expanded(tabstop, front);
      if c == '\t' {
        ShorterRun(tabstop, e, ToStop(tabstop, Column(tabstop, e)));
      } else if c == ' ' {
        assert [' '] == Spaces(1);
        ShorterRun(tabstop, e, 1);
      } else {
        RetabbedOther(tabstop, true, e, c);
      }
    }
  }

  lemma RetabbedNothing(tabstop: nat, aflag: bool)
    requires tabstop >= 1
    ensures Retabbed(tabstop, aflag, "") == ""
  {
    assert Spaces(0) == "" && Trailing("") == 0 && ""[..0] == "";
    assert Tabbed(tabstop, 0, 0) == "";
  }

  lemma RetabbedOther(tabstop: nat, aflag: bool, s: string, c: char)
    requires tabstop >= 1 && c != ' '
    ensures Retabbed(tabstop, aflag, s + [c]) == Retabbed(tabstop, aflag, s) + [c]
  {
    hide Column, Tabbed;
    var more := s + [c];
    assert more + Spaces(0) == more && more[..|s|] == s;
    RunIs(tabstop, aflag, more, 0);
    NoRun(tabstop, aflag, more);
  }

  lemma NoRun(tabstop: nat, aflag: bool, head: string)
    requires tabstop >= 1
    ensures Run(tabstop, aflag, head, 0) == ""
  {
    var col := Column(tabstop, head);
    assert (col + 0) / tabstop == col / tabstop;
  }

  /** Text without tabs shows itself. */
  lemma {:induction false} NoTabs(tabstop: nat, s: string)
    requires tabstop >= 1 && '\t' !in s
    ensures Expanded(tabstop, s) == s
  {
    if s != "" {
      NoTabs(tabstop, s[..|s| - 1]);
    }
  }

  /** So `unexpand -a` makes a text without tabs as short as it can be. */
  lemma RetabbedShortest(tabstop: nat, s: string, x: string)
    requires tabstop >= 1 && '\t' !in s && Expanded(tabstop, x) == Expanded(tabstop, s)
    ensures |Retabbed(tabstop, true, s)| <= |x|
  {
    NoTabs(tabstop, s);
    Shortest(tabstop, x);
  }

  // ---- Lines ----

  /** Without `-a`, only the blanks a line begins with are written anew. */
  lemma {:induction false} LineRetabbed(tabstop: nat, n: nat, rest: string)
    requires tabstop >= 1 && '\n' !in rest && BACKSPACE !in rest && (rest != "" ==> rest[0] != ' ')
    ensures Retabbed(tabstop, false, Spaces(n) + rest) == Tabs(n / tabstop) + Spaces(n % tabstop) + rest
    decreases |rest|
  {
    hide Column, Retabbed, Tabbed;
    var lead := Tabs(n / tabstop) + Spaces(n % tabstop);
    if rest == "" {
      assert "" + Spaces(n) == Spaces(n) + rest;
      RunIs(tabstop, false, "", n);
      LeadingRun(tabstop, n);
    } else if rest[|rest| - 1] != ' ' {
      var front, c := rest[..|rest| - 1], rest[|rest| - 1];
      LineRetabbed(tabstop, n, front);
      assert Spaces(n) + rest == (Spaces(n) + front) + [c];
      RetabbedOther(tabstop, false, Spaces(n) + front, c);
    } else {
      var head, k := SplitRun(rest);
      InnerHead(rest, head, k);
      LineRetabbed(tabstop, n, head);
      var line := Spaces(n) + head;
      assert line + Spaces(k) == Spaces(n) + rest;
      assert line + Spaces(0) == line;
      RunIs(tabstop, false, line, 0);
      NoRun(tabstop, false, line);
      RunIs(tabstop, false, line, k);
      ColumnRuns(tabstop, n, head);
      assert Kept(tabstop, false, line) == Retabbed(tabstop, false, line) == lead + head;
      assert lead + head + Spaces(k) == lead + rest;
    }
  }

  lemma InnerHead(rest: string, head: string, k: nat)
    requires rest != "" && rest[0] != ' ' && rest[|rest| - 1] == ' ' && rest == head + Spaces(k)
    requires head != "" ==> head[|head| - 1] != ' '
    ensures head != "" && |head| < |rest| && head[0] == rest[0] && forall c :: c in head ==> c in rest
  {
    assert k == 0 ==> rest == head;
    assert head == "" ==> rest == Spaces(k);
  }

  lemma LeadingRun(tabstop: nat, n: nat)
    requires tabstop >= 1
    ensures Kept(tabstop, false, "") + Run(tabstop, false, "", n) == Tabs(n / tabstop) + Spaces(n % tabstop)
  {
    assert 0 / tabstop == 0;
    DivModBasics(n, tabstop);
    assert Tabs(0) == "";
    assert Column(tabstop, "") == 0;
    assert Stops(tabstop, 0, n) == n / tabstop;
  }

  lemma ColumnRuns(tabstop: nat, n: nat, head: string)
    requires tabstop >= 1 && head != "" && '\n' !in head && BACKSPACE !in head
    ensures Column(tabstop, Spaces(n) + head) > 0
  {
    ColumnMoves(tabstop, Spaces(n) + head);
  }

  lemma {:induction false} ColumnMoves(tabstop: nat, s: string)
    requires tabstop >= 1 && s != "" && '\n' !in s && BACKSPACE !in s
    ensures Column(tabstop, s) > 0
  {
    assert s[|s| - 1] in s;
  }

  /** Lines are written one by one. */
  lemma {:induction false} LinesRetabbed(tabstop: nat, aflag: bool, s: string, line: string)
    requires tabstop >= 1
    ensures Retabbed(tabstop, aflag, s + "\n" + line) == Retabbed(tabstop, aflag, s) + "\n"
        + Retabbed(tabstop, aflag, line)
    ensures Column(tabstop, s + "\n" + line) == Column(tabstop, line)
    decreases |line|
  {
    hide Column, Retabbed, Tabbed;
    if line == "" {
      assert s + "\n" + line == s + ['\n'];
      RetabbedOther(tabstop, aflag, s, '\n');
      RetabbedNothing(tabstop, aflag);
      OneMore(tabstop, s, '\n');
      Nothing(tabstop);
    } else {
      var front, c := line[..|line| - 1], line[|line| - 1];
      LinesRetabbed(tabstop, aflag, s, front);
      assert line == front + [c] && s + "\n" + line == (s + "\n" + front) + [c];
      OneMore(tabstop, front, c);
      OneMore(tabstop, s + "\n" + front, c);
      if c != ' ' {
        RetabbedOther(tabstop, aflag, front, c);
        RetabbedOther(tabstop, aflag, s + "\n" + front, c);
      } else {
        RunOfLine(tabstop, aflag, s, line);
      }
    }
  }

  lemma {:induction false} RunOfLine(tabstop: nat, aflag: bool, s: string, line: string)
    requires tabstop >= 1 && line != "" && line[|line| - 1] == ' '
    ensures Retabbed(tabstop, aflag, s + "\n" + line) == Retabbed(tabstop, aflag, s) + "\n"
        + Retabbed(tabstop, aflag, line)
    decreases |line|, 0
  {
    hide Column, Retabbed, Tabbed;
    var head, n := SplitRun(line);
    assert n > 0;
    LinesRetabbed(tabstop, aflag, s, head);
    var all := s + "\n" + head;
    assert all + Spaces(n) == s + "\n" + line;
    RunIs(tabstop, aflag, head, n);
    RunIs(tabstop, aflag, all, n);
    assert head + Spaces(0) == head && all + Spaces(0) == all;
    RunIs(tabstop, aflag, head, 0);
    RunIs(tabstop, aflag, all, 0);
    NoRun(tabstop, aflag, head);
    NoRun(tabstop, aflag, all);
    var kept, run := Kept(tabstop, aflag, head), Run(tabstop, aflag, head, n);
    assert Retabbed(tabstop, aflag, head) == kept + "" == kept;
    assert Retabbed(tabstop, aflag, all) == Kept(tabstop, aflag, all) + "" == Kept(tabstop, aflag, all);
    assert Run(tabstop, aflag, all, n) == run;
    assert Retabbed(tabstop, aflag, s) + "\n" + kept + run == Retabbed(tabstop, aflag, s) + "\n" + (kept + run);
  }
}
