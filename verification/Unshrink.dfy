/** LZW with parent links and partial clearing: codes are translated against the dictionary they stand for. */
module Unshrink {
  import opened Wrappers

  const BOGUSCODE: nat := 256
  const HSIZE: nat := 8192
  const FREE_CODE: nat := 8192
  const HAS_CHILD: nat := 16384

  /** `& CODE_MASK` */
  function Masked(v: int): int { v % HSIZE }

  // ---- The reference: a dictionary of strings ----

  /** An entry: its string, and the code whose string it extends by one character. */
  datatype Node = Node(prefix: int, str: seq<int>)

  type Dictionary = map<int, Node>

  ghost predicate Assigned(dict: Dictionary, c: int) { 0 <= c < 256 || c in dict }

  /** The string of an assigned code. */
  ghost function Str(dict: Dictionary, c: int): seq<int>
    requires Assigned(dict, c)
  {
    if 0 <= c < 256 then [c] else dict[c].str
  }

  /** The first code from `c` on that is not assigned. */
  ghost function FirstFree(dict: Dictionary, c: int): (f: int)
    ensures c <= HSIZE ==> c <= f <= HSIZE && (f < HSIZE ==> f !in dict) && forall d :: c <= d < f ==> d in dict
    decreases HSIZE - c
  {
    if c >= HSIZE || c !in dict then c else FirstFree(dict, c + 1)
  }

  ghost predicate IsPrefix(dict: Dictionary, c: int) { exists d :: d in dict && dict[d].prefix == c }

  /** What a partial clear leaves: the entries that others extend. */
  ghost function Cleared(dict: Dictionary): Dictionary {
    map c | c in dict && IsPrefix(dict, c) :: dict[c]
  }

  /** The text of the codes after `prev`; entries are assigned from above `last` on. Without a meaning are codes
      beyond the next one to be assigned, codes for which no new entry is left, and a partial clear that
      clears the code before it. */
  ghost function Lzw(codes: seq<int>, dict: Dictionary, last: int, prev: int): Option<seq<int>>
    requires Assigned(dict, prev)
    decreases |codes|
  {
    if codes == [] then Some([])
    else if codes[0] == BOGUSCODE then
      if |codes| == 1 then Some([])
      else if codes[1] == 2 then
        if Assigned(Cleared(dict), prev) then Lzw(codes[2..], Cleared(dict), BOGUSCODE, prev) else None
      else Lzw(codes[2..], dict, last, prev)
    else
      var f := FirstFree(dict, last + 1);
      if f < HSIZE && (Assigned(dict, codes[0]) || codes[0] == f) then
        var s := Translation(dict, codes[0], prev);
        if s == [] then None else After(s, Lzw(codes[1..], Entered(dict, f, prev, s[0]), f, codes[0]))
      else None
  }

  /** The string of a code, or of the one about to be assigned. */
  ghost function Translation(dict: Dictionary, c: int, prev: int): seq<int>
    requires Assigned(dict, prev)
  {
    if Assigned(dict, c) then Str(dict, c)
    else if Str(dict, prev) == [] then [] else Str(dict, prev) + [Str(dict, prev)[0]]
  }

  ghost function Entered(dict: Dictionary, f: int, prev: int, ch: int): Dictionary
    requires Assigned(dict, prev)
  {
    dict[f := Node(prev, Str(dict, prev) + [ch])]
  }

  ghost function After(s: seq<int>, r: Option<seq<int>>): Option<seq<int>> {
    match r
    case None => None
    case Some(rest) => Some(s + rest)
  }

  lemma AfterBoth(a: seq<int>, b: seq<int>, r: Option<seq<int>>)
    ensures After(a, After(b, r)) == After(a + b, r)
  {
    if r.Some? {
      assert a + (b + r.value) == (a + b) + r.value;
    }
  }

  /** The whole text: the first code is a literal. */
  ghost function Meaning(codes: seq<int>): Option<seq<int>> {
    if codes == [] then Some([])
    else if 0 <= codes[0] < 256 then After([codes[0]], Lzw(codes[1..], map[], BOGUSCODE, codes[0]))
    else None
  }

  // ---- Dictionaries are trees ----

  /** Every entry extends the string of an assigned code by one character. */
  ghost predicate Tree(dict: Dictionary) {
    && (forall c :: c in dict ==> BOGUSCODE < c < HSIZE)
    && (forall c {:trigger Extended(dict, c)} :: Extended(dict, c))
  }

  ghost predicate Extended(dict: Dictionary, c: int) {
    c in dict ==>
    && Assigned(dict, dict[c].prefix)
    && |dict[c].str| == |Str(dict, dict[c].prefix)| + 1 >= 2
    && dict[c].str[..|dict[c].str| - 1] == Str(dict, dict[c].prefix)
  }

  /** The entries on the way from a code to its first character. */
  ghost function Path(dict: Dictionary, c: int): set<int>
    requires Tree(dict) && Assigned(dict, c)
    decreases |Str(dict, c)|
  {
    if 0 <= c < 256 then {}
    else
      assert Extended(dict, c);
      {c} + Path(dict, dict[c].prefix)
  }

  lemma {:induction false} PathSize(dict: Dictionary, c: int)
    requires Tree(dict) && Assigned(dict, c)
    ensures |Path(dict, c)| == |Str(dict, c)| - 1 && Path(dict, c) <= dict.Keys
    ensures forall d :: d in Path(dict, c) ==> d in dict && |dict[d].str| <= |Str(dict, c)|
    decreases |Str(dict, c)|
  {
    if c >= 256 || c < 0 {
      assert Extended(dict, c);
      PathSize(dict, dict[c].prefix);
    }
  }

  lemma {:induction false} RangeSize(s: set<int>, lo: int, hi: int)
    requires lo <= hi && forall c :: c in s ==> lo <= c < hi
    ensures |s| <= hi - lo
    decreases hi - lo
  {
    if lo < hi {
      RangeSize(s - {hi - 1}, lo, hi - 1);
    } else {
      assert s == {};
    }
  }

  /** No string has more characters than there are codes for. */
  lemma StrSize(dict: Dictionary, c: int)
    requires Tree(dict) && Assigned(dict, c)
    ensures 1 <= |Str(dict, c)| <= HSIZE - BOGUSCODE
  {
    PathSize(dict, c);
    RangeSize(Path(dict, c), BOGUSCODE + 1, HSIZE);
  }

  /** A new entry leaves the others alone. */
  lemma EnteredTree(dict: Dictionary, f: int, prev: int, ch: int)
    requires Tree(dict) && Assigned(dict, prev) && BOGUSCODE < f < HSIZE && f !in dict
    ensures Tree(Entered(dict, f, prev, ch))
    ensures forall c :: Assigned(dict, c) ==>
        Assigned(Entered(dict, f, prev, ch), c) && Str(Entered(dict, f, prev, ch), c) == Str(dict, c)
  {
    var more := Entered(dict, f, prev, ch);
    StrSize(dict, prev);
    forall c | c in more ensures Extended(more, c) {
      if c != f {
        assert Extended(dict, c);
      }
    }
  }

  /** What a partial clear leaves is a tree again, with the same strings. */
  lemma ClearedTree(dict: Dictionary)
    requires Tree(dict)
    ensures Tree(Cleared(dict))
    ensures forall c :: Assigned(Cleared(dict), c) ==> Assigned(dict, c) && Str(Cleared(dict), c) == Str(dict, c)
  {
    var less := Cleared(dict);
    forall c | c in less ensures Extended(less, c) {
      assert Extended(dict, c);
      assert dict[c].prefix in dict ==> IsPrefix(dict, dict[c].prefix);
    }
  }

  // ---- The tables ----

  /** The parent links and characters represent the dictionary. */
  ghost predicate Holds(parents: seq<int>, values: seq<int>, dict: Dictionary) {
    && |parents| == |values| == HSIZE && Tree(dict)
    && forall c {:trigger Cell(parents, values, dict, c)} :: 0 <= c < HSIZE ==> Cell(parents, values, dict, c)
  }

  /** Parent and character of a literal or an entry, a free cell, or the unused cell between them. */
  ghost predicate Cell(parents: seq<int>, values: seq<int>, dict: Dictionary, c: int)
    requires 0 <= c < |parents| == |values|
  {
    if c < BOGUSCODE then parents[c] == BOGUSCODE && values[c] == c
    else if c == BOGUSCODE then 0 <= parents[c] <= BOGUSCODE
    else if c in dict then
      var s := dict[c].str;
      parents[c] == dict[c].prefix && s != [] && values[c] == s[|s| - 1]
    else parents[c] == FREE_CODE
  }

  /** A link followed takes one character off the end of the string. */
  lemma FollowLink(parents: seq<int>, values: seq<int>, dict: Dictionary, c: int)
    requires Holds(parents, values, dict) && Assigned(dict, c)
    ensures 0 <= c < HSIZE && 0 <= parents[c] < HSIZE && Masked(parents[c]) == parents[c]
    ensures parents[c] == BOGUSCODE ==> Str(dict, c) == [values[c]]
    ensures parents[c] != BOGUSCODE ==>
        Assigned(dict, parents[c]) && Str(dict, c) == Str(dict, parents[c]) + [values[c]]
  {
    assert 0 <= c < HSIZE && Cell(parents, values, dict, c);
    if !(0 <= c < 256) {
      assert Extended(dict, c);
      var p := dict[c].prefix;
      assert Assigned(dict, p) && 0 <= p < HSIZE && p != BOGUSCODE;
      assert dict[c].str == dict[c].str[..|dict[c].str| - 1] + [dict[c].str[|dict[c].str| - 1]];
    }
  }

  lemma AddEntry(parents: seq<int>, values: seq<int>, dict: Dictionary, f: int, prev: int, ch: int)
    requires Holds(parents, values, dict) && Assigned(dict, prev) && BOGUSCODE < f < HSIZE && f !in dict
    ensures Holds(parents[f := prev], values[f := ch], Entered(dict, f, prev, ch)) == true
  {
    EnteredTree(dict, f, prev, ch);
    var more, ps, vs := Entered(dict, f, prev, ch), parents[f := prev], values[f := ch];
    assert more[f] == Node(prev, Str(dict, prev) + [ch]);
    forall c | 0 <= c < HSIZE
      ensures Cell(ps, vs, more, c)
    {
      if c != f {
        assert Cell(parents, values, dict, c) && (c in more <==> c in dict);
      }
    }
  }

  /** Parents in the tables are prefixes in the dictionary. */
  lemma SameParents(parents: seq<int>, values: seq<int>, dict: Dictionary, c: int)
    requires Holds(parents, values, dict) && c in dict
    ensures BOGUSCODE < c < HSIZE && (IsParent(parents, c, HSIZE) <==> IsPrefix(dict, c))
  {
    if IsPrefix(dict, c) {
      var d :| d in dict && dict[d].prefix == c;
      assert BOGUSCODE < d < HSIZE && Cell(parents, values, dict, d) && parents[d] == c;
    }
    if IsParent(parents, c, HSIZE) {
      var d :| BOGUSCODE < d < HSIZE && parents[d] == c < FREE_CODE;
      assert Cell(parents, values, dict, d) && d in dict;
    }
  }

  lemma TablesClean(parents: seq<int>, values: seq<int>, dict: Dictionary)
    requires Holds(parents, values, dict)
    ensures |parents| == HSIZE && Clean(parents)
  {
    forall c | 0 <= c < |parents| ensures 0 <= parents[c] <= FREE_CODE {
      assert Cell(parents, values, dict, c);
      if BOGUSCODE < c && c in dict {
        FollowLink(parents, values, dict, c);
      }
    }
  }

  /** Clearing the tables clears the dictionary. */
  lemma ClearedHolds(parents: seq<int>, values: seq<int>, dict: Dictionary, cleared: seq<int>)
    requires Holds(parents, values, dict) && |cleared| == HSIZE
    requires forall c :: 0 <= c < HSIZE ==>
      cleared[c] == if c <= BOGUSCODE || IsParent(parents, c, HSIZE) then parents[c] else FREE_CODE
    ensures Holds(cleared, values, Cleared(dict)) == true
  {
    hide Tree, IsPrefix, IsParent;
    ClearedTree(dict);
    forall c | 0 <= c < HSIZE
      ensures Cell(cleared, values, Cleared(dict), c)
    {
      assert Cell(parents, values, dict, c);
      assert cleared[c] == if c <= BOGUSCODE || IsParent(parents, c, HSIZE) then parents[c] else FREE_CODE;
      if c in dict {
        SameParents(parents, values, dict, c);
      }
    }
  }

  class Unshrinker {
    const parent: array<int>
    const value: array<int>
    const stack: array<int>
    var oldcode: int
    var lastfreecode: int
    var out: seq<int>

    ghost predicate Separate()
      reads this
    {
      parent != value && parent != stack && value != stack && parent.Length == value.Length == stack.Length == HSIZE
    }

    /** The tables represent `dict`, entries are assigned from above `last` on, and `prev` was translated last. */
    ghost predicate Represents(dict: Dictionary, last: int, prev: int)
      reads this, parent, value
    {
      && Separate() && Holds(parent[..], value[..], dict) && Assigned(dict, prev)
      && oldcode == prev && lastfreecode == last && BOGUSCODE <= last < HSIZE
    }

    constructor ()
      ensures Separate() && fresh(parent) && fresh(value) && fresh(stack)
      ensures Holds(parent[..], value[..], map[]) && lastfreecode == BOGUSCODE && out == []
    {
      parent := new int[HSIZE](c => if 0 <= c < BOGUSCODE then BOGUSCODE else if c == BOGUSCODE then 0 else FREE_CODE);
      value := new int[HSIZE](c => if 0 <= c < BOGUSCODE then c else 0);
      stack := new int[HSIZE](_ => 0);
      oldcode, lastfreecode, out := 0, BOGUSCODE, [];
    }

    method PushDown(newstr: int, ch: int, top: int)
      requires stack.Length == HSIZE && 0 <= newstr <= top < HSIZE
      modifies stack
      ensures stack[newstr..top + 1] == [ch] + old(stack[newstr + 1..top + 1])
      ensures stack[top + 1..] == old(stack[top + 1..])
    {
      stack[newstr] := ch;
    }

    /** Collects the characters of a code from leaf to root, downwards from stack cell `top`. */
    method Collect(code: int, top: int, ghost dict: Dictionary) returns (newstr: int)
      requires Separate() && Holds(parent[..], value[..], dict) && Assigned(dict, code)
      requires |Str(dict, code)| <= top + 1 <= HSIZE
      modifies stack
      ensures newstr == top - |Str(dict, code)| && stack[newstr + 1..top + 1] == Str(dict, code)
      ensures stack[top + 1..] == old(stack[top + 1..])
    {
      hide Holds, Assigned, Str;
      ghost var parents, values := parent[..], value[..];
      var curcode := code;
      newstr := top;
      LinkFirst(parents, values, dict, curcode);
      assert stack[top + 1..top + 1] == [];
      PushDown(newstr, value[curcode], top);
      newstr := newstr - 1;
      while Masked(parent[curcode]) != BOGUSCODE
        invariant -1 <= newstr < top && 0 <= curcode < HSIZE && parents == parent[..] && values == value[..]
        invariant Linking(parents, values, dict, code, curcode, stack[newstr + 1..top + 1])
        invariant stack[top + 1..] == old(stack[top + 1..])
        decreases newstr
      {
        LinkStep(parents, values, dict, code, curcode, stack[newstr + 1..top + 1]);
        curcode := Masked(parent[curcode]);
        PushDown(newstr, value[curcode], top);
        newstr := newstr - 1;
      }
      LinkLast(parents, values, dict, code, curcode, stack[newstr + 1..top + 1]);
    }

    /** Translates one code and enters the next one: a child of the previous code's node. */
    method Translate(code: int, ghost dict: Dictionary, ghost last: int, ghost prev: int) returns (ghost s: seq<int>)
      requires Represents(dict, last, prev) && FirstFree(dict, last + 1) < HSIZE
      requires Assigned(dict, code) || code == FirstFree(dict, last + 1)
      modifies this, parent, value, stack
      ensures s == Translation(dict, code, prev) && s != []
      ensures out == old(out) + s
      ensures var f := FirstFree(dict, last + 1); Represents(Entered(dict, f, prev, s[0]), f, code) == true
    {
      hide Holds, Str, Entered;
      CodeFacts(parent[..], value[..], dict, code);
      CodeFacts(parent[..], value[..], dict, oldcode);
      var stacktop := HSIZE - 1;
      var newstr, curcode := stacktop, code;
      var kwkwk := parent[curcode] == FREE_CODE;
      if kwkwk {
        newstr := newstr - 1;
        curcode := oldcode;
      }
      newstr := Collect(curcode, newstr, dict);
      ghost var found := Str(dict, curcode);
      var len := stacktop - newstr;
      newstr := newstr + 1;
      if kwkwk {
        ghost var cells := stack[newstr..stacktop];
        stack[stacktop] := stack[newstr];
        assert stack[newstr..stacktop] == cells && stack[newstr..stacktop + 1] == cells + [cells[0]];
      }
      s := stack[newstr..stacktop + 1];
      assert s == if kwkwk then found + [found[0]] else found;
      out := out + stack[newstr..newstr + len];
      NewString(dict, last, prev, code);
      Enter(code, stack[newstr], dict, last);
    }

    /** Searches for a free code and makes it a child of the previous one. */
    method Enter(code: int, ch: int, ghost dict: Dictionary, ghost last: int)
      requires Represents(dict, last, oldcode) && FirstFree(dict, last + 1) < HSIZE
      modifies this`lastfreecode, this`oldcode, parent, value
      ensures Holds(parent[..], value[..], Entered(dict, FirstFree(dict, last + 1), old(oldcode), ch)) == true
      ensures lastfreecode == FirstFree(dict, last + 1) && oldcode == code
    {
      hide Holds, Entered, FirstFree;
      ghost var parents, values, f := parent[..], value[..], FirstFree(dict, last + 1);
      var freecode := lastfreecode + 1;
      FreeCell(parents, values, dict, freecode);
      while parent[freecode] != FREE_CODE
        invariant parent[..] == parents && value[..] == values && oldcode == old(oldcode)
        invariant BOGUSCODE < freecode <= f && FirstFree(dict, freecode) == f
        invariant parent[freecode] == FREE_CODE <==> freecode !in dict
        decreases HSIZE - freecode
      {
        NextFree(dict, freecode);
        freecode := freecode + 1;
        FreeCell(parents, values, dict, freecode);
      }
      ThisFree(dict, freecode);
      lastfreecode := freecode;
      AddEntry(parents, values, dict, freecode, oldcode, ch);
      value[freecode] := ch;
      parent[freecode] := oldcode;
      assert parent[..] == parents[freecode := oldcode] && value[..] == values[freecode := ch];
      oldcode := code;
    }

    /** Marks the parents of entries. */
    method MarkParents()
      requires parent.Length == HSIZE && Clean(parent[..])
      modifies parent
      ensures forall c :: 0 <= c < HSIZE ==> parent[c] == Marked(old(parent[..]), c, HSIZE)
    {
      var code := BOGUSCODE + 1;
      while code < HSIZE
        invariant BOGUSCODE + 1 <= code <= HSIZE
        invariant forall c :: 0 <= c < HSIZE ==> parent[c] == Marked(old(parent[..]), c, code)
      {
        var cparent := Masked(parent[code]);
        MaskMarked(old(parent[..]), code);
        if cparent > BOGUSCODE && cparent != FREE_CODE {
          if !HasChild(parent[cparent]) {
            parent[cparent] := parent[cparent] + HAS_CHILD;
          }
        }
        code := code + 1;
      }
    }

    /** Clears exactly the entries above 256 that are no entry's parent. */
    method PartialClear()
      requires parent.Length == HSIZE && Clean(parent[..])
      modifies parent
      ensures Clean(parent[..])
      ensures forall c :: 0 <= c < HSIZE ==>
        parent[c] == if c <= BOGUSCODE || IsParent(old(parent[..]), c, HSIZE) then old(parent[c]) else FREE_CODE
    {
      ghost var before := parent[..];
      MarkParents();
      var code := BOGUSCODE + 1;
      while code < HSIZE
        invariant BOGUSCODE + 1 <= code <= HSIZE
        invariant forall c :: code <= c < HSIZE ==> parent[c] == Marked(before, c, HSIZE)
        invariant forall c :: 0 <= c < code ==>
          parent[c] == if c <= BOGUSCODE || IsParent(before, c, HSIZE) then before[c] else FREE_CODE
      {
        if HasChild(parent[code]) {
          parent[code] := parent[code] - HAS_CHILD;
        } else {
          parent[code] := FREE_CODE;
        }
        code := code + 1;
      }
    }

    /** The escape for a partial clear. */
    method Clear(ghost dict: Dictionary, ghost last: int, ghost prev: int)
      requires Represents(dict, last, prev)
      modifies this`lastfreecode, parent
      ensures Separate() && Holds(parent[..], value[..], Cleared(dict)) && lastfreecode == BOGUSCODE
      ensures 0 <= oldcode < HSIZE && (Assigned(Cleared(dict), prev) <==> parent[oldcode] != FREE_CODE)
    {
      hide Holds, Cleared, Clean, IsParent;
      ghost var parents := parent[..];
      CodeFacts(parents, value[..], dict, oldcode);
      TablesClean(parents, value[..], dict);
      PartialClear();
      ClearedHolds(parents, value[..], dict, parent[..]);
      FreeCell(parent[..], value[..], Cleared(dict), oldcode);
      lastfreecode := BOGUSCODE;
    }
  }

  // ---- Partial clearing ----

  /** Entries are codes or free, and no marks are set. */
  ghost predicate Clean(parents: seq<int>) {
    forall c :: 0 <= c < |parents| ==> 0 <= parents[c] <= FREE_CODE
  }

  predicate HasChild(v: int) { v / HAS_CHILD % 2 == 1 }

  /** One of the entries up to `n` that are not free has `c` as its parent. */
  ghost predicate IsParent(parents: seq<int>, c: int, n: int)
    requires n <= |parents|
  {
    c > BOGUSCODE && exists d :: BOGUSCODE < d < n && parents[d] == c < FREE_CODE
  }

  ghost function Marked(parents: seq<int>, c: int, n: int): int
    requires 0 <= c < |parents| && n <= |parents|
  {
    parents[c] + if IsParent(parents, c, n) then HAS_CHILD else 0
  }

  lemma MaskMarked(parents: seq<int>, d: int)
    requires |parents| == HSIZE && Clean(parents) && BOGUSCODE < d < HSIZE
    ensures forall n :: 0 <= n <= HSIZE ==>
        Masked(Marked(parents, d, n)) == if parents[d] == FREE_CODE then 0 else parents[d]
    ensures forall c, n :: 0 <= c < HSIZE && 0 <= n <= HSIZE ==>
        (HasChild(Marked(parents, c, n)) <==> IsParent(parents, c, n))
    ensures forall c :: IsParent(parents, c, d + 1) <==>
        IsParent(parents, c, d) || (c == parents[d] && BOGUSCODE < c < FREE_CODE)
  {
  }

  // ---- The whole run ----

  lemma FreeCell(parents: seq<int>, values: seq<int>, dict: Dictionary, c: int)
    requires Holds(parents, values, dict) && 0 <= c < HSIZE && c != BOGUSCODE
    ensures |parents| == HSIZE && (parents[c] == FREE_CODE <==> !Assigned(dict, c))
    ensures c > BOGUSCODE ==> (parents[c] == FREE_CODE <==> c !in dict)
  {
    assert Cell(parents, values, dict, c);
    if Assigned(dict, c) {
      FollowLink(parents, values, dict, c);
    }
  }

  lemma NextFree(dict: Dictionary, c: int)
    requires c in dict && c < HSIZE
    ensures FirstFree(dict, c) == FirstFree(dict, c + 1) > c
  {
  }

  lemma ThisFree(dict: Dictionary, c: int)
    requires c !in dict
    ensures FirstFree(dict, c) == c
  {
  }

  lemma CodeFacts(parents: seq<int>, values: seq<int>, dict: Dictionary, c: int)
    requires Holds(parents, values, dict) && (Assigned(dict, c) || BOGUSCODE < c < HSIZE)
    ensures 0 <= c < |parents| && c != BOGUSCODE && (parents[c] == FREE_CODE <==> !Assigned(dict, c))
    ensures Tree(dict) && (Assigned(dict, c) ==> 0 < |Str(dict, c)| <= HSIZE - 1)
  {
    if Assigned(dict, c) {
      StrSize(dict, c);
    }
    FreeCell(parents, values, dict, c);
  }

  /** The code just translated stands for its string also in the longer dictionary. */
  lemma NewString(dict: Dictionary, last: int, prev: int, code: int)
    requires Tree(dict) && Assigned(dict, prev) && BOGUSCODE <= last < HSIZE
    requires FirstFree(dict, last + 1) < HSIZE && (Assigned(dict, code) || code == FirstFree(dict, last + 1))
    ensures
      var s := Translation(dict, code, prev);
      && s != []
      && var more := Entered(dict, FirstFree(dict, last + 1), prev, s[0]);
      Tree(more) && Assigned(more, code) && Str(more, code) == s
  {
    StrSize(dict, prev);
    if Assigned(dict, code) {
      StrSize(dict, code);
    }
    EnteredTree(dict, FirstFree(dict, last + 1), prev, Translation(dict, code, prev)[0]);
  }

  /** One step of the meaning. */
  lemma LzwStep(codes: seq<int>, i: nat, dict: Dictionary, last: int, prev: int)
    requires i < |codes| && Assigned(dict, prev)
    ensures
      var rest := Lzw(codes[i..], dict, last, prev);
      if codes[i] == BOGUSCODE then
        if i + 1 == |codes| then rest == Some([])
        else if codes[i + 1] == 2 then
          rest == if Assigned(Cleared(dict), prev) then Lzw(codes[i + 2..], Cleared(dict), BOGUSCODE, prev) else None
        else rest == Lzw(codes[i + 2..], dict, last, prev)
      else
        var f := FirstFree(dict, last + 1);
        if f < HSIZE && (Assigned(dict, codes[i]) || codes[i] == f) then
          var s := Translation(dict, codes[i], prev);
          s != [] ==> rest == After(s, Lzw(codes[i + 1..], Entered(dict, f, prev, s[0]), f, codes[i]))
        else rest == None
  {
    hide Translation, Entered, Cleared, FirstFree;
    assert codes[i..][0] == codes[i] && codes[i..][1..] == codes[i + 1..];
    if i + 1 < |codes| {
      assert codes[i..][1] == codes[i + 1] && codes[i..][2..] == codes[i + 2..];
    }
  }

  /** Whether a code can be translated, looked up in the tables. */
  method Translatable(u: Unshrinker, code: int, ghost dict: Dictionary, ghost last: int, ghost prev: int)
    returns (ok: bool)
    requires u.Represents(dict, last, prev) && code != BOGUSCODE
    ensures ok <==> FirstFree(dict, last + 1) < HSIZE && (Assigned(dict, code) || code == FirstFree(dict, last + 1))
  {
    hide Holds, FirstFree;
    var f := u.lastfreecode + 1;
    while f < HSIZE && u.parent[f] != FREE_CODE
      invariant BOGUSCODE < f <= HSIZE && FirstFree(dict, f) == FirstFree(dict, last + 1)
    {
      FreeCell(u.parent[..], u.value[..], dict, f);
      NextFree(dict, f);
      f := f + 1;
    }
    if f < HSIZE {
      FreeCell(u.parent[..], u.value[..], dict, f);
      ThisFree(dict, f);
    } else {
      NoneFree(dict, f);
    }
    if 0 <= code < HSIZE {
      FreeCell(u.parent[..], u.value[..], dict, code);
    } else {
      OutsideFree(u.parent[..], u.value[..], dict, code);
    }
    ok := f < HSIZE && 0 <= code < HSIZE && (u.parent[code] != FREE_CODE || code == f);
  }

  lemma NoneFree(dict: Dictionary, c: int)
    requires c >= HSIZE
    ensures FirstFree(dict, c) == c
  {
  }

  lemma OutsideFree(parents: seq<int>, values: seq<int>, dict: Dictionary, c: int)
    requires Holds(parents, values, dict) && !(0 <= c < HSIZE)
    ensures !Assigned(dict, c) && FirstFree(dict, HSIZE) == HSIZE
  {
  }

  /** Decompresses the codes that have a meaning. */
  method Unshrink(codes: seq<int>) returns (r: Option<seq<int>>)
    ensures r == Meaning(codes)
  {
    hide Holds, Cleared, FirstFree, Entered, Translation, Lzw;
    if codes == [] {
      return Some([]);
    }
    if !(0 <= codes[0] < 256) {
      return None;
    }
    var u := new Unshrinker();
    u.oldcode := codes[0];
    u.out := [codes[0]];
    ghost var dict: Dictionary, last, prev := map[], BOGUSCODE, codes[0];
    var i := 1;
    while i < |codes|
      invariant 1 <= i <= |codes| + 1 && fresh(u) && fresh(u.parent) && fresh(u.value) && fresh(u.stack)
      invariant u.Represents(dict, last, prev)
      invariant Meaning(codes) == After(u.out, if i <= |codes| then Lzw(codes[i..], dict, last, prev) else Some([]))
      decreases |codes| - i
    {
      var code := codes[i];
      LzwStep(codes, i, dict, last, prev);
      if code == BOGUSCODE {
        if i + 1 < |codes| && codes[i + 1] == 2 {
          u.Clear(dict, last, prev);
          if u.parent[u.oldcode] == FREE_CODE {
            return None;
          }
          dict, last := Cleared(dict), BOGUSCODE;
        }
        i := i + 2;
      } else {
        var ok := Translatable(u, code, dict, last, prev);
        if !ok {
          return None;
        }
        ghost var out, f := u.out, FirstFree(dict, last + 1);
        ghost var s := u.Translate(code, dict, last, prev);
        AfterBoth(out, s, Lzw(codes[i + 1..], Entered(dict, f, prev, s[0]), f, code));
        dict, last, prev := Entered(dict, f, prev, s[0]), f, code;
        i := i + 1;
      }
    }
    if i == |codes| {
      LzwEnds(codes[i..], dict, last, prev);
    }
    assert u.out + [] == u.out;
    r := Some(u.out);
  }

  lemma LzwEnds(codes: seq<int>, dict: Dictionary, last: int, prev: int)
    requires codes == [] && Assigned(dict, prev)
    ensures Lzw(codes, dict, last, prev) == Some([])
  {
  }

  /** `cur` stands for a beginning of the code's string; its last character and those after it are `gathered`. */
  ghost predicate Linking(parents: seq<int>, values: seq<int>, dict: Dictionary, code: int, cur: int,
                          gathered: seq<int>) {
    && Holds(parents, values, dict) && Assigned(dict, code) && Assigned(dict, cur) && Str(dict, cur) != []
    && Str(dict, code) == Str(dict, cur)[..|Str(dict, cur)| - 1] + gathered
  }

  lemma LinkFirst(parents: seq<int>, values: seq<int>, dict: Dictionary, code: int)
    requires Holds(parents, values, dict) && Assigned(dict, code)
    ensures 0 <= code < HSIZE && Linking(parents, values, dict, code, code, [values[code]] + [])
        && |Str(dict, code)| >= 1
  {
    FollowLink(parents, values, dict, code);
    LastCharacter(parents, values, dict, code);
  }

  lemma LinkStep(parents: seq<int>, values: seq<int>, dict: Dictionary, code: int, cur: int, gathered: seq<int>)
    requires 0 <= cur < |parents| && Linking(parents, values, dict, code, cur, gathered)
        && Masked(parents[cur]) != BOGUSCODE
    ensures 0 <= Masked(parents[cur]) < HSIZE && |gathered| < |Str(dict, code)| && Masked(parents[cur]) < |values|
    ensures Linking(parents, values, dict, code, Masked(parents[cur]), [values[Masked(parents[cur])]] + gathered)
  {
    hide Holds, Str, Assigned;
    FollowLink(parents, values, dict, cur);
    LastCharacter(parents, values, dict, parents[cur]);
    FollowLink(parents, values, dict, parents[cur]);
    var s, p := Str(dict, cur), Str(dict, parents[cur]);
    assert s[..|s| - 1] == p;
    assert p + gathered == p[..|p| - 1] + ([values[parents[cur]]] + gathered);
  }

  lemma LinkLast(parents: seq<int>, values: seq<int>, dict: Dictionary, code: int, cur: int, gathered: seq<int>)
    requires 0 <= cur < |parents| && Linking(parents, values, dict, code, cur, gathered)
        && Masked(parents[cur]) == BOGUSCODE
    ensures gathered == Str(dict, code)
  {
    FollowLink(parents, values, dict, cur);
  }

  lemma LastCharacter(parents: seq<int>, values: seq<int>, dict: Dictionary, c: int)
    requires Holds(parents, values, dict) && Assigned(dict, c)
    ensures 0 <= c < HSIZE == |values|
    ensures
      var s := Str(dict, c);
      s != [] && s == s[..|s| - 1] + [values[c]]
  {
    FollowLink(parents, values, dict, c);
  }
}
