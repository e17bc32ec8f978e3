/** The inode tree: top-down splaying with parent-less nodes and a sentinel for missing children. */
module Splay {

  class Islot {
    var i_lln: Islot?
    var i_rln: Islot?
    var i_ino: int

    constructor (ino: int)
      ensures i_ino == ino && i_lln == null && i_rln == null
    {
      i_lln, i_rln, i_ino := null, null, ino;
    }
  }

  /** The shape of a tree in the heap. */
  datatype Tree = Leaf | Node(left: Tree, node: Islot, key: int, right: Tree)

  datatype Entry = Entry(node: Islot, key: int)

  ghost function Nodes(t: Tree): set<Islot> {
    match t
    case Leaf => {}
    case Node(l, n, k, r) => Nodes(l) + {n} + Nodes(r)
  }

  /** The nodes with their keys, in search order. */
  ghost function InOrder(t: Tree): seq<Entry> {
    match t
    case Leaf => []
    case Node(l, n, k, r) => InOrder(l) + [Entry(n, k)] + InOrder(r)
  }

  ghost predicate Ascending(es: seq<Entry>) {
    forall i, j {:trigger es[i], es[j]} :: 0 <= i < j < |es| ==> es[i].key < es[j].key
  }

  /** The tree hangs at `x`. */
  ghost predicate Rep(t: Tree, x: Islot?, inull: Islot)
    reads Nodes(t)
  {
    match t
    case Leaf => x == inull
    case Node(l, n, k, r) =>
      && x == n && n != inull && n.i_ino == k
      && n !in Nodes(l) && n !in Nodes(r) && Nodes(l) !! Nodes(r)
      && Rep(l, n.i_lln, inull) && Rep(r, n.i_rln, inull)
  }

  lemma {:induction false} SentinelOutside(t: Tree, x: Islot?, inull: Islot)
    requires Rep(t, x, inull) == true
    ensures inull !in Nodes(t)
  {
    match t {
      case Leaf =>
      case Node(l, n, k, r) =>
        SentinelOutside(l, n.i_lln, inull);
        SentinelOutside(r, n.i_rln, inull);
    }
  }

  // ---- What has been split off on either side ----

  /** Nodes split off on one side, the last one still waiting for a subtree. */
  datatype Side = Header | Linked(outer: Side, node: Islot, key: int, sub: Tree)

  ghost function SideNodes(s: Side): set<Islot> {
    match s
    case Header => {}
    case Linked(o, n, k, t) => SideNodes(o) + {n} + Nodes(t)
  }

  ghost function Last(s: Side, hdr: Islot): Islot {
    match s
    case Header => hdr
    case Linked(o, n, k, t) => n
  }

  /** Smaller nodes: linked through their right links, their left subtrees attached. */
  ghost predicate LeftRep(s: Side, hdr: Islot, inull: Islot)
    reads SideNodes(s), hdr`i_rln
  {
    match s
    case Header => true
    case Linked(o, n, k, t) =>
      && n != inull && n != hdr && n.i_ino == k && Last(o, hdr).i_rln == n && Rep(t, n.i_lln, inull)
      && n !in SideNodes(o) && n !in Nodes(t) && SideNodes(o) !! Nodes(t) && hdr !in Nodes(t)
      && LeftRep(o, hdr, inull)
  }

  ghost predicate RightRep(s: Side, hdr: Islot, inull: Islot)
    reads SideNodes(s), hdr`i_lln
  {
    match s
    case Header => true
    case Linked(o, n, k, t) =>
      && n != inull && n != hdr && n.i_ino == k && Last(o, hdr).i_lln == n && Rep(t, n.i_rln, inull)
      && n !in SideNodes(o) && n !in Nodes(t) && SideNodes(o) !! Nodes(t) && hdr !in Nodes(t)
      && RightRep(o, hdr, inull)
  }

  ghost function LeftOrder(s: Side): seq<Entry> {
    match s
    case Header => []
    case Linked(o, n, k, t) => LeftOrder(o) + (InOrder(t) + [Entry(n, k)])
  }

  ghost function RightOrder(s: Side): seq<Entry> {
    match s
    case Header => []
    case Linked(o, n, k, t) => ([Entry(n, k)] + InOrder(t)) + RightOrder(o)
  }

  /** The tree a side becomes when the last node gets its subtree. */
  ghost function LeftTree(s: Side, t: Tree): Tree {
    match s
    case Header => t
    case Linked(o, n, k, sub) => LeftTree(o, Node(sub, n, k, t))
  }

  ghost function RightTree(s: Side, t: Tree): Tree {
    match s
    case Header => t
    case Linked(o, n, k, sub) => RightTree(o, Node(t, n, k, sub))
  }

  lemma Reassociate(a: seq<Entry>, b: seq<Entry>, e: Entry, c: seq<Entry>)
    ensures a + (b + [e]) + c == a + (b + [e] + c)
  {
  }

  lemma Regroup(a: seq<Entry>, e: Entry, b: seq<Entry>, c: seq<Entry>)
    ensures a + (([e] + b) + c) == (a + [e] + b) + c
  {
  }

  lemma {:induction false} LeftTreeHangs(s: Side, t: Tree, hdr: Islot, inull: Islot)
    requires LeftRep(s, hdr, inull) && Rep(t, Last(s, hdr).i_rln, inull) == true && SideNodes(s) !! Nodes(t)
    ensures Rep(LeftTree(s, t), hdr.i_rln, inull) == true
    ensures Nodes(LeftTree(s, t)) == SideNodes(s) + Nodes(t)
    ensures InOrder(LeftTree(s, t)) == LeftOrder(s) + InOrder(t)
    decreases s
  {
    match s {
      case Header =>
        assert [] + InOrder(t) == InOrder(t);
      case Linked(o, n, k, sub) =>
        LeftTreeHangs(o, Node(sub, n, k, t), hdr, inull);
        Reassociate(LeftOrder(o), InOrder(sub), Entry(n, k), InOrder(t));
    }
  }

  lemma {:induction false} RightTreeHangs(s: Side, t: Tree, hdr: Islot, inull: Islot)
    requires RightRep(s, hdr, inull) && Rep(t, Last(s, hdr).i_lln, inull) == true && SideNodes(s) !! Nodes(t)
    ensures Rep(RightTree(s, t), hdr.i_lln, inull) == true
    ensures Nodes(RightTree(s, t)) == SideNodes(s) + Nodes(t)
    ensures InOrder(RightTree(s, t)) == InOrder(t) + RightOrder(s)
    decreases s
  {
    match s {
      case Header =>
        assert InOrder(t) + [] == InOrder(t);
      case Linked(o, n, k, sub) =>
        RightTreeHangs(o, Node(t, n, k, sub), hdr, inull);
        Regroup(InOrder(t), Entry(n, k), InOrder(sub), RightOrder(o));
    }
  }

  // ---- Splaying ----

  /** The three parts the tree is in while it is being splayed. */
  datatype Parts = Parts(l: Side, t: Tree, r: Side)

  ghost predicate Apart(p: Parts, x: Islot?, hdr: Islot, leftmax: Islot, rightmin: Islot, inull: Islot)
    reads SideNodes(p.l), SideNodes(p.r), Nodes(p.t), hdr`i_lln, hdr`i_rln
  {
    && p.t.Node? && Rep(p.t, x, inull) && LeftRep(p.l, hdr, inull) && RightRep(p.r, hdr, inull)
    && leftmax == Last(p.l, hdr) && rightmin == Last(p.r, hdr)
    && SideNodes(p.l) !! Nodes(p.t) && SideNodes(p.r) !! Nodes(p.t) && SideNodes(p.l) !! SideNodes(p.r)
    && hdr != inull && hdr !in SideNodes(p.l) && hdr !in SideNodes(p.r) && hdr !in Nodes(p.t)
    && inull !in SideNodes(p.l) && inull !in SideNodes(p.r) && inull !in Nodes(p.t)
  }

  ghost function AllNodes(p: Parts): set<Islot> { SideNodes(p.l) + Nodes(p.t) + SideNodes(p.r) }

  ghost function Order(p: Parts): seq<Entry> { LeftOrder(p.l) + InOrder(p.t) + RightOrder(p.r) }

  /** What has been split off lies on its side of the key sought. */
  ghost predicate Split(p: Parts, ino: int) {
    && (forall e :: e in LeftOrder(p.l) ==> e.key < ino)
    && (forall e :: e in RightOrder(p.r) ==> e.key > ino)
  }

  /** Rotates the left child above `x`. */
  method RotateRight(x: Islot, inull: Islot, ghost t: Tree) returns (y: Islot, ghost t': Tree)
    requires Rep(t, x, inull) == true && t.Node? && t.left.Node?
    modifies Nodes(t)
    ensures Rep(t', y, inull) == true && Nodes(t') == Nodes(t) && InOrder(t') == InOrder(t)
    ensures t' == Node(t.left.left, t.left.node, t.left.key, Node(t.left.right, t.node, t.key, t.right))
  {
    ghost var a, b, c := t.left.left, t.left.right, t.right;
    y := x.i_lln;
    x.i_lln := y.i_rln;
    y.i_rln := x;
    t' := Node(a, t.left.node, t.left.key, Node(b, t.node, t.key, c));
    assert InOrder(t') == InOrder(a) + [Entry(y, t.left.key)] + InOrder(b) + [Entry(x, t.key)] + InOrder(c);
  }

  method RotateLeft(x: Islot, inull: Islot, ghost t: Tree) returns (y: Islot, ghost t': Tree)
    requires Rep(t, x, inull) == true && t.Node? && t.right.Node?
    modifies Nodes(t)
    ensures Rep(t', y, inull) == true && Nodes(t') == Nodes(t) && InOrder(t') == InOrder(t)
    ensures t' == Node(Node(t.left, t.node, t.key, t.right.left), t.right.node, t.right.key, t.right.right)
  {
    ghost var a, b, c := t.left, t.right.left, t.right.right;
    y := x.i_rln;
    x.i_rln := y.i_lln;
    y.i_lln := x;
    t' := Node(Node(a, t.node, t.key, b), t.right.node, t.right.key, c);
    assert InOrder(t') == InOrder(a) + [Entry(x, t.key)] + InOrder(b) + [Entry(y, t.right.key)] + InOrder(c);
  }

  /** `x` and what lies to its right go to the right side; its left subtree is next. */
  method LinkRight(x: Islot, rightmin: Islot, hdr: Islot, leftmax: Islot, inull: Islot, ghost p: Parts)
    returns (x': Islot, rightmin': Islot, ghost p': Parts)
    requires Apart(p, x, hdr, leftmax, rightmin, inull) == true && p.t.left.Node?
    modifies AllNodes(p), hdr
    ensures Apart(p', x', hdr, leftmax, rightmin', inull) == true && AllNodes(p') == AllNodes(p)
    ensures p' == Parts(p.l, p.t.left, Linked(p.r, p.t.node, p.t.key, p.t.right))
  {
    assert Rep(p.t.left, x.i_lln, inull) && x.i_lln == p.t.left.node;
    rightmin.i_lln := x;
    rightmin' := x;
    x' := x.i_lln;
    p' := Parts(p.l, p.t.left, Linked(p.r, p.t.node, p.t.key, p.t.right));
    assert SideNodes(p'.r) == SideNodes(p.r) + {x} + Nodes(p.t.right) && Last(p'.r, hdr) == x;
    assert Nodes(p.t) == Nodes(p.t.left) + {x} + Nodes(p.t.right);
    assert Apart(p', x', hdr, leftmax, rightmin', inull);
  }

  lemma AroundNode(lo: seq<Entry>, a: seq<Entry>, e: Entry, b: seq<Entry>, ro: seq<Entry>)
    ensures lo + (a + [e] + b) + ro == (lo + a) + [e] + (b + ro)
  {
  }

  lemma OrderAround(p: Parts)
    requires p.t.Node?
    ensures Order(p) == (LeftOrder(p.l) + InOrder(p.t.left)) + [Entry(p.t.node, p.t.key)]
        + (InOrder(p.t.right) + RightOrder(p.r))
  {
    AroundNode(LeftOrder(p.l), InOrder(p.t.left), Entry(p.t.node, p.t.key), InOrder(p.t.right), RightOrder(p.r));
  }

  lemma KeysAround(a: seq<Entry>, e: Entry, b: seq<Entry>, f: Entry)
    requires Ascending(a + [e] + b)
    ensures f in a ==> f.key < e.key
    ensures f in b ==> f.key > e.key
  {
    var es := a + [e] + b;
    assert es[|a|] == e;
    if f in a {
      var i :| 0 <= i < |a| && a[i] == f;
      assert es[i] == f;
    }
    if f in b {
      var i :| 0 <= i < |b| && b[i] == f;
      assert es[|a| + 1 + i] == f;
    }
  }

  lemma RightSplit(p: Parts, p': Parts, ino: int)
    requires p.t.Node? && ino < p.t.key && Split(p, ino) && Ascending(Order(p))
    requires p' == Parts(p.l, p.t.left, Linked(p.r, p.t.node, p.t.key, p.t.right))
    ensures Order(p') == Order(p) && Split(p', ino)
  {
    hide InOrder, Ascending;
    OrderAround(p);
    var e, a, b := Entry(p.t.node, p.t.key), LeftOrder(p.l) + InOrder(p.t.left), InOrder(p.t.right) + RightOrder(p.r);
    Regroup(a, e, InOrder(p.t.right), RightOrder(p.r));
    assert RightOrder(p'.r) == [e] + b;
    assert a + [e] + b == a + ([e] + b);
    forall f | f in RightOrder(p'.r) ensures f.key > ino {
      KeysAround(a, e, b, f);
    }
  }

  method LinkLeft(x: Islot, leftmax: Islot, hdr: Islot, rightmin: Islot, inull: Islot, ghost p: Parts)
    returns (x': Islot, leftmax': Islot, ghost p': Parts)
    requires Apart(p, x, hdr, leftmax, rightmin, inull) == true && p.t.right.Node?
    modifies AllNodes(p), hdr
    ensures Apart(p', x', hdr, leftmax', rightmin, inull) == true && AllNodes(p') == AllNodes(p)
    ensures p' == Parts(Linked(p.l, p.t.node, p.t.key, p.t.left), p.t.right, p.r)
  {
    assert Rep(p.t.right, x.i_rln, inull) && x.i_rln == p.t.right.node;
    leftmax.i_rln := x;
    leftmax' := x;
    x' := x.i_rln;
    p' := Parts(Linked(p.l, p.t.node, p.t.key, p.t.left), p.t.right, p.r);
    assert SideNodes(p'.l) == SideNodes(p.l) + {x} + Nodes(p.t.left) && Last(p'.l, hdr) == x;
    assert Nodes(p.t) == Nodes(p.t.left) + {x} + Nodes(p.t.right);
    assert Apart(p', x', hdr, leftmax', rightmin, inull);
  }

  lemma LeftSplit(p: Parts, p': Parts, ino: int)
    requires p.t.Node? && ino > p.t.key && Split(p, ino) && Ascending(Order(p))
    requires p' == Parts(Linked(p.l, p.t.node, p.t.key, p.t.left), p.t.right, p.r)
    ensures Order(p') == Order(p) && Split(p', ino)
  {
    hide InOrder, Ascending;
    OrderAround(p);
    var e, a, b := Entry(p.t.node, p.t.key), LeftOrder(p.l) + InOrder(p.t.left), InOrder(p.t.right) + RightOrder(p.r);
    assert LeftOrder(p'.l) == a + [e];
    assert (a + [e]) + InOrder(p.t.right) + RightOrder(p.r) == a + [e] + b;
    forall f | f in LeftOrder(p'.l) ensures f.key < ino {
      KeysAround(a, e, b, f);
    }
  }

  // ---- The whole splay ----

  /** No key lies strictly between the root's and the one sought; in particular the sought key is at the root if it is
      there. */
  ghost predicate Nearest(es: seq<Entry>, root: int, ino: int) {
    forall e {:trigger e in es} :: e in es ==> !(root < e.key <= ino) && !(ino <= e.key < root)
  }

  lemma SplitNearest(p: Parts, ino: int)
    requires p.t.Node? && Split(p, ino) && Ascending(Order(p))
    requires p.t.key == ino || (ino < p.t.key && p.t.left == Leaf) || (ino > p.t.key && p.t.right == Leaf)
    ensures Nearest(Order(p), p.t.key, ino)
  {
    OrderAround(p);
    hide Ascending;
    var k, a, b := Entry(p.t.node, p.t.key), LeftOrder(p.l) + InOrder(p.t.left), InOrder(p.t.right) + RightOrder(p.r);
    forall e | e in Order(p) ensures !(p.t.key < e.key <= ino) && !(ino <= e.key < p.t.key) {
      KeysAround(a, k, b, e);
      assert p.t.left == Leaf ==> a == LeftOrder(p.l);
      assert p.t.right == Leaf ==> b == RightOrder(p.r);
    }
  }

  method CloseLeft(x: Islot, hdr: Islot, leftmax: Islot, inull: Islot, ghost p: Parts)
    requires p.t.Node? && Rep(p.t, x, inull) && LeftRep(p.l, hdr, inull) && leftmax == Last(p.l, hdr)
    requires SideNodes(p.l) !! Nodes(p.t) && hdr !in SideNodes(p.l) && hdr !in Nodes(p.t)
    modifies SideNodes(p.l), hdr`i_rln
    ensures Rep(LeftTree(p.l, p.t.left), hdr.i_rln, inull) == true
    ensures Nodes(LeftTree(p.l, p.t.left)) == SideNodes(p.l) + Nodes(p.t.left)
    ensures InOrder(LeftTree(p.l, p.t.left)) == LeftOrder(p.l) + InOrder(p.t.left)
  {
    leftmax.i_rln := x.i_lln;
    assert Rep(p.t.left, x.i_lln, inull) == true;
    assert LeftRep(p.l, hdr, inull);
    LeftTreeHangs(p.l, p.t.left, hdr, inull);
  }

  method CloseRight(x: Islot, hdr: Islot, rightmin: Islot, inull: Islot, ghost p: Parts)
    requires p.t.Node? && Rep(p.t, x, inull) && RightRep(p.r, hdr, inull) && rightmin == Last(p.r, hdr)
    requires SideNodes(p.r) !! Nodes(p.t) && hdr !in SideNodes(p.r) && hdr !in Nodes(p.t)
    modifies SideNodes(p.r), hdr`i_lln
    ensures Rep(RightTree(p.r, p.t.right), hdr.i_lln, inull) == true
    ensures Nodes(RightTree(p.r, p.t.right)) == SideNodes(p.r) + Nodes(p.t.right)
    ensures InOrder(RightTree(p.r, p.t.right)) == InOrder(p.t.right) + RightOrder(p.r)
  {
    rightmin.i_lln := x.i_rln;
    assert Rep(p.t.right, x.i_rln, inull) == true;
    assert RightRep(p.r, hdr, inull);
    RightTreeHangs(p.r, p.t.right, hdr, inull);
  }

  /** Joins the parts again, with `x` at the root. */
  method Join(x: Islot, hdr: Islot, leftmax: Islot, rightmin: Islot, inull: Islot, ghost p: Parts)
    returns (ghost t: Tree)
    requires Apart(p, x, hdr, leftmax, rightmin, inull) == true
    modifies AllNodes(p), hdr
    ensures Rep(t, x, inull) == true && Nodes(t) == AllNodes(p) && InOrder(t) == Order(p) && t.Node? && t.key == p.t.key
  {
    assert allocated(SideNodes(p.l)) && allocated(SideNodes(p.r)) && allocated(Nodes(p.t));
    CloseLeft(x, hdr, leftmax, inull, p);
    assert Rep(p.t, x, inull) == true && RightRep(p.r, hdr, inull) == true;
    ghost var a, b := LeftTree(p.l, p.t.left), RightTree(p.r, p.t.right);
    assert allocated(Nodes(a));
    CloseRight(x, hdr, rightmin, inull, p);
    assert Rep(a, hdr.i_rln, inull) == true;
    t := Node(a, x, p.t.key, b);
    SetLinks(x, hdr, inull, a, b, p.t.key);
    JoinedOrder(p, t);
  }

  lemma JoinedOrder(p: Parts, t: Tree)
    requires p.t.Node? && t == Node(LeftTree(p.l, p.t.left), p.t.node, p.t.key, RightTree(p.r, p.t.right))
    requires InOrder(t.left) == LeftOrder(p.l) + InOrder(p.t.left)
        && InOrder(t.right) == InOrder(p.t.right) + RightOrder(p.r)
    requires Nodes(t.left) == SideNodes(p.l) + Nodes(p.t.left) && Nodes(t.right) == SideNodes(p.r) + Nodes(p.t.right)
    ensures InOrder(t) == Order(p) && Nodes(t) == AllNodes(p)
  {
    OrderAround(p);
  }

  method SetLinks(x: Islot, hdr: Islot, inull: Islot, ghost a: Tree, ghost b: Tree, ghost key: int)
    requires Rep(a, hdr.i_rln, inull) == true && Rep(b, hdr.i_lln, inull) == true
    requires x != hdr && x != inull && x.i_ino == key && x !in Nodes(a) && x !in Nodes(b) && Nodes(a) !! Nodes(b)
    modifies x`i_lln, x`i_rln
    ensures Rep(Node(a, x, key, b), x, inull) == true
  {
    x.i_lln := hdr.i_rln;
    x.i_rln := hdr.i_lln;
    assert Rep(a, x.i_lln, inull) == true && Rep(b, x.i_rln, inull) == true;
  }

  /** The left child's key, or that of the sentinel. */
  lemma LeftChild(t: Tree, x: Islot?, inull: Islot)
    requires t.Node? && Rep(t, x, inull) == true
    ensures x != null && x.i_ino == t.key && x.i_lln != null
    ensures if t.left == Leaf then x.i_lln == inull else x.i_lln == t.left.node != inull && x.i_lln.i_ino == t.left.key
  {
    assert Rep(t.left, x.i_lln, inull);
  }

  lemma RightChild(t: Tree, x: Islot?, inull: Islot)
    requires t.Node? && Rep(t, x, inull) == true
    ensures x != null && x.i_ino == t.key && x.i_rln != null
    ensures if t.right == Leaf then x.i_rln == inull
        else x.i_rln == t.right.node != inull && x.i_rln.i_ino == t.right.key
  {
    assert Rep(t.right, x.i_rln, inull);
  }

  /** The key sought is smaller than the root's. */
  method GoLeft(ino: int, x: Islot, rightmin: Islot, hdr: Islot, leftmax: Islot, inull: Islot, ghost p: Parts)
    returns (x': Islot, rightmin': Islot, ghost p': Parts, done: bool)
    requires Apart(p, x, hdr, leftmax, rightmin, inull) == true && Split(p, ino) && Ascending(Order(p))
    requires inull.i_ino == ino < x.i_ino
    modifies AllNodes(p), hdr
    ensures Apart(p', x', hdr, leftmax, rightmin', inull) == true && AllNodes(p') == AllNodes(p)
    ensures Order(p') == Order(p) && Split(p', ino)
    ensures if done then ino < p'.t.key && p'.t.left == Leaf else p'.t < p.t
  {
    x', rightmin', p' := x, rightmin, p;
    LeftChild(p.t, x, inull);
    if ino < x'.i_lln.i_ino {
      assert allocated(SideNodes(p.l)) && allocated(SideNodes(p.r));
      ghost var t;
      x', t := RotateRight(x', inull, p.t);
      p' := Parts(p.l, t, p.r);
      SameOrder(p, p', ino);
      assert LeftRep(p.l, hdr, inull) == true && RightRep(p.r, hdr, inull) == true;
      assert Apart(p', x', hdr, leftmax, rightmin, inull) == true;
    }
    LeftChild(p'.t, x', inull);
    if x'.i_lln == inull {
      done := true;
    } else {
      done := false;
      ghost var p1 := p';
      x', rightmin', p' := LinkRight(x', rightmin, hdr, leftmax, inull, p');
      RightSplit(p1, p', ino);
    }
  }

  lemma SameOrder(p: Parts, p': Parts, ino: int)
    requires p'.l == p.l && p'.r == p.r && InOrder(p'.t) == InOrder(p.t)
    ensures Order(p') == Order(p) && (Split(p, ino) ==> Split(p', ino))
  {
  }

  method GoRight(ino: int, x: Islot, leftmax: Islot, hdr: Islot, rightmin: Islot, inull: Islot, ghost p: Parts)
    returns (x': Islot, leftmax': Islot, ghost p': Parts, done: bool)
    requires Apart(p, x, hdr, leftmax, rightmin, inull) == true && Split(p, ino) && Ascending(Order(p))
    requires inull.i_ino == ino > x.i_ino
    modifies AllNodes(p), hdr
    ensures Apart(p', x', hdr, leftmax', rightmin, inull) == true && AllNodes(p') == AllNodes(p)
    ensures Order(p') == Order(p) && Split(p', ino)
    ensures if done then ino > p'.t.key && p'.t.right == Leaf else p'.t < p.t
  {
    x', leftmax', p' := x, leftmax, p;
    RightChild(p.t, x, inull);
    if ino > x'.i_rln.i_ino {
      assert allocated(SideNodes(p.l)) && allocated(SideNodes(p.r));
      ghost var t;
      x', t := RotateLeft(x', inull, p.t);
      p' := Parts(p.l, t, p.r);
      SameOrder(p, p', ino);
      assert LeftRep(p.l, hdr, inull) == true && RightRep(p.r, hdr, inull) == true;
      assert Apart(p', x', hdr, leftmax, rightmin, inull) == true;
    }
    RightChild(p'.t, x', inull);
    if x'.i_rln == inull {
      done := true;
    } else {
      done := false;
      ghost var p1 := p';
      x', leftmax', p' := LinkLeft(x', leftmax, hdr, rightmin, inull, p');
      LeftSplit(p1, p', ino);
    }
  }

  /** Splays the tree: it stays the same in order, and the key sought or a neighbour of it comes to the root. */
  method Isplay(ino: int, x0: Islot, inull: Islot, ghost t0: Tree) returns (x: Islot, ghost t: Tree)
    requires t0.Node? && Rep(t0, x0, inull) == true && Ascending(InOrder(t0))
    modifies Nodes(t0), inull
    ensures Rep(t, x, inull) == true && Nodes(t) == Nodes(t0) && InOrder(t) == InOrder(t0)
    ensures t.Node? && x.i_ino == t.key && Nearest(InOrder(t), t.key, ino)
  {
    SentinelOutside(t0, x0, inull);
    assert allocated(Nodes(t0));
    var hdr := new Islot(0);
    hdr.i_lln := inull;
    hdr.i_rln := inull;
    inull.i_ino := ino;
    assert Rep(t0, x0, inull) == true;
    x, t := SplayFrom(ino, x0, hdr, inull, t0);
    assert Rep(t, x, inull) == true;
    SentinelOutside(t, x, inull);
    assert allocated(Nodes(t));
    inull.i_ino := if ino == 0 then 1 else 0;
    assert Rep(t, x, inull) == true;
  }

  method SplayFrom(ino: int, x0: Islot, hdr: Islot, inull: Islot, ghost t0: Tree) returns (x: Islot, ghost t: Tree)
    requires t0.Node? && Rep(t0, x0, inull) == true && Ascending(InOrder(t0))
    requires hdr != inull && hdr !in Nodes(t0) && inull !in Nodes(t0) && inull.i_ino == ino
    modifies Nodes(t0), hdr
    ensures Rep(t, x, inull) == true && Nodes(t) == Nodes(t0) && InOrder(t) == InOrder(t0)
    ensures t.Node? && x.i_ino == t.key && Nearest(InOrder(t), t.key, ino)
  {
    var leftmax, rightmin := hdr, hdr;
    x := x0;
    ghost var p := Parts(Header, t0, Header);
    NothingSplit(p, ino);
    LeftChild(p.t, x, inull);
    while ino != x.i_ino
      invariant Apart(p, x, hdr, leftmax, rightmin, inull) == true && AllNodes(p) == Nodes(t0)
      invariant Order(p) == InOrder(t0) && Split(p, ino) && x.i_ino == p.t.key
      decreases p.t
    {
      var done;
      if ino < x.i_ino {
        x, rightmin, p, done := GoLeft(ino, x, rightmin, hdr, leftmax, inull, p);
      } else {
        x, leftmax, p, done := GoRight(ino, x, leftmax, hdr, rightmin, inull, p);
      }
      LeftChild(p.t, x, inull);
      if done {
        break;
      }
    }
    SplitNearest(p, ino);
    t := Join(x, hdr, leftmax, rightmin, inull, p);
    LeftChild(t, x, inull);
  }

  lemma NothingSplit(p: Parts, ino: int)
    requires p.l == Header && p.r == Header
    ensures Split(p, ino) && Order(p) == InOrder(p.t) && AllNodes(p) == Nodes(p.t)
  {
    assert [] + InOrder(p.t) + [] == InOrder(p.t);
  }
}
