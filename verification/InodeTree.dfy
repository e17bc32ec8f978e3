/** The splay tree as a finite map from inode numbers to nodes. */
module InodeTree {
  import opened Splay

  /** What the nodes in search order say. */
  ghost function MapOf(es: seq<Entry>): map<int, Islot> {
    if es == [] then map[] else MapOf(es[..|es| - 1])[es[|es| - 1].key := es[|es| - 1].node]
  }

  lemma {:induction false} MapHas(es: seq<Entry>, k: int)
    ensures k in MapOf(es) ==> exists e :: e in es && e.key == k
    ensures forall e :: e in es ==> e.key in MapOf(es)
  {
    if es != [] {
      MapHas(es[..|es| - 1], k);
      assert es == es[..|es| - 1] + [es[|es| - 1]];
      if k in MapOf(es) && k == es[|es| - 1].key {
        assert es[|es| - 1] in es;
      }
    }
  }

  lemma {:induction false} MapAt(es: seq<Entry>, e: Entry)
    requires Ascending(es) && e in es
    ensures e.key in MapOf(es) && MapOf(es)[e.key] == e.node
  {
    var n := |es| - 1;
    if e != es[n] {
      assert es == es[..n] + [es[n]];
      var i :| 0 <= i < n && es[i] == e;
      assert es[i].key < es[n].key;
      MapAt(es[..n], e);
    }
  }

  lemma AscendingWithout(a: seq<Entry>, e: Entry, b: seq<Entry>)
    requires Ascending(a + [e] + b)
    ensures Ascending(a + b)
  {
    var es := a + [e] + b;
    forall i, j {:trigger (a + b)[i], (a + b)[j]} | 0 <= i < j < |a + b| ensures (a + b)[i].key < (a + b)[j].key {
      assert es[if i < |a| then i else i + 1] == (a + b)[i];
      assert es[if j < |a| then j else j + 1] == (a + b)[j];
    }
  }

  /** A further node in its place adds its key to the map. */
  lemma MapInsert(a: seq<Entry>, e: Entry, b: seq<Entry>)
    requires Ascending(a + [e] + b)
    ensures MapOf(a + [e] + b) == MapOf(a + b)[e.key := e.node]
  {
    var es, fs := a + [e] + b, a + b;
    AscendingWithout(a, e, b);
    forall k ensures k in MapOf(es) <==> k in MapOf(fs)[e.key := e.node]
    {
      MapHas(es, k);
      MapHas(fs, k);
    }
    forall k | k in MapOf(es) ensures MapOf(es)[k] == MapOf(fs)[e.key := e.node][k] {
      MapHas(es, k);
      var f :| f in es && f.key == k;
      MapAt(es, f);
      MapAt(es, e);
      if k != e.key {
        assert f in fs;
        MapAt(fs, f);
      }
    }
  }

  /** A root next to the key to be put: everything left of it is smaller, everything right of it greater. */
  lemma InsertAscends(a: seq<Entry>, r: Entry, b: seq<Entry>, e: Entry)
    requires Ascending(a + [r] + b) && Nearest(a + [r] + b, r.key, e.key) && e.key != r.key
    ensures e.key < r.key ==> Ascending(a + [e] + ([r] + b))
    ensures e.key > r.key ==> Ascending((a + [r]) + [e] + b)
  {
    var es := a + [r] + b;
    forall f | f in a ensures f.key < r.key && (e.key < r.key ==> f.key < e.key) {
      KeysAround(a, r, b, f);
      assert f in es;
    }
    forall f | f in b ensures f.key > r.key && (e.key > r.key ==> f.key > e.key) {
      KeysAround(a, r, b, f);
      assert f in es;
    }
    if e.key < r.key {
      InsertBetween(a, e, [r] + b, es);
    } else {
      InsertBetween(a + [r], e, b, es);
    }
  }

  lemma InsertBetween(a: seq<Entry>, e: Entry, b: seq<Entry>, es: seq<Entry>)
    requires Ascending(es) && es == a + b
    requires (forall f :: f in a ==> f.key < e.key) && (forall f :: f in b ==> f.key > e.key)
    ensures Ascending(a + [e] + b)
  {
    var fs := a + [e] + b;
    forall i, j {:trigger fs[i], fs[j]} | 0 <= i < j < |fs| ensures fs[i].key < fs[j].key {
      if i < |a| {
        assert fs[i] == es[i] == a[i];
      } else if i > |a| {
        assert fs[i] == es[i - 1] == b[i - 1 - |a|];
      }
      if j < |a| {
        assert fs[j] == es[j] == a[j];
      } else if j > |a| {
        assert fs[j] == es[j - 1] == b[j - 1 - |a|];
      }
    }
  }

  class Inodes {
    var root: Islot?
    const inull: Islot
    ghost var tree: Tree

    ghost predicate Valid()
      reads this, Nodes(tree)
    {
      && (if root == null then tree == Leaf else tree.Node? && Rep(tree, root, inull))
      && Ascending(InOrder(tree)) && inull !in Nodes(tree)
    }

    /** The map the tree stands for. */
    ghost function Contents(): map<int, Islot>
      reads this
    {
      MapOf(InOrder(tree))
    }

    /** The tree has just been splayed for `ino`. */
    ghost predicate Probed(ino: int)
      reads this
    {
      tree.Node? ==> Nearest(InOrder(tree), tree.key, ino)
    }

    constructor ()
      ensures Valid() && Contents() == map[] && Nodes(tree) == {} && fresh(inull)
    {
      root := null;
      inull := new Islot(0);
      tree := Leaf;
    }

    lemma Found(ino: int)
      requires Valid() && Probed(ino)
      ensures root == null ==> ino !in Contents()
      ensures root != null ==> root.i_ino == tree.key && root == tree.node
      ensures root != null ==>
          if root.i_ino == ino then ino in Contents() && Contents()[ino] == root else ino !in Contents()
    {
      MapHas(InOrder(tree), ino);
      if root != null {
        var e := Entry(tree.node, tree.key);
        assert InOrder(tree)[|InOrder(tree.left)|] == e;
        MapAt(InOrder(tree), e);
      }
    }

    method Ifind(ino: int) returns (found: Islot?)
      requires Valid()
      modifies this, Nodes(tree), inull
      ensures Valid() && Contents() == old(Contents()) && Nodes(tree) == old(Nodes(tree)) && Probed(ino)
      ensures found == if ino in Contents() then Contents()[ino] else null
    {
      if root == null {
        Found(ino);
        return null;
      }
      root, tree := Isplay(ino, root, inull, tree);
      SentinelOutside(tree, root, inull);
      Found(ino);
      found := if root.i_ino == ino then root else null;
    }

    /** Puts a node with a new key into the tree, which has been splayed for it. */
    method Iput(ik: Islot)
      requires Valid() && Probed(ik.i_ino) && ik.i_ino !in Contents() && ik !in Nodes(tree) && ik != inull
      modifies this, Nodes(tree), ik
      ensures Valid() && Nodes(tree) == old(Nodes(tree)) + {ik} && ik.i_ino == old(ik.i_ino)
      ensures Contents() == old(Contents())[ik.i_ino := ik]
    {
      Found(ik.i_ino);
      ghost var before := tree;
      if root == null {
        ik.i_lln := inull;
        ik.i_rln := inull;
        root := ik;
        tree := Node(Leaf, ik, ik.i_ino, Leaf);
      } else if ik.i_ino < root.i_ino {
        HangLeft(ik, root, inull, before);
        root := ik;
        tree := Above(before, ik, ik.i_ino);
      } else if root.i_ino < ik.i_ino {
        HangRight(ik, root, inull, before);
        root := ik;
        tree := Above(before, ik, ik.i_ino);
      }
      AboveOrder(before, ik, ik.i_ino);
    }
  }

  /** The tree with a new root, whose children are the parts of the old tree on either side. */
  ghost function Above(t: Tree, n: Islot, key: int): Tree {
    match t
    case Leaf => Node(Leaf, n, key, Leaf)
    case Node(l, m, k, r) =>
      if key < k then Node(l, n, key, Node(Leaf, m, k, r)) else Node(Node(l, m, k, Leaf), n, key, r)
  }

  method HangLeft(ik: Islot, r: Islot, inull: Islot, ghost t: Tree)
    requires t.Node? && Rep(t, r, inull) && ik !in Nodes(t) && ik != inull && ik.i_ino < t.key
    modifies ik`i_lln, ik`i_rln, r`i_lln
    ensures Rep(Above(t, ik, ik.i_ino), ik, inull) == true
  {
    LeftChild(t, r, inull);
    ik.i_lln := r.i_lln;
    ik.i_rln := r;
    r.i_lln := inull;
    assert Rep(t.left, ik.i_lln, inull) == true && Rep(t.right, r.i_rln, inull) == true;
    assert Rep(Node(Leaf, r, t.key, t.right), r, inull);
  }

  method HangRight(ik: Islot, r: Islot, inull: Islot, ghost t: Tree)
    requires t.Node? && Rep(t, r, inull) && ik !in Nodes(t) && ik != inull && ik.i_ino > t.key
    modifies ik`i_lln, ik`i_rln, r`i_rln
    ensures Rep(Above(t, ik, ik.i_ino), ik, inull) == true
  {
    RightChild(t, r, inull);
    ik.i_rln := r.i_rln;
    ik.i_lln := r;
    r.i_rln := inull;
    assert Rep(t.left, r.i_lln, inull) == true && Rep(t.right, ik.i_rln, inull) == true;
    assert Rep(Node(t.left, r, t.key, Leaf), r, inull);
  }

  lemma LowerPart(l: Tree, m: Islot, k: int, r: Tree)
    ensures InOrder(Node(Leaf, m, k, r)) == [Entry(m, k)] + InOrder(r) && Nodes(Node(Leaf, m, k, r)) == {m} + Nodes(r)
    ensures InOrder(Node(l, m, k, Leaf)) == InOrder(l) + [Entry(m, k)] && Nodes(Node(l, m, k, Leaf)) == Nodes(l) + {m}
  {
  }

  /** The parts before and after the new node, together the old tree. */
  lemma AboveParts(t: Tree, n: Islot, key: int) returns (a: seq<Entry>, b: seq<Entry>)
    requires t.Node? ==> Ascending(InOrder(t)) && key != t.key && Nearest(InOrder(t), t.key, key)
    ensures InOrder(Above(t, n, key)) == a + [Entry(n, key)] + b && InOrder(t) == a + b
    ensures Nodes(Above(t, n, key)) == Nodes(t) + {n}
    ensures Ascending(a + [Entry(n, key)] + b)
  {
    hide Ascending, Nearest;
    match t {
      case Leaf =>
        a, b := [], [];
        Single(Entry(n, key));
      case Node(l, m, k, r) =>
        var f := Entry(m, k);
        InsertAscends(InOrder(l), f, InOrder(r), Entry(n, key));
        LowerPart(l, m, k, r);
        if key < k {
          a, b := InOrder(l), [f] + InOrder(r);
        } else {
          a, b := InOrder(l) + [f], InOrder(r);
        }
    }
  }

  lemma Single(e: Entry)
    ensures Ascending([] + [e] + [])
  {
  }

  lemma AboveOrder(t: Tree, n: Islot, key: int)
    requires Ascending(InOrder(t)) && (t.Node? ==> key != t.key && Nearest(InOrder(t), t.key, key))
    ensures Ascending(InOrder(Above(t, n, key))) && Nodes(Above(t, n, key)) == Nodes(t) + {n}
    ensures MapOf(InOrder(Above(t, n, key))) == MapOf(InOrder(t))[key := n]
  {
    hide MapOf, Ascending, Nearest, Above, InOrder;
    var a, b := AboveParts(t, n, key);
    MapInsert(a, Entry(n, key), b);
  }
}
