/** Counting every inode's blocks once, however many links to it are met. */
module DiskUsage {
  import opened Splay
  import opened InodeTree

  /** What `stat` says about a file on the device. */
  datatype Stat = Stat(ino: int, nlink: int, blocks: int)

  /** Whether file `i` is the first of its links, or has no others. */
  ghost predicate First(files: seq<Stat>, i: nat)
    requires i < |files|
  {
    files[i].nlink <= 1 || forall j :: 0 <= j < i && files[j].nlink > 1 ==> files[j].ino != files[i].ino
  }

  /** The blocks of the first `n` files, each inode counted once. */
  ghost function Once(files: seq<Stat>, n: nat): int
    requires n <= |files|
  {
    if n == 0 then 0 else Once(files, n - 1) + if First(files, n - 1) then files[n - 1].blocks else 0
  }

  /** Tells whether the inode has been met before, and remembers it. */
  method Multilink(d: Inodes, ino: int) returns (seen: bool)
    requires d.Valid()
    modifies d, Nodes(d.tree), d.inull
    ensures d.Valid() && fresh(Nodes(d.tree) - old(Nodes(d.tree)))
    ensures seen <==> ino in old(d.Contents())
    ensures d.Contents().Keys == old(d.Contents()).Keys + {ino}
  {
    var ip := d.Ifind(ino);
    if ip == null {
      assert allocated(Nodes(d.tree));
      ip := new Islot(ino);
      assert d.Valid() == true;
      d.Iput(ip);
      seen := false;
    } else {
      seen := true;
    }
  }

  /** One level of the totals, for files on one device. */
  method Total(files: seq<Stat>) returns (total: int)
    ensures total == Once(files, |files|)
  {
    var d := new Inodes();
    total := 0;
    var i := 0;
    while i < |files|
      invariant 0 <= i <= |files| && fresh(d) && d.Valid() && fresh(d.inull) && fresh(Nodes(d.tree))
      invariant forall k :: k in d.Contents().Keys <==> exists j ::
          0 <= j < i && files[j].nlink > 1 && files[j].ino == k
      invariant total == Once(files, i)
    {
      var f := files[i];
      var seen := false;
      if f.nlink > 1 {
        ghost var before := Nodes(d.tree);
        seen := Multilink(d, f.ino);
        assert allocated(Nodes(d.tree)) && Nodes(d.tree) <= before + (Nodes(d.tree) - before);
      }
      if !seen {
        total := total + f.blocks;
      }
      i := i + 1;
    }
  }
}
