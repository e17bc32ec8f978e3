/** Blocks of signed characters with a cursor, and the macros that move through them. */
module DcBlk {
  import opened DcValue

  const EOF: int := -1

  /** What a signed char keeps of a number stored in it. */
  function SChar(c: int): (r: int)
    ensures -128 <= r <= 127 && (-128 <= c <= 127 ==> r == c)
  {
    (c + 128) % 256 - 128
  }

  class Blk {
    /** The characters from `beg` to `wt`. */
    var data: seq<int>
    /** The cursor, counted from `beg`. */
    var rd: nat

    constructor ()
      ensures data == [] && rd == 0
    {
      data, rd := [], 0;
    }

    /** `copy`: a block of its own with the same contents. */
    constructor Copy(p: Blk)
      ensures data == p.data && rd == 0
    {
      data, rd := p.data, 0;
    }

    function Length(): nat
      reads this
    {
      |data|
    }

    predicate SfEof()
      reads this
    {
      rd >= |data|
    }

    predicate SfBeg()
      reads this
    {
      rd == 0
    }

    method Rewind()
      modifies `rd
      ensures rd == 0
    {
      rd := 0;
    }

    method FsFile()
      modifies `rd
      ensures rd == |data|
    {
      rd := |data|;
    }

    method Create()
      modifies this
      ensures data == [] && rd == 0
    {
      data, rd := [], 0;
    }

    method Truncate()
      requires rd <= |data|
      modifies `data
      ensures data == old(data)[..rd]
    {
      data := data[..rd];
    }

    function SlookC(): int
      reads this
    {
      if rd >= |data| then EOF else data[rd]
    }

    method SgetC() returns (c: int)
      requires rd <= |data|
      modifies `rd
      ensures if old(rd) == |data| then c == EOF && rd == old(rd) else c == data[old(rd)] && rd == old(rd) + 1
    {
      if rd == |data| {
        return EOF;
      }
      c := data[rd];
      rd := rd + 1;
    }

    method SbackC() returns (c: int)
      requires rd <= |data|
      modifies `rd
      ensures if old(rd) == 0 then c == EOF && rd == 0 else rd == old(rd) - 1 && c == data[rd]
    {
      if rd == 0 {
        return EOF;
      }
      rd := rd - 1;
      c := data[rd];
    }

    method SputC(c: int)
      modifies `data
      ensures data == old(data) + [SChar(c)]
    {
      data := data + [SChar(c)];
    }

    method SalterC(c: int)
      requires rd <= |data|
      modifies this
      ensures rd == old(rd) + 1
      ensures data == if old(rd) < |old(data)| then old(data)[old(rd) := SChar(c)] else old(data) + [SChar(c)]
    {
      if rd < |data| {
        data := data[rd := SChar(c)];
      } else {
        data := data + [SChar(c)];
      }
      rd := rd + 1;
    }

    /** Moves the cursor to `n`; a block that is too short is lengthened by characters of any value. */
    method SeekC(n: nat)
      modifies this
      ensures rd == n && n <= |data| && |data| == (if n > |old(data)| then n else |old(data)|)
      ensures data[..|old(data)|] == old(data)
    {
      if n > |data| {
        var more: seq<int> := *;
        if |more| == n - |data| {
          data := data + more;
        } else {
          data := data + seq(n - |data|, _ => 0);
        }
      }
      rd := n;
    }
  }
}
