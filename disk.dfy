/** The synchronous disk that the file system layer reads and writes
    (synchDisk): a fixed array of sectors. Headers and index blocks are
    arrays of ints, so a sector is modelled as SlotsPerBlock words. */
module Disk {
  import opened Geometry

  type Block = seq<int>

  predicate IsBlock(b: Block) { |b| == SlotsPerBlock }

  /** The contents of a freshly constructed index block: every slot absent. */
  function FreshBlock(): (b: Block)
    ensures IsBlock(b)
  {
    seq(SlotsPerBlock, _ => Absent)
  }

  /** A sector that was never written reads as zeros. */
  function ZeroBlock(): (b: Block)
    ensures IsBlock(b)
  {
    seq(SlotsPerBlock, _ => 0)
  }

  predicate IsDisk(d: seq<Block>)
  {
    |d| == NumSectors && forall s :: 0 <= s < |d| ==> IsBlock(d[s])
  }

  class SynchDisk {
    var blocks: seq<Block>

    ghost predicate Valid()
      reads this
    {
      IsDisk(blocks)
    }

    constructor ()
      ensures Valid()
      ensures forall s :: 0 <= s < NumSectors ==> blocks[s] == ZeroBlock()
    {
      blocks := seq(NumSectors, _ => ZeroBlock());
    }

    function ReadSector(s: int): (b: Block)
      reads this
      requires Valid() && InRange(s)
      ensures IsBlock(b)
    {
      blocks[s]
    }

    method WriteSector(s: int, b: Block)
      requires Valid() && InRange(s) && IsBlock(b)
      modifies this
      ensures Valid()
      ensures blocks == old(blocks)[s := b]
    {
      blocks := blocks[s := b];
    }
  }
}
