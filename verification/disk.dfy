/** The disk image in memory, and the allocation of blocks. */
module Disks {
  import opened Specs
  import opened Bitmap
  import opened Layout

  /** The free blocks, lowest first. */
  function FreeBlocks(t: Tables): seq<nat> {
    FreeFrom(t.bbm, 2)
  }

  /** The free inodes, lowest first. */
  function FreeInodes(t: Tables): seq<nat> {
    FreeFrom(t.ibm, 0)
  }

  /** The bitmaps, the inode table and the bytes of all blocks are fixed-size buffers that the
    operations update in place; `own` records which file every block and inode in use belongs to. */
  class Disk {
    const blockBitmap: array<bv8>
    const inodeBitmap: array<bv8>
    const inodes: array<Inode>
    const mem: array<byte>
    ghost var own: Owners

    ghost predicate Shape() {
      && blockBitmap.Length == 32 && inodeBitmap.Length == 32 && blockBitmap != inodeBitmap
      && inodes.Length == 254
      && mem.Length == 0x10_0000 && (mem as object) !in {blockBitmap as object, inodeBitmap, inodes}
    }

    /** The buffer is no part of the disk image. */
    ghost predicate Outside(buf: array<byte>) {
      buf != mem && (buf as object) !in {blockBitmap as object, inodeBitmap, inodes}
    }

    ghost function Tab(): (t: Tables)
      requires Shape()
      reads blockBitmap, inodeBitmap, inodes
      ensures |t.bbm| == 256 && |t.ibm| == 254 && |t.nodes| == 254
    {
      Tables(Bits(blockBitmap[..], 256), Bits(inodeBitmap[..], 254), inodes[..])
    }

    ghost predicate Valid()
      reads this, blockBitmap, inodeBitmap, inodes
    {
      Shape() && Wf(Tab(), own)
    }

    /** Between operations no chain ends in a dangling successor. */
    ghost predicate Ready()
      reads this, blockBitmap, inodeBitmap, inodes
    {
      Valid() && forall h :: h in own.files ==> own.files[h].after == -1
    }

    /** A zeroed image with blocks 0 and 1 marked as occupied. */
    constructor ()
      ensures Ready() && fresh(blockBitmap) && fresh(inodeBitmap) && fresh(inodes) && fresh(mem)
      ensures own.files == map[]
      ensures forall i :: 0 <= i < mem.Length ==> mem[i] == 0
    {
      blockBitmap := new bv8[32](_ => 0);
      inodeBitmap := new bv8[32](_ => 0);
      inodes := new Inode[254](_ => Inode(0, 0, 0, [0, 0, 0, 0], 0));
      mem := new byte[0x10_0000](_ => 0);
      own := Owners(map[], map[], map[]);
      new;
      ghost var zeroed := blockBitmap[..];
      ZeroedBits(zeroed, 256);
      ZeroedBits(inodeBitmap[..], 254);
      BitmapPut(blockBitmap, 0, true);
      BitmapPut(blockBitmap, 1, true);
      assert Tab().bbm == Bits(zeroed, 256)[0 := true][1 := true];
    }
  }

  /** Stores one entry of the inode table. */
  method Store(d: Disk, x: nat, n: Inode)
    requires d.Shape() && x < 254
    modifies d.inodes
    ensures d.Tab() == old(d.Tab()).(nodes := old(d.Tab()).nodes[x := n])
  {
    d.inodes[x] := n;
  }

  /** Marks the first free block as used and returns its number. */
  method BlockAlloc(d: Disk) returns (bnum: int)
    requires d.Shape()
    modifies d.blockBitmap
    ensures var t := old(d.Tab());
            if FreeBlocks(t) == [] then
              bnum == -ENOSPC && d.Tab() == t
            else
              && bnum == FreeBlocks(t)[0]
              && d.Tab() == t.(bbm := t.bbm[bnum := true])
              && FreeBlocks(d.Tab()) == FreeBlocks(t)[1..]
  {
    ghost var t := d.Tab();
    for b := 2 to 256
      invariant d.Tab() == t
      invariant forall i :: 2 <= i < b ==> t.bbm[i]
    {
      var used := BitmapGet(d.blockBitmap, b);
      if !used {
        BitmapPut(d.blockBitmap, b, true);
        TakeLowest(t.bbm, 2, b);
        return b;
      }
    }
    NoneFree(t.bbm, 2);
    return -ENOSPC;
  }

  method BlockFree(d: Disk, bnum: nat)
    requires d.Shape() && bnum < 256
    modifies d.blockBitmap
    ensures d.Tab() == old(d.Tab()).(bbm := old(d.Tab()).bbm[bnum := false])
  {
    BitmapPut(d.blockBitmap, bnum, false);
  }
}
