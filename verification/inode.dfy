/** Allocating, growing, shrinking and freeing inodes. */
module InodeOps {
  import opened Specs
  import opened Bitmap
  import opened Layout
  import opened Sizing
  import opened Moves
  import opened Disks

  /** Resets the first free inode and marks it as used: a new empty file. */
  method InodeAlloc(d: Disk) returns (inum: int)
    requires d.Valid()
    modifies d, d.inodeBitmap, d.inodes
    ensures d.Valid()
    ensures FreeBlocks(d.Tab()) == old(FreeBlocks(d.Tab()))
    ensures var t, g := old(d.Tab()), old(d.own);
            if FreeInodes(t) == [] then
              inum == -ENOSPC && d.Tab() == t && d.own == g
            else
              && inum == FreeInodes(t)[0] && inum !in g.files
              && d.own.files == g.files[inum := EmptyFile(inum)]
              && FreeInodes(d.Tab()) == FreeInodes(t)[1..]
  {
    hide FilesOk, ChainsOwned, BlocksOwned, InodeBits, BlockBits;
    ghost var t, g := d.Tab(), d.own;
    for x := 0 to 254
      invariant d.Tab() == t && d.own == g
      invariant forall i :: 0 <= i < x ==> t.ibm[i]
    {
      var used := BitmapGet(d.inodeBitmap, x);
      if !used {
        d.inodes[x] := RESET_INODE;
        BitmapPut(d.inodeBitmap, x, true);
        TakeLowest(t.ibm, 0, x);
        AddNode(t, g, x);
        d.own := Owners(g.files[x := EmptyFile(x)], g.bown, g.iown[x := Place(x, 0)]);
        assert d.Tab() == Tables(t.bbm, t.ibm[x := true], t.nodes[x := RESET_INODE]);
        return x;
      }
    }
    NoneFree(t.ibm, 0);
    return -ENOSPC;
  }

  // ---- growing ----

  /** What a growth of file `h` by `size` bytes leaves and returns. */
  ghost predicate GrowResult(t: Tables, g: Owners, h: nat, size: int, t': Tables, g': Owners, rv: int)
    requires h in g.files && Shaped(g.files[h])
  {
    var f, fb, fi := g.files[h], FreeBlocks(t), FreeInodes(t);
    && g'.files == g.files[h := Grown(f, size, fb, fi)]
    && FreeBlocks(t') == fb[BlocksFor(f, size, fb, fi)..]
    && FreeInodes(t') == fi[NodesFor(f, size, fb, fi)..]
    && rv == if size < 1 then 0 else if FileFits(f, size, |fb|, |fi|) then size else -ENOSPC
  }

  /** The bytes in the last inode of a file. */
  function Tail(f: File): int {
    TailSize(f.size, |f.chain|)
  }

  /** The guard that asks whether the last block has room for `size` more bytes. */
  predicate FitsLastBlock(f: File, size: int) {
    0 <= Tail(f) + size && 0 <= Tail(f) && Blocks(Tail(f) + size) == Blocks(Tail(f))
  }

  /** How many slots of the last inode are in use. */
  function TailBlocks(f: File): int {
    |f.blocks| - 4 * (|f.chain| - 1)
  }

  lemma TailFacts(f: File)
    requires Shaped(f)
    ensures 1 <= |f.chain| && 0 <= Tail(f) <= 16384
    ensures 0 <= TailBlocks(f) <= 4 && Blocks(Tail(f)) == TailBlocks(f)
    ensures EmptyTail(f) || f.size == 0 <==> Tail(f) == 0
  {
    TailRange(f);
  }

  lemma GrowNothing(t: Tables, g: Owners, h: nat, size: int)
    requires h in g.files && Shaped(g.files[h]) && size < 1
    ensures GrowResult(t, g, h, size, t, g, 0)
  {
    var f, fb, fi := g.files[h], FreeBlocks(t), FreeInodes(t);
    assert f.chain + fi[..0] == f.chain && f.blocks + fb[..0] == f.blocks;
    assert g.files == g.files[h := f];
  }

  /** The last block has room: only the size changes. */
  lemma GrowSizeStep(t: Tables, g: Owners, h: nat, size: int)
    requires Wf(t, g) && h in g.files && Shaped(g.files[h]) && g.files[h].after == -1
    requires 1 <= size && FitsLastBlock(g.files[h], size)
    ensures Last(g.files[h]) < |t.nodes|
    ensures var f, x := g.files[h], Last(g.files[h]);
            var t', g' := t.(nodes := t.nodes[x := t.nodes[x].(size := Tail(f) + size)]),
                          g.(files := g.files[h := WithSize(f, f.size + size)]);
            Wf(t', g')
  {
    hide FilesOk, ChainsOwned, BlocksOwned, InodeBits, BlockBits;
    TailFacts(g.files[h]);
    Resize(t, g, h, g.files[h].size + size);
  }

  lemma GrowSizeDone(t: Tables, g: Owners, h: nat, size: int, t': Tables, g': Owners)
    requires h in g.files && Shaped(g.files[h]) && 1 <= size && FitsLastBlock(g.files[h], size)
    requires FreeBlocks(t') == FreeBlocks(t) && FreeInodes(t') == FreeInodes(t)
    requires g'.files == g.files[h := WithSize(g.files[h], g.files[h].size + size)]
    ensures GrowResult(t, g, h, size, t', g', size)
  {
    hide Shaped, Blocks, Grown, BlocksFor, NodesFor, FileFits;
    TailFacts(g.files[h]);
    GrownInBlock(g.files[h], size, FreeBlocks(t), FreeInodes(t));
  }

  /** A block is needed and none is free. */
  lemma GrowNoBlockStep(t: Tables, g: Owners, h: nat, size: int)
    requires h in g.files && Shaped(g.files[h])
    requires 1 <= size && !FitsLastBlock(g.files[h], size) && TailBlocks(g.files[h]) < 4
    requires FreeBlocks(t) == []
    ensures GrowResult(t, g, h, size, t, g, -ENOSPC)
  {
    var f := g.files[h];
    TailFacts(f);
    GrownNoBlock(f, size, FreeInodes(t));
    assert g.files == g.files[h := f];
  }

  lemma NewBlockShaped(f: File, size: int, b: nat)
    requires Shaped(f) && f.after == -1
    requires 1 <= size && !FitsLastBlock(f, size) && TailBlocks(f) < 4
    ensures Shaped(WithBlock(f, b, Min(4096, size)))
    ensures 1 <= |f.chain| && 0 <= TailBlocks(f) && |f.blocks| < 4 * |f.chain|
  {
    TailFacts(f);
    GrowByBlockShape(f.size, |f.chain|, size);
  }

  /** A block is needed and the last inode has a slot for it. */
  lemma GrowBlockStep(t: Tables, g: Owners, h: nat, size: int, b: nat)
    requires Wf(t, g) && h in g.files && Shaped(g.files[h]) && g.files[h].after == -1
    requires 1 <= size && !FitsLastBlock(g.files[h], size) && TailBlocks(g.files[h]) < 4
    requires FreeBlocks(t) != [] && b == FreeBlocks(t)[0]
    ensures Last(g.files[h]) < |t.nodes| && b < |t.bbm|
    ensures var f, x := g.files[h], Last(g.files[h]);
            && 0 <= TailBlocks(f) < |t.nodes[x].blocks|
            && Shaped(WithBlock(f, b, Min(4096, size)))
            && Wf(Tables(t.bbm[b := true], t.ibm,
                         t.nodes[x := t.nodes[x].(blocks := t.nodes[x].blocks[TailBlocks(f) := b],
                                                  size := t.nodes[x].size + Min(4096, size))]),
                  Owners(g.files[h := WithBlock(f, b, Min(4096, size))], g.bown[b := Place(h, |f.blocks|)], g.iown))
  {
    hide FilesOk, ChainsOwned, BlocksOwned, InodeBits, NodeOk, Shaped, FitsLastBlock;
    NewBlockShaped(g.files[h], size, b);
    TailNode(t, g, h);
    TakeBlock(t, g, h, b, Min(4096, size));
  }

  /** The state after the last inode took a block and `size` bytes of the request are served. */
  lemma GrowAfterBlock(t: Tables, g: Owners, h: nat, size: int, t1: Tables, g1: Owners,
                       t': Tables, g': Owners, rv: int)
    requires h in g.files && Shaped(g.files[h])
    requires 1 <= size && !FitsLastBlock(g.files[h], size) && TailBlocks(g.files[h]) < 4
    requires FreeBlocks(t) != []
    requires g1.files == g.files[h := WithBlock(g.files[h], FreeBlocks(t)[0], Min(4096, size))]
    requires FreeBlocks(t1) == FreeBlocks(t)[1..] && FreeInodes(t1) == FreeInodes(t)
    requires Shaped(g1.files[h])
    requires GrowResult(t1, g1, h, size - 4096, t', g', rv)
    ensures GrowResult(t, g, h, size, t', g', if rv < 0 then rv else size)
  {
    hide Shaped, Blocks, Grown, BlocksFor, NodesFor, FileFits;
    TailFacts(g.files[h]);
    GrownByBlock(g.files[h], size, FreeBlocks(t), FreeInodes(t));
    assert g1.files[h := Grown(g1.files[h], size - 4096, FreeBlocks(t1), FreeInodes(t1))]
        == g.files[h := Grown(g1.files[h], size - 4096, FreeBlocks(t1), FreeInodes(t1))];
  }

  /** The last inode is full or gets filled up before a new one is chained to it. */
  lemma FillStep(t: Tables, g: Owners, h: nat)
    requires Wf(t, g) && h in g.files && Shaped(g.files[h]) && g.files[h].after == -1
    requires TailBlocks(g.files[h]) == 4
    ensures Last(g.files[h]) < |t.nodes|
    ensures var f, x := g.files[h], Last(g.files[h]);
            Wf(t.(nodes := t.nodes[x := t.nodes[x].(size := 16384)]),
               g.(files := g.files[h := WithSize(f, 16384 * |f.chain|)]))
  {
    hide FilesOk, ChainsOwned, BlocksOwned, InodeBits, BlockBits;
    var f := g.files[h];
    TailFacts(f);
    Resize(t, g, h, 16384 * |f.chain|);
  }

  /** A new inode is needed and none is free. */
  lemma GrowNoNodeStep(t: Tables, g: Owners, h: nat, size: int, t': Tables, g': Owners)
    requires h in g.files && Shaped(g.files[h])
    requires 1 <= size && !FitsLastBlock(g.files[h], size) && TailBlocks(g.files[h]) == 4
    requires FreeInodes(t) == []
    requires FreeBlocks(t') == FreeBlocks(t) && FreeInodes(t') == []
    requires g'.files == g.files[h := WithSize(g.files[h], 16384 * |g.files[h].chain|)]
    ensures GrowResult(t, g, h, size, t', g', -ENOSPC)
  {
    TailFacts(g.files[h]);
    GrownNoNode(g.files[h], size, FreeBlocks(t));
  }

  /** The new inode is chained to the full last one. */
  lemma GrowNodeStep(t: Tables, g: Owners, h: nat, f: File, x: nat)
    requires Wf(t, g) && h in g.files && x in g.files && x != h
    requires Shaped(f) && f.after == -1 && TailBlocks(f) == 4
    requires g.files[h] == WithSize(f, 16384 * |f.chain|) && g.files[x] == EmptyFile(x)
    ensures Last(f) < |t.nodes| && Shaped(WithNode(f, x))
    ensures Wf(t.(nodes := t.nodes[Last(f) := t.nodes[Last(f)].(next := x)]),
               Owners((g.files - {x})[h := WithNode(f, x)], g.bown, g.iown[x := Place(h, |f.chain|)]))
  {
    hide FilesOk, ChainsOwned, BlocksOwned, InodeBits, BlockBits;
    TailFacts(f);
    TailNode(t, g, h);
    LinkNode(t, g, h, x);
  }

  /** The state after the last inode was filled up and a new one chained to it. */
  lemma GrowAfterNode(t: Tables, g: Owners, h: nat, size: int, t1: Tables, g1: Owners,
                      t': Tables, g': Owners, rv: int)
    requires h in g.files && Shaped(g.files[h])
    requires 1 <= size && !FitsLastBlock(g.files[h], size) && TailBlocks(g.files[h]) == 4
    requires FreeInodes(t) != []
    requires g1.files == g.files[h := WithNode(g.files[h], FreeInodes(t)[0])]
    requires FreeBlocks(t1) == FreeBlocks(t) && FreeInodes(t1) == FreeInodes(t)[1..]
    requires Shaped(g1.files[h])
    requires GrowResult(t1, g1, h, size - (16384 - Tail(g.files[h])), t', g', rv)
    ensures GrowResult(t, g, h, size, t', g', if rv < 0 then rv else size)
  {
    hide Shaped, Blocks, Grown, BlocksFor, NodesFor, FileFits;
    var k := size - (16384 - Tail(g.files[h]));
    TailFacts(g.files[h]);
    GrownByNode(g.files[h], size, FreeBlocks(t), FreeInodes(t));
    assert g1.files[h := Grown(g1.files[h], k, FreeBlocks(t1), FreeInodes(t1))]
        == g.files[h := Grown(g1.files[h], k, FreeBlocks(t1), FreeInodes(t1))];
  }

  lemma RemainingSize(f: File, size: int)
    requires Shaped(f) && 1 <= size && !FitsLastBlock(f, size) && TailBlocks(f) == 4
    ensures 1 <= size - (16384 - Tail(f)) <= size
    ensures size - (16384 - Tail(f)) == size ==> f.size == 16384 * |f.chain|
  {
    TailFacts(f);
  }

  lemma GrowGuard(f: File, size: int)
    requires Shaped(f) && 1 <= size <= MAX_REQUEST
    ensures 0 <= Tail(f) <= 16384
    ensures BytesToBlocks(Tail(f) + size) == BytesToBlocks(Tail(f)) <==> FitsLastBlock(f, size)
  {
    hide Shaped, Blocks, BytesToBlocks, TailBlocks, TailSize;
    TailFacts(f);
    BytesToBlocksIsCeiling(Tail(f));
    BytesToBlocksIsCeiling(Tail(f) + size);
  }

  /** Finds the last inode of the file that `n` belongs to. */
  method FindLast(d: Disk, n: int, ghost h: nat) returns (last: nat)
    requires d.Valid() && h in d.own.files && n in d.own.files[h].chain && d.own.files[h].after == -1
    ensures var f := d.own.files[h];
            && Shaped(f) && 1 <= |f.chain| && f.chain[0] == h && last == Last(f) < 254 && last in f.chain
            && d.inodes[last].size == Tail(f) && 0 <= Tail(f) <= 16384 && |d.inodes[last].blocks| == 4
            && BytesToBlocks(Tail(f)) == TailBlocks(f)
            && 0 <= TailBlocks(f) <= 4
  {
    hide ChainsOwned, BlocksOwned, InodeBits, BlockBits, Shaped, NodeOk;
    ghost var f := d.own.files[h];
    ghost var i :| 0 <= i < |f.chain| && f.chain[i] == n;
    FileWalk(f, d.inodes[..], i);
    TailNode(d.Tab(), d.own, h);
    last := LastChild(d.inodes[..], n, f.chain[i..]);
    TailNodeSize(d.inodes[last], f);
  }

  lemma TailNodeSize(n: Inode, f: File)
    requires Shaped(f) && NodeOk(n, f, |f.chain| - 1)
    ensures n.size == Tail(f) && 0 <= Tail(f) <= 16384 && |n.blocks| == 4
    ensures BytesToBlocks(Tail(f)) == TailBlocks(f) && 0 <= TailBlocks(f) <= 4
  {
    TailRange(f);
  }

  /** The measure of a growth: the request, then whether the last inode is full, since a full one
    passes the whole request on to the inode chained behind it. */
  ghost function Fullness(f: File): nat {
    if f.size == 16384 * |f.chain| then 1 else 0
  }

  /** Grows a file by `size` bytes, starting at any inode of its chain: one block or one inode per
    call.  The bytes that are added are whatever the blocks held before. */
  method Grow(d: Disk, n: int, size: int, ghost h: nat) returns (rv: int)
    requires d.Valid() && h in d.own.files && n in d.own.files[h].chain
    requires Shaped(d.own.files[h]) && d.own.files[h].after == -1
    requires size <= MAX_REQUEST
    modifies d, d.blockBitmap, d.inodeBitmap, d.inodes
    ensures d.Valid()
    ensures GrowResult(old(d.Tab()), old(d.own), h, size, d.Tab(), d.own, rv)
    decreases Max(0, size), Fullness(d.own.files[h]), 1
  {
    hide Wf, Shaped, TailBlocks, GrowResult, FitsLastBlock, BytesToBlocks, TailSize;
    ghost var t, g := d.Tab(), d.own;
    ghost var f := g.files[h];
    if size < 1 {
      GrowNothing(t, g, h, size);
      return 0;
    }
    var last := FindLast(d, n, h);
    var used := BytesToBlocks(d.inodes[last].size);
    GrowGuard(f, size);
    if BytesToBlocks(d.inodes[last].size + size) == used {
      GrowSizeStep(t, g, h, size);
      Store(d, last, d.inodes[last].(size := d.inodes[last].size + size));
      d.own := g.(files := g.files[h := WithSize(f, f.size + size)]);
      GrowSizeDone(t, g, h, size, d.Tab(), d.own);
      return size;
    }
    if used < 4 {
      rv := GrowIntoSlot(d, last, used, size, h);
    } else {
      rv := GrowIntoChild(d, last, size, h);
    }
  }

  /** The last inode has an unused slot: it takes one block, and the rest of the request follows. */
  method GrowIntoSlot(d: Disk, last: nat, used: nat, size: int, ghost h: nat) returns (rv: int)
    requires d.Valid() && h in d.own.files && last in d.own.files[h].chain
    requires Shaped(d.own.files[h]) && d.own.files[h].after == -1
    requires last == Last(d.own.files[h]) && last < 254
    requires 1 <= size <= MAX_REQUEST && !FitsLastBlock(d.own.files[h], size)
    requires used == TailBlocks(d.own.files[h]) && used < 4
    modifies d, d.blockBitmap, d.inodeBitmap, d.inodes
    ensures d.Valid()
    ensures GrowResult(old(d.Tab()), old(d.own), h, size, d.Tab(), d.own, rv)
    decreases Max(0, size), Fullness(d.own.files[h]), 0
  {
    hide Wf, Shaped, TailBlocks, GrowResult, FitsLastBlock, TailSize;
    ghost var t, g := d.Tab(), d.own;
    ghost var f := g.files[h];
    var bnum := BlockAlloc(d);
    if bnum < 0 {
      GrowNoBlockStep(t, g, h, size);
      return bnum;
    }
    GrowBlockStep(t, g, h, size, bnum);
    Store(d, last, d.inodes[last].(blocks := d.inodes[last].blocks[used := bnum],
                                   size := d.inodes[last].size + Min(4096, size)));
    d.own := Owners(g.files[h := WithBlock(f, bnum, Min(4096, size))], g.bown[bnum := Place(h, |f.blocks|)], g.iown);
    ghost var t1, g1 := d.Tab(), d.own;
    rv := Grow(d, last, size - 4096, h);
    GrowAfterBlock(t, g, h, size, t1, g1, d.Tab(), d.own, rv);
    if rv < 0 {
      return rv;
    }
    return size;
  }

  /** The last inode has no unused slot: it is filled up, and the rest goes to a new inode. */
  method GrowIntoChild(d: Disk, last: nat, size: int, ghost h: nat) returns (rv: int)
    requires d.Valid() && h in d.own.files && last in d.own.files[h].chain
    requires Shaped(d.own.files[h]) && d.own.files[h].after == -1
    requires last == Last(d.own.files[h]) && last < 254 && d.inodes[last].size == Tail(d.own.files[h])
    requires 1 <= size <= MAX_REQUEST && !FitsLastBlock(d.own.files[h], size)
    requires TailBlocks(d.own.files[h]) == 4
    modifies d, d.blockBitmap, d.inodeBitmap, d.inodes
    ensures d.Valid()
    ensures GrowResult(old(d.Tab()), old(d.own), h, size, d.Tab(), d.own, rv)
    decreases Max(0, size), Fullness(d.own.files[h]), 0
  {
    hide Wf, Shaped, TailBlocks, GrowResult, FitsLastBlock, TailSize;
    ghost var t, g := d.Tab(), d.own;
    ghost var f := g.files[h];
    RemainingSize(f, size);
    var remaining := size - (16384 - d.inodes[last].size);
    FillStep(t, g, h);
    Store(d, last, d.inodes[last].(size := 16384));
    d.own := g.(files := g.files[h := WithSize(f, 16384 * |f.chain|)]);
    var newInum := InodeAlloc(d);
    if newInum < 0 {
      GrowNoNodeStep(t, g, h, size, d.Tab(), d.own);
      return newInum;
    }
    ghost var t3, g3 := d.Tab(), d.own;
    GrowNodeStep(t3, g3, h, f, newInum);
    Store(d, last, d.inodes[last].(next := newInum));
    d.own := Owners((g3.files - {newInum})[h := WithNode(f, newInum)], g3.bown, g3.iown[newInum := Place(h, |f.chain|)]);
    ghost var t4, g4 := d.Tab(), d.own;
    assert g4.files == g.files[h := WithNode(f, newInum)];
    rv := Grow(d, d.inodes[last].next, remaining, h);
    GrowAfterNode(t, g, h, size, t4, g4, d.Tab(), d.own, rv);
    if rv < 0 {
      return rv;
    }
    return size;
  }

  // ---- shrinking and freeing ----

  lemma HeadFacts(t: Tables, g: Owners, h: nat)
    requires FilesOk(g.files, t.nodes) && h in g.files && Canonical(g.files[h])
    ensures h < |t.nodes| && 1 <= |g.files[h].chain| && g.files[h].chain[0] == h && h in g.files[h].chain
    ensures g.files[h].after == -1
    ensures t.nodes[h].size == 0 <==> g.files[h].size == 0
    ensures t.nodes[h].next >= 0 <==> |g.files[h].chain| > 1
    ensures Walk(t.nodes, h, g.files[h].chain)
    ensures TotalSize(t.nodes, h, g.files[h].chain) == g.files[h].size
  {
    assert NodeAt(g.files[h], t.nodes, 0);
    TotalSizeIsSize(g.files[h], t.nodes);
  }

  lemma ShrinkGuardMeaning(f: File, size: int)
    requires Canonical(f) && f.size > 0 && 1 <= size <= MAX_REQUEST
    ensures 0 < Tail(f) <= 16384 && 1 <= TailBlocks(f) <= 4
    ensures FitsInt(Tail(f) - size + 4095)
    ensures BytesToBlocks(Tail(f) - size) == TailBlocks(f) <==> StaysInLastBlock(f, size)
  {
    TailFacts(f);
    ShrinkGuard(Tail(f), size);
  }

  /** A shrink by `size` bytes leaves at least one byte in the last block. */
  predicate StaysInLastBlock(f: File, size: int) {
    4096 * (TailBlocks(f) - 1) < Tail(f) - size
  }

  lemma ShrinkSizeStep(t: Tables, g: Owners, h: nat, size: int)
    requires Wf(t, g) && h in g.files && Canonical(g.files[h])
    requires g.files[h].size > 0 && 1 <= size && StaysInLastBlock(g.files[h], size)
    ensures Last(g.files[h]) < |t.nodes| && size < g.files[h].size
    ensures var f, x := g.files[h], Last(g.files[h]);
            && WithSize(f, f.size - size) == Shrunk(f, size)
            && Wf(t.(nodes := t.nodes[x := t.nodes[x].(size := Tail(f) - size)]),
                  g.(files := g.files[h := WithSize(f, f.size - size)]))
  {
    hide FilesOk, ChainsOwned, BlocksOwned, InodeBits, BlockBits;
    TailFacts(g.files[h]);
    ShrunkInBlock(g.files[h], size);
    Resize(t, g, h, g.files[h].size - size);
  }

  lemma ShrinkBlockStep(t: Tables, g: Owners, h: nat, size: int)
    requires Wf(t, g) && h in g.files && Canonical(g.files[h])
    requires g.files[h].size > 0 && 1 <= size && !StaysInLastBlock(g.files[h], size)
    ensures Last(g.files[h]) < |t.nodes| && 1 <= |g.files[h].blocks|
    ensures var f, x, u := g.files[h], Last(g.files[h]), TailBlocks(g.files[h]);
            var b := f.blocks[|f.blocks| - 1];
            && 1 <= u <= |t.nodes[x].blocks| && t.nodes[x].blocks[u - 1] == b && b < 256 && |t.bbm| == 256
            && Wf(Tables(t.bbm[b := false], t.ibm,
                         t.nodes[x := t.nodes[x].(blocks := t.nodes[x].blocks[u - 1 := -1], size := 4096 * (u - 1))]),
                  Owners(g.files[h := WithoutBlock(f)], g.bown - {b}, g.iown))
    ensures ShrinkLeft(g.files[h], size)
  {
    hide FilesOk, ChainsOwned, BlocksOwned, InodeBits;
    var f := g.files[h];
    TailFacts(f);
    TailNode(t, g, h);
    GiveBlock(t, g, h);
    ShrunkByBlock(f, size);
    ShrinkLeftHolds(f, size);
  }

  /** What remains of a shrink once the last block, and the inode if it is empty, are dropped. */
  ghost predicate ShrinkLeft(f: File, size: int)
    requires Canonical(f) && f.size > 0
  {
    var f1 := WithoutBlock(f);
    var f2 := WithoutEmptyTail(f1);
    var rest := size - (Tail(f) - 4096 * (TailBlocks(f) - 1));
    && Shaped(f1) && 1 <= |f1.chain| && f1.after == -1 && Canonical(f2) && f2.size < f.size && 0 <= rest <= size
    && (EmptyTail(f1) <==> |f.chain| > 1 && TailBlocks(f) == 1)
    && Shrunk(f, size) == Shrunk(f2, rest)
  }

  lemma ShrinkLeftHolds(f: File, size: int)
    requires Canonical(f) && f.size > 0 && 1 <= size && !StaysInLastBlock(f, size)
    ensures ShrinkLeft(f, size)
  {
    TailFacts(f);
    ShrunkByBlock(f, size);
  }

  /** The emptied last inode becomes a file of its own, ready to be freed. */
  lemma SplitStep(t: Tables, g: Owners, h: nat)
    requires Wf(t, g) && h in g.files && Shaped(g.files[h]) && EmptyTail(g.files[h]) && g.files[h].after == -1
    ensures |g.files[h].chain| >= 2 && Last(g.files[h]) < |t.nodes| && g.files[h].chain[0] == h
    ensures Walk(t.nodes, h, g.files[h].chain) && t.nodes[h].next >= 0
    ensures var f, x, g' := g.files[h], Last(g.files[h]), SplitOwners(t, g, h);
            && x != h && x !in g.files && x in g'.files && h in g'.files
            && Wf(t, g') && Canonical(g'.files[x]) && g'.files[x].size == 0
            && f.chain[|f.chain| - 2] < 254 && t.nodes[f.chain[|f.chain| - 2]].next == x
            && Last(g'.files[h]) == f.chain[|f.chain| - 2]
            && g'.files[h].(after := -1) == WithoutEmptyTail(f)
            && g'.files - {x} == g.files[h := g'.files[h]]
  {
    hide ChainsOwned, BlocksOwned, InodeBits, BlockBits;
    var f := g.files[h];
    SplitTail(t, g, h);
    FileWalk(f, t.nodes, 0);
    assert f.chain[0..] == f.chain;
    assert LinkAt(t.nodes, f.chain, |f.chain| - 2);
    assert LinkAt(t.nodes, f.chain, 0);
  }

  lemma EndStep(t: Tables, g: Owners, h: nat)
    requires Wf(t, g) && h in g.files
    ensures 1 <= |g.files[h].chain| && Last(g.files[h]) < |t.nodes|
    ensures var f, l := g.files[h], Last(g.files[h]);
            Wf(t.(nodes := t.nodes[l := t.nodes[l].(next := -1)]), g.(files := g.files[h := f.(after := -1)]))
  {
    EndChain(t, g, h);
  }

  /** Shrinks a file by `size` bytes, one block per call; an inode left with nothing is freed unless
    it is the head. */
  method Shrink(d: Disk, h: nat, size: int) returns (rv: int)
    requires d.Valid() && h in d.own.files && Canonical(d.own.files[h])
    requires size <= MAX_REQUEST
    modifies d, d.blockBitmap, d.inodeBitmap, d.inodes
    ensures d.Valid()
    ensures d.own.files == old(d.own.files)[h := Shrunk(old(d.own.files[h]), size)]
    ensures rv == if size < 1 || old(d.own.files[h]).size == 0 then 0 else size
    decreases d.own.files[h].size, 1
  {
    hide FilesOk, ChainsOwned, BlocksOwned, InodeBits, BlockBits, Shaped, TailBlocks, TailSize, BytesToBlocks;
    hide StaysInLastBlock, EmptyTail, Shrunk, Canonical, Walk;
    ghost var t, g := d.Tab(), d.own;
    ghost var f := g.files[h];
    HeadFacts(t, g, h);
    if size < 1 || d.inodes[h].size == 0 {
      ShrunkNothing(f, size);
      assert g.files == g.files[h := f];
      return 0;
    }
    var last := FindLast(d, h, h);
    var used := BytesToBlocks(d.inodes[last].size);
    ShrinkGuardMeaning(f, size);
    if BytesToBlocks(d.inodes[last].size - size) == used {
      ShrinkSizeStep(t, g, h, size);
      Store(d, last, d.inodes[last].(size := d.inodes[last].size - size));
      d.own := g.(files := g.files[h := WithSize(f, f.size - size)]);
      return size;
    }
    var decrease := d.inodes[last].size - 4096 * (used - 1);
    DropLastBlock(d, h, last, used, size);
    var rest := Shrink(d, h, size - decrease);
    return size;
  }

  /** Gives back the last block of a file, and its last inode if that is left with nothing. */
  method DropLastBlock(d: Disk, h: nat, last: nat, used: nat, ghost size: int)
    requires d.Valid() && h in d.own.files && Canonical(d.own.files[h])
    requires d.own.files[h].size > 0 && 1 <= size && !StaysInLastBlock(d.own.files[h], size)
    requires last < 254 && 1 <= |d.own.files[h].chain| && last == Last(d.own.files[h])
    requires used == TailBlocks(d.own.files[h]) && 1 <= used <= 4
    modifies d, d.blockBitmap, d.inodeBitmap, d.inodes
    ensures d.Valid() && ShrinkLeft(old(d.own.files[h]), size)
    ensures d.own.files == old(d.own.files)[h := WithoutEmptyTail(WithoutBlock(old(d.own.files[h])))]
    decreases d.own.files[h].size, 0
  {
    hide FilesOk, ChainsOwned, BlocksOwned, InodeBits, BlockBits, Shaped, TailBlocks, TailSize;
    hide StaysInLastBlock, EmptyTail;
    ghost var t, g := d.Tab(), d.own;
    ghost var f := g.files[h];
    ShrinkBlockStep(t, g, h, size);
    BlockFree(d, d.inodes[last].blocks[used - 1]);
    Store(d, last, d.inodes[last].(blocks := d.inodes[last].blocks[used - 1 := -1], size := 4096 * (used - 1)));
    d.own := Owners(g.files[h := WithoutBlock(f)], g.bown - {f.blocks[|f.blocks| - 1]}, g.iown);
    HeadNext(d.Tab(), d.own, h);
    if d.inodes[h].next >= 0 && d.inodes[last].size == 0 {
      DropTail(d, h);
    }
  }

  lemma ShrunkNothing(f: File, size: int)
    requires Canonical(f) && (size < 1 || f.size == 0)
    ensures Shrunk(f, size) == f
  {
  }

  lemma HeadNext(t: Tables, g: Owners, h: nat)
    requires FilesOk(g.files, t.nodes) && h in g.files && g.files[h].after == -1
    ensures h < |t.nodes| && 1 <= |g.files[h].chain|
    ensures t.nodes[h].next >= 0 <==> |g.files[h].chain| > 1
  {
    assert NodeAt(g.files[h], t.nodes, 0);
  }

  /** Frees the empty last inode of a file and ends the chain before it. */
  method DropTail(d: Disk, h: nat)
    requires d.Valid() && h in d.own.files && Shaped(d.own.files[h])
    requires EmptyTail(d.own.files[h]) && d.own.files[h].after == -1
    modifies d, d.blockBitmap, d.inodeBitmap, d.inodes
    ensures d.Valid()
    ensures 1 <= |old(d.own.files[h]).chain|
    ensures d.own.files == old(d.own.files)[h := WithoutEmptyTail(old(d.own.files[h]))]
    decreases 0, 4
  {
    hide FilesOk, ChainsOwned, BlocksOwned, InodeBits, BlockBits, Shaped, EmptyTail, Walk;
    ghost var t, g := d.Tab(), d.own;
    ghost var f := g.files[h];
    SplitStep(t, g, h);
    var second := SecondToLastChild(d.inodes[..], h, f.chain);
    d.own := SplitOwners(t, g, h);
    ghost var fh := d.own.files[h];
    var rv := Free(d, d.inodes[second].next);
    EndStep(d.Tab(), d.own, h);
    Store(d, second, d.inodes[second].(next := -1));
    d.own := d.own.(files := d.own.files[h := fh.(after := -1)]);
  }

  /** Clears an inode and marks it as unused.  The C function returns nothing in particular when it
    succeeds; 0 stands for that. */
  method Free(d: Disk, inum: nat) returns (rv: int)
    requires d.Valid() && inum in d.own.files && Canonical(d.own.files[inum])
    modifies d, d.blockBitmap, d.inodeBitmap, d.inodes
    ensures d.Valid()
    ensures d.own.files == old(d.own.files) - {inum}
    ensures rv == 0
    decreases d.own.files[inum].size, 3
  {
    hide FilesOk, ChainsOwned, BlocksOwned, InodeBits, BlockBits;
    rv := Clear(d, inum);
    if rv < 0 {
      return rv;
    }
    ghost var t, g := d.Tab(), d.own;
    ClearedIsBare(g.files[inum]);
    HeadFacts(t, g, inum);
    DropFile(t, g, inum);
    BitmapPut(d.inodeBitmap, inum, false);
    d.own := Owners(g.files - {inum}, g.bown, g.iown - {inum});
    assert d.Tab() == t.(ibm := t.ibm[inum := false]);
    return 0;
  }

  lemma ClearedIsBare(f: File)
    requires Canonical(f) && f.size == 0
    ensures |f.chain| == 1 && f.blocks == [] && f.chain == [f.chain[0]]
  {
  }

  /** Shrinks a file to nothing. */
  method Clear(d: Disk, h: nat) returns (rv: int)
    requires d.Valid() && h in d.own.files && Canonical(d.own.files[h])
    modifies d, d.blockBitmap, d.inodeBitmap, d.inodes
    ensures d.Valid()
    ensures d.own.files == old(d.own.files)[h := Shrunk(old(d.own.files[h]), old(d.own.files[h]).size)]
    ensures rv == old(d.own.files[h]).size
    decreases d.own.files[h].size, 2
  {
    hide ChainsOwned, BlocksOwned, InodeBits, BlockBits, Shaped;
    HeadFacts(d.Tab(), d.own, h);
    FileSizeBound(d.Tab(), d.own, h);
    rv := Shrink(d, h, TotalSize(d.inodes[..], h, d.own.files[h].chain));
  }
}
