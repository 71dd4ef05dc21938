/** The inode operations seen through the files they change: link count, mode and content. */
module Files {
  import opened Specs
  import opened Layout
  import opened Sizing
  import opened Moves
  import opened Disks
  import opened InodeOps
  import opened Content
  import opened Iteration

  /** Only file `h` changed, and neither its link count nor its mode. */
  ghost predicate ContentOnly(v: map<nat, Node>, h: nat, v': map<nat, Node>) {
    && h in v && h in v' && v' == v[h := v'[h]]
    && v'[h].refs == v[h].refs && v'[h].mode == v[h].mode
  }

  /** How many blocks and how many inodes are free. */
  datatype Space = Space(blocks: nat, inodes: nat)

  ghost function SpaceOf(d: Disk): Space
    requires d.Shape()
    reads d, d.blockBitmap, d.inodeBitmap, d.inodes
  {
    Space(|FreeBlocks(d.Tab())|, |FreeInodes(d.Tab())|)
  }

  /** One block less, if there is one. */
  function LessBlock(s: Space): Space {
    s.(blocks := Max(0, s.blocks - 1))
  }

  /** No chain ends in an inode with nothing in it. */
  ghost predicate NoStubs(v: map<nat, Node>) {
    forall k :: k in v ==> !v[k].stub
  }

  /** No chain came to end in an inode with nothing in it. */
  ghost predicate NoNewStub(v: map<nat, Node>, v': map<nat, Node>) {
    forall k :: k in v' && v'[k].stub ==> k in v && v[k].stub
  }

  /** The free space suffices for `size` more bytes in file `h`. */
  ghost predicate Room(d: Disk, h: nat, size: int)
    requires d.Valid() && h in d.own.files
    reads d, d.blockBitmap, d.inodeBitmap, d.inodes
  {
    RoomIn(d.own.files[h], size, SpaceOf(d))
  }

  ghost predicate RoomIn(f: File, size: int, s: Space) {
    FileFits(f, size, s.blocks, s.inodes)
  }

  /** No file but `h` was touched on the disk. */
  ghost predicate OthersStay(files: map<nat, File>, h: int, files': map<nat, File>) {
    forall k :: k in files && k != h ==> k in files' && files'[k] == files[k]
  }

  /** What a growth of file `h` by `size` bytes does to the files. */
  ghost predicate GrowEffect(v: map<nat, Node>, h: nat, size: int, v': map<nat, Node>, rv: int) {
    && ContentOnly(v, h, v')
    && v[h].data <= v'[h].data
    && (size < 1 ==> v' == v && rv == 0)
    && (rv >= 0 ==> rv == Max(0, size) && |v'[h].data| == |v[h].data| + rv)
    && (rv < 0 ==> rv == -ENOSPC && |v'[h].data| < |v[h].data| + size)
    && (rv > 0 ==> !v'[h].stub)
    && (rv < 0 && size == 64 && |v[h].data| % 64 == 0 ==> v'[h].data == v[h].data)
    && (rv < 0 && size == 64 && v[h].data == [] ==> v'[h].stub == v[h].stub)
  }

  lemma PrefixBytes(f: File, f': File, mem: seq<byte>)
    requires OnDisk(f) && OnDisk(f') && |mem| == 0x10_0000
    requires f.blocks <= f'.blocks && f.size <= f'.size
    ensures Bytes(f', mem)[..f.size] == Bytes(f, mem)
  {
    forall i | 0 <= i < f.size ensures Bytes(f', mem)[i] == Bytes(f, mem)[i] {
      var k := i / 4096;
      assert f'.blocks[k] == f.blocks[k];
    }
  }

  lemma GrowView(t: Tables, g: Owners, h: nat, size: int, t': Tables, g': Owners, rv: int, mem: seq<byte>)
    requires Wf(t, g) && Wf(t', g') && h in g.files && Shaped(g.files[h]) && |mem| == 0x10_0000
    requires GrowResult(t, g, h, size, t', g', rv)
    ensures AllOnDisk(g.files) && AllOnDisk(g'.files)
    ensures GrowEffect(ViewOf(g.files, mem), h, size, ViewOf(g'.files, mem), rv)
    ensures rv >= 0 <==> FileFits(g.files[h], size, |FreeBlocks(t)|, |FreeInodes(t)|)
    ensures g'.files == g.files[h := g'.files[h]] && g'.files[h].after == g.files[h].after
  {
    hide Wf, FileFits, Shaped, OnDisk, BlocksFor, NodesFor, Grown, ViewOf;
    WfOnDisk(t, g);
    WfOnDisk(t', g');
    var f, f' := g.files[h], g'.files[h];
    GrownFacts(f, size, FreeBlocks(t), FreeInodes(t));
    PrefixBytes(f, f', mem);
    ViewOfUpdate(g.files, h, f', mem);
  }

  lemma GrownFacts(f: File, size: int, fb: seq<nat>, fi: seq<nat>)
    requires Shaped(f)
    ensures var f' := Grown(f, size, fb, fi);
            && f.blocks <= f'.blocks && f.size <= f'.size && f'.refs == f.refs && f'.mode == f.mode
            && f'.after == f.after
            && (size < 1 ==> FileFits(f, size, |fb|, |fi|))
            && (size < 1 ==> f' == f)
            && (size >= 1 && FileFits(f, size, |fb|, |fi|) ==> f'.size == f.size + size && |f'.chain| == Nodes(f'.size))
            && (size >= 1 && !FileFits(f, size, |fb|, |fi|) ==> f'.size < f.size + size)
            && (size == 64 && f.size % 64 == 0 && !FileFits(f, size, |fb|, |fi|) ==> f'.size == f.size)
            && (size == 64 && f.size == 0 && !FileFits(f, size, |fb|, |fi|) ==> |f'.chain| == |f.chain|)
  {
    if size < 1 {
      assert f.chain + fi[..0] == f.chain && f.blocks + fb[..0] == f.blocks;
    } else if FileFits(f, size, |fb|, |fi|) {
      GrowthFillsTail(f.size, |f.chain|, size, |fb|, |fi|);
    } else if size == 64 && f.size % 64 == 0 {
      FailedSlotGrowth(f.size, |f.chain|, |fb|, |fi|);
    }
  }

  /** `inode_grow` on a whole file. */
  method GrowFile(d: Disk, h: nat, size: int) returns (rv: int)
    requires d.Ready() && h in d.own.files && size <= MAX_REQUEST
    modifies d, d.blockBitmap, d.inodeBitmap, d.inodes
    ensures d.Ready()
    ensures GrowEffect(old(View(d)), h, size, View(d), rv)
    ensures rv >= 0 <==> old(Room(d, h, size))
    ensures OthersStay(old(d.own.files), h, d.own.files) && SpaceOf(d).blocks <= old(SpaceOf(d)).blocks
    ensures size == 64 && old(View(d))[h].data == [] && !old(View(d))[h].stub ==>
              SpaceOf(d) == LessBlock(old(SpaceOf(d)))
  {
    hide FilesOk, ChainsOwned, BlocksOwned, InodeBits, BlockBits, Shaped, GrowEffect, GrowResult, FileFits, OnDisk;
    ghost var t, g := d.Tab(), d.own;
    TailNode(t, g, h);
    rv := Grow(d, h, size, h);
    GrowView(t, g, h, size, d.Tab(), d.own, rv, d.mem[..]);
    SpaceShrinks(t, g, h, size, d.Tab(), d.own, rv);
    if size == 64 && g.files[h].size == 0 && !EmptyTail(g.files[h]) {
      FirstSlotSpace(t, g, h, d.Tab(), d.own, rv);
    }
  }

  lemma SpaceShrinks(t: Tables, g: Owners, h: nat, size: int, t': Tables, g': Owners, rv: int)
    requires h in g.files && Shaped(g.files[h]) && GrowResult(t, g, h, size, t', g', rv)
    ensures |FreeBlocks(t')| <= |FreeBlocks(t)|
  {
    hide Grown, FreeBlocks, FreeInodes, Shaped, BlocksFor, NodesFor;
  }

  /** The first entry of a directory takes one block and no inode, if there is a block. */
  lemma FirstSlotSpace(t: Tables, g: Owners, h: nat, t': Tables, g': Owners, rv: int)
    requires h in g.files && Shaped(g.files[h]) && g.files[h].size == 0
    requires GrowResult(t, g, h, 64, t', g', rv)
    ensures |FreeBlocks(t')| == Max(0, |FreeBlocks(t)| - 1) && |FreeInodes(t')| == |FreeInodes(t)|
  {
    hide Grown, FreeBlocks, FreeInodes;
  }

  /** `inode_shrink` on a whole file. */
  method ShrinkFile(d: Disk, h: nat, size: int) returns (rv: int)
    requires d.Ready() && h in d.own.files && size <= MAX_REQUEST
    requires !View(d)[h].stub
    modifies d, d.blockBitmap, d.inodeBitmap, d.inodes
    ensures d.Ready()
    ensures h in old(View(d))
    ensures View(d) == AfterShrink(old(View(d)), h, size)
    ensures rv == if size < 1 || |old(View(d))[h].data| == 0 then 0 else size
  {
    hide FilesOk, ChainsOwned, BlocksOwned, InodeBits, BlockBits, OnDisk, Shrunk;
    ghost var t, g := d.Tab(), d.own;
    TailNode(t, g, h);
    rv := Shrink(d, h, size);
    ShrinkView(t, g, h, size, d.Tab(), d.own, d.mem[..]);
  }

  lemma ShrinkView(t: Tables, g: Owners, h: nat, size: int, t': Tables, g': Owners, mem: seq<byte>)
    requires Wf(t, g) && Wf(t', g') && h in g.files && Canonical(g.files[h]) && |mem| == 0x10_0000
    requires g'.files == g.files[h := Shrunk(g.files[h], size)]
    ensures AllOnDisk(g.files) && AllOnDisk(g'.files)
    ensures ViewOf(g'.files, mem) == AfterShrink(ViewOf(g.files, mem), h, size)
  {
    hide Wf, OnDisk, Shaped, ViewOf;
    WfOnDisk(t, g);
    WfOnDisk(t', g');
    PrefixBytes(g'.files[h], g.files[h], mem);
    ViewOfUpdate(g.files, h, g'.files[h], mem);
    assert Bytes(g.files[h], mem)[..g.files[h].size] == Bytes(g.files[h], mem);
  }

  /** What a shrink of file `h` by `size` bytes does to the files. */
  ghost function AfterShrink(v: map<nat, Node>, h: nat, size: int): map<nat, Node>
    requires h in v
  {
    v[h := v[h].(data := v[h].data[..Max(0, |v[h].data| - Max(0, size))])]
  }

  /** A shrink that follows a successful growth by the same amount restores every byte of every file. */
  lemma ShrinkRestoresBytes(v: map<nat, Node>, h: nat, size: int, v1: map<nat, Node>, rv: int)
    requires GrowEffect(v, h, size, v1, rv) && rv >= 0 && !v[h].stub
    ensures AfterShrink(v1, h, size) == v
  {
    assert v1[h].data[..|v[h].data|] == v[h].data;
    assert AfterShrink(v1, h, size)[h] == v[h];
  }

  /** `inode_free` on a head inode. */
  method FreeFile(d: Disk, h: nat) returns (rv: int)
    requires d.Ready() && h in d.own.files && !View(d)[h].stub
    modifies d, d.blockBitmap, d.inodeBitmap, d.inodes
    ensures d.Ready() && rv == 0
    ensures View(d) == old(View(d)) - {h}
  {
    hide FilesOk, ChainsOwned, BlocksOwned, InodeBits, BlockBits, OnDisk;
    ghost var t, g := d.Tab(), d.own;
    TailNode(t, g, h);
    rv := Free(d, h);
    WfOnDisk(t, g);
    ViewOfRemove(g.files, h, d.mem[..]);
  }

  /** `inode_alloc`: a new empty regular file without links. */
  method AllocFile(d: Disk) returns (inum: int)
    requires d.Ready()
    modifies d, d.inodeBitmap, d.inodes
    ensures d.Ready()
    ensures inum < 0 ==> inum == -ENOSPC && View(d) == old(View(d)) && old(FreeInodes(d.Tab())) == []
    ensures inum >= 0 ==> old(FreeInodes(d.Tab())) != [] && inum == old(FreeInodes(d.Tab()))[0]
    ensures FreeBlocks(d.Tab()) == old(FreeBlocks(d.Tab()))
    ensures inum >= 0 ==> |FreeInodes(d.Tab())| == |old(FreeInodes(d.Tab()))| - 1
    ensures OthersStay(old(d.own.files), inum, d.own.files)
    ensures inum >= 0 ==> inum < 254 && inum !in old(View(d)) &&
                          View(d) == old(View(d))[inum := Node(0, 33188, false, [])]
  {
    hide FilesOk, ChainsOwned, BlocksOwned, InodeBits, BlockBits, OnDisk;
    ghost var t, g := d.Tab(), d.own;
    inum := InodeAlloc(d);
    WfOnDisk(t, g);
    if inum >= 0 {
      EmptyFileOnDisk(inum, d.mem[..]);
      ViewOfUpdate(g.files, inum, EmptyFile(inum), d.mem[..]);
    }
  }

  lemma EmptyFileOnDisk(x: nat, mem: seq<byte>)
    requires |mem| == 0x10_0000
    ensures OnDisk(EmptyFile(x)) && NodeOf(EmptyFile(x), mem) == Node(0, 33188, false, [])
  {
  }

  /** Sets the link count and the mode of a file. */
  method SetLabel(d: Disk, h: nat, refs: int, mode: int)
    requires d.Ready() && h in d.own.files
    modifies d, d.inodes
    ensures d.Ready() && h in old(View(d))
    ensures View(d) == old(View(d))[h := old(View(d))[h].(refs := refs, mode := mode)]
    ensures Room(d, h, 64) == old(Room(d, h, 64))
    ensures FreeBlocks(d.Tab()) == old(FreeBlocks(d.Tab())) && SpaceOf(d) == old(SpaceOf(d))
    ensures OthersStay(old(d.own.files), h, d.own.files)
  {
    hide FilesOk, ChainsOwned, BlocksOwned, InodeBits, BlockBits, OnDisk;
    ghost var t, g := d.Tab(), d.own;
    TailNode(t, g, h);
    Relabel(t, g, h, refs, mode);
    HeadInUse(t, g, h);
    Store(d, h, d.inodes[h].(refs := refs, mode := mode));
    d.own := g.(files := g.files[h := g.files[h].(refs := refs, mode := mode)]);
    WfOnDisk(t, g);
    LabelledBytes(g.files[h], refs, mode, d.mem[..]);
    ViewOfUpdate(g.files, h, g.files[h].(refs := refs, mode := mode), d.mem[..]);
  }

  lemma LabelledBytes(f: File, refs: int, mode: int, mem: seq<byte>)
    requires OnDisk(f) && |mem| == 0x10_0000
    ensures OnDisk(f.(refs := refs, mode := mode))
    ensures NodeOf(f.(refs := refs, mode := mode), mem) == NodeOf(f, mem).(refs := refs, mode := mode)
  {
    var f' := f.(refs := refs, mode := mode);
    assert forall i :: 0 <= i < f.size ==> Addr(f', i) == Addr(f, i);
  }

  method ModeOf(d: Disk, h: nat) returns (mode: int)
    requires d.Ready() && h in View(d)
    ensures mode == View(d)[h].mode && h < 254
  {
    HeadLabel(d, h);
    mode := d.inodes[h].mode;
  }

  method RefsOf(d: Disk, h: nat) returns (refs: int)
    requires d.Ready() && h in View(d)
    ensures refs == View(d)[h].refs && h < 254
  {
    HeadLabel(d, h);
    refs := d.inodes[h].refs;
  }

  /** The link count and the mode of a file are those of its head inode. */
  lemma HeadLabel(d: Disk, h: nat)
    requires d.Valid() && h in d.own.files
    ensures h < 254 && d.inodes[h].refs == View(d)[h].refs && d.inodes[h].mode == View(d)[h].mode
  {
    hide ChainsOwned, BlocksOwned, OnDisk;
    var f := d.own.files[h];
    assert NodeAt(f, d.Tab().nodes, 0);
    WfOnDisk(d.Tab(), d.own);
  }

  /** The first entry of a new directory needs one block. */
  lemma RoomForFirst(d: Disk, h: nat)
    requires d.Ready() && h in View(d) && View(d)[h].data == [] && !View(d)[h].stub
    ensures Room(d, h, 64) <==> FreeBlocks(d.Tab()) != []
  {
    hide ChainsOwned, BlocksOwned, InodeBits, BlockBits;
    TailNode(d.Tab(), d.own, h);
  }

  /** On an image without files the first inode and some block are free. */
  lemma EmptyImage(d: Disk)
    requires d.Ready() && d.own.files == map[]
    ensures FreeInodes(d.Tab()) != [] && FreeInodes(d.Tab())[0] == 0 && FreeBlocks(d.Tab()) != []
  {
    assert forall x :: x in d.own.iown ==> ChainHolds(d.own.files, d.own.iown[x], x);
    assert forall b :: b in d.own.bown ==> BlockHeld(d.own.files, d.own.bown[b], b);
    assert !d.Tab().ibm[0] && !d.Tab().bbm[2];
  }
}
