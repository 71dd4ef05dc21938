/** The file system operations on paths. */
module Storage {
  import opened Specs
  import opened Bitmap
  import opened Layout
  import opened Moves
  import opened Disks
  import opened InodeOps
  import opened Content
  import opened Iteration
  import opened Files
  import opened Slots
  import opened Directory
  import opened SList
  import opened Path
  import opened Namespace
  import opened Invariant
  import opened Creation

  /** A disk with a name space on it. */
  ghost predicate Mounted(d: Disk)
    reads d, d.blockBitmap, d.inodeBitmap, d.inodes, d.mem
  {
    d.Ready() && NamesOk(View(d))
  }

  /** What a path leads to. */
  ghost function Target(v: map<nat, Node>, path: Name): int
    requires NamesOk(v)
  {
    Resolve(v, ROOT, Explode(path, SLASH))
  }

  /** The directory that holds the last component of a path. */
  ghost function ParentOf(v: map<nat, Node>, path: Name): int
    requires NamesOk(v)
  {
    Parent(v, ROOT, Explode(path, SLASH))
  }

  /** The last component that is not blank. */
  function LastName(path: Name): Name {
    var comps := Explode(path, SLASH);
    if LastComp(comps) >= 0 then comps[LastComp(comps)] else []
  }

  /** A path whose last component comes after the first and is a proper name. */
  predicate NamesEntry(path: Name) {
    0 !in path && LastComp(Explode(path, SLASH)) >= 1 && NonDot(LastName(path))
  }

  /** ... and no blank component follows it. */
  predicate NamesNewEntry(path: Name) {
    NamesEntry(path) && LastComp(Explode(path, SLASH)) == |Explode(path, SLASH)| - 1
  }

  // ---- what the operations are defined for ----

  /** A path to create at: if it leads nowhere it has to name an entry of an existing directory. */
  ghost predicate MknodAllowed(v: map<nat, Node>, path: Name)
    requires NamesOk(v)
  {
    && 0 !in path
    && (Target(v, path) == -ENOENT ==> NamesEntry(path) && ParentOf(v, path) in v)
  }

  /** Paths to link: once the first leads to a file and the second nowhere, they have to name entries,
    and if the second has a parent that has to be a directory and the file none. */
  ghost predicate LinkAllowed(v: map<nat, Node>, from: Name, to: Name)
    requires NamesOk(v)
  {
    && 0 !in from && 0 !in to
    && (Target(v, from) >= 0 && Target(v, to) < 0 ==>
          && NamesEntry(from) && NamesNewEntry(to)
          && (ParentOf(v, to) >= 0 ==> IsDir(v[ParentOf(v, to)].mode) && !IsDir(v[Target(v, from)].mode)))
  }

  /** A path to unlink: if it leads to a file it has to name an entry, and a directory has to be empty. */
  ghost predicate UnlinkAllowed(v: map<nat, Node>, path: Name)
    requires NamesOk(v)
  {
    && 0 !in path
    && (Target(v, path) >= 0 ==>
          NamesEntry(path) && (IsDir(v[Target(v, path)].mode) ==> OnlyDots(SlotsIn(v, Target(v, path)))))
  }

  /** The chains that unlinking shrinks do not end in an inode with nothing in it. */
  ghost predicate UnlinkClear(v: map<nat, Node>, path: Name)
    requires NamesOk(v)
  {
    var x, p := Target(v, path), ParentOf(v, path);
    x >= 0 && p >= 0 ==> !v[p].stub && (IsDir(v[x].mode) || v[x].refs <= 1 ==> !v[x].stub)
  }

  /** A path to an empty directory that is to be removed has to name an entry. */
  ghost predicate RmdirAllowed(v: map<nat, Node>, path: Name)
    requires NamesOk(v)
  {
    0 !in path && (EmptyDirAt(v, path) ==> NamesEntry(path))
  }

  ghost predicate RmdirClear(v: map<nat, Node>, path: Name)
    requires NamesOk(v)
  {
    EmptyDirAt(v, path) ==> UnlinkClear(v, path)
  }

  ghost predicate EmptyDirAt(v: map<nat, Node>, path: Name)
    requires NamesOk(v)
  {
    var x := Target(v, path);
    x >= 0 && IsDir(v[x].mode) && OnlyDots(SlotsIn(v, x))
  }

  /** The directory that a renamed file leaves does not end in an inode with nothing in it. */
  ghost predicate RenameClear(v: map<nat, Node>, from: Name)
    requires NamesOk(v)
  {
    ParentOf(v, from) >= 0 ==> !v[ParentOf(v, from)].stub
  }

  /** A file that is cut short does not end in an inode with nothing in it. */
  ghost predicate TruncateClear(v: map<nat, Node>, path: Name, size: int)
    requires NamesOk(v)
  {
    var h := Target(v, path);
    h >= 0 && 0 <= size < |v[h].data| ==> !v[h].stub
  }

  lemma TargetEntry(v: map<nat, Node>, path: Name)
    requires NamesOk(v) && NamesEntry(path)
    ensures var p, r := ParentOf(v, path), Target(v, path);
            && (r in v || r == -ENOENT || r == -ENOTDIR)
            && (p in v || p == -ENOENT || p == -ENOTDIR)
            && (r >= 0 ==> p in v && IsDir(v[p].mode))
            && (p in v && !IsDir(v[p].mode) ==> r == -ENOTDIR)
            && (p in v && IsDir(v[p].mode) ==>
                  && DirAt(v, p)
                  && (r >= 0 ==> r == LookupIn(SlotsIn(v, p), LastName(path)))
                  && (r == -ENOENT ==> LookupIn(SlotsIn(v, p), LastName(path)) == -ENOENT)
                  && (NamesNewEntry(path) ==> r == LookupIn(SlotsIn(v, p), LastName(path))))
  {
    hide IsDir, SlotsIn, Tidy, RefsOk, TreeOk, Table;
    TablesGiveDirs(v);
    ResolveThroughParent(v, ROOT, Explode(path, SLASH));
    var p := ParentOf(v, path);
    if p in v && IsDir(v[p].mode) {
      IsDirAt(v, p);
    }
  }

  method InumFor(d: Disk, path: Name) returns (r: int)
    requires Mounted(d) && 0 !in path
    ensures r == Target(View(d), path)
  {
    hide Disk.Valid, View, IsDir, RefsOk, TreeOk, Tidy;
    r := InumForPath(d, ROOT, path);
  }

  // ---- regular files ----

  /** Resizes a file: the result is the number of bytes added or taken away. */
  method TruncateFile(d: Disk, h: nat, size: nat) returns (rv: int)
    requires d.Ready() && h in View(d) && size <= MAX_REQUEST
    requires size < |View(d)[h].data| ==> !View(d)[h].stub
    modifies d, d.blockBitmap, d.inodeBitmap, d.inodes, d.mem
    ensures d.Ready() && ContentOnly(old(View(d)), h, View(d))
    ensures var data, data' := old(View(d))[h].data, View(d)[h].data;
            && (rv >= 0 <==> size <= |data| || old(Room(d, h, size - |data|)))
            && (rv >= 0 ==> rv == Max(size - |data|, |data| - size) &&
                            data' == if size <= |data| then data[..size] else data + Repeat(0, size - |data|))
            && (rv < 0 ==> rv == -ENOSPC && data <= data' && |data'| < size)
    ensures rv >= 0 ==> NoNewStub(old(View(d)), View(d))
  {
    hide Disk.Valid, View, Room;
    ghost var v := View(d);
    var total := FileSize(d, h);
    var delta := size - total;
    if delta > 0 {
      rv := GrowZero(d, h, delta);
    } else if delta < 0 {
      rv := ShrinkFile(d, h, -delta);
    } else {
      rv := 0;
      assert v == v[h := v[h]];
    }
  }

  /** Grows a file and fills what is added with zeros. */
  method GrowZero(d: Disk, h: nat, size: nat) returns (rv: int)
    requires d.Ready() && h in View(d) && 1 <= size <= MAX_REQUEST
    modifies d, d.blockBitmap, d.inodeBitmap, d.inodes, d.mem
    ensures d.Ready() && ContentOnly(old(View(d)), h, View(d))
    ensures rv >= 0 <==> old(Room(d, h, size))
    ensures rv >= 0 ==> rv == size && View(d)[h].data == old(View(d))[h].data + Repeat(0, size)
    ensures rv < 0 ==> rv == -ENOSPC && old(View(d))[h].data <= View(d)[h].data &&
                       |View(d)[h].data| < |old(View(d))[h].data| + size
    ensures rv >= 0 ==> NoNewStub(old(View(d)), View(d))
  {
    hide Disk.Valid, View, Room, OthersStay, SpaceOf, LessBlock;
    ghost var data := View(d)[h].data;
    var start := FileSize(d, h);
    var growth := GrowFile(d, h, size);
    if growth < 0 {
      return growth;
    }
    ghost var grown := View(d)[h].data;
    rv := Fill(d, h, start, 0, growth);
    assert Splice(grown, |data|, Repeat(0, size)) == data + Repeat(0, size);
    if rv < 0 {
      return rv;
    }
    return growth;
  }

  /** Reads bytes into the beginning of a buffer. */
  method ReadFile(d: Disk, h: nat, buf: array<byte>, size: nat, offset: nat) returns (n: nat)
    requires d.Ready() && h in View(d) && d.Outside(buf) && offset <= |View(d)[h].data|
    requires Min(size, |View(d)[h].data| - offset) <= buf.Length
    modifies d.mem, buf
    ensures d.Ready() && View(d) == old(View(d))
    ensures n == Min(size, |View(d)[h].data| - offset)
    ensures buf[..] == View(d)[h].data[offset..offset + n] + old(buf[..])[n..]
  {
    hide Disk.Valid, View;
    var total := FileSize(d, h);
    n := Min(total - offset, size);
    var _ := BlockIter(d, h, ReadIter, buf, offset, n);
  }

  /** The content after writing `b` at `offset`, which is not past the end. */
  function Overwrite(data: seq<byte>, offset: nat, b: seq<byte>): seq<byte>
    requires offset <= |data|
  {
    data[..offset] + b + (if offset + |b| <= |data| then data[offset + |b|..] else [])
  }

  /** The content of a file before and after bytes `b` were written at `offset`: every byte of the
    range is written and every old byte outside it is kept.  A gap left by writing past the end is not
    specified; a write that fails may have grown the file part of the way. */
  ghost predicate WriteEffect(data: seq<byte>, offset: nat, b: seq<byte>, data': seq<byte>, rv: int) {
    && data[..Min(|data|, offset)] <= data'
    && (rv >= 0 ==>
          && rv == |b| && |data'| == Max(|data|, offset + |b|)
          && data'[offset..offset + |b|] == b
          && (offset <= |data| ==> data' == Overwrite(data, offset, b)))
    && (rv < 0 ==> rv == -ENOSPC && data <= data' && |data'| < offset + |b|)
  }

  /** What the blocks that file `h` has now held when memory was `mem`. */
  ghost function HeldBytes(d: Disk, h: nat, mem: seq<byte>): seq<byte>
    requires d.Valid() && h in d.own.files && |mem| == 0x10_0000
    reads d, d.blockBitmap, d.inodeBitmap, d.inodes
  {
    WfOnDisk(d.Tab(), d.own);
    Bytes(d.own.files[h], mem)
  }

  lemma ViewIsHeld(d: Disk, h: nat)
    requires d.Valid() && h in d.own.files
    ensures View(d)[h].data == HeldBytes(d, h, d.mem[..])
    ensures (d.mem as object) !in {d as object, d.blockBitmap, d.inodeBitmap, d.inodes}
  {
    WfOnDisk(d.Tab(), d.own);
  }

  /** Writes bytes from the beginning of a buffer, growing the file if need be.  What the blocks get is
    the buffer itself if the range stays in one block, and otherwise the smeared buffer; a gap before
    the range keeps what its blocks held. */
  method WriteFile(d: Disk, h: nat, buf: array<byte>, size: nat, offset: nat) returns (rv: int)
    requires d.Ready() && h in View(d) && d.Outside(buf) && 1 <= size <= buf.Length
    requires offset + size <= MAX_REQUEST
    modifies d, d.blockBitmap, d.inodeBitmap, d.inodes, d.mem, buf
    ensures d.Ready() && ContentOnly(old(View(d)), h, View(d)) && buf[..] == old(buf[..])
    ensures rv >= 0 <==> old(Room(d, h, offset + size - |View(d)[h].data|))
    ensures WriteEffect(old(View(d))[h].data, offset, Smear(old(buf[..]), offset, size), View(d)[h].data, rv)
    ensures rv >= 0 ==> NoNewStub(old(View(d)), View(d))
    ensures rv >= 0 ==>
              && offset + size <= |HeldBytes(d, h, old(d.mem[..]))|
              && View(d)[h].data == Splice(HeldBytes(d, h, old(d.mem[..])), offset, Smear(old(buf[..]), offset, size))
  {
    hide Disk.Valid, View, Room, WriteEffect, Smear, Overwrite, OthersStay, SpaceOf, LessBlock, HeldBytes, NoNewStub;
    hide GrowEffect, ContentOnly, RangeEffect;
    ViewIsHeld(d, h);
    ghost var v, data := View(d), buf[..];
    var total := FileSize(d, h);
    var growth := Max(0, offset + size - total);
    RoomForNothing(d, h, offset + size - total);
    rv := GrowFile(d, h, growth);
    ghost var v1 := View(d);
    GrownForWrite(v, h, offset, size, v1, rv);
    if rv < 0 {
      FailedWrite(v[h].data, offset, Smear(data, offset, size), v1[h].data);
      return rv;
    }
    ViewIsHeld(d, h);
    var _ := BlockIter(d, h, WriteIter, buf, offset, size);
    WrittenFile(v, h, v1, data, offset, size, View(d), buf[..]);
    return size;
  }

  lemma GrownForWrite(v: map<nat, Node>, h: nat, offset: nat, size: nat, v1: map<nat, Node>, rv: int)
    requires h in v && GrowEffect(v, h, Max(0, offset + size - |v[h].data|), v1, rv)
    ensures ContentOnly(v, h, v1) && v[h].data <= v1[h].data
    ensures rv >= 0 ==> |v1[h].data| == Max(|v[h].data|, offset + size) && NoNewStub(v, v1)
    ensures rv < 0 ==> rv == -ENOSPC && |v1[h].data| < offset + size
  {
  }

  lemma WrittenFile(v: map<nat, Node>, h: nat, v1: map<nat, Node>, buf: seq<byte>, offset: nat, size: nat,
                    v2: map<nat, Node>, buf2: seq<byte>)
    requires ContentOnly(v, h, v1) && NoNewStub(v, v1) && 1 <= size
    requires v[h].data <= v1[h].data && |v1[h].data| == Max(|v[h].data|, offset + size)
    requires RangeEffect(WriteIter, v1, buf, h, offset, size, v2, buf2)
    ensures size <= |buf| && buf2 == buf && offset + size <= |v1[h].data|
    ensures ContentOnly(v, h, v2) && NoNewStub(v, v2)
    ensures v2[h].data == Splice(v1[h].data, offset, Smear(buf, offset, size))
    ensures WriteEffect(v[h].data, offset, Smear(buf, offset, size), v2[h].data, size)
  {
    hide WriteEffect, Splice;
    WrittenContent(v[h].data, v1[h].data, offset, Smear(buf, offset, size));
  }

  lemma RoomForNothing(d: Disk, h: nat, size: int)
    requires d.Valid() && h in d.own.files
    ensures Room(d, h, size) <==> Room(d, h, Max(0, size))
  {
  }

  lemma WrittenContent(data: seq<byte>, grown: seq<byte>, offset: nat, b: seq<byte>)
    requires data <= grown && |grown| == Max(|data|, offset + |b|)
    ensures WriteEffect(data, offset, b, Splice(grown, offset, b), |b|)
  {
    if offset <= |data| {
      assert grown[..offset] == data[..offset];
    } else {
      assert Splice(grown, offset, b)[..|data|] == grown[..|data|];
    }
  }

  lemma FailedWrite(data: seq<byte>, offset: nat, b: seq<byte>, data': seq<byte>)
    requires data <= data' && |data'| < offset + |b|
    ensures WriteEffect(data, offset, b, data', -ENOSPC)
  {
    assert data[..Min(|data|, offset)] <= data;
  }

  // ---- the name space ----

  /** What the node that mknod makes looks like before it is entered anywhere. */
  ghost predicate Made(v: map<nat, Node>, mode: int, blockFree: bool, x: nat, v': map<nat, Node>) {
    && Born(v, x, v')
    && v'[x].mode == (if IsDir(mode) then DirMode(mode) else mode)
    && (!IsDir(mode) ==> v'[x].data == [])
    && (IsDir(mode) ==> SlotsIn(v', x) == if blockFree then [Slot(DOT, x)] else [])
  }

  /** The free space once a node was made: an inode less, and for a directory a block less. */
  function SpaceLeft(s: Space, mode: int): Space {
    var left := s.(inodes := Max(0, s.inodes - 1));
    if IsDir(mode) then LessBlock(left) else left
  }

  /** Allocates an inode and sets its mode. */
  method NewNode(d: Disk, mode: int) returns (inum: int)
    requires d.Ready()
    modifies d, d.inodeBitmap, d.inodes
    ensures d.Ready()
    ensures inum < 0 <==> old(FreeInodes(d.Tab())) == []
    ensures inum < 0 ==> inum == -ENOSPC && View(d) == old(View(d))
    ensures inum >= 0 ==> inum < 254 && inum == old(FreeInodes(d.Tab()))[0] && inum !in old(View(d)) &&
                          View(d) == old(View(d))[inum := Node(0, mode, false, [])]
    ensures inum >= 0 ==> SpaceOf(d) == old(SpaceOf(d)).(inodes := Max(0, old(SpaceOf(d)).inodes - 1))
    ensures FreeBlocks(d.Tab()) == old(FreeBlocks(d.Tab()))
    ensures OthersStay(old(d.own.files), inum, d.own.files)
  {
    hide Wf, View, Room, FreeBlocks, FreeInodes, NodeOf, RoomIn;
    inum := AllocFile(d);
    if inum >= 0 {
      ghost var v := View(d);
      var refs := RefsOf(d, inum);
      assert v[inum].(refs := refs, mode := mode) == Node(0, mode, false, []);
      SetLabel(d, inum, refs, mode);
    }
  }

  lemma BlocksCount(d: Disk)
    requires d.Shape()
    ensures SpaceOf(d).blocks == |FreeBlocks(d.Tab())|
  {
  }

  /** Allocates an inode and makes a directory of it if the mode says so. */
  method MakeNode(d: Disk, mode: int) returns (inum: int)
    requires d.Ready()
    modifies d, d.blockBitmap, d.inodeBitmap, d.inodes, d.mem
    ensures d.Ready()
    ensures inum < 0 <==> old(FreeInodes(d.Tab())) == []
    ensures inum < 0 ==> inum == -ENOSPC && View(d) == old(View(d))
    ensures inum >= 0 ==> inum < 254 && inum == old(FreeInodes(d.Tab()))[0] &&
                          Made(old(View(d)), mode, old(FreeBlocks(d.Tab())) != [], inum, View(d))
    ensures inum >= 0 ==> SpaceOf(d) == SpaceLeft(old(SpaceOf(d)), mode)
    ensures inum >= 0 && old(FreeBlocks(d.Tab())) == [] ==> SpaceOf(d).blocks == 0
    ensures OthersStay(old(d.own.files), inum, d.own.files)
  {
    hide Wf, View, IsDir, DirMode, SlotsIn, Room, InitEffect, Born, SpaceOf, FreeBlocks, FreeInodes;
    ghost var v, blockFree := View(d), FreeBlocks(d.Tab()) != [];
    BlocksCount(d);
    inum := NewNode(d, mode);
    if inum < 0 {
      return inum;
    }
    ghost var va := View(d);
    BornFile(v, inum, mode, va);
    if IsDir(mode) {
      RoomForFirst(d, inum);
      Init(d, inum);
      BornDir(v, inum, mode, va, blockFree, View(d));
    }
  }

  method AddRef(d: Disk, x: nat)
    requires d.Ready() && x in View(d)
    modifies d, d.inodes
    ensures d.Ready() && x in old(View(d))
    ensures View(d) == old(View(d))[x := old(View(d))[x].(refs := old(View(d))[x].refs + 1)]
  {
    hide Disk.Valid, View, OthersStay, SpaceOf, Room;
    HeadLabel(d, x);
    var refs := RefsOf(d, x);
    var mode := ModeOf(d, x);
    SetLabel(d, x, refs + 1, mode);
  }

  /** Enters a new node in its parent directory, or frees it again if that fails. */
  method EnterNode(d: Disk, p: nat, name: Name, x: nat, ghost v: map<nat, Node>) returns (rv: int)
    requires d.Ready() && NamesOk(v) && p in v && IsDir(v[p].mode) && p < 254 && Born(v, x, View(d)) && x < 254
    requires PlainName(name) && NonDot(name) && LookupIn(SlotsIn(v, p), name) < 0
    modifies d, d.blockBitmap, d.inodeBitmap, d.inodes, d.mem
    ensures d.Ready()
    ensures rv != 0 ==> rv < 0 && SameNames(v, View(d)) && OnlyThese(v, View(d), p, p)
    ensures rv == 0 ==> CreateStep(v, p, name, x, View(d)) && View(d)[x].mode == old(View(d))[x].mode
    ensures rv == 0 && !IsDir(old(View(d))[x].mode) ==> View(d)[x].data == old(View(d))[x].data
    ensures rv == 0 && IsDir(old(View(d))[x].mode) && SlotsIn(old(View(d)), x) == [Slot(DOT, x)] ==>
              SlotsIn(View(d), x) == [Slot(DOT, x), Slot(DOTDOT, p)]
    ensures rv == 0 && IsDir(old(View(d))[x].mode) && SlotsIn(old(View(d)), x) == [] && old(SpaceOf(d)).blocks == 0 ==>
              SlotsIn(View(d), x) == []
    ensures rv == AddCode(SlotsIn(v, p), name, x, old(Room(d, p, 64)))
    ensures rv != -ENOSPC ==> NoNewStub(v, View(d))
  {
    hide NoNewStub;
    hide Disk.Valid, View, IsDir, SlotsIn, Room, AddEffect, AddSlot, AddCode, Table, TablesOk, RefsOk, TreeOk, NewTable, LiveNames;
    hide Born, Newborn, DirAt, SameNames, SameNode, CreateStep, FreshDir, LookupIn, OnlyThese;
    ghost var vb := View(d);
    BornPlaces(v, p, x, vb);
    EmptyDirData(vb, x);
    ghost var room := Room(d, p, 64);
    ghost var mid, midRoom, midRv;
    rv, mid, midRoom, midRv := AddEntry(d, p, name, x, true);
    BornAdded(v, p, name, x, vb, room, mid, rv);
    AddedCode(vb, p, name, x, room, mid, rv);
    if rv < 0 {
      var _ := FreeFile(d, x);
      Abandoned(v, p, x, mid, View(d));
      AbandonedFrame(v, p, x, mid, View(d));
      EnteredNoStub(v, p, name, x, vb, room, mid, rv, midRoom, mid, midRv, View(d));
      return rv;
    }
    ghost var vc := View(d);
    DotsAdded(vb, x, p, mid, midRoom, vc, midRv);
    AddRef(d, x);
    Created(v, p, name, x, mid, vc, View(d));
    EnteredNoStub(v, p, name, x, vb, room, mid, rv, midRoom, vc, midRv, View(d));
    SlotsOfData(vc, View(d), x);
    return 0;
  }

  /** Entering a node leaves no inode with nothing in it unless the parent lacked space: the new node is
    empty or has one entry when its `..` is added. */
  lemma EnteredNoStub(v: map<nat, Node>, p: nat, name: Name, x: nat, vb: map<nat, Node>, room: bool,
                      mid: map<nat, Node>, rv: int, midRoom: bool, vc: map<nat, Node>, midRv: int, v': map<nat, Node>)
    requires Born(v, x, vb) && p in vb && AddEffect(vb, p, name, x, room, mid, rv) && x in mid && mid[x] == vb[x]
    requires rv < 0 ==> v' == mid - {x}
    requires rv >= 0 ==> x in vc && v' == vc[x := vc[x].(refs := vc[x].refs + 1)]
    requires rv >= 0 && IsDir(vb[x].mode) ==>
               AddEffect(mid, x, DOTDOT, p, midRoom, vc, midRv) && (|mid[x].data| == 64 ==> midRoom)
    requires rv >= 0 && !IsDir(vb[x].mode) ==> vc == mid
    ensures rv != -ENOSPC ==> NoNewStub(v, v')
  {
    hide IsDir, SlotsIn, AddEffect;
    if rv != -ENOSPC {
      AddNoStub(vb, p, name, x, room, mid, rv);
      if rv >= 0 && IsDir(vb[x].mode) {
        SameSlots(vb, mid, x);
        DotsNoStub(mid, x, p, midRoom, vc, midRv);
      }
    }
  }

  lemma AbandonedFrame(v: map<nat, Node>, p: nat, x: nat, mid: map<nat, Node>, v': map<nat, Node>)
    requires x !in v && mid.Keys == v.Keys + {x} && (forall h :: h in v && h != p ==> mid[h] == v[h])
    requires v' == mid - {x}
    ensures OnlyThese(v, v', p, p)
  {
  }

  lemma DotsNoStub(v: map<nat, Node>, x: nat, p: nat, room: bool, v': map<nat, Node>, rv: int)
    requires Newborn(v, x) && IsDir(v[x].mode) && AddEffect(v, x, DOTDOT, p, room, v', rv)
    requires |v[x].data| == 64 ==> room
    ensures NoNewStub(v, v')
  {
    hide IsDir;
    assert |SlotsIn(v, x)| == |v[x].data| / 64;
    AddNoStub(v, x, DOTDOT, p, room, v', rv);
  }

  lemma EmptyDirData(v: map<nat, Node>, x: nat)
    requires x in v && (IsDir(v[x].mode) ==> DirAt(v, x))
    ensures IsDir(v[x].mode) && SlotsIn(v, x) == [] ==> v[x].data == []
  {
    hide IsDir;
    assert |SlotsIn(v, x)| == |v[x].data| / 64;
  }

  lemma SlotsOfData(v: map<nat, Node>, v': map<nat, Node>, h: nat)
    requires h in v && h in v' && v[h].data == v'[h].data
    ensures SlotsIn(v, h) == SlotsIn(v', h)
  {
  }

  /** The parent directory can get space for one more entry once the new node has taken its own. */
  ghost predicate RoomForChild(d: Disk, path: Name, mode: int)
    requires Mounted(d)
    reads d, d.blockBitmap, d.inodeBitmap, d.inodes, d.mem
  {
    var p := ParentOf(View(d), path);
    p in View(d) && RoomIn(d.own.files[p], 64, SpaceLeft(SpaceOf(d), mode))
  }

  /** Creates a file or a directory.  `x` is its inode if that succeeds. */
  method Mknod(d: Disk, path: Name, mode: int) returns (rv: int, ghost x: nat)
    requires Mounted(d) && MknodAllowed(View(d), path)
    modifies d, d.blockBitmap, d.inodeBitmap, d.inodes, d.mem
    ensures Mounted(d)
    ensures MknodEffect(old(View(d)), path, mode, old(FreeInodes(d.Tab())) != [], old(FreeBlocks(d.Tab())) != [],
                        old(RoomForChild(d, path, mode)), x, View(d), rv)
  {
    hide Wf, View, IsDir, SlotsIn, NamesOk, AddCode, NamesEntry, DirMode, CreateStep, SameNames, LookupIn;
    hide RoomForChild, Target, ParentOf;
    x := 0;
    var inum := InumFor(d, path);
    TargetCodes(View(d), path);
    if inum >= 0 {
      return EEXIST, x;
    }
    if inum == -ENOTDIR {
      return -ENOTDIR, x;
    }
    TargetEntry(View(d), path);
    rv, x := CreateAt(d, path, mode);
  }

  /** Makes a node and enters it under a path that leads nowhere yet. */
  method CreateAt(d: Disk, path: Name, mode: int) returns (rv: int, ghost x: nat)
    requires Mounted(d) && NamesEntry(path)
    requires ParentOf(View(d), path) in View(d) && IsDir(View(d)[ParentOf(View(d), path)].mode)
    requires LookupIn(SlotsIn(View(d), ParentOf(View(d), path)), LastName(path)) < 0
    modifies d, d.blockBitmap, d.inodeBitmap, d.inodes, d.mem
    ensures Mounted(d)
    ensures CreateEffect(old(View(d)), path, mode, old(FreeInodes(d.Tab())) != [], old(FreeBlocks(d.Tab())) != [],
                         old(RoomForChild(d, path, mode)), x, View(d), rv)
  {
    hide Wf, View, IsDir, SlotsIn, NamesOk, AddCode, Born, NamesEntry, DirMode, CreateStep, SameNames, LookupIn;
    hide RoomIn, SpaceLeft, SpaceOf, FreeBlocks, FreeInodes;
    ghost var v := View(d);
    ghost var p := ParentOf(v, path);
    x := 0;
    NamesParts(v);
    EntryPathFacts(path);
    var inum := MakeNode(d, mode);
    if inum < 0 {
      SameNamesRefl(v);
      return inum, x;
    }
    x := inum;
    ParentUnmoved(v, inum, View(d), path);
    var parent, name := ParentChild(d, ROOT, path);
    ParentInRange(d, v, parent);
    rv := EnterNode(d, parent, name, inum, v);
    if rv < 0 {
      SameNamesKeepsNames(v, View(d));
      return rv, x;
    }
    CreateKeepsNames(v, p, LastName(path), inum, View(d));
    return 0, x;
  }

  /** A new node changes no parent. */
  lemma ParentUnmoved(v: map<nat, Node>, x: nat, vb: map<nat, Node>, path: Name)
    requires NamesOk(v) && Born(v, x, vb) && NamesEntry(path)
    ensures DirsOk(vb) && ROOT in vb && IsDir(vb[ROOT].mode) && v.Keys <= vb.Keys && x !in v
    ensures Parent(vb, ROOT, Explode(path, SLASH)) == ParentOf(v, path)
  {
    hide IsDir, SlotsIn, RefsOk, TreeOk, TablesOk, Newborn, Resolve;
    NamesParts(v);
    BornUnseen(v, x, vb);
    ResolveFrame(v, vb, ROOT, Explode(path, SLASH)[..LastComp(Explode(path, SLASH))]);
    forall h | h in v ensures h in vb {
      assert SameTable(v, vb, h);
    }
  }

  /** What creating does under a path that leads nowhere yet: the new file appears in the parent
    directory; a new directory has `.` and `..` exactly when a block was free, and no entry otherwise;
    and after a failure no name has changed. */
  ghost predicate CreateEffect(v: map<nat, Node>, path: Name, mode: int, inodeFree: bool, blockFree: bool, room: bool,
                               x: nat, v': map<nat, Node>, rv: int)
    requires NamesOk(v) && ParentOf(v, path) in v
  {
    var p, name := ParentOf(v, path), LastName(path);
    && (rv != 0 ==> SameNames(v, v') && OnlyThese(v, v', p, p))
    && (rv == 0 ==>
          && CreateStep(v, p, name, x, v')
          && v'[x].mode == (if IsDir(mode) then DirMode(mode) else mode)
          && (!IsDir(mode) ==> v'[x].data == [])
          && (IsDir(mode) ==> SlotsIn(v', x) == if blockFree then [Slot(DOT, x), Slot(DOTDOT, p)] else []))
    && rv == (if inodeFree then AddCode(SlotsIn(v, p), name, x, room) else -ENOSPC)
    && (rv != -ENOSPC ==> NoNewStub(v, v'))
  }

  /** What mknod does: an existing target is reported with a positive error number. */
  ghost predicate MknodEffect(v: map<nat, Node>, path: Name, mode: int, inodeFree: bool, blockFree: bool, room: bool,
                              x: nat, v': map<nat, Node>, rv: int)
    requires NamesOk(v)
  {
    var r := Target(v, path);
    if r >= 0 then rv == EEXIST && v' == v
    else if r == -ENOTDIR then rv == -ENOTDIR && v' == v
    else ParentOf(v, path) in v && CreateEffect(v, path, mode, inodeFree, blockFree, room, x, v', rv)
  }

  lemma TargetCodes(v: map<nat, Node>, path: Name)
    requires NamesOk(v)
    ensures Target(v, path) in v || Target(v, path) == -ENOENT || Target(v, path) == -ENOTDIR
  {
  }

  lemma PathFacts(path: Name)
    requires NamesNewEntry(path)
    ensures NamesEntry(path) && 0 !in path
  {
  }

  lemma NamesParts(v: map<nat, Node>)
    requires NamesOk(v)
    ensures ROOT in v && IsDir(v[ROOT].mode) && DirsOk(v) && TablesOk(v)
  {
  }

  lemma SameNamesRefl(v: map<nat, Node>)
    ensures SameNames(v, v) && forall p: nat :: OnlyThese(v, v, p, p)
  {
  }

  lemma ParentInRange(d: Disk, v: map<nat, Node>, p: int)
    requires d.Ready() && v.Keys <= View(d).Keys && p in v
    ensures p < 254
  {
    FilesInRange(d, p);
  }

  /** The directory that a path's last component belongs to has or can get space for one more entry. */
  ghost predicate RoomForEntry(d: Disk, path: Name)
    requires Mounted(d)
    reads d, d.blockBitmap, d.inodeBitmap, d.inodes, d.mem
  {
    var p := ParentOf(View(d), path);
    p in View(d) && Room(d, p, 64)
  }

  /** Gives a regular file one more name. */
  method LinkPath(d: Disk, from: Name, to: Name) returns (rv: int)
    requires Mounted(d) && LinkAllowed(View(d), from, to)
    modifies d, d.blockBitmap, d.inodeBitmap, d.inodes, d.mem
    ensures Mounted(d)
    ensures LinkEffect(old(View(d)), from, to, old(RoomForEntry(d, to)), View(d), rv)
  {
    hide Wf, View, IsDir, SlotsIn, NamesOk, AddCode, NamesNewEntry, NamesEntry, LinkStep, SameNames, LookupIn, Room;
    hide Target, Explode, LastComp, OnlyThese, NoNewStub, Parent, Resolve, RoomIn, PlainName;
    NamesParts(View(d));
    var inum := InumFor(d, from);
    TargetCodes(View(d), from);
    if inum < 0 {
      return -ENOENT;
    }
    var target := InumFor(d, to);
    if target >= 0 {
      return -EEXIST;
    }
    PathFacts(to);
    EntryPathFacts(from);
    TargetEntry(View(d), to);
    var fromParent, fromName := ParentChild(d, ROOT, from);
    var toParent, toName := ParentChild(d, ROOT, to);
    if toParent < 0 {
      return toParent;
    }
    EntryPathFacts(to);
    rv := LinkAt(d, inum, toParent, toName);
  }

  lemma AddedCode(v: map<nat, Node>, p: nat, name: Name, x: int, room: bool, v': map<nat, Node>, rv: int)
    requires p in v && AddEffect(v, p, name, x, room, v', rv)
    ensures AddCode(SlotsIn(v, p), name, x, room) == if rv < 0 then rv else 0
    ensures rv < 0 <==> AddCode(SlotsIn(v, p), name, x, room) != 0
  {
    hide SlotsIn, TableEdit;
    AddSlotCodes(SlotsIn(v, p), name, x);
  }

  /** Enters a regular file under one more name. */
  method LinkAt(d: Disk, x: nat, p: nat, name: Name) returns (rv: int)
    requires Mounted(d) && x in View(d) && !IsDir(View(d)[x].mode) && p in View(d) && IsDir(View(d)[p].mode)
    requires PlainName(name) && NonDot(name) && LookupIn(SlotsIn(View(d), p), name) < 0
    modifies d, d.blockBitmap, d.inodeBitmap, d.inodes, d.mem
    ensures Mounted(d)
    ensures var v := old(View(d));
            && (rv != 0 ==> SameNames(v, View(d)) && OnlyThese(v, View(d), p, p))
            && (rv == 0 ==> LinkStep(v, p, name, x, View(d)))
            && rv == AddCode(SlotsIn(v, p), name, x, old(Room(d, p, 64)))
            && (rv != -ENOSPC ==> NoNewStub(v, View(d)))
  {
    hide Disk.Valid, View, IsDir, SlotsIn, NamesOk, AddSlot, AddCode, AddEffect, LinkStep, SameNames, Room, LookupIn;
    ghost var v := View(d);
    NamesParts(v);
    IsDirAt(v, p);
    ghost var room := Room(d, p, 64);
    ghost var mid, midRoom, midRv;
    FilesInRange(d, x);
    rv, mid, midRoom, midRv := AddEntry(d, p, name, x, true);
    Linked(v, p, name, x, room, mid, rv);
    AddedCode(v, p, name, x, room, mid, rv);
    if rv != -ENOSPC {
      AddNoStub(v, p, name, x, room, mid, rv);
    }
    if rv < 0 {
      SameNamesKeepsNames(v, mid);
      return rv;
    }
    AddRef(d, x);
    LinkKeepsNames(v, p, name, x, View(d));
    return 0;
  }

  lemma FilesInRange(d: Disk, x: nat)
    requires d.Ready() && x in View(d)
    ensures x < 254
  {
    HeadLabel(d, x);
  }

  lemma EntryPathFacts(path: Name)
    requires NamesEntry(path)
    ensures 0 !in path && NonDot(LastName(path)) && LastComp(Explode(path, SLASH)) >= 1
    ensures PlainName(LastName(path))
  {
    PartsNulFree(path, SLASH);
    ExplodeSplits(path, SLASH);
  }

  /** What link does: the target file gets an entry in the directory of the new path, or an error is
    returned and no name has changed. */
  ghost predicate LinkEffect(v: map<nat, Node>, from: Name, to: Name, room: bool, v': map<nat, Node>, rv: int)
    requires NamesOk(v)
  {
    var x, p, name := Target(v, from), ParentOf(v, to), LastName(to);
    if x < 0 then rv == -ENOENT && v' == v
    else if Target(v, to) >= 0 then rv == -EEXIST && v' == v
    else if p < 0 then rv == p && v' == v
    else
      && x in v && p in v
      && (rv != 0 ==> SameNames(v, v') && OnlyThese(v, v', p, p))
      && (rv == 0 ==> LinkStep(v, p, name, x, v'))
      && rv == AddCode(SlotsIn(v, p), name, x, room)
      && (rv != -ENOSPC ==> NoNewStub(v, v'))
  }

  // ---- removing names ----

  /** The shapes that removing an entry relies on: the chains that shrink have no empty last inode. */
  ghost predicate Removable(v: map<nat, Node>, p: nat, x: nat) {
    && p in v && x in v && !v[p].stub
    && (IsDir(v[x].mode) ==> OnlyDots(SlotsIn(v, x)))
    && (IsDir(v[x].mode) || v[x].refs <= 1 ==> !v[x].stub)
  }

  lemma EntryIsFirst(slots: seq<Slot>, name: Name)
    requires Tidy(slots) && name in Table(slots)
    ensures FirstIsLive(slots, name) && FirstNamed(slots, name, 0) < |slots|
    ensures slots[FirstNamed(slots, name, 0)].inum == Table(slots)[name]
  {
    NamedIsLive(slots, name);
  }

  lemma DotDotIsLive(slots: seq<Slot>)
    requires Tidy(slots)
    ensures FirstIsLive(slots, DOTDOT)
  {
  }

  /** What removing entry `name` needs to know about directory `p` and its child `x`. */
  lemma RemovalFacts(v: map<nat, Node>, p: nat, name: Name, x: nat)
    requires NamesOk(v) && p in v && IsDir(v[p].mode) && NonDot(name) && LookupIn(SlotsIn(v, p), name) == x
    ensures x in v && x != p && |name| < 60 && name in Table(SlotsIn(v, p)) && Table(SlotsIn(v, p))[name] == x
    ensures DirAt(v, p) && FirstIsLive(SlotsIn(v, p), name)
    ensures FirstNamed(SlotsIn(v, p), name, 0) < |SlotsIn(v, p)|
    ensures SlotsIn(v, p)[FirstNamed(SlotsIn(v, p), name, 0)].inum == x
    ensures IsDir(v[x].mode) ==> DirAt(v, x) && FirstIsLive(SlotsIn(v, x), DOTDOT) && v[x].refs == 1
    ensures v[x].refs >= 1
  {
    hide IsDir, SlotsIn, RefsOk, TreeOk, Table, Tidy, FirstNamed, EntriesOk, FirstIsLive, TablesOk;
    TablesGiveDirs(v);
    TablesOkAt(v);
    assert TableOk(v, p);
    IsDirAt(v, p);
    NotOwnChild(v, p, name);
    EntryIsFirst(SlotsIn(v, p), name);
    NotTheRoot(v, p, name, x);
    if IsDir(v[x].mode) {
      assert TableOk(v, x);
      IsDirAt(v, x);
      DotDotIsLive(SlotsIn(v, x));
      DirHasOneLink(v, x);
    }
  }

  lemma NotTheRoot(v: map<nat, Node>, p: nat, name: Name, x: nat)
    requires NamesOk(v) && p in v && IsDir(v[p].mode) && NonDot(name) && LookupIn(SlotsIn(v, p), name) == x
    ensures x != ROOT && (x in v ==> v[x].refs >= 1)
  {
    hide IsDir, SlotsIn, Table, Links, TablesOk, TreeOk;
    assert name in Entries(v, p) && Entries(v, p)[name] == x;
    assert Link(p, name) in Links(v, x);
  }

  /** Removes an entry and lowers the link count of its file, which is freed with its last name. */
  method UnlinkAt(d: Disk, p: nat, name: Name, x: nat) returns (rv: int)
    requires Mounted(d) && p in View(d) && IsDir(View(d)[p].mode) && 0 !in name && NonDot(name)
    requires LookupIn(SlotsIn(View(d), p), name) == x && Removable(View(d), p, x)
    modifies d, d.blockBitmap, d.inodeBitmap, d.inodes, d.mem
    ensures Mounted(d) && rv == 0
    ensures UnlinkStep(old(View(d)), p, name, x, View(d)) && NoNewStub(old(View(d)), View(d))
  {
    hide Disk.Valid, View, IsDir, SlotsIn, NamesOk, RemoveSlot, LookupIn, UnlinkStep, Table, FirstNamed, FirstIsLive;
    hide TwoEdits, TableEdit, DirAt, OnlyDots, NoNewStub;
    ghost var v := View(d);
    NamesParts(v);
    RemovalFacts(v, p, name, x);
    rv := RemoveEntry(d, p, name, x);
    RemoveSucceeds(SlotsIn(v, p), name);
    ghost var mid := View(d);
    RemovedFrame(v, p, name, x, mid);
    rv := DropLink(d, x);
    Unlinked(v, p, name, x, mid, View(d));
    DroppedNoStub(v, mid, x, View(d));
    UnlinkKeepsNames(v, p, name, x, View(d));
    return 0;
  }

  /** Lowers a link count and frees the file if that was the last one. */
  method DropLink(d: Disk, x: nat) returns (rv: int)
    requires d.Ready() && x in View(d) && (View(d)[x].refs <= 1 ==> !View(d)[x].stub)
    modifies d, d.blockBitmap, d.inodeBitmap, d.inodes
    ensures d.Ready() && rv == 0
    ensures var v := old(View(d));
            View(d) == if v[x].refs > 1 then v[x := v[x].(refs := v[x].refs - 1)] else v - {x}
  {
    hide Disk.Valid, View, OthersStay, SpaceOf, Room;
    ghost var v := View(d);
    var refs := RefsOf(d, x);
    var mode := ModeOf(d, x);
    SetLabel(d, x, refs - 1, mode);
    if refs - 1 > 0 {
      return 0;
    }
    assert v[x := v[x].(refs := refs - 1, mode := mode)] - {x} == v - {x};
    rv := FreeFile(d, x);
    return 0;
  }

  lemma DroppedNoStub(v: map<nat, Node>, mid: map<nat, Node>, x: nat, v': map<nat, Node>)
    requires NoNewStub(v, mid) && x in mid
    requires v' == mid - {x} || v' == mid[x := mid[x].(refs := mid[x].refs - 1)]
    ensures NoNewStub(v, v')
  {
  }

  lemma RemoveSucceeds(slots: seq<Slot>, name: Name)
    requires FirstNamed(slots, name, 0) < |slots|
    ensures RemoveSlot(slots, name).0 == 0
  {
  }

  /** What removing an entry leaves alone. */
  lemma RemovedFrame(v: map<nat, Node>, p: nat, name: Name, x: nat, mid: map<nat, Node>)
    requires p in v && x in v && x != p
    requires !IsDir(v[x].mode) ==> TableEdit(v, p, RemoveSlot(SlotsIn(v, p), name).1, mid)
    requires IsDir(v[x].mode) ==>
               TwoEdits(v, p, RemoveSlot(SlotsIn(v, p), name).1, x, RemoveSlot(SlotsIn(v, x), DOTDOT).1, mid)
    ensures x in mid && p in mid && OnlyThese(v, mid, p, x) && mid[x].refs == v[x].refs
    ensures mid[p].refs == v[p].refs && mid[p].mode == v[p].mode && |mid[p].data| % 64 == 0
    ensures SlotsIn(mid, p) == RemoveSlot(SlotsIn(v, p), name).1
    ensures !IsDir(v[x].mode) ==> mid[x] == v[x]
    ensures !mid[p].stub && (IsDir(v[x].mode) ==> !mid[x].stub) ==> NoNewStub(v, mid)
  {
    hide IsDir, SlotsIn, RemoveSlot;
    assert forall h :: h != p && h != x ==> (h in v <==> h in mid);
  }

  /** Removes a name. */
  method Unlink(d: Disk, path: Name) returns (rv: int)
    requires Mounted(d) && UnlinkAllowed(View(d), path) && UnlinkClear(View(d), path)
    modifies d, d.blockBitmap, d.inodeBitmap, d.inodes, d.mem
    ensures Mounted(d)
    ensures UnlinkEffect(old(View(d)), path, View(d), rv)
  {
    hide Wf, View, IsDir, SlotsIn, NamesOk, NamesEntry, UnlinkStep, LookupIn, OnlyDots;
    NamesParts(View(d));
    var inum := InumFor(d, path);
    TargetCodes(View(d), path);
    if inum < 0 {
      return -ENOENT;
    }
    EntryPathFacts(path);
    TargetEntry(View(d), path);
    var parent, name := ParentChild(d, ROOT, path);
    rv := UnlinkAt(d, parent, name, inum);
  }

  /** What unlink does: the entry is gone, and the file if that was its last name. */
  ghost predicate UnlinkEffect(v: map<nat, Node>, path: Name, v': map<nat, Node>, rv: int)
    requires NamesOk(v)
  {
    var x, p := Target(v, path), ParentOf(v, path);
    if x < 0 then rv == -ENOENT && v' == v
    else x in v && p in v && rv == 0 && UnlinkStep(v, p, LastName(path), x, v') && NoNewStub(v, v')
  }

  /** Removes an empty directory. */
  method Rmdir(d: Disk, path: Name) returns (rv: int)
    requires Mounted(d) && RmdirAllowed(View(d), path) && RmdirClear(View(d), path)
    modifies d, d.blockBitmap, d.inodeBitmap, d.inodes, d.mem
    ensures Mounted(d)
    ensures RmdirEffect(old(View(d)), path, View(d), rv)
  {
    hide Wf, View, IsDir, SlotsIn, NamesOk, NamesEntry, UnlinkEffect, LookupIn, OnlyDots, DirAt, UnlinkClear;
    NamesParts(View(d));
    TargetCodes(View(d), path);
    var inum := InumFor(d, path);
    if inum < 0 {
      return inum;
    }
    var mode := ModeOf(d, inum);
    if !IsDir(mode) {
      return -ENOTDIR;
    }
    IsDirAt(View(d), inum);
    var empty := IsEmpty(d, inum);
    if !empty {
      return -ENOTEMPTY;
    }
    rv := Unlink(d, path);
  }

  ghost predicate RmdirEffect(v: map<nat, Node>, path: Name, v': map<nat, Node>, rv: int)
    requires NamesOk(v)
  {
    var x := Target(v, path);
    if x < 0 then rv == x && v' == v
    else if x !in v then false
    else if !IsDir(v[x].mode) then rv == -ENOTDIR && v' == v
    else if !OnlyDots(SlotsIn(v, x)) then rv == -ENOTEMPTY && v' == v
    else UnlinkEffect(v, path, v', rv)
  }

  // ---- renaming ----

  lemma LinkedExtends(v: map<nat, Node>, p: nat, name: Name, x: nat, mid: map<nat, Node>)
    requires LinkStep(v, p, name, x, mid)
    ensures forall h :: h in v ==> MoreTable(v, mid, h)
  {
    hide IsDir, SlotsIn, Table, Tidy;
    forall h | h in v ensures MoreTable(v, mid, h) {
      if h != p && h != x {
        SameSlots(v, mid, h);
      }
    }
  }

  /** After a link every old path leads where it led, through the same parent. */
  lemma OldPathsStay(v: map<nat, Node>, p: nat, name: Name, x: nat, mid: map<nat, Node>, path: Name)
    requires NamesOk(v) && NamesOk(mid) && LinkStep(v, p, name, x, mid) && NamesEntry(path) && Target(v, path) >= 0
    ensures Target(mid, path) == Target(v, path) && ParentOf(mid, path) == ParentOf(v, path)
    ensures ParentOf(v, path) in v && IsDir(v[ParentOf(v, path)].mode)
  {
    hide IsDir, SlotsIn, TablesOk, RefsOk, TreeOk, LinkStep, MoreTable, Resolve;
    NamesParts(v);
    NamesParts(mid);
    LinkedExtends(v, p, name, x, mid);
    TargetEntry(v, path);
    EntryPathFacts(path);
    var comps := Explode(path, SLASH);
    ResolveMonotone(v, mid, ROOT, comps);
    ResolveMonotone(v, mid, ROOT, comps[..LastComp(comps)]);
  }

  /** What the second half of a rename needs, which the link in the first half keeps. */
  lemma StillRemovable(v: map<nat, Node>, p: nat, name: Name, x: nat, mid: map<nat, Node>, q: nat)
    requires NamesOk(v) && LinkStep(v, p, name, x, mid) && NoNewStub(v, mid)
    requires q in v && !v[q].stub && q != x && x != ROOT
    ensures Removable(mid, q, x) && mid[x].refs > 1
  {
    hide IsDir, SlotsIn, Table, Tidy, TablesOk, TreeOk, Links;
  }

  lemma FileIsNotRoot(v: map<nat, Node>, x: nat)
    requires NamesOk(v) && x in v && !IsDir(v[x].mode)
    ensures x != ROOT
  {
  }

  /** Moves a regular file to a new path: a link followed by an unlink, `mid` being the state between
    them. */
  method Rename(d: Disk, from: Name, to: Name) returns (rv: int, ghost mid: map<nat, Node>)
    requires Mounted(d) && LinkAllowed(View(d), from, to) && RenameClear(View(d), from)
    modifies d, d.blockBitmap, d.inodeBitmap, d.inodes, d.mem
    ensures Mounted(d)
    ensures RenameEffect(old(View(d)), from, to, old(RoomForEntry(d, to)), mid, View(d), rv)
  {
    hide Wf, View, IsDir, SlotsIn, NamesOk, NamesEntry, NamesNewEntry, UnlinkStep, LinkStep, Removable, SameNames, AddCode, Room;
    ghost var v, room := View(d), RoomForEntry(d, to);
    rv := LinkPath(d, from, to);
    mid := View(d);
    if rv < 0 {
      return rv, mid;
    }
    LinkSucceeded(v, from, to, room, mid, rv);
    MoveFacts(v, from, to, room, mid);
    rv := Unlink(d, from);
    MoveDone(v, from, to, room, mid, View(d), rv);
    if rv < 0 {
      // Taking back the new name is never called for: the old one can always be removed.
      assert false;
    }
    return 0, mid;
  }

  lemma LinkSucceeded(v: map<nat, Node>, from: Name, to: Name, room: bool, v': map<nat, Node>, rv: int)
    requires NamesOk(v) && LinkEffect(v, from, to, room, v', rv) && rv >= 0
    ensures rv == 0
  {
    var x, p, name := Target(v, from), ParentOf(v, to), LastName(to);
    if x >= 0 && Target(v, to) < 0 && p >= 0 {
      AddSlotCodes(SlotsIn(v, p), name, x);
    }
  }

  lemma MoveDone(v: map<nat, Node>, from: Name, to: Name, room: bool, mid: map<nat, Node>, v': map<nat, Node>, rv: int)
    requires NamesOk(v) && NamesOk(mid) && UnlinkEffect(mid, from, v', rv)
    requires var x, q := Target(v, from), ParentOf(v, from);
             && x in v && q in v && ParentOf(v, to) in v && Target(v, to) < 0
             && LinkStep(v, ParentOf(v, to), LastName(to), x, mid)
             && Target(mid, from) == x && ParentOf(mid, from) == q
             && x in mid && mid[x].refs > 1 && mid[x] == v[x].(refs := v[x].refs + 1)
             && NoNewStub(v, mid)
    ensures rv == 0 && RenameEffect(v, from, to, room, mid, v', 0)
  {
    hide NamesOk, Target, ParentOf, LastName, NewTable, LinkStep;
  }

  lemma MoveFacts(v: map<nat, Node>, from: Name, to: Name, room: bool, mid: map<nat, Node>)
    requires NamesOk(v) && NamesOk(mid) && LinkAllowed(v, from, to) && RenameClear(v, from)
    requires LinkEffect(v, from, to, room, mid, 0)
    ensures var x, q := Target(v, from), ParentOf(v, from);
            && x in v && q in v && ParentOf(v, to) in v && Target(v, to) < 0
            && LinkStep(v, ParentOf(v, to), LastName(to), x, mid)
            && Target(mid, from) == x && ParentOf(mid, from) == q
            && Removable(mid, q, x) && mid[x].refs > 1 && NoNewStub(v, mid)
            && x in mid && mid[x] == v[x].(refs := v[x].refs + 1)
  {
    hide IsDir, SlotsIn, AddSlot, Removable, TablesOk, RefsOk, TreeOk, Target, ParentOf, NamesEntry, NewTable, Table;
    NamesParts(v);
    TargetEntry(v, from);
    var x, q, p := Target(v, from), ParentOf(v, from), ParentOf(v, to);
    FileIsNotRoot(v, x);
    OldPathsStay(v, p, LastName(to), x, mid, from);
    StillRemovable(v, p, LastName(to), x, mid, q);
  }

  /** What rename does: the file has the new name instead of the old one, and the same content and link
    count as before. */
  ghost predicate RenameEffect(v: map<nat, Node>, from: Name, to: Name, room: bool, mid: map<nat, Node>,
                               v': map<nat, Node>, rv: int)
    requires NamesOk(v)
  {
    if rv != 0 then LinkEffect(v, from, to, room, v', rv)
    else
      var x, q, p := Target(v, from), ParentOf(v, from), ParentOf(v, to);
      && x in v && q in v && p in v && Target(v, to) < 0
      && LinkStep(v, p, LastName(to), x, mid) && UnlinkStep(mid, q, LastName(from), x, v')
      && x in v' && v'[x] == v[x]
      && NoNewStub(v, v')
  }

  // ---- content by path ----

  lemma FileEdit(v: map<nat, Node>, h: nat, v': map<nat, Node>)
    requires NamesOk(v) && ContentOnly(v, h, v') && !IsDir(v[h].mode)
    ensures SameNames(v, v') && NamesOk(v')
  {
    hide IsDir, SlotsOf, NamesOk;
    forall k | k in v ensures SameNode(v, v', k) {
    }
    SameNamesKeepsNames(v, v');
  }

  ghost predicate TargetIsDir(v: map<nat, Node>, path: Name)
    requires NamesOk(v)
  {
    var h := Target(v, path);
    h >= 0 && IsDir(v[h].mode)
  }

  lemma TargetInView(v: map<nat, Node>, path: Name)
    requires NamesOk(v)
    ensures Target(v, path) >= 0 ==> Target(v, path) in v
  {
  }

  /** The free space suffices for the file a path leads to, if there is one, to have `total` bytes. */
  ghost predicate RoomUpTo(d: Disk, path: Name, total: int)
    requires Mounted(d)
    reads d, d.blockBitmap, d.inodeBitmap, d.inodes, d.mem
  {
    var h := Target(View(d), path);
    h in View(d) && Room(d, h, total - |View(d)[h].data|)
  }

  /** Resizes the file a path leads to.  Nothing but that file changes. */
  method Truncate(d: Disk, path: Name, size: int) returns (rv: int)
    requires Mounted(d) && 0 !in path && size <= MAX_REQUEST && TruncateClear(View(d), path, size)
    modifies d, d.blockBitmap, d.inodeBitmap, d.inodes, d.mem
    ensures d.Ready() && (TargetIsDir(old(View(d)), path) || Mounted(d))
    ensures TruncatePathEffect(old(View(d)), Target(old(View(d)), path), size,
                               old(RoomUpTo(d, path, size)),
                               View(d), rv)
  {
    hide Wf, View, IsDir, NamesOk, Room, Target, TruncateEffect;
    if size < 0 {
      return 0;
    }
    TargetInView(View(d), path);
    var h := InumFor(d, path);
    if h < 0 {
      return h;
    }
    ghost var v := View(d);
    rv := TruncateFile(d, h, size);
    TruncateDone(v[h].data, size, View(d)[h].data, rv);
    if !IsDir(v[h].mode) {
      FileEdit(v, h, View(d));
    }
  }

  lemma TruncateDone(data: seq<byte>, size: nat, data': seq<byte>, rv: int)
    requires rv >= 0 ==> rv == Max(size - |data|, |data| - size) &&
                         data' == if size <= |data| then data[..size] else data + Repeat(0, size - |data|)
    requires rv < 0 ==> rv == -ENOSPC && data <= data' && |data'| < size
    ensures TruncateEffect(data, size, data', rv)
  {
  }

  /** What truncating the file `h` does; `room` says that the free space suffices for what is added. */
  ghost predicate TruncatePathEffect(v: map<nat, Node>, h: int, size: int, room: bool, v': map<nat, Node>, rv: int) {
    if size < 0 then rv == 0 && v' == v
    else if h < 0 then rv == h && v' == v
    else
      && h in v && ContentOnly(v, h, v') && TruncateEffect(v[h].data, size, v'[h].data, rv)
      && (rv >= 0 <==> size <= |v[h].data| || room)
      && (rv >= 0 ==> NoNewStub(v, v'))
  }

  /** Content cut short or extended by zeros; a failure has at most extended it part of the way. */
  ghost predicate TruncateEffect(data: seq<byte>, size: nat, data': seq<byte>, rv: int) {
    && (rv >= 0 ==> rv == Max(size - |data|, |data| - size) &&
                    data' == if size <= |data| then data[..size] else data + Repeat(0, size - |data|))
    && (rv < 0 ==> rv == -ENOSPC && |data| < size && data <= data' && |data'| < size)
  }

  /** Reads from the file a path leads to. */
  method Read(d: Disk, path: Name, buf: array<byte>, size: nat, offset: nat) returns (rv: int)
    requires Mounted(d) && 0 !in path && d.Outside(buf) && size <= buf.Length
    requires Target(View(d), path) in View(d) ==> offset <= |View(d)[Target(View(d), path)].data|
    modifies d.mem, buf
    ensures Mounted(d) && View(d) == old(View(d))
    ensures ReadEffect(View(d), Target(View(d), path), old(buf[..]), size, offset, buf[..], rv)
  {
    hide Wf, View, IsDir, NamesOk, Target;
    if size < 1 {
      return 0;
    }
    TargetInView(View(d), path);
    var h := InumFor(d, path);
    if h < 0 {
      return h;
    }
    var mode := ModeOf(d, h);
    if IsDir(mode) {
      return -EISDIR;
    }
    rv := ReadFile(d, h, buf, size, offset);
  }

  /** What reading from file `h` does: the buffer begins with the bytes of the range that the file
    has. */
  ghost predicate ReadEffect(v: map<nat, Node>, h: int, buf: seq<byte>, size: nat, offset: nat, buf': seq<byte>, rv: int) {
    if size == 0 then rv == 0 && buf' == buf
    else if h < 0 then rv == h && buf' == buf
    else if h !in v then false
    else if IsDir(v[h].mode) then rv == -EISDIR && buf' == buf
    else
      && rv == Min(size, |v[h].data| - offset) && 0 <= rv <= |buf|
      && buf' == v[h].data[offset..offset + rv] + buf[rv..]
  }

  /** Writes to the file a path leads to.  Nothing but that file changes. */
  method Write(d: Disk, path: Name, buf: array<byte>, size: nat, offset: nat) returns (rv: int)
    requires Mounted(d) && 0 !in path && d.Outside(buf) && size <= buf.Length && offset + size <= MAX_REQUEST
    modifies d, d.blockBitmap, d.inodeBitmap, d.inodes, d.mem, buf
    ensures Mounted(d) && buf[..] == old(buf[..])
    ensures WritePathEffect(old(View(d)), Target(old(View(d)), path), old(buf[..]), size, offset,
                            old(RoomUpTo(d, path, offset + size)),
                            View(d), rv)
    ensures var h := Target(old(View(d)), path);
            rv > 0 ==>
              && h in d.own.files && offset + size <= |HeldBytes(d, h, old(d.mem[..]))|
              && View(d)[h].data == Splice(HeldBytes(d, h, old(d.mem[..])), offset, Smear(old(buf[..]), offset, size))
  {
    hide Wf, View, IsDir, NamesOk, Target, Room, WriteEffect, Smear, HeldBytes, NoNewStub;
    if size < 1 {
      return 0;
    }
    TargetInView(View(d), path);
    var h := InumFor(d, path);
    if h < 0 {
      return h;
    }
    var mode := ModeOf(d, h);
    if IsDir(mode) {
      return -EISDIR;
    }
    ghost var v := View(d);
    rv := WriteFile(d, h, buf, size, offset);
    FileEdit(v, h, View(d));
  }

  /** What writing to file `h` does; `room` says that the free space suffices for what is added. */
  ghost predicate WritePathEffect(v: map<nat, Node>, h: int, buf: seq<byte>, size: nat, offset: nat, room: bool,
                                  v': map<nat, Node>, rv: int)
    requires size <= |buf|
  {
    if size == 0 then rv == 0 && v' == v
    else if h < 0 then rv == h && v' == v
    else if h !in v then false
    else if IsDir(v[h].mode) then rv == -EISDIR && v' == v
    else
      && ContentOnly(v, h, v') && WriteEffect(v[h].data, offset, Smear(buf, offset, size), v'[h].data, rv)
      && (rv >= 0 <==> room)
      && (rv >= 0 ==> NoNewStub(v, v'))
  }

  /** Lists the directory a path leads to: every entry once, in slot order. */
  method ListPath(d: Disk, path: Name) returns (rv: int, names: seq<Name>)
    requires Mounted(d) && 0 !in path
    ensures var v, h := View(d), Target(View(d), path);
            if h < 0 then rv == h
            else
              h in v &&
              if !IsDir(v[h].mode) then rv == -20
              else
                && rv == 0 && names == LiveList(SlotsIn(v, h)) && InSlotOrder(SlotsIn(v, h), names)
                && (forall name :: name in names <==> name in Table(SlotsIn(v, h)))
                && (forall i, j :: 0 <= i < j < |names| ==> names[i] != names[j])
  {
    hide Wf, View, IsDir, NamesOk, SlotsIn, Table, InSlotOrder;
    names := [];
    TargetInView(View(d), path);
    var h := InumFor(d, path);
    if h < 0 {
      return h, names;
    }
    var mode := ModeOf(d, h);
    if !IsDir(mode) {
      return -ENOTDIR, names;
    }
    NamesParts(View(d));
    IsDirAt(View(d), h);
    names := List(d, h);
    TidyAt(View(d), h);
    ListIsTable(SlotsIn(View(d), h));
    return 0, names;
  }

  lemma TidyAt(v: map<nat, Node>, h: nat)
    requires NamesOk(v) && h in v && IsDir(v[h].mode)
    ensures Shadow(SlotsIn(v, h))
  {
    hide RefsOk, TreeOk, IsDir, SlotsIn;
  }

  // ---- reading back what was written ----

  /** After a successful write that stays in one block, reading its range gives the bytes written. */
  lemma ReadAfterWrite(v: map<nat, Node>, h: nat, buf: seq<byte>, n: nat, offset: nat, room: bool,
                       v': map<nat, Node>, rbuf: seq<byte>, rbuf': seq<byte>, rv: int)
    requires h in v && !IsDir(v[h].mode) && 1 <= n <= |buf| && offset % 4096 + n <= 4096
    requires WritePathEffect(v, h, buf, n, offset, room, v', n)
    requires n <= |rbuf| && ReadEffect(v', h, rbuf, n, offset, rbuf', rv)
    ensures rv == n && rbuf' == buf[..n] + rbuf[n..]
  {
    hide IsDir, Smear, NoNewStub;
    WriteIsExactIffConfined(offset, n);
    assert Smear(buf, offset, n) == buf[..n];
  }

  /** After any successful write, reading old bytes beside its range, or any other file, gives what it
    gave before. */
  lemma ReadBesideWrite(v: map<nat, Node>, h: nat, buf: seq<byte>, n: nat, offset: nat, room: bool,
                        v': map<nat, Node>, k: nat, m: nat, from: nat, rbuf: seq<byte>, rbuf': seq<byte>, rv: int)
    requires h in v && !IsDir(v[h].mode) && 1 <= n <= |buf|
    requires WritePathEffect(v, h, buf, n, offset, room, v', n)
    requires k in v && from + m <= |v[k].data| && m <= |rbuf|
    requires k == h ==> from + m <= offset || offset + n <= from
    ensures ReadEffect(v', k, rbuf, m, from, rbuf', rv) <==> ReadEffect(v, k, rbuf, m, from, rbuf', rv)
  {
    hide IsDir, Smear, NoNewStub;
    if k == h && m > 0 {
      WriteKeepsBeside(v[h].data, offset, Smear(buf, offset, n), v'[h].data, from, m);
    }
  }

  lemma WriteKeepsBeside(data: seq<byte>, offset: nat, b: seq<byte>, data': seq<byte>, from: nat, m: nat)
    requires WriteEffect(data, offset, b, data', |b|) && from + m <= |data|
    requires from + m <= offset || offset + |b| <= from
    ensures from + m <= |data'| && data'[from..from + m] == data[from..from + m]
  {
    if from + m <= offset {
      var k := Min(|data|, offset);
      assert data'[..k] == data[..k];
      assert data'[..k][from..from + m] == data'[from..from + m];
      assert data[..k][from..from + m] == data[from..from + m];
    } else {
      var e := offset + |b|;
      assert data' == data[..offset] + b + data[e..];
      assert data'[e..] == data[e..];
      assert data'[e..][from - e..from - e + m] == data'[from..from + m];
      assert data[e..][from - e..from - e + m] == data[from..from + m];
    }
  }

  /** A block-confined write inside the file or right behind it, seen on the content. */
  datatype Patch = Patch(offset: nat, bytes: seq<byte>)

  predicate Confined(p: Patch) {
    p.offset % 4096 + |p.bytes| <= 4096
  }

  /** The contents along a run of writes. */
  ghost predicate WriteRun(contents: seq<seq<byte>>, patches: seq<Patch>) {
    && |contents| == |patches| + 1
    && forall i :: 0 <= i < |patches| ==> WriteAt(contents, patches, i)
  }

  /** The `i`th write of a run is confined and successful, and does what the method promises. */
  ghost predicate WriteAt(contents: seq<seq<byte>>, patches: seq<Patch>, i: nat)
    requires i < |patches| && i + 1 < |contents|
  {
    var p := patches[i];
    && Confined(p) && p.offset <= |contents[i]|
    && exists buf: seq<byte> :: |p.bytes| <= |buf| && buf[..|p.bytes|] == p.bytes &&
         WriteEffect(contents[i], p.offset, Smear(buf, p.offset, |p.bytes|), contents[i + 1], |p.bytes|)
  }

  /** The content that the writes amount to: one patch after the other. */
  function Patched(data: seq<byte>, patches: seq<Patch>): seq<byte> {
    if patches == [] then data
    else
      var before, p := Patched(data, patches[..|patches| - 1]), patches[|patches| - 1];
      if p.offset <= |before| then Overwrite(before, p.offset, p.bytes) else before
  }

  /** Every run of successful confined writes leaves the content that patching byte sequences gives. */
  lemma {:induction false} WritesRefinePatches(contents: seq<seq<byte>>, patches: seq<Patch>, n: nat)
    requires WriteRun(contents, patches) && n <= |patches|
    ensures contents[n] == Patched(contents[0], patches[..n])
  {
    if n > 0 {
      WritesRefinePatches(contents, patches, n - 1);
      assert patches[..n][..n - 1] == patches[..n - 1];
      assert WriteAt(contents, patches, n - 1);
      var p := patches[n - 1];
      var buf: seq<byte> :| |p.bytes| <= |buf| && buf[..|p.bytes|] == p.bytes &&
        WriteEffect(contents[n - 1], p.offset, Smear(buf, p.offset, |p.bytes|), contents[n], |p.bytes|);
      WriteIsExactIffConfined(p.offset, |p.bytes|);
      assert Smear(buf, p.offset, |p.bytes|) == buf[..|p.bytes|];
    }
  }

  // ---- mounting ----

  /** Marks the blocks of the metadata as occupied, which they are on every valid disk. */
  method BlockInit(d: Disk)
    requires d.Ready()
    modifies d.blockBitmap
    ensures d.Ready() && d.Tab() == old(d.Tab()) && View(d) == old(View(d))
  {
    hide FilesOk, ChainsOwned, BlocksOwned, InodeBits, ViewOf;
    ghost var t := d.Tab();
    BitmapPut(d.blockBitmap, 0, true);
    BitmapPut(d.blockBitmap, 1, true);
    ghost var bbm := t.bbm[0 := true][1 := true];
    assert bbm == t.bbm;
    assert d.Tab().bbm == bbm;
  }

  method InodeExists(d: Disk, x: nat) returns (there: bool)
    requires d.Ready() && x < 254 && (x in View(d) || View(d) == map[])
    ensures there <==> x in View(d)
  {
    hide FilesOk, BlocksOwned, BlockBits, View;
    RootBit(d, x);
    there := BitmapGet(d.inodeBitmap, x);
  }

  lemma RootBit(d: Disk, x: nat)
    requires d.Ready() && x < 254 && (x in View(d) || View(d) == map[])
    ensures d.Tab().ibm[x] <==> x in View(d)
  {
    hide BlocksOwned, BlockBits;
    if x in View(d) {
      HeadsOwned(d.own);
    } else {
      assert forall y :: y in d.own.iown ==> ChainHolds(d.own.files, d.own.iown[y], y);
    }
  }

  /** The `..` of a directory, if it has one, comes before every hole. */
  ghost predicate DotsFirst(slots: seq<Slot>) {
    DOTDOT in Table(slots) ==> forall j :: 0 <= j < FirstLive(slots, DOTDOT, 0) ==> Live(slots[j])
  }

  /** Mounts an image: one without files gets a root directory with its two dots, and the `..` of the
    root is added if it is missing. */
  method StorageInit(d: Disk) returns (ghost rv: int)
    requires d.Ready() && (View(d) == map[] || NamesOk(View(d)))
    modifies d, d.blockBitmap, d.inodeBitmap, d.inodes, d.mem
    ensures d.Ready()
    ensures old(View(d)) == map[] ==>
              && Mounted(d) && NoStubs(View(d)) && View(d).Keys == {ROOT}
              && SlotsIn(View(d), ROOT) == [Slot([46], ROOT), Slot([46, 46], ROOT)]
    ensures old(View(d)) != map[] ==>
              && AddEffect(old(View(d)), ROOT, DOTDOT, ROOT, old(Room(d, ROOT, 64)), View(d), rv)
              && (DotsFirst(SlotsIn(old(View(d)), ROOT)) ==>
                    && Mounted(d)
                    && (DOTDOT in Table(SlotsIn(old(View(d)), ROOT)) ==> View(d) == old(View(d))))
  {
    hide Wf, View, IsDir, SlotsIn, RoomIn, AddEffect, NamesOk, DotsFirst, Table, NoStubs;
    rv := 0;
    ghost var v := View(d);
    if v != map[] {
      NamesParts(v);
    }
    BlockInit(d);
    var there := InodeExists(d, ROOT);
    if !there {
      InitRoot(d);
    } else {
      IsDirAt(v, ROOT);
      ghost var room := Room(d, ROOT, 64);
      var added := InsertEntry(d, ROOT, DOTDOT, ROOT);
      rv := added;
      if DotsFirst(SlotsIn(v, ROOT)) {
        RootDotDot(v, room, View(d), added);
      }
    }
  }

  /** Makes the root directory on an image without files. */
  method InitRoot(d: Disk)
    requires d.Ready() && View(d) == map[]
    modifies d, d.blockBitmap, d.inodeBitmap, d.inodes, d.mem
    ensures Mounted(d) && NoStubs(View(d))
    ensures View(d).Keys == {ROOT}
    ensures SlotsIn(View(d), ROOT) == [Slot([46], ROOT), Slot([46, 46], ROOT)]
  {
    hide Wf, View, IsDir, DirMode, SlotsOf, Room, AddSlot, FirstStop;
    EmptyImage(d);
    var inum := AllocFile(d);
    RoomForFirst(d, ROOT);
    ghost var v0 := View(d);
    Init(d, ROOT);
    ghost var v1 := View(d);
    OneMoreSlotFits(d, ROOT);
    ghost var room := Room(d, ROOT, 64);
    var added := InsertEntry(d, ROOT, DOTDOT, ROOT);
    RootDirectory(v0, v1, room, View(d), added);
    assert DOT == [46] && DOTDOT == [46, 46];
    DotsNoStub(v1, ROOT, ROOT, room, View(d), added);
  }

  /** Adding `..` to the root keeps the invariant, and changes nothing if it has one. */
  lemma RootDotDot(v: map<nat, Node>, room: bool, v': map<nat, Node>, rv: int)
    requires NamesOk(v) && AddEffect(v, ROOT, DOTDOT, ROOT, room, v', rv) && DotsFirst(SlotsIn(v, ROOT))
    ensures NamesOk(v')
    ensures DOTDOT in Table(SlotsIn(v, ROOT)) ==> v' == v
  {
    hide IsDir, SlotsIn, Table, Tidy, RefsOk, TreeOk, TableEdit, LiveNames, FirstLive, NamesOk;
    NamesParts(v);
    TablesOkAt(v);
    assert TableOk(v, ROOT);
    var slots := SlotsIn(v, ROOT);
    if DOTDOT in Table(slots) {
      RootRefuses(slots);
    } else {
      AddKeepsTidy(slots, DOTDOT, ROOT);
      RootEdit(v, v', if rv < 0 then slots else AddSlot(slots, DOTDOT, ROOT).1);
    }
  }

  lemma RootRefuses(slots: seq<Slot>)
    requires Tidy(slots) && DotsFirst(slots) && DOTDOT in Table(slots)
    ensures AddSlot(slots, DOTDOT, ROOT) == (-EEXIST, slots)
  {
    hide Table;
    AddRefusesLive(slots, DOTDOT, ROOT);
  }

  lemma RootEdit(v: map<nat, Node>, v': map<nat, Node>, slots: seq<Slot>)
    requires NamesOk(v) && (v' == v || TableEdit(v, ROOT, slots, v')) && Tidy(slots)
    requires Table(slots) == Table(SlotsIn(v, ROOT)) || Table(slots) == Table(SlotsIn(v, ROOT))[DOTDOT := ROOT]
    ensures NamesOk(v')
  {
    hide IsDir, SlotsIn, Table, Tidy, NamesOk;
    NamesParts(v);
    if v' != v {
      DotDotKeepsNames(v, v');
    }
  }

  lemma RootDirectory(v0: map<nat, Node>, v1: map<nat, Node>, room: bool, v: map<nat, Node>, rv: int)
    requires v0 == map[ROOT := Node(0, 33188, false, [])] && InitEffect(v0, ROOT, true, v1)
    requires AddEffect(v1, ROOT, DOTDOT, ROOT, room, v, rv) && (|v1[ROOT].data| == 64 ==> room)
    ensures v.Keys == {ROOT} && SlotsIn(v, ROOT) == [Slot(DOT, ROOT), Slot(DOTDOT, ROOT)]
    ensures NamesOk(v)
  {
    hide IsDir, DirMode, AddEffect, SlotsIn;
    OneSlot(v1);
    ChildDots(v1, ROOT, ROOT, room, v, rv);
    LoneRoot(v);
  }

  lemma OneSlot(v: map<nat, Node>)
    requires ROOT in v && |v[ROOT].data| % 64 == 0 && SlotsIn(v, ROOT) == [Slot(DOT, ROOT)]
    ensures |v[ROOT].data| == 64
  {
    assert |SlotsIn(v, ROOT)| == 1;
  }

  lemma LoneRoot(v: map<nat, Node>)
    requires v.Keys == {ROOT} && IsDir(v[ROOT].mode) && |v[ROOT].data| % 64 == 0
    requires SlotsIn(v, ROOT) == [Slot(DOT, ROOT), Slot(DOTDOT, ROOT)]
    ensures NamesOk(v)
  {
    hide IsDir, SlotsIn, Table, Tidy, LiveNames;
    NewbornTable(SlotsIn(v, ROOT), ROOT, ROOT);
    assert Entries(v, ROOT) == map[];
    assert forall h :: Entries(v, h) == map[];
    assert Links(v, ROOT) == {};
    assert DotsOk(v, map[], ROOT);
    assert TreeWith(v, map[]);
    forall h | h in v && IsDir(v[h].mode) ensures EntriesOk(v, h) {
      forall name | name in Table(SlotsIn(v, h)) ensures Table(SlotsIn(v, h))[name] in v {
        assert name == DOT || name == DOTDOT;
      }
    }
  }
}
