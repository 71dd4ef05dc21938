/** Directories: files whose content is a table of 64-byte entries. */
module Directory {
  import opened Specs
  import opened Layout
  import opened Sizing
  import opened Moves
  import opened Disks
  import opened Content
  import opened Iteration
  import opened Files
  import opened Slots

  /** The directory bit of a mode. */
  predicate IsDir(mode: int) {
    mode / 0x4000 % 2 == 1
  }

  /** File `h` is a directory whose size is a whole number of entries. */
  ghost predicate DirAt(v: map<nat, Node>, h: nat) {
    h in v && IsDir(v[h].mode) && |v[h].data| % 64 == 0
  }

  ghost function SlotsIn(v: map<nat, Node>, h: nat): seq<Slot>
    requires h in v
  {
    SlotsOf(v[h].data)
  }

  /** Only the table of directory `h` changed, to the given slots. */
  ghost predicate TableEdit(v: map<nat, Node>, h: nat, slots: seq<Slot>, v': map<nat, Node>) {
    ContentOnly(v, h, v') && |v'[h].data| % 64 == 0 && SlotsIn(v', h) == slots
  }

  lemma EditTwice(v: map<nat, Node>, h: nat, s1: seq<Slot>, v1: map<nat, Node>, s2: seq<Slot>, v2: map<nat, Node>)
    requires TableEdit(v, h, s1, v1) && TableEdit(v1, h, s2, v2)
    ensures TableEdit(v, h, s2, v2)
  {
  }

  lemma NoEdit(v: map<nat, Node>, h: nat)
    requires DirAt(v, h)
    ensures TableEdit(v, h, SlotsIn(v, h), v)
  {
    assert v == v[h := v[h]];
  }

  /** A C string that fits an entry, with its terminator. */
  predicate ShortName(name: Name) {
    |name| < 60 && 0 !in name
  }

  // ---- single entries ----

  method EntryCount(d: Disk, h: nat) returns (n: nat)
    requires d.Ready() && DirAt(View(d), h)
    ensures n == |SlotsIn(View(d), h)| && 64 * n == |View(d)[h].data|
  {
    hide Disk.Valid, SlotsOf;
    var size := FileSize(d, h);
    n := size / 64;
  }

  /** Where entry `i` is in memory.  Entries never straddle blocks. */
  method GetEntry(d: Disk, h: nat, i: nat) returns (p: nat)
    requires d.Ready() && DirAt(View(d), h) && i < |SlotsIn(View(d), h)|
    ensures OnDisk(d.own.files[h]) && 64 * i < d.own.files[h].size && p == Addr(d.own.files[h], 64 * i)
    ensures p + 64 <= d.mem.Length && 64 * i + 64 <= |View(d)[h].data|
    ensures d.mem[..][p..p + 64] == View(d)[h].data[64 * i..64 * i + 64]
  {
    hide Disk.Valid, SlotsOf;
    p := Locate(d, h, 64 * i, 64);
  }

  /** The inode of entry `i`, and whether the entry carries the given name. */
  method ReadEntry(d: Disk, h: nat, i: nat, name: Name) returns (inum: int, same: bool)
    requires d.Ready() && DirAt(View(d), h) && i < |SlotsIn(View(d), h)| && ShortName(name)
    ensures inum == SlotsIn(View(d), h)[i].inum
    ensures same == (SlotsIn(View(d), h)[i].name == name)
  {
    hide Disk.Valid, OnDisk, Addr, DecodeInt, CString, SameString;
    var p := GetEntry(d, h, i);
    EntryBytes(d.mem[..], p, View(d)[h].data, i);
    inum := DecodeInt(d.mem[..][p + 60..p + 64]);
    same := SameString(name, d.mem[..][p..p + 60]);
    SameStringIsEqual(name, d.mem[..][p..p + 60]);
  }

  lemma EntryBytes(mem: seq<byte>, p: nat, data: seq<byte>, i: nat)
    requires p + 64 <= |mem| && 64 * i + 64 <= |data| && mem[p..p + 64] == data[64 * i..64 * i + 64]
    ensures mem[p..p + 60] == data[64 * i..64 * i + 60] && mem[p + 60..p + 64] == data[64 * i + 60..64 * i + 64]
  {
    assert mem[p..p + 64][..60] == mem[p..p + 60] && mem[p..p + 64][60..] == mem[p + 60..p + 64];
    assert data[64 * i..64 * i + 64][..60] == data[64 * i..64 * i + 60];
    assert data[64 * i..64 * i + 64][60..] == data[64 * i + 60..64 * i + 64];
  }

  /** Stores bytes inside entry `i`, `k` bytes from its start. */
  method StoreInEntry(d: Disk, h: nat, i: nat, k: nat, bytes: seq<byte>)
    requires d.Ready() && DirAt(View(d), h) && i < |SlotsIn(View(d), h)|
    requires 1 <= |bytes| && k + |bytes| <= 64
    modifies d.mem
    ensures d.Ready() && h in old(View(d)) && 64 * i + 64 <= |old(View(d))[h].data|
    ensures View(d) == AfterWrite(old(View(d)), h, 64 * i + k, bytes)
  {
    hide Wf, SlotsOf, Splice, ViewOf, AfterWrite, Addr, OnDisk, InBlock, IsDir;
    ghost var mem, f := d.mem[..], d.own.files[h];
    var p := GetEntry(d, h, i);
    EntryAddr(f, i, k);
    EntryInBlock(i, k, |bytes|);
    MemStore(d.mem, p + k, bytes);
    ViewAfterWrite(d.Tab(), d.own, h, mem, 64 * i + k, bytes);
  }

  lemma EntryAddr(f: File, i: nat, k: nat)
    requires OnDisk(f) && 64 * i + 64 <= f.size && k < 64
    ensures Addr(f, 64 * i + k) == Addr(f, 64 * i) + k
  {
    hide OnDisk;
    EntryBlock(i, k);
    EntryBlock(i, 0);
  }

  /** Sixty-four entries make up a block. */
  lemma EntryBlock(i: nat, k: nat)
    requires k < 64
    ensures (64 * i + k) / 4096 == i / 64 && (64 * i + k) % 4096 == 64 * (i % 64) + k
  {
    var q, r := i / 64, i % 64;
    assert i == 64 * q + r;
    QuotientIs(64 * i + k, q, 64 * r + k);
  }

  lemma QuotientIs(a: nat, q: nat, r: nat)
    requires a == 4096 * q + r && r < 4096
    ensures a / 4096 == q && a % 4096 == r
  {
  }

  lemma EntryInBlock(i: nat, k: nat, n: nat)
    requires k + n <= 64
    ensures n > 0 ==> (64 * i + k) % 4096 + n <= 4096
  {
    if n > 0 {
      EntryBlock(i, k);
    }
  }

  method MemStore(mem: array<byte>, start: nat, bytes: seq<byte>)
    requires start + |bytes| <= mem.Length
    modifies mem
    ensures mem[..] == Splice(old(mem[..]), start, bytes)
  {
    for i := 0 to |bytes|
      invariant mem[..start] == old(mem[..start]) && mem[start + |bytes|..] == old(mem[start + |bytes|..])
      invariant mem[start..start + i] == bytes[..i]
    {
      mem[start + i] := bytes[i];
    }
    assert bytes[..|bytes|] == bytes;
    assert mem[..] == mem[..start] + mem[start..start + |bytes|] + mem[start + |bytes|..];
  }

  method SetEntryInum(d: Disk, h: nat, i: nat, x: int)
    requires d.Ready() && DirAt(View(d), h) && i < |SlotsIn(View(d), h)| && FitsInt(x)
    modifies d.mem
    ensures d.Ready() && h in old(View(d)) && i < |SlotsIn(old(View(d)), h)|
    ensures TableEdit(old(View(d)), h, SlotsIn(old(View(d)), h)[i := Slot(SlotsIn(old(View(d)), h)[i].name, x)], View(d))
    ensures h in View(d) && View(d)[h].stub == old(View(d))[h].stub
  {
    hide Disk.Valid, SlotsOf, EncodeInt;
    ghost var data := View(d)[h].data;
    StoreInEntry(d, h, i, 60, EncodeInt(x));
    SetInum(data, i, x);
  }

  method SetEntryName(d: Disk, h: nat, i: nat, name: Name)
    requires d.Ready() && DirAt(View(d), h) && i < |SlotsIn(View(d), h)| && ShortName(name)
    modifies d.mem
    ensures d.Ready() && h in old(View(d)) && i < |SlotsIn(old(View(d)), h)|
    ensures TableEdit(old(View(d)), h, SlotsIn(old(View(d)), h)[i := Slot(name, SlotsIn(old(View(d)), h)[i].inum)], View(d))
    ensures h in View(d) && View(d)[h].stub == old(View(d))[h].stub
  {
    hide Disk.Valid, SlotsOf;
    ghost var data := View(d)[h].data;
    StoreInEntry(d, h, i, 0, name + [0]);
    SetName(data, i, name);
  }

  // ---- lookups ----

  /** The number of the live entry with the given name, or -ENOENT. */
  method LookupEntryNum(d: Disk, h: nat, name: Name) returns (r: int)
    requires d.Ready() && DirAt(View(d), h) && 0 !in name
    ensures var slots := SlotsIn(View(d), h);
            if |name| < 60 && name in Table(slots) then r == FirstLive(slots, name, 0) else r == -ENOENT
  {
    hide Disk.Valid, SlotsIn, View, LiveNames, Table, FirstLive, IsDir;
    if |name| > 59 {
      return -ENOENT;
    }
    ghost var slots := SlotsIn(View(d), h);
    var n := EntryCount(d, h);
    for i := 0 to n
      invariant FirstLive(slots, name, 0) >= i
    {
      var inum, same := ReadEntry(d, h, i, name);
      if inum >= 0 && same {
        return i;
      }
    }
    return -ENOENT;
  }

  /** What a table gives for a name: an inode or -ENOENT. */
  function LookupIn(slots: seq<Slot>, name: Name): int {
    if |name| < 60 && name in Table(slots) then Table(slots)[name] else -ENOENT
  }

  /** In a table as the operations leave it, a name is looked up as in a map. */
  lemma LookupIsTable(slots: seq<Slot>, name: Name)
    requires Tidy(slots)
    ensures LookupIn(slots, name) == if name in Table(slots) then Table(slots)[name] else -2
  {
    hide Table, Tidy;
    if name in Table(slots) {
      TidyNames(slots, name);
    }
  }

  method LookupInum(d: Disk, h: nat, name: Name) returns (r: int)
    requires d.Ready() && DirAt(View(d), h) && 0 !in name
    ensures r == LookupIn(SlotsIn(View(d), h), name)
  {
    hide Disk.Valid, SlotsOf, LiveNames;
    var i := LookupEntryNum(d, h, name);
    if i < 0 {
      return i;
    }
    var inum, _ := ReadEntry(d, h, i, name);
    return inum;
  }

  /** Whether a directory holds nothing but its dots. */
  method IsEmpty(d: Disk, h: nat) returns (empty: bool)
    requires d.Ready() && DirAt(View(d), h)
    ensures empty <==> OnlyDots(SlotsIn(View(d), h))
  {
    hide Disk.Valid, SlotsIn, View, IsDir;
    ghost var slots := SlotsIn(View(d), h);
    var n := EntryCount(d, h);
    for i := 0 to n
      invariant forall j :: 0 <= j < i && Live(slots[j]) ==> !NonDot(slots[j].name)
    {
      var inum, isDot := ReadEntry(d, h, i, DOT);
      var _, isDotDot := ReadEntry(d, h, i, DOTDOT);
      if inum >= 0 && !isDot && !isDotDot {
        return false;
      }
    }
    return true;
  }

  /** The name of entry `i`. */
  method EntryName(d: Disk, h: nat, i: nat) returns (inum: int, name: Name)
    requires d.Ready() && DirAt(View(d), h) && i < |SlotsIn(View(d), h)|
    ensures SlotsIn(View(d), h)[i] == Slot(name, inum)
  {
    hide Disk.Valid, OnDisk, Addr, DecodeInt, CString;
    var p := GetEntry(d, h, i);
    EntryBytes(d.mem[..], p, View(d)[h].data, i);
    inum := DecodeInt(d.mem[..][p + 60..p + 64]);
    name := CString(d.mem[..][p..p + 60]);
  }

  /** The names of the live entries, in slot order: the list is built from the last entry on. */
  method List(d: Disk, h: nat) returns (names: seq<Name>)
    requires d.Ready() && DirAt(View(d), h)
    ensures names == LiveList(SlotsIn(View(d), h)) && InSlotOrder(SlotsIn(View(d), h), names)
  {
    hide Disk.Valid, SlotsIn, View, IsDir, InSlotOrder, LiveList;
    ghost var slots := SlotsIn(View(d), h);
    ListInSlotOrder(slots);
    names := [];
    var i := EntryCount(d, h);
    NothingListed(slots);
    while i > 0
      invariant 0 <= i <= |slots| && names == LiveList(slots[i..])
    {
      i := i - 1;
      var inum, name := EntryName(d, h, i);
      ListStep(slots, i);
      if inum >= 0 {
        names := [name] + names;
      }
    }
    assert slots[0..] == slots;
  }

  lemma ListStep(slots: seq<Slot>, i: nat)
    requires i < |slots|
    ensures LiveList(slots[i..]) == (if Live(slots[i]) then [slots[i].name] else []) + LiveList(slots[i + 1..])
  {
    assert slots[i..][0] == slots[i] && slots[i..][1..] == slots[i + 1..];
  }

  lemma NothingListed(slots: seq<Slot>)
    ensures LiveList(slots[|slots|..]) == []
  {
  }

  // ---- adding ----

  /** What adding an entry does to the table, and the number it returns. */
  ghost predicate AddEffect(v: map<nat, Node>, h: nat, name: Name, x: int, room: bool, v': map<nat, Node>, rv: int)
    requires h in v
  {
    var slots := SlotsIn(v, h);
    var i := FirstStop(slots, name, 0);
    var (rc, slots') := AddSlot(slots, name, x);
    if rc != 0 then rv == rc && v' == v
    else if i == |slots| && !room then
      rv == -ENOSPC && TableEdit(v, h, slots, v') && (v[h].data == [] ==> v'[h].stub == v[h].stub)
    else rv == i && TableEdit(v, h, slots', v') && (v'[h].stub ==> v[h].stub)
  }

  /** Adding leaves an inode with nothing in it only if it fails for want of space and the directory was
    not empty. */
  lemma AddNoStub(v: map<nat, Node>, h: nat, name: Name, x: int, room: bool, v': map<nat, Node>, rv: int)
    requires h in v && AddEffect(v, h, name, x, room, v', rv) && (rv != -ENOSPC || v[h].data == [])
    ensures NoNewStub(v, v')
  {
  }

  /** The result of adding an entry: zero, or why it was not added. */
  function AddCode(slots: seq<Slot>, name: Name, x: int, room: bool): int {
    var rc := AddSlot(slots, name, x).0;
    if rc == 0 && FirstStop(slots, name, 0) == |slots| && !room then -ENOSPC else rc
  }

  /** Gives the live entry `i` a name that no live entry has. */
  method RenameEntry(d: Disk, h: nat, i: nat, name: Name) returns (rv: int)
    requires d.Ready() && DirAt(View(d), h) && 0 !in name
    requires i < |SlotsIn(View(d), h)| && Live(SlotsIn(View(d), h)[i])
    modifies d.mem
    ensures d.Ready() && h in old(View(d)) && i < |SlotsIn(old(View(d)), h)|
    ensures var v, slots := old(View(d)), SlotsIn(old(View(d)), h);
            if |name| >= 60 then rv == -ENAMETOOLONG && View(d) == v
            else if name in Table(slots) then rv == -EEXIST && View(d) == v
            else
              && rv == i && TableEdit(v, h, slots[i := Slot(name, slots[i].inum)], View(d))
              && View(d)[h].stub == v[h].stub
  {
    hide Disk.Valid, SlotsIn, View, LiveNames, Table, FirstLive, IsDir, TableEdit;
    if |name| >= 60 {
      return -ENAMETOOLONG;
    }
    var k := LookupEntryNum(d, h, name);
    if k >= 0 {
      return -EEXIST;
    }
    SetEntryName(d, h, i, name);
    return i;
  }

  /** The slots once a hole got its inode and then, possibly, its name. */
  lemma AddToHole(slots: seq<Slot>, i: nat, name: Name, x: int)
    requires i == FirstStop(slots, name, 0) && |name| < 60 && 0 <= x
    requires i < |slots| && !Live(slots[i]) && slots[i].name != name
    ensures AddSlot(slots, name, x) == (0, Filled(slots, i, name, x))
  {
    hide Table, LiveNames, FirstLive;
    var s1 := slots[i := Slot(slots[i].name, x)];
    SameFirstLive(slots, s1, i, name);
    assert name in Table(s1) <==> name in Table(slots);
    assert s1[i := Slot(name, x)] == slots[i := Slot(name, x)];
  }

  lemma NotYetNamed(slots: seq<Slot>, last: Slot, name: Name)
    requires forall j :: 0 <= j < |slots| ==> slots[j].name != name
    ensures last.name != name ==> name !in Table(slots + [last])
  {
    var s1 := slots + [last];
    assert forall j :: 0 <= j < |slots| ==> s1[j] == slots[j];
  }

  /** The slots once a new entry got its inode and then, possibly, its name. */
  lemma AddAtEnd(slots: seq<Slot>, grown: seq<Slot>, name: Name, x: int)
    requires |slots| == FirstStop(slots, name, 0) && |name| < 60 && 0 <= x
    requires |grown| == |slots| + 1 && grown[..|slots|] == slots
    ensures AddSlot(slots, name, x) == (0, Filled(grown, |slots|, name, x))
  {
    hide Table, LiveNames, FirstLive;
    var n, stale := |slots|, Slot(grown[|slots|].name, x);
    var s1 := grown[n := stale];
    assert s1 == slots + [stale];
    assert s1[n := Slot(name, x)] == slots + [Slot(name, x)];
    NotYetNamed(slots, stale, name);
  }

  /** The first entry that is open or carries the name, and whether it carries the name. */
  method FindOpen(d: Disk, h: nat, name: Name) returns (i: nat, clash: bool)
    requires d.Ready() && DirAt(View(d), h) && ShortName(name)
    ensures i == FirstStop(SlotsIn(View(d), h), name, 0)
    ensures clash <==> i < |SlotsIn(View(d), h)| && SlotsIn(View(d), h)[i].name == name
  {
    hide Disk.Valid, SlotsIn, View, IsDir;
    ghost var slots := SlotsIn(View(d), h);
    var n := EntryCount(d, h);
    i := 0;
    while i < n
      invariant i <= n && FirstStop(slots, name, 0) >= i
    {
      var inum, same := ReadEntry(d, h, i, name);
      if same {
        return i, true;
      }
      if inum < 0 {
        break;
      }
      i := i + 1;
    }
    return i, false;
  }

  /** A directory after it was asked to grow by one entry: the old slots and, if it grew, one more that
    holds whatever was there. */
  ghost predicate TableGrown(v: map<nat, Node>, h: nat, v': map<nat, Node>, rv: int) {
    && DirAt(v, h) && DirAt(v', h)
    && (rv < 0 ==> TableEdit(v, h, SlotsIn(v, h), v') && (v[h].data == [] ==> v'[h].stub == v[h].stub))
    && (rv >= 0 ==> ContentOnly(v, h, v') && |SlotsIn(v', h)| == |SlotsIn(v, h)| + 1 &&
                    SlotsIn(v', h)[..|SlotsIn(v, h)|] == SlotsIn(v, h) && !v'[h].stub)
  }

  /** Grows a directory by one entry. */
  method GrowTable(d: Disk, h: nat) returns (rv: int)
    requires d.Ready() && DirAt(View(d), h)
    modifies d, d.blockBitmap, d.inodeBitmap, d.inodes
    ensures d.Ready() && TableGrown(old(View(d)), h, View(d), rv)
    ensures rv >= 0 <==> old(Room(d, h, 64))
    ensures OthersStay(old(d.own.files), h, d.own.files) && SpaceOf(d).blocks <= old(SpaceOf(d)).blocks
    ensures h in old(View(d))
    ensures old(View(d))[h].data == [] && !old(View(d))[h].stub ==> SpaceOf(d) == LessBlock(old(SpaceOf(d)))
  {
    hide Disk.Valid, SlotsIn, View, IsDir, Room, GrowEffect, SpaceOf, LessBlock, TableGrown;
    ghost var v := View(d);
    rv := GrowFile(d, h, 64);
    GrownTable(v, h, View(d), rv);
  }

  /** Adds an entry to directory `h`, in the first hole or at the end. */
  method InsertEntry(d: Disk, h: nat, name: Name, x: nat) returns (rv: int)
    requires d.Ready() && DirAt(View(d), h) && 0 !in name && x < 254
    modifies d, d.blockBitmap, d.inodeBitmap, d.inodes, d.mem
    ensures d.Ready() && h in old(View(d))
    ensures AddEffect(old(View(d)), h, name, x, old(Room(d, h, 64)), View(d), rv)
    ensures OthersStay(old(d.own.files), h, d.own.files) && SpaceOf(d).blocks <= old(SpaceOf(d)).blocks
    ensures |name| < 60 && old(View(d))[h].data == [] && !old(View(d))[h].stub ==>
              SpaceOf(d) == LessBlock(old(SpaceOf(d)))
  {
    hide Disk.Valid, SlotsIn, View, LiveNames, Table, FirstLive, IsDir, TableEdit, Room, GrowEffect, SpaceOf;
    hide LessBlock, Filled;
    if |name| >= 60 {
      return -ENAMETOOLONG;
    }
    MemApart(d);
    ghost var v, slots, room := View(d), SlotsIn(View(d), h), Room(d, h, 64);
    var n := EntryCount(d, h);
    var i, clash := FindOpen(d, h, name);
    if clash {
      return -EEXIST;
    }
    if i >= n {
      var grown := GrowTable(d, h);
      if grown < 0 {
        return -ENOSPC;
      }
      AddAtEnd(slots, SlotsIn(View(d), h), name, x);
    } else {
      AddToHole(slots, i, name, x);
    }
    ghost var v1, slots1 := View(d), SlotsIn(View(d), h);
    FillEntry(d, h, i, name, x);
    EditsJoin(v, h, v1, Filled(slots1, i, name, x), View(d));
    return i;
  }

  /** The slots once entry `i` got its inode and then, unless the name is in use, its name. */
  function Filled(slots: seq<Slot>, i: nat, name: Name, x: int): seq<Slot>
    requires i < |slots|
  {
    var s1 := slots[i := Slot(slots[i].name, x)];
    if name in Table(s1) then s1 else s1[i := Slot(name, x)]
  }

  /** Points entry `i` at an inode and names it; the result of the renaming is ignored. */
  method FillEntry(d: Disk, h: nat, i: nat, name: Name, x: nat)
    requires d.Ready() && DirAt(View(d), h) && ShortName(name) && x < 254
    requires i < |SlotsIn(View(d), h)|
    modifies d.mem
    ensures d.Ready() && h in old(View(d)) && i < |SlotsIn(old(View(d)), h)|
    ensures TableEdit(old(View(d)), h, Filled(SlotsIn(old(View(d)), h), i, name, x), View(d))
    ensures h in View(d) && View(d)[h].stub == old(View(d))[h].stub
  {
    hide Disk.Valid, SlotsIn, View, LiveNames, Table, FirstLive, IsDir, TableEdit;
    ghost var v, slots := View(d), SlotsIn(View(d), h);
    SetEntryInum(d, h, i, x);
    ghost var s1, v1 := slots[i := Slot(slots[i].name, x)], View(d);
    EditedDir(v, h, s1, v1);
    var renamed := RenameEntry(d, h, i, name);
    EditFollows(v, h, s1, v1, Filled(slots, i, name, x), View(d));
  }

  lemma EditFollows(v: map<nat, Node>, h: nat, s1: seq<Slot>, v1: map<nat, Node>, s2: seq<Slot>, v2: map<nat, Node>)
    requires TableEdit(v, h, s1, v1)
    requires (v2 == v1 && s2 == s1) || TableEdit(v1, h, s2, v2)
    ensures TableEdit(v, h, s2, v2)
  {
  }

  lemma EditsJoin(v: map<nat, Node>, h: nat, v1: map<nat, Node>, s2: seq<Slot>, v2: map<nat, Node>)
    requires v1 == v || ContentOnly(v, h, v1)
    requires TableEdit(v1, h, s2, v2)
    ensures TableEdit(v, h, s2, v2) && h in v2
  {
  }

  lemma MemApart(d: Disk)
    requires d.Valid()
    ensures (d.mem as object) !in {d as object, d.blockBitmap, d.inodeBitmap, d.inodes}
  {
  }

  lemma EditedDir(v: map<nat, Node>, h: nat, slots: seq<Slot>, v': map<nat, Node>)
    requires DirAt(v, h) && TableEdit(v, h, slots, v')
    ensures DirAt(v', h) && SlotsIn(v', h) == slots
  {
  }

  lemma GrownTable(v: map<nat, Node>, h: nat, v': map<nat, Node>, rv: int)
    requires DirAt(v, h) && GrowEffect(v, h, 64, v', rv)
    ensures TableGrown(v, h, v', rv)
  {
    if rv >= 0 {
      var n := |SlotsIn(v, h)|;
      PrefixSlots(v[h].data, v'[h].data, n);
      assert SlotsIn(v, h)[..n] == SlotsIn(v, h);
    }
  }

  /** Adds an entry, and `..` in the new child if that is a directory and this is asked for.  The
    result of adding `..` is ignored.  `mid` is the state in between. */
  method AddEntry(d: Disk, h: nat, name: Name, x: nat, back: bool)
    returns (rv: int, ghost mid: map<nat, Node>, ghost midRoom: bool, ghost midRv: int)
    requires d.Ready() && DirAt(View(d), h) && 0 !in name && x < 254
    requires x in View(d) && (back && IsDir(View(d)[x].mode) ==> x != h && DirAt(View(d), x) && h < 254)
    modifies d, d.blockBitmap, d.inodeBitmap, d.inodes, d.mem
    ensures d.Ready() && h in old(View(d)) && x in old(View(d))
    ensures AddEffect(old(View(d)), h, name, x, old(Room(d, h, 64)), mid, rv)
    ensures rv >= 0 && back && IsDir(old(View(d))[x].mode) ==>
              && x in mid && AddEffect(mid, x, DOTDOT, h, midRoom, View(d), midRv)
              && (|mid[x].data| == 64 ==> midRoom)
              && (mid[x].data == [] && !mid[x].stub && old(SpaceOf(d)).blocks == 0 ==> !midRoom)
    ensures !(rv >= 0 && back && IsDir(old(View(d))[x].mode)) ==> View(d) == mid
  {
    hide Disk.Valid, SlotsIn, View, IsDir, AddSlot, FirstStop, LiveNames, Room;
    ghost var v := View(d);
    midRoom, midRv := true, 0;
    rv := InsertEntry(d, h, name, x);
    mid := View(d);
    AddKeepsOthers(v, h, name, x, old(Room(d, h, 64)), mid, rv);
    if rv < 0 {
      return;
    }
    var mode := ModeOf(d, x);
    if back && IsDir(mode) {
      midRoom := Room(d, x, 64);
      OneMoreSlotFits(d, x);
      NoSlotWithoutBlock(d, x);
      midRv := InsertEntry(d, x, DOTDOT, h);
    }
  }

  /** A second entry needs neither a block nor an inode. */
  lemma OneMoreSlotFits(d: Disk, x: nat)
    requires d.Ready() && x in View(d)
    ensures |View(d)[x].data| == 64 ==> Room(d, x, 64)
  {
    hide ChainsOwned, BlocksOwned, InodeBits, BlockBits;
    TailNode(d.Tab(), d.own, x);
  }

  lemma NoSlotWithoutBlock(d: Disk, x: nat)
    requires d.Ready() && x in View(d)
    ensures View(d)[x].data == [] && !View(d)[x].stub && SpaceOf(d).blocks == 0 ==> !Room(d, x, 64)
  {
    hide Disk.Valid, View, Room;
    if View(d)[x].data == [] && !View(d)[x].stub {
      RoomForFirst(d, x);
    }
  }

  lemma AddKeepsOthers(v: map<nat, Node>, h: nat, name: Name, x: int, room: bool, v': map<nat, Node>, rv: int)
    requires DirAt(v, h) && AddEffect(v, h, name, x, room, v', rv)
    ensures DirAt(v', h) && v'.Keys == v.Keys
    ensures forall k :: k in v && k != h ==> v'[k] == v[k]
    ensures v'[h].refs == v[h].refs && v'[h].mode == v[h].mode
  {
  }

  // ---- removing ----

  /** Shrinks a directory until its last entry is live. */
  method Prune(d: Disk, h: nat) returns (rv: int)
    requires d.Ready() && DirAt(View(d), h) && !View(d)[h].stub
    modifies d, d.blockBitmap, d.inodeBitmap, d.inodes
    ensures d.Ready() && rv == 0 && h in old(View(d))
    ensures TableEdit(old(View(d)), h, Trim(SlotsIn(old(View(d)), h)), View(d))
    ensures h in View(d) && !View(d)[h].stub
  {
    hide Disk.Valid, SlotsIn, View, IsDir, TableEdit;
    ghost var v, slots := View(d), SlotsIn(View(d), h);
    var i := EntryCount(d, h);
    NoEdit(v, h);
    assert slots[..i] == slots;
    while i > 0
      invariant d.Ready() && DirAt(View(d), h) && !View(d)[h].stub
      invariant i <= |slots| && TableEdit(v, h, slots[..i], View(d)) && SlotsIn(View(d), h) == slots[..i]
      invariant Trim(slots[..i]) == Trim(slots)
    {
      var inum, _ := EntryName(d, h, i - 1);
      if inum >= 0 {
        break;
      }
      ghost var v1 := View(d);
      var shrunk := ShrinkFile(d, h, 64);
      TableShrunk(v1, h, View(d));
      assert slots[..i][..i - 1] == slots[..i - 1];
      EditTwice(v, h, slots[..i], v1, slots[..i - 1], View(d));
      i := i - 1;
    }
    return 0;
  }

  lemma TableShrunk(v: map<nat, Node>, h: nat, v': map<nat, Node>)
    requires DirAt(v, h) && |SlotsIn(v, h)| >= 1 && !v[h].stub
    requires v' == v[h := v[h].(data := v[h].data[..Max(0, |v[h].data| - 64)])]
    ensures DirAt(v', h) && !v'[h].stub
    ensures TableEdit(v, h, SlotsIn(v, h)[..|SlotsIn(v, h)| - 1], v')
    ensures SlotsIn(v', h) == SlotsIn(v, h)[..|SlotsIn(v, h)| - 1]
  {
    var n := |SlotsIn(v, h)| - 1;
    PrefixSlots(v[h].data, v'[h].data, n);
    assert SlotsIn(v', h)[..n] == SlotsIn(v', h);
  }

  /** The first entry that carries the name, live or not. */
  method FindNamed(d: Disk, h: nat, name: Name) returns (i: nat)
    requires d.Ready() && DirAt(View(d), h) && ShortName(name)
    ensures i == FirstNamed(SlotsIn(View(d), h), name, 0)
  {
    hide Disk.Valid, SlotsIn, View, IsDir;
    ghost var slots := SlotsIn(View(d), h);
    var n := EntryCount(d, h);
    for k := 0 to n
      invariant FirstNamed(slots, name, 0) >= k
    {
      var _, same := ReadEntry(d, h, k, name);
      if same {
        return k;
      }
    }
    return n;
  }

  /** What removing an entry does to the table, and the number it returns. */
  ghost predicate RemoveEffect(v: map<nat, Node>, h: nat, name: Name, v': map<nat, Node>, rv: int)
    requires h in v
  {
    var (rc, slots') := RemoveSlot(SlotsIn(v, h), name);
    rv == rc && if rc != 0 then v' == v else TableEdit(v, h, slots', v') && !v'[h].stub
  }

  /** The first entry that carries the name, if there is one, is live. */
  ghost predicate FirstIsLive(slots: seq<Slot>, name: Name) {
    var i := FirstNamed(slots, name, 0);
    i < |slots| ==> Live(slots[i])
  }

  /** The state of two directories after an edit of each. */
  ghost predicate TwoEdits(v: map<nat, Node>, h: nat, hs: seq<Slot>, x: nat, xs: seq<Slot>, v': map<nat, Node>) {
    && h in v && x in v && h in v' && x in v'
    && v' == v[h := v'[h]][x := v'[x]]
    && v'[h].refs == v[h].refs && v'[h].mode == v[h].mode && |v'[h].data| % 64 == 0 && SlotsIn(v', h) == hs
    && v'[x].refs == v[x].refs && v'[x].mode == v[x].mode && |v'[x].data| % 64 == 0 && SlotsIn(v', x) == xs
  }

  /** Removes an entry from directory `h`. */
  method RemovePlain(d: Disk, h: nat, name: Name) returns (rv: int)
    requires d.Ready() && DirAt(View(d), h) && !View(d)[h].stub
    requires ShortName(name) && FirstIsLive(SlotsIn(View(d), h), name)
    modifies d, d.blockBitmap, d.inodeBitmap, d.inodes, d.mem
    ensures d.Ready() && h in old(View(d))
    ensures RemoveEffect(old(View(d)), h, name, View(d), rv)
  {
    hide Disk.Valid, SlotsIn, View, IsDir, TableEdit, FirstNamed;
    var n := EntryCount(d, h);
    var i := FindNamed(d, h, name);
    if i == n {
      return -ENOENT;
    }
    ghost var v, slots := View(d), SlotsIn(View(d), h);
    SetEntryInum(d, h, i, -1);
    ghost var v1 := View(d);
    EditedDir(v, h, slots[i := Slot(name, -1)], v1);
    rv := Prune(d, h);
    EditTwice(v, h, slots[i := Slot(name, -1)], v1, Trim(slots[i := Slot(name, -1)]), View(d));
    if rv < 0 {
      return rv;
    }
    return 0;
  }

  /** Removes an entry, and `..` in the child if that is a directory and this is asked for. */
  method RemoveEntry(d: Disk, h: nat, name: Name, ghost x: nat) returns (rv: int)
    requires d.Ready() && DirAt(View(d), h) && !View(d)[h].stub
    requires ShortName(name) && FirstIsLive(SlotsIn(View(d), h), name)
    requires x in View(d) && x != h
    requires FirstNamed(SlotsIn(View(d), h), name, 0) < |SlotsIn(View(d), h)| ==>
               SlotsIn(View(d), h)[FirstNamed(SlotsIn(View(d), h), name, 0)].inum == x
    requires IsDir(View(d)[x].mode) ==>
               DirAt(View(d), x) && !View(d)[x].stub && FirstIsLive(SlotsIn(View(d), x), DOTDOT)
    modifies d, d.blockBitmap, d.inodeBitmap, d.inodes, d.mem
    ensures d.Ready() && h in old(View(d)) && x in old(View(d))
    ensures var v := old(View(d));
            var (rc, hs) := RemoveSlot(SlotsIn(v, h), name);
            && rv == rc
            && (rc != 0 ==> View(d) == v)
            && (rc == 0 && !IsDir(v[x].mode) ==> TableEdit(v, h, hs, View(d)) && !View(d)[h].stub)
            && (rc == 0 && IsDir(v[x].mode) ==>
                  && TwoEdits(v, h, hs, x, RemoveSlot(SlotsIn(v, x), DOTDOT).1, View(d))
                  && !View(d)[h].stub && !View(d)[x].stub)
  {
    hide Disk.Valid, SlotsIn, View, IsDir, FirstNamed, Trim, TwoEdits, TableEdit, FirstIsLive;
    var n := EntryCount(d, h);
    var i := FindNamed(d, h, name);
    if i == n {
      return -ENOENT;
    }
    ghost var v, slots := View(d), SlotsIn(View(d), h);
    var child, _ := EntryName(d, h, i);
    SetEntryInum(d, h, i, -1);
    ghost var v1, s1 := View(d), slots[i := Slot(name, -1)];
    EditedDir(v, h, s1, v1);
    EditFrame(v, h, s1, v1);
    var mode := ModeOf(d, child);
    if IsDir(mode) {
      SameSlots(v, v1, child);
      var removed := RemovePlain(d, child, DOTDOT);
      RemoveFrame(v1, child, DOTDOT, View(d), removed);
      SameSlots(v1, View(d), h);
    }
    ghost var v2 := View(d);
    rv := Prune(d, h);
    RemovesJoin(v, h, s1, v1, x, v2, View(d));
    if rv < 0 {
      return rv;
    }
    return 0;
  }

  lemma EditFrame(v: map<nat, Node>, h: nat, slots: seq<Slot>, v': map<nat, Node>)
    requires TableEdit(v, h, slots, v')
    ensures h in v && v'.Keys == v.Keys && forall k :: k in v && k != h ==> v'[k] == v[k]
    ensures v'[h].refs == v[h].refs && v'[h].mode == v[h].mode
  {
  }

  lemma RemoveFrame(v: map<nat, Node>, h: nat, name: Name, v': map<nat, Node>, rv: int)
    requires DirAt(v, h) && !v[h].stub && RemoveEffect(v, h, name, v', rv)
    ensures v'.Keys == v.Keys && forall k :: k in v && k != h ==> v'[k] == v[k]
    ensures !v'[h].stub && TableEdit(v, h, RemoveSlot(SlotsIn(v, h), name).1, v')
  {
    NoEdit(v, h);
  }

  /** Clearing an entry, removing `..` from its child and pruning, together. */
  lemma RemovesJoin(v: map<nat, Node>, h: nat, s1: seq<Slot>, v1: map<nat, Node>, x: nat, v2: map<nat, Node>,
                    v3: map<nat, Node>)
    requires h in v && x in v && x != h && TableEdit(v, h, s1, v1) && h in v2 && x in v1
    requires IsDir(v[x].mode) ==> x in v2 && !v2[x].stub && TableEdit(v1, x, RemoveSlot(SlotsIn(v1, x), DOTDOT).1, v2)
    requires !IsDir(v[x].mode) ==> v2 == v1
    requires TableEdit(v2, h, Trim(s1), v3)
    ensures h in v3 && x in v3
    ensures !IsDir(v[x].mode) ==> TableEdit(v, h, Trim(s1), v3)
    ensures IsDir(v[x].mode) ==> TwoEdits(v, h, Trim(s1), x, RemoveSlot(SlotsIn(v, x), DOTDOT).1, v3) && !v3[x].stub
  {
    if IsDir(v[x].mode) {
      TwoTables(v, h, s1, v1, x, RemoveSlot(SlotsIn(v1, x), DOTDOT).1, v2, Trim(s1), v3);
    }
  }

  lemma TwoTables(v: map<nat, Node>, h: nat, s1: seq<Slot>, v1: map<nat, Node>, x: nat, xs: seq<Slot>,
                  v2: map<nat, Node>, s3: seq<Slot>, v3: map<nat, Node>)
    requires h in v && x in v && x != h && TableEdit(v, h, s1, v1) && TableEdit(v1, x, xs, v2) && TableEdit(v2, h, s3, v3)
    ensures h in v3 && x in v3 && TwoEdits(v, h, s3, x, xs, v3) && v3[x].stub == v2[x].stub
    ensures SlotsIn(v1, x) == SlotsIn(v, x)
  {
    assert v3 == v[h := v3[h]][x := v3[x]];
  }

  lemma SameSlots(v: map<nat, Node>, v': map<nat, Node>, h: nat)
    requires h in v && h in v' && v[h] == v'[h]
    ensures SlotsIn(v, h) == SlotsIn(v', h) && (DirAt(v, h) ==> DirAt(v', h))
  {
  }

  // ---- creating ----

  /** The file bit of a mode. */
  predicate IsFile(mode: int) {
    mode / 0x8000 % 2 == 1
  }

  /** The bits that tell files and directories, and modes of both kinds: 0100644 and 0040755. */
  lemma KindOfMode(high: int, file: int, dir: int, low: int)
    requires 0 <= file <= 1 && 0 <= dir <= 1 && 0 <= low < 0x4000
    ensures IsDir(ModeOfBits(high, file, dir, low)) <==> dir == 1
    ensures IsFile(ModeOfBits(high, file, dir, low)) <==> file == 1
    ensures IsFile(33188) && !IsDir(33188) && IsDir(16877) && !IsFile(16877)
  {
    BitsOfMode(high, file, dir, low);
  }

  /** A mode put together from the bits above the file bit, the file bit, the directory bit and the rest. */
  function ModeOfBits(high: int, file: int, dir: int, low: int): int {
    0x1_0000 * high + 0x8000 * file + 0x4000 * dir + low
  }

  lemma BitsOfMode(high: int, file: int, dir: int, low: int)
    requires 0 <= file <= 1 && 0 <= dir <= 1 && 0 <= low < 0x4000
    ensures var m := ModeOfBits(high, file, dir, low);
            m / 0x1_0000 == high && m / 0x8000 % 2 == file && m / 0x4000 % 2 == dir && m % 0x4000 == low
  {
    var m := ModeOfBits(high, file, dir, low);
    assert m / 0x4000 == 4 * high + 2 * file + dir;
    assert m / 0x8000 == 2 * high + file;
    assert m / 0x1_0000 == high;
  }

  lemma ModeInBits(mode: int)
    ensures mode == ModeOfBits(mode / 0x1_0000, mode / 0x8000 % 2, mode / 0x4000 % 2, mode % 0x4000)
  {
    var q := mode / 0x4000;
    assert mode == 0x4000 * q + mode % 0x4000;
    assert mode / 0x8000 == q / 2 && mode / 0x1_0000 == q / 4;
    assert q == 4 * (q / 4) + 2 * (q / 2 % 2) + q % 2;
  }

  /** The mode of a file turned into a directory: the file bit is cleared, the directory bit is set and
    every other bit stays. */
  function DirMode(mode: int): (m: int)
    ensures IsDir(m) && !IsFile(m)
    ensures m % 0x4000 == mode % 0x4000 && m / 0x1_0000 == mode / 0x1_0000
  {
    ModeInBits(mode);
    BitsOfMode(mode / 0x1_0000, 0, 1, mode % 0x4000);
    (if IsFile(mode) then mode - 0x8000 else mode) + (if IsDir(mode) then 0 else 0x4000)
  }

  method SetDirMode(d: Disk, x: nat)
    requires d.Ready() && x in View(d)
    modifies d, d.inodes
    ensures d.Ready() && x in old(View(d)) && x < 254
    ensures View(d) == old(View(d))[x := old(View(d))[x].(mode := DirMode(old(View(d))[x].mode))]
    ensures IsDir(View(d)[x].mode) && Room(d, x, 64) == old(Room(d, x, 64)) && SpaceOf(d) == old(SpaceOf(d))
    ensures OthersStay(old(d.own.files), x, d.own.files)
  {
    hide Disk.Valid, View, IsDir, DirMode, Room, SpaceOf;
    var refs := RefsOf(d, x);
    var mode := ModeOf(d, x);
    SetLabel(d, x, refs, DirMode(mode));
  }

  /** Turns an empty file into a directory with its `.` entry, if there is a block for it. */
  method Init(d: Disk, x: nat)
    requires d.Ready() && x in View(d) && View(d)[x].data == []
    modifies d, d.blockBitmap, d.inodeBitmap, d.inodes, d.mem
    ensures d.Ready()
    ensures InitEffect(old(View(d)), x, old(Room(d, x, 64)), View(d))
    ensures OthersStay(old(d.own.files), x, d.own.files)
    ensures !old(View(d))[x].stub ==> SpaceOf(d) == LessBlock(old(SpaceOf(d)))
  {
    hide Disk.Valid, SlotsIn, View, IsDir, DirMode, Room, TableEdit, AddEffect, InitEffect, SpaceOf, LessBlock;
    ghost var v := View(d);
    SetDirMode(d, x);
    ghost var v1, room := View(d), Room(d, x, 64);
    var added := InsertEntry(d, x, DOT, x);
    FirstEntry(v, x, v1, room, View(d), added);
  }

  /** A new directory, with its `.` entry if there was room for it. */
  ghost predicate InitEffect(v: map<nat, Node>, x: nat, room: bool, v': map<nat, Node>) {
    && x in v && x in v' && v' == v[x := v'[x]]
    && v'[x].refs == v[x].refs && v'[x].mode == DirMode(v[x].mode)
    && |v'[x].data| % 64 == 0
    && SlotsIn(v', x) == (if room then [Slot(DOT, x)] else [])
    && (v'[x].stub ==> v[x].stub)
  }

  lemma FirstEntry(v: map<nat, Node>, x: nat, v1: map<nat, Node>, room: bool, v': map<nat, Node>, rv: int)
    requires x in v && v[x].data == [] && v1 == v[x := v[x].(mode := DirMode(v[x].mode))]
    requires AddEffect(v1, x, DOT, x, room, v', rv)
    ensures InitEffect(v, x, room, v')
  {
    hide DirMode, IsDir;
    assert SlotsIn(v1, x) == [];
    assert v1[x := v'[x]] == v[x := v'[x]];
  }
}
