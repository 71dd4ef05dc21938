/** The bytes of a file, scattered over its blocks. */
module Content {
  import opened Specs
  import opened Layout
  import opened Sizing
  import opened Moves
  import opened Disks

  /** A file whose blocks lie in the image and cover its size. */
  ghost predicate OnDisk(f: File) {
    && |f.blocks| == Blocks(f.size)
    && forall k :: 0 <= k < |f.blocks| ==> f.blocks[k] < 256
  }

  /** Where byte `i` of a file is in memory. */
  ghost function Addr(f: File, i: nat): (a: nat)
    requires OnDisk(f) && i < f.size
    ensures a < 0x10_0000
  {
    var k := i / 4096;
    4096 * f.blocks[k] + i % 4096
  }

  ghost function Bytes(f: File, mem: seq<byte>): (data: seq<byte>)
    requires OnDisk(f) && |mem| == 0x10_0000
    ensures |data| == f.size
    ensures forall i :: 0 <= i < f.size ==> data[i] == mem[Addr(f, i)]
  {
    seq(f.size, i requires 0 <= i < f.size => mem[Addr(f, i)])
  }

  function Splice<T>(s: seq<T>, pos: nat, data: seq<T>): seq<T>
    requires pos + |data| <= |s|
  {
    s[..pos] + data + s[pos + |data|..]
  }

  /** What a file shows to the layers above: link count, mode, whether its chain ends in an inode
    with nothing in it, and its bytes. */
  datatype Node = Node(refs: int, mode: int, stub: bool, data: seq<byte>)

  ghost function NodeOf(f: File, mem: seq<byte>): Node
    requires OnDisk(f) && |mem| == 0x10_0000
  {
    Node(f.refs, f.mode, |f.chain| != Nodes(f.size), Bytes(f, mem))
  }

  /** The files once `data` is written at byte `pos` of file `h`. */
  ghost function AfterWrite(v: map<nat, Node>, h: nat, pos: nat, data: seq<byte>): map<nat, Node>
    requires h in v && pos + |data| <= |v[h].data|
  {
    v[h := v[h].(data := Splice(v[h].data, pos, data))]
  }

  lemma WriteOnwards(v: map<nat, Node>, h: nat, pos: nat, a: seq<byte>, b: seq<byte>)
    requires h in v && pos + |a| + |b| <= |v[h].data|
    ensures AfterWrite(AfterWrite(v, h, pos, a), h, pos + |a|, b) == AfterWrite(v, h, pos, a + b)
  {
    SpliceOnwards(v[h].data, pos, a, b);
  }

  lemma SpliceOnwards<T>(s: seq<T>, pos: nat, a: seq<T>, b: seq<T>)
    requires pos + |a| + |b| <= |s|
    ensures Splice(Splice(s, pos, a), pos + |a|, b) == Splice(s, pos, a + b)
  {
  }

  ghost predicate AllOnDisk(files: map<nat, File>) {
    forall h :: h in files ==> OnDisk(files[h])
  }

  ghost function ViewOf(files: map<nat, File>, mem: seq<byte>): (v: map<nat, Node>)
    requires AllOnDisk(files) && |mem| == 0x10_0000
    ensures v.Keys == files.Keys
    ensures forall h :: h in files ==> v[h] == NodeOf(files[h], mem)
  {
    map h | h in files :: NodeOf(files[h], mem)
  }

  lemma ViewOfUpdate(files: map<nat, File>, h: nat, f: File, mem: seq<byte>)
    requires AllOnDisk(files) && OnDisk(f) && |mem| == 0x10_0000
    ensures AllOnDisk(files[h := f])
    ensures ViewOf(files[h := f], mem) == ViewOf(files, mem)[h := NodeOf(f, mem)]
  {
  }

  lemma ViewOfRemove(files: map<nat, File>, h: nat, mem: seq<byte>)
    requires AllOnDisk(files) && |mem| == 0x10_0000
    ensures AllOnDisk(files - {h})
    ensures ViewOf(files - {h}, mem) == ViewOf(files, mem) - {h}
  {
  }

  lemma WfOnDisk(t: Tables, g: Owners)
    requires Wf(t, g)
    ensures AllOnDisk(g.files)
  {
    forall h | h in g.files ensures OnDisk(g.files[h]) {
      forall k | 0 <= k < |g.files[h].blocks| ensures g.files[h].blocks[k] < 256 {
        HeldBlockInRange(t, g, h, k);
      }
    }
  }

  /** All files of a disk, by head inode. */
  ghost function View(d: Disk): (v: map<nat, Node>)
    requires d.Valid()
    reads d, d.blockBitmap, d.inodeBitmap, d.inodes, d.mem
    ensures v.Keys == d.own.files.Keys
    ensures forall h :: h in v ==> |v[h].data| == d.own.files[h].size
  {
    WfOnDisk(d.Tab(), d.own);
    ViewOf(d.own.files, d.mem[..])
  }

  // ---- writing inside one block ----

  ghost predicate NoBlockTwice(f: File) {
    forall j, k :: 0 <= j < k < |f.blocks| ==> f.blocks[j] != f.blocks[k]
  }

  ghost predicate BlocksApart(f: File, e: File) {
    forall k :: 0 <= k < |e.blocks| ==> e.blocks[k] !in f.blocks
  }

  /** A stretch of the file that lies in one block is contiguous in memory. */
  lemma ChunkAddr(f: File, pos: nat, n: nat)
    requires OnDisk(f) && 1 <= n && pos + n <= f.size && pos % 4096 + n <= 4096
    ensures Addr(f, pos) + n <= 0x10_0000
    ensures forall p :: pos <= p < pos + n ==> Addr(f, p) == Addr(f, pos) + (p - pos)
  {
    forall p | pos <= p < pos + n ensures Addr(f, p) == Addr(f, pos) + (p - pos) {
      assert p / 4096 == pos / 4096;
    }
    assert Addr(f, pos + n - 1) == Addr(f, pos) + n - 1;
  }

  lemma ReadChunk(f: File, mem: seq<byte>, pos: nat, n: nat)
    requires OnDisk(f) && |mem| == 0x10_0000 && 1 <= n && pos + n <= f.size && pos % 4096 + n <= 4096
    ensures Addr(f, pos) + n <= |mem|
    ensures mem[Addr(f, pos)..Addr(f, pos) + n] == Bytes(f, mem)[pos..pos + n]
  {
    ChunkAddr(f, pos, n);
    var a := Addr(f, pos);
    var chunk, piece := mem[a..a + n], Bytes(f, mem)[pos..pos + n];
    forall i | 0 <= i < n ensures chunk[i] == piece[i] {
      assert Addr(f, pos + i) == a + i;
    }
  }

  /** Byte `i` of the file is at one of the `n` addresses of a chunk exactly when it is in the chunk. */
  lemma AddrInChunk(f: File, pos: nat, n: nat, i: nat)
    requires OnDisk(f) && NoBlockTwice(f) && i < f.size
    requires 1 <= n && pos + n <= f.size && pos % 4096 + n <= 4096
    ensures Addr(f, pos) <= Addr(f, i) < Addr(f, pos) + n <==> pos <= i < pos + n
    ensures pos <= i < pos + n ==> Addr(f, i) == Addr(f, pos) + (i - pos)
  {
    var j, k := pos / 4096, i / 4096;
    if j == k {
    } else if j < k {
      assert f.blocks[j] != f.blocks[k];
    } else {
      assert f.blocks[k] != f.blocks[j];
    }
  }

  lemma WriteChunk(f: File, mem: seq<byte>, pos: nat, data: seq<byte>)
    requires OnDisk(f) && NoBlockTwice(f) && |mem| == 0x10_0000
    requires 1 <= |data| && pos + |data| <= f.size && pos % 4096 + |data| <= 4096
    ensures Addr(f, pos) + |data| <= |mem|
    ensures Bytes(f, Splice(mem, Addr(f, pos), data)) == Splice(Bytes(f, mem), pos, data)
  {
    ChunkAddr(f, pos, |data|);
    var mem' := Splice(mem, Addr(f, pos), data);
    forall i | 0 <= i < f.size ensures Bytes(f, mem')[i] == Splice(Bytes(f, mem), pos, data)[i] {
      AddrInChunk(f, pos, |data|, i);
    }
  }

  lemma WriteElsewhere(f: File, e: File, mem: seq<byte>, pos: nat, data: seq<byte>)
    requires OnDisk(f) && OnDisk(e) && BlocksApart(f, e) && |mem| == 0x10_0000
    requires 1 <= |data| && pos + |data| <= f.size && pos % 4096 + |data| <= 4096
    ensures Addr(f, pos) + |data| <= |mem|
    ensures Bytes(e, Splice(mem, Addr(f, pos), data)) == Bytes(e, mem)
  {
    ChunkAddr(f, pos, |data|);
    var mem' := Splice(mem, Addr(f, pos), data);
    forall i | 0 <= i < e.size ensures Bytes(e, mem')[i] == Bytes(e, mem)[i] {
      var j, k := pos / 4096, i / 4096;
      assert e.blocks[k] !in f.blocks && f.blocks[j] in f.blocks;
    }
  }

  lemma WfBlocksApart(t: Tables, g: Owners, h: nat)
    requires Wf(t, g) && h in g.files
    ensures NoBlockTwice(g.files[h])
    ensures forall k :: k in g.files && k != h ==> BlocksApart(g.files[h], g.files[k])
  {
    var f := g.files[h];
    forall i, j | 0 <= i < j < |f.blocks| ensures f.blocks[i] != f.blocks[j] {
      assert g.bown[f.blocks[i]] == Place(h, i) && g.bown[f.blocks[j]] == Place(h, j);
    }
    forall k | k in g.files && k != h ensures BlocksApart(f, g.files[k]) {
      forall i | 0 <= i < |g.files[k].blocks| ensures g.files[k].blocks[i] !in f.blocks {
        BlocksDisjoint(g, k, i, h);
      }
    }
  }

  /** Writing a chunk of one file changes these bytes of that file and nothing else. */
  lemma ViewAfterWrite(t: Tables, g: Owners, h: nat, mem: seq<byte>, pos: nat, data: seq<byte>)
    requires Wf(t, g) && h in g.files && |mem| == 0x10_0000
    requires 1 <= |data| && pos + |data| <= g.files[h].size && pos % 4096 + |data| <= 4096
    ensures AllOnDisk(g.files) && Addr(g.files[h], pos) + |data| <= |mem|
    ensures ViewOf(g.files, Splice(mem, Addr(g.files[h], pos), data)) ==
            AfterWrite(ViewOf(g.files, mem), h, pos, data)
  {
    hide Wf;
    WfOnDisk(t, g);
    WfBlocksApart(t, g, h);
    WriteChunk(g.files[h], mem, pos, data);
    var mem' := Splice(mem, Addr(g.files[h], pos), data);
    var v, v' := ViewOf(g.files, mem), ViewOf(g.files, mem');
    forall k | k in g.files && k != h ensures v'[k] == v[k] {
      WriteElsewhere(g.files[h], g.files[k], mem, pos, data);
    }
  }
}
