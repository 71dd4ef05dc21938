/** Iterating over the blocks that hold a byte range of a file. */
module Iteration {
  import opened Specs
  import opened Layout
  import opened Sizing
  import opened Moves
  import opened Disks
  import opened InodeOps
  import opened Content

  /** The iterators that are passed around as function pointers: fill with a byte (returning the
    given result), copy into the buffer, and copy from the beginning of the buffer. */
  datatype Iterator = FillIter(fill: byte, result: int) | ReadIter | WriteIter

  /** How far into its block byte `p` of a file is. */
  function InBlock(p: nat): nat {
    p % 4096
  }

  lemma BlockStarts(p: nat, k: nat)
    ensures InBlock(p) < 4096 && p + (4096 - InBlock(p)) == 4096 * (p / 4096 + 1)
    ensures InBlock(4096 * k) == 0
  {
  }

  /** How many of the `size` bytes from `offset` on lie in a file of `total` bytes. */
  function Span(total: nat, offset: nat, size: int): nat {
    if size < 1 || total <= offset then 0 else Min(total - offset, size)
  }

  function Repeat(v: byte, n: nat): (data: seq<byte>)
    ensures |data| == n
    ensures forall i :: 0 <= i < n ==> data[i] == v
  {
    seq(n, _ => v)
  }

  // ---- what the iterators do with one chunk ----

  method MemSet(mem: array<byte>, start: nat, v: byte, n: nat)
    requires start + n <= mem.Length
    modifies mem
    ensures mem[..] == Splice(old(mem[..]), start, Repeat(v, n))
  {
    for i := 0 to n
      invariant mem[..start] == old(mem[..start]) && mem[start + n..] == old(mem[start + n..])
      invariant forall j :: start <= j < start + i ==> mem[j] == v
    {
      mem[start + i] := v;
    }
    assert mem[start..start + n] == Repeat(v, n);
    assert mem[..] == mem[..start] + mem[start..start + n] + mem[start + n..];
  }

  method MemCpy(dst: array<byte>, start: nat, src: array<byte>, from: nat, n: nat)
    requires start + n <= dst.Length && from + n <= src.Length && dst != src
    modifies dst
    ensures dst[..] == Splice(old(dst[..]), start, src[from..from + n])
  {
    for i := 0 to n
      invariant dst[..start] == old(dst[..start]) && dst[start + n..] == old(dst[start + n..])
      invariant dst[start..start + i] == src[from..from + i]
    {
      dst[start + i] := src[from + i];
    }
    assert dst[start..start + n] == src[from..from + n];
    assert dst[..] == dst[..start] + dst[start..start + n] + dst[start + n..];
  }

  /** The bytes that an iterator puts into a chunk of `n` bytes. */
  function ChunkData(it: Iterator, buf: seq<byte>, n: nat): (data: seq<byte>)
    requires it.WriteIter? ==> n <= |buf|
    requires !it.ReadIter?
    ensures |data| == n
  {
    if it.FillIter? then Repeat(it.fill, n) else buf[..n]
  }

  /** Runs an iterator on the `n` bytes of memory at `start`, which are `offset` bytes into the range
    iterated over.  Writing takes no account of `offset`. */
  method RunIterator(d: Disk, it: Iterator, buf: array<byte>, start: nat, offset: nat, n: nat) returns (rv: int)
    requires d.Shape() && d.Outside(buf) && start + n <= d.mem.Length
    requires it.ReadIter? ==> offset + n <= buf.Length
    requires it.WriteIter? ==> n <= buf.Length
    modifies d.mem, buf
    ensures it.ReadIter? ==> d.mem[..] == old(d.mem[..])
    ensures it.ReadIter? ==> buf[..] == Splice(old(buf[..]), offset, old(d.mem[..])[start..start + n])
    ensures !it.ReadIter? ==> buf[..] == old(buf[..])
    ensures !it.ReadIter? ==> d.mem[..] == Splice(old(d.mem[..]), start, ChunkData(it, buf[..], n))
    ensures rv == if it.FillIter? then it.result else 0
  {
    match it
    case FillIter(fill, result) =>
      MemSet(d.mem, start, fill, n);
      return result;
    case ReadIter =>
      MemCpy(buf, offset, d.mem, start, n);
      return 0;
    case WriteIter =>
      MemCpy(d.mem, start, buf, 0, n);
      assert buf[0..0 + n] == buf[..][..n];
      return 0;
  }

  // ---- the whole range ----

  /** Which byte of the buffer a write puts `i` bytes into a range that starts at `offset`: each block
    gets the buffer from its beginning. */
  function SmearIndex(offset: nat, i: nat): (k: nat)
    ensures k <= i
  {
    var p := offset + i;
    p - Max(offset, 4096 * (p / 4096))
  }

  function Smear(buf: seq<byte>, offset: nat, n: nat): (data: seq<byte>)
    requires n <= |buf|
    ensures |data| == n
    ensures forall i :: 0 <= i < n ==> data[i] == buf[SmearIndex(offset, i)]
  {
    seq(n, i requires 0 <= i < n => buf[SmearIndex(offset, i)])
  }

  /** The bytes that an iterator puts into the first `n` bytes of a range that starts at `offset`. */
  function RangeData(it: Iterator, buf: seq<byte>, offset: nat, n: nat): (data: seq<byte>)
    requires it.WriteIter? ==> n <= |buf|
    requires !it.ReadIter?
    ensures |data| == n
  {
    if it.FillIter? then Repeat(it.fill, n) else Smear(buf, offset, n)
  }

  /** A range can be written chunk by chunk: the next chunk starts the range or starts a block. */
  lemma NextChunk(it: Iterator, buf: seq<byte>, offset: nat, done: nat, n: nat)
    requires it.WriteIter? ==> done + n <= |buf|
    requires !it.ReadIter?
    requires done == 0 || InBlock(offset + done) == 0
    requires InBlock(offset + done) + n <= 4096
    ensures RangeData(it, buf, offset, done + n) == RangeData(it, buf, offset, done) + ChunkData(it, buf, n)
  {
    if it.WriteIter? {
      forall i | done <= i < done + n ensures SmearIndex(offset, i) == i - done {
        assert (offset + i) / 4096 == (offset + done) / 4096;
      }
    }
  }

  /** A write is the buffer itself, whatever the buffer holds, exactly when it stays in one block. */
  lemma WriteIsExactIffConfined(offset: nat, n: nat)
    ensures (forall buf: seq<byte> :: n <= |buf| ==> Smear(buf, offset, n) == buf[..n]) <==>
            n == 0 || offset % 4096 + n <= 4096
  {
    if n == 0 || offset % 4096 + n <= 4096 {
      forall buf: seq<byte> | n <= |buf| ensures Smear(buf, offset, n) == buf[..n] {
        forall i | 0 <= i < n ensures SmearIndex(offset, i) == i {
          assert (offset + i) / 4096 == offset / 4096;
        }
      }
    } else {
      var i := 4096 - offset % 4096;
      var buf: seq<byte> := seq(n, k => if k == 0 then 1 else 0);
      assert SmearIndex(offset, i) == 0;
      assert Smear(buf, offset, n)[i] != buf[..n][i];
    }
  }

  // ---- iterating ----

  /** Where byte `pos` of file `h` is in memory, and with it the `n` bytes up to the end of a block. */
  method Locate(d: Disk, h: nat, pos: nat, n: nat) returns (start: nat)
    requires d.Valid() && h in d.own.files && d.own.files[h].after == -1
    requires 1 <= n && pos + n <= d.own.files[h].size && InBlock(pos) + n <= 4096
    ensures OnDisk(d.own.files[h]) && start == Addr(d.own.files[h], pos) && start + n <= d.mem.Length
    ensures d.mem[..][start..start + n] == View(d)[h].data[pos..pos + n]
  {
    hide FilesOk, ChainsOwned, BlocksOwned, InodeBits, BlockBits, Shaped, Walk;
    ghost var f := d.own.files[h];
    WfOnDisk(d.Tab(), d.own);
    FileBnum(d.Tab(), d.own, h, pos / 4096);
    var bnum := GetBnum(d.inodes[..], h, pos / 4096, f.chain);
    start := 4096 * bnum + pos % 4096;
    ReadChunk(f, d.mem[..], pos, n);
  }

  /** What an iterator does to the files and to the buffer on `n` bytes of file `h` from byte `pos` on,
    which lie in one block and are `offset` bytes into the range iterated over. */
  ghost predicate ChunkEffect(it: Iterator, v: map<nat, Node>, buf: seq<byte>, h: nat, pos: nat, offset: nat,
                              n: nat, v': map<nat, Node>, buf': seq<byte>)
  {
    && h in v && pos + n <= |v[h].data|
    && if it.ReadIter? then
         && offset + n <= |buf|
         && v' == v && buf' == Splice(buf, offset, v[h].data[pos..pos + n])
       else
         && (it.WriteIter? ==> n <= |buf|)
         && v' == AfterWrite(v, h, pos, ChunkData(it, buf, n)) && buf' == buf
  }

  /** What iterating does on the `n` bytes of file `h` from byte `offset` on. */
  ghost predicate RangeEffect(it: Iterator, v: map<nat, Node>, buf: seq<byte>, h: nat, offset: nat,
                              n: nat, v': map<nat, Node>, buf': seq<byte>)
  {
    && h in v && offset + n <= |v[h].data|
    && if it.ReadIter? then
         && n <= |buf|
         && v' == v && buf' == v[h].data[offset..offset + n] + buf[n..]
       else
         && (it.WriteIter? ==> n <= |buf|)
         && v' == AfterWrite(v, h, offset, RangeData(it, buf, offset, n)) && buf' == buf
  }

  lemma NothingYet(it: Iterator, v: map<nat, Node>, buf: seq<byte>, h: nat, offset: nat)
    requires h in v && offset <= |v[h].data|
    ensures RangeEffect(it, v, buf, h, offset, 0, v, buf)
  {
    if !it.ReadIter? {
      assert RangeData(it, buf, offset, 0) == [];
      assert Splice(v[h].data, offset, []) == v[h].data;
      assert AfterWrite(v, h, offset, []) == v;
    }
  }

  /** One more chunk extends the range. */
  lemma ChunkExtendsRange(it: Iterator, v: map<nat, Node>, buf: seq<byte>, h: nat, offset: nat, done: nat, n: nat,
                          v1: map<nat, Node>, buf1: seq<byte>, v2: map<nat, Node>, buf2: seq<byte>)
    requires RangeEffect(it, v, buf, h, offset, done, v1, buf1)
    requires ChunkEffect(it, v1, buf1, h, offset + done, done, n, v2, buf2)
    requires done == 0 || InBlock(offset + done) == 0
    requires InBlock(offset + done) + n <= 4096
    requires it.WriteIter? ==> done + n <= |buf|
    ensures RangeEffect(it, v, buf, h, offset, done + n, v2, buf2)
  {
    if it.ReadIter? {
      var data := v[h].data;
      assert data[offset..offset + done] + data[offset + done..offset + done + n] == data[offset..offset + done + n];
    } else {
      NextChunk(it, buf, offset, done, n);
      WriteOnwards(v, h, offset, RangeData(it, buf, offset, done), ChunkData(it, buf, n));
    }
  }

  /** Runs an iterator on `n` bytes of file `h` from byte `pos` on, all of them in one block. */
  method IterateChunk(d: Disk, h: nat, it: Iterator, buf: array<byte>, pos: nat, offset: nat, n: nat)
    returns (rv: int)
    requires d.Valid() && h in d.own.files && d.own.files[h].after == -1 && d.Outside(buf)
    requires 1 <= n && pos + n <= d.own.files[h].size && InBlock(pos) + n <= 4096
    requires it.ReadIter? ==> offset + n <= buf.Length
    requires it.WriteIter? ==> n <= buf.Length
    modifies d.mem, buf
    ensures d.Valid()
    ensures it.ReadIter? ==> d.mem[..] == old(d.mem[..])
    ensures ChunkEffect(it, old(View(d)), old(buf[..]), h, pos, offset, n, View(d), buf[..])
    ensures rv == if it.FillIter? then it.result else 0
  {
    hide Wf, OnDisk, Addr, Splice, AfterWrite, ViewOf, ChunkData;
    ghost var mem, data := d.mem[..], buf[..];
    var start := Locate(d, h, pos, n);
    rv := RunIterator(d, it, buf, start, offset, n);
    if !it.ReadIter? {
      ViewAfterWrite(d.Tab(), d.own, h, mem, pos, ChunkData(it, data, n));
    }
  }

  lemma FileBnum(t: Tables, g: Owners, h: nat, k: nat)
    requires Wf(t, g) && h in g.files && g.files[h].after == -1 && k < |g.files[h].blocks|
    ensures Walk(t.nodes, h, g.files[h].chain)
    ensures forall i :: 0 <= i < |g.files[h].chain| ==> FourSlots(t.nodes, g.files[h].chain[i])
    ensures GetBnum(t.nodes, h, k, g.files[h].chain) == g.files[h].blocks[k]
  {
    GetBnumIsBlock(g.files[h], t.nodes, k);
  }

  /** Calls an iterator on the pieces of a byte range that lie in the successive blocks of file `h`,
    in order; a range that reaches past the end of the file stops there. */
  method BlockIter(d: Disk, h: nat, it: Iterator, buf: array<byte>, offset: nat, size: int) returns (rv: int)
    requires d.Valid() && h in d.own.files && d.own.files[h].after == -1 && d.Outside(buf)
    requires 1 <= size ==> offset < d.own.files[h].size
    requires 1 <= size && !it.FillIter? ==> Min(d.own.files[h].size - offset, size) <= buf.Length
    requires it.FillIter? ==> 0 <= it.result
    modifies d.mem, buf
    ensures d.Valid()
    ensures size < 1 || it.ReadIter? ==> d.mem[..] == old(d.mem[..])
    ensures size < 1 ==> View(d) == old(View(d)) && buf[..] == old(buf[..])
    ensures 1 <= size ==> RangeEffect(it, old(View(d)), old(buf[..]), h, offset,
                                      Span(d.own.files[h].size, offset, size), View(d), buf[..])
    ensures rv == if 1 <= size && it.FillIter? then it.result else 0
  {
    hide Disk.Valid, Wf, Walk, View, ChunkEffect, RangeEffect, InBlock;
    if size < 1 {
      return 0;
    }
    BlockStarts(offset, 0);
    ghost var v, data, mem := View(d), buf[..], d.mem[..];
    var total := FileSize(d, h);
    var n: nat := Min(total - offset, size);
    var remaining: nat := n;
    var bnum := offset / 4096;
    var chunk: nat := Min(4096 - InBlock(offset), remaining);
    rv := IterateChunk(d, h, it, buf, offset, 0, chunk);
    remaining := remaining - chunk;
    NothingYet(it, v, data, h, offset);
    ChunkExtendsRange(it, v, data, h, offset, 0, chunk, v, data, View(d), buf[..]);
    while remaining > 0
      invariant d.Valid() && remaining < n
      invariant remaining > 0 ==> offset + (n - remaining) == 4096 * (bnum + 1)
      invariant it.ReadIter? ==> d.mem[..] == mem
      invariant RangeEffect(it, v, data, h, offset, n - remaining, View(d), buf[..])
      invariant rv == if it.FillIter? then it.result else 0
    {
      bnum := bnum + 1;
      BlockStarts(0, bnum);
      chunk := Min(4096, remaining);
      ghost var done: nat := n - remaining;
      ghost var v1, data1 := View(d), buf[..];
      rv := IterateChunk(d, h, it, buf, 4096 * bnum, n - remaining, chunk);
      remaining := remaining - chunk;
      ChunkExtendsRange(it, v, data, h, offset, done, chunk, v1, data1, View(d), buf[..]);
    }
  }

  /** The size of a file, summed along its chain. */
  method FileSize(d: Disk, h: nat) returns (size: nat)
    requires d.Valid() && h in d.own.files && d.own.files[h].after == -1
    ensures size == d.own.files[h].size == |View(d)[h].data|
    ensures size <= 254 * 16384
  {
    hide ChainsOwned, BlocksOwned, InodeBits, BlockBits, Shaped, Walk;
    WfOnDisk(d.Tab(), d.own);
    FileSizeBound(d.Tab(), d.own, h);
    TotalSizeIsSize(d.own.files[h], d.inodes[..]);
    size := TotalSize(d.inodes[..], h, d.own.files[h].chain);
  }

  /** Fills a byte range of a file with one value. */
  method Fill(d: Disk, h: nat, offset: nat, fill: byte, size: int) returns (rv: int)
    requires d.Valid() && h in d.own.files && d.own.files[h].after == -1
    requires 0 <= size && (1 <= size ==> offset + size <= d.own.files[h].size)
    modifies d.mem
    ensures d.Valid()
    ensures size < 1 ==> View(d) == old(View(d)) && rv == 0
    ensures 1 <= size ==>
              && View(d) == AfterWrite(old(View(d)), h, offset, Repeat(fill, size))
              && rv == size
  {
    hide Disk.Valid, View, AfterWrite;
    var none := new byte[0];
    rv := BlockIter(d, h, FillIter(fill, size), none, offset, size);
  }
}
