/** How files lie in the inode table, and who owns which block and inode.

  A file is a chain of inodes.  The chain, the list of all its blocks and its total size determine
  every field of every inode in the chain, so the allocator can be specified on `File` values.
  */
module Layout {
  import opened Specs

  /** One entry of the inode table; a block slot holds -1 when unused, `next` is -1 at the end. */
  datatype Inode = Inode(refs: int, mode: int, size: int, blocks: seq<int>, next: int)

  /** A file seen as a whole.  `after` is the `next` field of its last inode: -1, except while the
    inode that used to follow is being freed. */
  datatype File = File(chain: seq<nat>, blocks: seq<nat>, size: nat, after: int, refs: int, mode: int)

  /** The metadata of the disk: both allocation bitmaps and the inode table. */
  datatype Tables = Tables(bbm: seq<bool>, ibm: seq<bool>, nodes: seq<Inode>)

  /** Where a block or an inode belongs: the head of its file and its position there. */
  datatype Place = Place(head: nat, pos: nat)

  /** The files by head inode, with the place of every block and every inode in use. */
  datatype Owners = Owners(files: map<nat, File>, bown: map<nat, Place>, iown: map<nat, Place>)

  /** What `inode_reset` leaves. */
  const RESET_INODE := Inode(0, 33188, 0, [-1, -1, -1, -1], -1)

  function EmptyFile(x: nat): File {
    File([x], [], 0, -1, 0, 33188)
  }

  // ---- the shape of one file ----

  /** The block in slot `j` of the `i`th inode of a file, or -1 when the slot is unused. */
  function SlotOf(blocks: seq<nat>, i: nat, j: nat): int {
    if 4 * i + j < |blocks| then blocks[4 * i + j] else -1
  }

  /** The inode that follows the `i`th one of a chain. */
  function NextIn(chain: seq<nat>, i: nat, after: int): int
    requires i < |chain|
  {
    if i + 1 < |chain| then chain[i + 1] else after
  }

  ghost predicate SlotsOk(n: Inode, blocks: seq<nat>, i: nat) {
    && |n.blocks| == 4
    && forall j :: 0 <= j < 4 ==> n.blocks[j] == SlotOf(blocks, i, j)
  }

  ghost predicate NodeOk(n: Inode, f: File, i: nat)
    requires i < |f.chain|
  {
    && n.size == LocalSize(f.size, i)
    && SlotsOk(n, f.blocks, i)
    && n.next == NextIn(f.chain, i, f.after)
    && (i == 0 ==> n.refs == f.refs && n.mode == f.mode)
  }

  /** A growth that ran out of blocks may leave a last inode with nothing in it. */
  predicate EmptyTail(f: File) {
    f.size > 0 && f.size == 16384 * (|f.chain| - 1)
  }

  predicate Shaped(f: File) {
    && 1 <= |f.chain|
    && |f.blocks| == Blocks(f.size)
    && (|f.chain| == Nodes(f.size) || EmptyTail(f))
  }

  /** The shape that shrinking relies on: as many inodes as the size needs and no more. */
  predicate Canonical(f: File) {
    Shaped(f) && |f.chain| == Nodes(f.size) && f.after == -1
  }

  ghost predicate NodeAt(f: File, nodes: seq<Inode>, i: nat)
    requires i < |f.chain|
  {
    f.chain[i] < |nodes| && NodeOk(nodes[f.chain[i]], f, i)
  }

  ghost predicate FileOk(f: File, nodes: seq<Inode>) {
    && Shaped(f)
    && (forall i :: 0 <= i < |f.chain| ==> f.chain[i] < |nodes|)
    && (forall i :: 0 <= i < |f.chain| ==> NodeAt(f, nodes, i))
  }

  // ---- ownership ----

  ghost predicate ChainsOwned(files: map<nat, File>, iown: map<nat, Place>) {
    && (forall h, i :: h in files && 0 <= i < |files[h].chain| ==>
          files[h].chain[i] in iown && iown[files[h].chain[i]] == Place(h, i))
    && (forall x :: x in iown ==> ChainHolds(files, iown[x], x))
  }

  ghost predicate ChainHolds(files: map<nat, File>, at: Place, x: nat) {
    at.head in files && at.pos < |files[at.head].chain| && files[at.head].chain[at.pos] == x
  }

  ghost predicate BlocksOwned(files: map<nat, File>, bown: map<nat, Place>) {
    && (forall h, i :: h in files && 0 <= i < |files[h].blocks| ==>
          files[h].blocks[i] in bown && bown[files[h].blocks[i]] == Place(h, i))
    && (forall b :: b in bown ==> BlockHeld(files, bown[b], b))
  }

  ghost predicate BlockHeld(files: map<nat, File>, at: Place, b: nat) {
    at.head in files && at.pos < |files[at.head].blocks| && files[at.head].blocks[at.pos] == b
  }

  ghost predicate InodeBits(ibm: seq<bool>, iown: map<nat, Place>) {
    && |ibm| == 254
    && (forall x :: x in iown ==> x < 254)
    && (forall x :: 0 <= x < 254 ==> (ibm[x] <==> x in iown))
  }

  ghost predicate BlockBits(bbm: seq<bool>, bown: map<nat, Place>) {
    && |bbm| == 256
    && (forall b :: b in bown ==> 2 <= b < 256)
    && (forall b :: 0 <= b < 256 ==> (bbm[b] <==> b < 2 || b in bown))
  }

  ghost predicate FilesOk(files: map<nat, File>, nodes: seq<Inode>) {
    && |nodes| == 254
    && forall h :: h in files ==> FileOk(files[h], nodes) && files[h].chain[0] == h
  }

  /** The invariant of the metadata. */
  ghost predicate Wf(t: Tables, g: Owners) {
    && FilesOk(g.files, t.nodes)
    && ChainsOwned(g.files, g.iown)
    && BlocksOwned(g.files, g.bown)
    && InodeBits(t.ibm, g.iown)
    && BlockBits(t.bbm, g.bown)
  }

  /** The last inode of a file. */
  function Last(f: File): nat
    requires 1 <= |f.chain|
  {
    f.chain[|f.chain| - 1]
  }

  // ---- walking a chain ----

  /** `c` is the rest of a chain, starting at `n` and ending at an inode without a successor. */
  ghost predicate Walk(nodes: seq<Inode>, n: int, c: seq<nat>) {
    && 1 <= |c|
    && n == c[0] < |nodes|
    && forall i :: 0 <= i < |c| ==> LinkAt(nodes, c, i)
  }

  ghost predicate LinkAt(nodes: seq<Inode>, c: seq<nat>, i: nat)
    requires i < |c|
  {
    c[i] < |nodes| && nodes[c[i]].next == NextIn(c, i, -1)
  }

  lemma WalkStep(nodes: seq<Inode>, n: int, c: seq<nat>)
    requires Walk(nodes, n, c)
    ensures nodes[n].next < 0 <==> |c| == 1
    ensures nodes[n].next >= 0 ==> Walk(nodes, nodes[n].next, c[1..])
  {
    assert LinkAt(nodes, c, 0);
    if |c| > 1 {
      assert LinkAt(nodes, c, 1);
    }
    forall i | 0 <= i < |c[1..]| ensures LinkAt(nodes, c[1..], i) {
      assert LinkAt(nodes, c, i + 1);
    }
  }

  /** The bytes held by the inodes of a chain. */
  ghost function SumSizes(nodes: seq<Inode>, c: seq<nat>): int {
    if c == [] || c[0] >= |nodes| then 0 else nodes[c[0]].size + SumSizes(nodes, c[1..])
  }

  function TotalSize(nodes: seq<Inode>, n: int, ghost c: seq<nat>): (size: int)
    requires Walk(nodes, n, c)
    ensures size == SumSizes(nodes, c)
    decreases |c|
  {
    WalkStep(nodes, n, c);
    nodes[n].size + if nodes[n].next >= 0 then TotalSize(nodes, nodes[n].next, c[1..]) else 0
  }

  function LastChild(nodes: seq<Inode>, n: int, ghost c: seq<nat>): (last: nat)
    requires Walk(nodes, n, c)
    ensures last == c[|c| - 1]
    decreases |c|
  {
    WalkStep(nodes, n, c);
    if nodes[n].next < 0 then n else LastChild(nodes, nodes[n].next, c[1..])
  }

  function SecondToLastChild(nodes: seq<Inode>, n: int, ghost c: seq<nat>): (second: nat)
    requires Walk(nodes, n, c)
    requires nodes[n].next >= 0
    ensures |c| >= 2 && second == c[|c| - 2]
    decreases |c|
  {
    WalkStep(nodes, n, c);
    var next := nodes[n].next;
    WalkStep(nodes, next, c[1..]);
    if nodes[next].next < 0 then n else SecondToLastChild(nodes, next, c[1..])
  }

  predicate FourSlots(nodes: seq<Inode>, x: nat) {
    x < |nodes| && |nodes[x].blocks| == 4
  }

  /** The block that holds the `k`th block-sized piece of the file, or -1 when there is none. */
  function GetBnum(nodes: seq<Inode>, n: int, k: nat, ghost c: seq<nat>): (bnum: int)
    requires Walk(nodes, n, c)
    requires forall i :: 0 <= i < |c| ==> FourSlots(nodes, c[i])
    ensures k / 4 < |c| ==> FourSlots(nodes, c[k / 4])
    ensures bnum == if k / 4 < |c| then nodes[c[k / 4]].blocks[k % 4] else -1
    decreases |c|
  {
    WalkStep(nodes, n, c);
    assert FourSlots(nodes, c[0]);
    if k < 4 then nodes[n].blocks[k]
    else if nodes[n].next < 0 then -1
    else GetBnum(nodes, nodes[n].next, k - 4, c[1..])
  }

  /** A file whose last inode ends the chain can be walked from any of its inodes. */
  lemma FileWalk(f: File, nodes: seq<Inode>, i: nat)
    requires FileOk(f, nodes) && f.after == -1 && i < |f.chain|
    ensures Walk(nodes, f.chain[i], f.chain[i..])
  {
    forall j | 0 <= j < |f.chain[i..]|
      ensures LinkAt(nodes, f.chain[i..], j)
    {
      assert NodeAt(f, nodes, i + j);
    }
    assert NodeAt(f, nodes, i);
  }

  lemma {:induction false} SumFrom(f: File, nodes: seq<Inode>, i: nat)
    requires FileOk(f, nodes) && i <= |f.chain|
    ensures SumSizes(nodes, f.chain[i..]) == if 16384 * i <= f.size then f.size - 16384 * i else 0
    decreases |f.chain| - i
  {
    if i < |f.chain| {
      SumFrom(f, nodes, i + 1);
      assert NodeAt(f, nodes, i);
      assert f.chain[i..][1..] == f.chain[i + 1..];
    }
  }

  /** Summing the sizes along the chain gives the size of the file. */
  lemma TotalSizeIsSize(f: File, nodes: seq<Inode>)
    requires FileOk(f, nodes) && f.after == -1
    ensures Walk(nodes, f.chain[0], f.chain)
    ensures TotalSize(nodes, f.chain[0], f.chain) == f.size
  {
    FileWalk(f, nodes, 0);
    SumFrom(f, nodes, 0);
    assert f.chain[0..] == f.chain;
  }

  /** Following the chain four slots at a time finds the `k`th block of the file. */
  lemma GetBnumIsBlock(f: File, nodes: seq<Inode>, k: nat)
    requires FileOk(f, nodes) && f.after == -1
    ensures Walk(nodes, f.chain[0], f.chain)
    ensures forall i :: 0 <= i < |f.chain| ==> FourSlots(nodes, f.chain[i])
    ensures GetBnum(nodes, f.chain[0], k, f.chain) == if k < |f.blocks| then f.blocks[k] else -1
  {
    FileWalk(f, nodes, 0);
    assert f.chain[0..] == f.chain;
    forall i | 0 <= i < |f.chain| ensures FourSlots(nodes, f.chain[i]) {
      assert NodeAt(f, nodes, i);
    }
    var i, j := k / 4, k % 4;
    if i < |f.chain| {
      assert NodeAt(f, nodes, i);
      assert nodes[f.chain[i]].blocks[j] == SlotOf(f.blocks, i, j);
    }
  }

  /** The shape of a canonical file is a function of its size: every inode but the last is full, the
    last one has the rest, which is nothing only in an empty file, and an inode uses the slots that
    its bytes reach. */
  lemma ShapeFromSize(f: File, nodes: seq<Inode>, i: nat, j: nat)
    requires FileOk(f, nodes) && Canonical(f) && i < |f.chain| && j < 4
    ensures f.chain[i] < |nodes| && |nodes[f.chain[i]].blocks| == 4
    ensures i < |f.chain| - 1 ==> nodes[f.chain[i]].size == 16384
    ensures i == |f.chain| - 1 ==> nodes[f.chain[i]].size == f.size - 16384 * i <= 16384
    ensures nodes[f.chain[i]].size == 0 ==> f.size == 0
    ensures nodes[f.chain[i]].blocks[j] != -1 <==> 4096 * j < nodes[f.chain[i]].size
    ensures |f.chain| == Max(1, (f.size + 16383) / 16384)
  {
    hide Blocks;
    assert NodeAt(f, nodes, i);
    var n := nodes[f.chain[i]];
    assert n.blocks[j] == SlotOf(f.blocks, i, j);
    NodesBounds(f.size);
    BlocksBounds(f.size);
  }
}
