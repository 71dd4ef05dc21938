/** What the metadata invariant says about the raw tables: nothing leaks and nothing is shared. */
module Accounting {
  import opened Specs
  import opened Bitmap
  import opened Layout
  import opened Sizing
  import opened Moves
  import opened Disks

  /** Slot `j` of inode `x`, which is in use, holds block `b`. */
  ghost predicate HoldsBlock(t: Tables, x: nat, j: nat, b: nat) {
    x < |t.ibm| && t.ibm[x] && x < |t.nodes| && j < |t.nodes[x].blocks| && t.nodes[x].blocks[j] == b
  }

  /** The place of a slot of an inode in use, and the block in it. */
  lemma SlotPlace(t: Tables, g: Owners, x: nat, j: nat, b: nat)
    requires Wf(t, g) && HoldsBlock(t, x, j, b)
    ensures x in g.iown && ChainHolds(g.files, g.iown[x], x)
    ensures var p := g.iown[x]; b in g.bown && j < 4 && g.bown[b] == Place(p.head, 4 * p.pos + j)
  {
    var p := g.iown[x];
    var f := g.files[p.head];
    assert NodeAt(f, t.nodes, p.pos);
    assert t.nodes[x].blocks[j] == SlotOf(f.blocks, p.pos, j);
  }

  /** A block is marked as used if and only if a slot of an inode in use holds it, and then only one
    slot does. */
  lemma BlockUsedIffHeldOnce(t: Tables, g: Owners, b: nat)
    requires Wf(t, g) && 2 <= b < 256
    ensures t.bbm[b] <==> exists x: nat, j: nat :: HoldsBlock(t, x, j, b)
    ensures forall x: nat, j: nat, y: nat, k: nat :: HoldsBlock(t, x, j, b) && HoldsBlock(t, y, k, b) ==> x == y && j == k
    ensures t.bbm[0] && t.bbm[1]
  {
    hide FilesOk;
    if t.bbm[b] {
      HeldSomewhere(t, g, b);
    }
    forall x: nat, j: nat, y: nat, k: nat | HoldsBlock(t, x, j, b) && HoldsBlock(t, y, k, b)
      ensures x == y && j == k
    {
      SlotPlace(t, g, x, j, b);
      SlotPlace(t, g, y, k, b);
    }
    forall x: nat, j: nat | HoldsBlock(t, x, j, b) ensures t.bbm[b] {
      SlotPlace(t, g, x, j, b);
    }
  }

  lemma HeldSomewhere(t: Tables, g: Owners, b: nat)
    requires Wf(t, g) && b in g.bown
    ensures exists x: nat, j: nat :: HoldsBlock(t, x, j, b)
  {
    var p := g.bown[b];
    assert BlockHeld(g.files, p, b);
    var f := g.files[p.head];
    var i, j := p.pos / 4, p.pos % 4;
    TailRange(f);
    assert NodeAt(f, t.nodes, i);
    assert t.nodes[f.chain[i]].blocks[j] == SlotOf(f.blocks, i, j);
    assert f.chain[i] in g.iown;
    assert HoldsBlock(t, f.chain[i], j, b);
  }

  /** Inode `y`, which is in use, is followed by `x`. */
  ghost predicate Precedes(t: Tables, y: nat, x: nat) {
    y < |t.ibm| && t.ibm[y] && y < |t.nodes| && t.nodes[y].next == x
  }

  ghost predicate Settled(g: Owners) {
    forall h :: h in g.files ==> g.files[h].after == -1
  }

  lemma PrecedesPlace(t: Tables, g: Owners, y: nat, x: nat)
    requires Wf(t, g) && Settled(g) && Precedes(t, y, x)
    ensures x in g.iown && y in g.iown && g.iown[x] == Place(g.iown[y].head, g.iown[y].pos + 1)
  {
    assert ChainHolds(g.files, g.iown[y], y);
    var f := g.files[g.iown[y].head];
    assert NodeAt(f, t.nodes, g.iown[y].pos);
  }

  /** An inode is marked as used if and only if it heads a file or follows another inode in use, and
    never both or twice. */
  lemma InodeUsedIffHeadOrNext(t: Tables, g: Owners, x: nat)
    requires Wf(t, g) && Settled(g) && x < 254
    ensures t.ibm[x] <==> x in g.files || exists y: nat :: Precedes(t, y, x)
    ensures x in g.files ==> forall y: nat :: !Precedes(t, y, x)
    ensures forall y: nat, z: nat :: Precedes(t, y, x) && Precedes(t, z, x) ==> y == z
  {
    hide FilesOk, BlocksOwned, BlockBits;
    UsedHasPredecessor(t, g, x);
    forall y: nat | Precedes(t, y, x) ensures t.ibm[x] && x !in g.files {
      HeadIsFirst(t, g, x);
      PrecedesPlace(t, g, y, x);
    }
    forall y: nat, z: nat | Precedes(t, y, x) && Precedes(t, z, x) ensures y == z {
      PrecedesPlace(t, g, y, x);
      PrecedesPlace(t, g, z, x);
      assert ChainHolds(g.files, g.iown[y], y) && ChainHolds(g.files, g.iown[z], z);
    }
  }

  lemma HeadIsFirst(t: Tables, g: Owners, x: nat)
    requires Wf(t, g)
    ensures x in g.files ==> x in g.iown && t.ibm[x] && g.iown[x].pos == 0
  {
    HeadsOwned(g);
  }

  lemma UsedHasPredecessor(t: Tables, g: Owners, x: nat)
    requires Wf(t, g) && x < 254
    ensures x in g.files ==> t.ibm[x]
    ensures t.ibm[x] && x !in g.files ==> exists y: nat :: Precedes(t, y, x)
  {
    HeadIsFirst(t, g, x);
    if t.ibm[x] && x !in g.files {
      var p := g.iown[x];
      assert ChainHolds(g.files, p, x);
      var f := g.files[p.head];
      assert NodeAt(f, t.nodes, p.pos - 1);
      assert f.chain[p.pos - 1] in g.iown;
      assert Precedes(t, f.chain[p.pos - 1], x);
    }
  }

  /** The files determine both bitmaps, and the inodes of the files up to the link count and the mode
    of inodes that are no heads. */
  lemma FilesDetermineTables(t: Tables, g: Owners, t': Tables, g': Owners)
    requires Wf(t, g) && Wf(t', g') && g.files == g'.files
    ensures t.bbm == t'.bbm && t.ibm == t'.ibm
    ensures forall x :: 0 <= x < 254 && t.ibm[x] ==>
              t.nodes[x].(refs := 0, mode := 0) == t'.nodes[x].(refs := 0, mode := 0)
    ensures forall h :: h in g.files ==> t.nodes[h] == t'.nodes[h]
  {
    OwnersAgree(g, g');
    OwnersAgree(g', g);
    forall x: nat | x < 254 && t.ibm[x]
      ensures t.nodes[x].(refs := 0, mode := 0) == t'.nodes[x].(refs := 0, mode := 0)
    {
      assert ChainHolds(g.files, g.iown[x], x);
      SameNode(g.files[g.iown[x].head], g.iown[x].pos, t.nodes[x], t'.nodes[x], t, t');
    }
    forall h | h in g.files ensures t.nodes[h] == t'.nodes[h] {
      SameNode(g.files[h], 0, t.nodes[h], t'.nodes[h], t, t');
    }
  }

  lemma OwnersAgree(g: Owners, g': Owners)
    requires ChainsOwned(g.files, g.iown) && BlocksOwned(g.files, g.bown)
    requires ChainsOwned(g'.files, g'.iown) && BlocksOwned(g'.files, g'.bown)
    requires g.files == g'.files
    ensures g.iown.Keys <= g'.iown.Keys && g.bown.Keys <= g'.bown.Keys
  {
    forall x | x in g.iown ensures x in g'.iown {
      assert ChainHolds(g.files, g.iown[x], x);
    }
    forall b | b in g.bown ensures b in g'.bown {
      assert BlockHeld(g.files, g.bown[b], b);
    }
  }

  lemma SameNode(f: File, i: nat, n: Inode, n': Inode, t: Tables, t': Tables)
    requires FileOk(f, t.nodes) && FileOk(f, t'.nodes) && i < |f.chain|
    requires n == t.nodes[f.chain[i]] && n' == t'.nodes[f.chain[i]]
    ensures n.(refs := 0, mode := 0) == n'.(refs := 0, mode := 0)
    ensures i == 0 ==> n == n'
  {
    assert NodeAt(f, t.nodes, i) && NodeAt(f, t'.nodes, i);
    forall j | 0 <= j < 4 ensures n.blocks[j] == n'.blocks[j] {
      assert n.blocks[j] == SlotOf(f.blocks, i, j) && n'.blocks[j] == SlotOf(f.blocks, i, j);
    }
  }

  /** A shrink that follows a successful growth by the same amount restores both bitmaps and every
    inode in use, not only the file. */
  lemma ShrinkRestoresDisk(t0: Tables, g0: Owners, t1: Tables, g1: Owners, t2: Tables, g2: Owners, h: nat, k: int)
    requires Wf(t0, g0) && Wf(t1, g1) && Wf(t2, g2)
    requires h in g0.files && Canonical(g0.files[h])
    requires FileFits(g0.files[h], k, |FreeBlocks(t0)|, |FreeInodes(t0)|)
    requires g1.files == g0.files[h := Grown(g0.files[h], k, FreeBlocks(t0), FreeInodes(t0))]
    requires Canonical(g1.files[h]) && g2.files == g1.files[h := Shrunk(g1.files[h], k)]
    ensures g2.files == g0.files
    ensures t2.bbm == t0.bbm && t2.ibm == t0.ibm
    ensures forall x :: x in g0.files ==> t2.nodes[x] == t0.nodes[x]
  {
    hide FilesOk, ChainsOwned, BlocksOwned, InodeBits, BlockBits;
    ShrinkUndoesGrow(g0.files[h], k, FreeBlocks(t0), FreeInodes(t0));
    assert g2.files == g0.files;
    FilesDetermineTables(t0, g0, t2, g2);
  }

  // ---- shrinking what must not be shrunk ----

  /** Every shrink of a file whose last inode has nothing in it goes wrong.  Up to 8190 bytes the guard
    asks for a smaller size only, which makes that size negative, and then the table holds no files at
    all; beyond that the slot to free is the one before the first. */
  lemma EmptyTailShrinkBreaks(t: Tables, g: Owners, h: nat, k: nat, g': Owners)
    requires Wf(t, g) && h in g.files && EmptyTail(g.files[h]) && 1 <= k <= MAX_REQUEST
    ensures var last := Last(g.files[h]);
            && last < |t.nodes| && t.nodes[last].size == 0
            && (k <= 8190 <==> BytesToBlocks(t.nodes[last].size - k) == BytesToBlocks(t.nodes[last].size))
            && !Wf(t.(nodes := t.nodes[last := t.nodes[last].(size := t.nodes[last].size - k)]), g')
            && BytesToBlocks(t.nodes[last].size) - 1 == -1
  {
    hide ChainsOwned, BlocksOwned, BlockBits;
    var f := g.files[h];
    TailNode(t, g, h);
    LastInUse(t, g, h);
    ShrinkGuard(0, k);
    var last := Last(f);
    assert NodeAt(f, t.nodes, |f.chain| - 1);
    var t' := t.(nodes := t.nodes[last := t.nodes[last].(size := t.nodes[last].size - k)]);
    if Wf(t', g') {
      UsedHasSize(t', g', last);
    }
  }

  lemma LastInUse(t: Tables, g: Owners, h: nat)
    requires Wf(t, g) && h in g.files
    ensures 1 <= |g.files[h].chain| && Last(g.files[h]) < 254 && t.ibm[Last(g.files[h])]
  {
    var f := g.files[h];
    assert f.chain[|f.chain| - 1] in g.iown;
  }

  /** An inode in use has a size that is not negative. */
  lemma UsedHasSize(t: Tables, g: Owners, x: nat)
    requires Wf(t, g) && x < 254 && t.ibm[x]
    ensures t.nodes[x].size >= 0
  {
    var p := g.iown[x];
    assert ChainHolds(g.files, p, x);
    assert NodeAt(g.files[p.head], t.nodes, p.pos);
  }

  // ---- space ----

  ghost function UsedFrom(bits: seq<bool>, from: nat): (used: set<nat>) {
    set b: nat | from <= b < |bits| && bits[b]
  }

  lemma {:induction false} FreePlusUsed(bits: seq<bool>, from: nat)
    requires from <= |bits|
    ensures |FreeFrom(bits, from)| + |UsedFrom(bits, from)| == |bits| - from
    decreases |bits| - from
  {
    if from == |bits| {
      assert UsedFrom(bits, from) == {};
    } else {
      FreePlusUsed(bits, from + 1);
      assert UsedFrom(bits, from) == if bits[from] then {from} + UsedFrom(bits, from + 1) else UsedFrom(bits, from + 1);
    }
  }

  /** The blocks and the inodes of the files whose heads are below `n`, counted file by file. */
  ghost function BlocksBelow(files: map<nat, File>, n: nat): nat {
    if n == 0 then 0 else BlocksBelow(files, n - 1) + if n - 1 in files then |files[n - 1].blocks| else 0
  }

  ghost function NodesBelow(files: map<nat, File>, n: nat): nat {
    if n == 0 then 0 else NodesBelow(files, n - 1) + if n - 1 in files then |files[n - 1].chain| else 0
  }

  /** What belongs to files whose heads are below `n`. */
  ghost function HeldBelow(own: map<nat, Place>, n: nat): set<nat> {
    set b | b in own && own[b].head < n
  }

  ghost function HeldBy(own: map<nat, Place>, h: nat): set<nat> {
    set b | b in own && own[b].head == h
  }

  /** A list whose members are placed at their positions names as many things as it is long. */
  lemma PlacedList(own: map<nat, Place>, h: nat, s: seq<nat>)
    requires forall i :: 0 <= i < |s| ==> s[i] in own && own[s[i]] == Place(h, i)
    requires forall b :: b in own && own[b].head == h ==> own[b].pos < |s| && s[own[b].pos] == b
    ensures |HeldBy(own, h)| == |s|
  {
    SetOfSeqSize(s);
    assert HeldBy(own, h) == set i | 0 <= i < |s| :: s[i];
  }

  lemma SplitHeld(own: map<nat, Place>, n: nat)
    ensures |HeldBelow(own, n + 1)| == |HeldBelow(own, n)| + |HeldBy(own, n)|
  {
    assert HeldBelow(own, n + 1) == HeldBelow(own, n) + HeldBy(own, n);
    assert HeldBelow(own, n) !! HeldBy(own, n);
  }

  lemma {:induction false} BlocksCounted(g: Owners, n: nat)
    requires BlocksOwned(g.files, g.bown)
    ensures |HeldBelow(g.bown, n)| == BlocksBelow(g.files, n)
  {
    if n > 0 {
      BlocksCounted(g, n - 1);
      SplitHeld(g.bown, n - 1);
      forall b | b in g.bown ensures BlockHeld(g.files, g.bown[b], b) {
      }
      PlacedList(g.bown, n - 1, if n - 1 in g.files then g.files[n - 1].blocks else []);
    } else {
      assert HeldBelow(g.bown, 0) == {};
    }
  }

  lemma {:induction false} NodesCounted(g: Owners, n: nat)
    requires ChainsOwned(g.files, g.iown)
    ensures |HeldBelow(g.iown, n)| == NodesBelow(g.files, n)
  {
    if n > 0 {
      NodesCounted(g, n - 1);
      SplitHeld(g.iown, n - 1);
      forall x | x in g.iown ensures ChainHolds(g.files, g.iown[x], x) {
      }
      PlacedList(g.iown, n - 1, if n - 1 in g.files then g.files[n - 1].chain else []);
    } else {
      assert HeldBelow(g.iown, 0) == {};
    }
  }

  lemma HeadsBelow(t: Tables, g: Owners)
    requires Wf(t, g)
    ensures HeldBelow(g.bown, 254) == g.bown.Keys && HeldBelow(g.iown, 254) == g.iown.Keys
  {
    HeadsOwned(g);
    forall b | b in g.bown ensures g.bown[b].head < 254 {
      assert BlockHeld(g.files, g.bown[b], b);
    }
    forall x | x in g.iown ensures g.iown[x].head < 254 {
      assert ChainHolds(g.files, g.iown[x], x);
    }
  }

  /** No space is lost or counted twice: the free blocks and the blocks of all files make up the 254 that
    can be had, and so do the free inodes and the chains of all files. */
  lemma SpaceConserved(t: Tables, g: Owners)
    requires Wf(t, g)
    ensures |FreeBlocks(t)| + BlocksBelow(g.files, 254) == 254
    ensures |FreeInodes(t)| + NodesBelow(g.files, 254) == 254
  {
    hide FilesOk, FreeFrom, BlocksBelow, NodesBelow, ChainsOwned, BlocksOwned;
    FreePlusUsed(t.bbm, 2);
    FreePlusUsed(t.ibm, 0);
    HeadsBelow(t, g);
    BlocksCounted(g, 254);
    NodesCounted(g, 254);
    assert UsedFrom(t.bbm, 2) == g.bown.Keys;
    assert UsedFrom(t.ibm, 0) == g.iown.Keys;
  }
}
