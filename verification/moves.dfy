/** The single steps the allocator takes on the metadata, each keeping the invariant. */
module Moves {
  import opened Specs
  import opened Layout
  import opened Sizing

  // ---- what an update of one file leaves alone ----

  lemma OtherFilesKeepNodes(t: Tables, g: Owners, h: nat, nodes: seq<Inode>, f': File)
    requires FilesOk(g.files, t.nodes) && ChainsOwned(g.files, g.iown) && h in g.files
    requires |nodes| == 254
    requires forall x :: 0 <= x < 254 && x !in g.files[h].chain ==> nodes[x] == t.nodes[x]
    requires FileOk(f', nodes) && f'.chain[0] == h
    ensures FilesOk(g.files[h := f'], nodes)
  {
    var files' := g.files[h := f'];
    forall k | k in files' ensures FileOk(files'[k], nodes) && files'[k].chain[0] == k {
      if k != h {
        OtherFileKept(t, g, h, nodes, k);
      }
    }
  }

  lemma FewerFilesOk(files: map<nat, File>, nodes: seq<Inode>, x: nat)
    requires FilesOk(files, nodes)
    ensures FilesOk(files - {x}, nodes)
  {
  }

  lemma OtherFileKept(t: Tables, g: Owners, h: nat, nodes: seq<Inode>, k: nat)
    requires ChainsOwned(g.files, g.iown) && h in g.files && k in g.files && k != h
    requires |nodes| == |t.nodes|
    requires forall x :: 0 <= x < |nodes| && x !in g.files[h].chain ==> nodes[x] == t.nodes[x]
    requires FileOk(g.files[k], t.nodes)
    ensures FileOk(g.files[k], nodes)
  {
    var f := g.files[k];
    forall i | 0 <= i < |f.chain| ensures NodeAt(f, nodes, i) {
      assert NodeAt(f, t.nodes, i);
      ChainsDisjoint(g, k, i, h);
    }
  }

  lemma HeadsOwned(g: Owners)
    requires ChainsOwned(g.files, g.iown)
    requires forall k :: k in g.files ==> |g.files[k].chain| > 0 && g.files[k].chain[0] == k
    ensures forall k :: k in g.files ==> k in g.iown && g.iown[k] == Place(k, 0)
  {
  }

  lemma HeadInUse(t: Tables, g: Owners, x: nat)
    requires FilesOk(g.files, t.nodes) && ChainsOwned(g.files, g.iown) && InodeBits(t.ibm, g.iown) && x in g.files
    ensures x < 254 && x in g.iown && t.ibm[x]
  {
    HeadsOwned(g);
  }

  lemma FreeBlockUnowned(t: Tables, g: Owners, b: nat)
    requires BlockBits(t.bbm, g.bown) && b < 256 && !t.bbm[b]
    ensures b !in g.bown
  {
  }

  lemma HeldBlockInRange(t: Tables, g: Owners, h: nat, i: nat)
    requires BlockBits(t.bbm, g.bown) && BlocksOwned(g.files, g.bown) && h in g.files && i < |g.files[h].blocks|
    ensures g.files[h].blocks[i] in g.bown && 2 <= g.files[h].blocks[i] < 256
  {
  }

  /** The last inode of a file, as the table has it. */
  lemma TailNode(t: Tables, g: Owners, h: nat)
    requires FilesOk(g.files, t.nodes) && h in g.files
    ensures |t.nodes| == 254
    ensures Shaped(g.files[h]) && 1 <= |g.files[h].chain| && g.files[h].chain[0] == h && Last(g.files[h]) < 254
    ensures NodeOk(t.nodes[Last(g.files[h])], g.files[h], |g.files[h].chain| - 1)
    ensures Last(g.files[h]) in g.files[h].chain
  {
    assert NodeAt(g.files[h], t.nodes, |g.files[h].chain| - 1);
  }

  lemma ChainsDisjoint(g: Owners, k: nat, i: nat, h: nat)
    requires ChainsOwned(g.files, g.iown) && h in g.files && k in g.files && k != h && i < |g.files[k].chain|
    ensures g.files[k].chain[i] !in g.files[h].chain
  {
    var x := g.files[k].chain[i];
    assert g.iown[x] == Place(k, i);
  }

  lemma BlocksDisjoint(g: Owners, k: nat, i: nat, h: nat)
    requires BlocksOwned(g.files, g.bown) && h in g.files && k in g.files && k != h && i < |g.files[k].blocks|
    ensures g.files[k].blocks[i] !in g.files[h].blocks
  {
    var b := g.files[k].blocks[i];
    assert g.bown[b] == Place(k, i);
  }

  lemma ChainDistinct(g: Owners, h: nat, i: nat, j: nat)
    requires ChainsOwned(g.files, g.iown) && h in g.files && i < |g.files[h].chain| && j < |g.files[h].chain| && i != j
    ensures g.files[h].chain[i] != g.files[h].chain[j]
  {
    assert g.iown[g.files[h].chain[i]] == Place(h, i);
    assert g.iown[g.files[h].chain[j]] == Place(h, j);
  }

  lemma SameChain(g: Owners, h: nat, f': File)
    requires ChainsOwned(g.files, g.iown) && h in g.files && f'.chain == g.files[h].chain
    ensures ChainsOwned(g.files[h := f'], g.iown)
  {
    var files' := g.files[h := f'];
    forall x | x in g.iown ensures ChainHolds(files', g.iown[x], x) {
      assert ChainHolds(g.files, g.iown[x], x);
    }
  }

  lemma SameBlocks(g: Owners, h: nat, f': File)
    requires BlocksOwned(g.files, g.bown) && h in g.files && f'.blocks == g.files[h].blocks
    ensures BlocksOwned(g.files[h := f'], g.bown)
  {
    var files' := g.files[h := f'];
    forall b | b in g.bown ensures BlockHeld(files', g.bown[b], b) {
      assert BlockHeld(g.files, g.bown[b], b);
    }
  }

  /** A file's last inode holds what the inodes before it do not. */
  lemma TailRange(f: File)
    requires Shaped(f)
    ensures 0 <= TailSize(f.size, |f.chain|) <= 16384
    ensures LocalSize(f.size, |f.chain| - 1) == TailSize(f.size, |f.chain|)
    ensures 4 * (|f.chain| - 1) <= |f.blocks| <= 4 * |f.chain|
    ensures Blocks(TailSize(f.size, |f.chain|)) == |f.blocks| - 4 * (|f.chain| - 1)
  {
  }

  // ---- bitmaps follow ownership ----

  lemma InodeBitSet(ibm: seq<bool>, iown: map<nat, Place>, x: nat, at: Place)
    requires InodeBits(ibm, iown) && x < 254
    ensures InodeBits(ibm[x := true], iown[x := at])
    ensures x in iown ==> InodeBits(ibm, iown[x := at])
    ensures InodeBits(ibm[x := false], iown - {x})
  {
  }

  lemma BlockBitSet(bbm: seq<bool>, bown: map<nat, Place>, b: nat, at: Place)
    requires BlockBits(bbm, bown) && 2 <= b < 256
    ensures BlockBits(bbm[b := true], bown[b := at])
    ensures BlockBits(bbm[b := false], bown - {b})
  {
  }

  // ---- the last inode of a file changes ----

  /** The block slots of an inode depend on its own four blocks only. */
  lemma SlotsKept(n: Inode, blocks: seq<nat>, blocks': seq<nat>, i: nat)
    requires SlotsOk(n, blocks, i)
    requires 4 * i + 4 <= |blocks| && 4 * i + 4 <= |blocks'| && blocks[..4 * i + 4] == blocks'[..4 * i + 4]
    ensures SlotsOk(n, blocks', i)
  {
    forall j | 0 <= j < 4 ensures n.blocks[j] == SlotOf(blocks', i, j) {
      assert n.blocks[j] == SlotOf(blocks, i, j);
      assert blocks[..4 * i + 4][4 * i + j] == blocks'[..4 * i + 4][4 * i + j];
    }
  }

  /** A full inode before the last one describes the changed file as it did the old one. */
  lemma InnerNodeKept(n: Inode, f: File, f': File, i: nat)
    requires Shaped(f) && Shaped(f') && f'.chain == f.chain && i < |f.chain| - 1 && NodeOk(n, f, i)
    requires f'.refs == f.refs && f'.mode == f.mode
    requires KeepsInner(f, f')
    ensures NodeOk(n, f', i)
  {
    TailRange(f);
    TailRange(f');
    var m := 4 * (|f.chain| - 1);
    assert f.blocks[..4 * i + 4] == f.blocks[..m][..4 * i + 4];
    assert f'.blocks[..4 * i + 4] == f'.blocks[..m][..4 * i + 4];
    SlotsKept(n, f.blocks, f'.blocks, i);
  }

  /** The change of a file concerns its last inode only. */
  predicate KeepsInner(f: File, f': File) {
    var m := 4 * (|f.chain| - 1);
    0 <= m <= |f.blocks| && m <= |f'.blocks| && f.blocks[..m] == f'.blocks[..m]
  }

  /** Only the last inode is rewritten, and all others still describe the file. */
  lemma TailRewritten(t: Tables, g: Owners, h: nat, n: Inode, f': File)
    requires FilesOk(g.files, t.nodes) && ChainsOwned(g.files, g.iown) && h in g.files
    requires Shaped(f') && f'.chain == g.files[h].chain
    requires f'.refs == g.files[h].refs && f'.mode == g.files[h].mode
    requires KeepsInner(g.files[h], f')
    requires NodeOk(n, f', |f'.chain| - 1)
    ensures FilesOk(g.files[h := f'], t.nodes[Last(f') := n])
  {
    var f, x := g.files[h], Last(f');
    var nodes := t.nodes[x := n];
    forall i | 0 <= i < |f'.chain| ensures NodeAt(f', nodes, i) {
      if i != |f'.chain| - 1 {
        assert NodeAt(f, t.nodes, i);
        ChainDistinct(g, h, i, |f.chain| - 1);
        InnerNodeKept(t.nodes[f.chain[i]], f, f', i);
      }
    }
    assert x in f.chain;
    OtherFilesKeepNodes(t, g, h, nodes, f');
  }

  lemma ResizeNode(n: Inode, f: File, size: nat)
    requires Shaped(f) && f.size > 0 && NodeOk(n, f, |f.chain| - 1)
    requires 16384 * (|f.chain| - 1) <= size <= 16384 * |f.chain|
    requires Blocks(size) == Blocks(f.size)
    ensures Shaped(WithSize(f, size)) && KeepsInner(f, WithSize(f, size))
    ensures NodeOk(n.(size := TailSize(size, |f.chain|)), WithSize(f, size), |f.chain| - 1)
  {
    TailRange(f);
    TailRange(WithSize(f, size));
  }

  /** The size field of the last inode is set. */
  lemma Resize(t: Tables, g: Owners, h: nat, size: nat)
    requires Wf(t, g) && h in g.files && g.files[h].size > 0
    requires 16384 * (|g.files[h].chain| - 1) <= size <= 16384 * |g.files[h].chain|
    requires Blocks(size) == Blocks(g.files[h].size)
    ensures 1 <= |g.files[h].chain| && Last(g.files[h]) < |t.nodes|
    ensures var f, x := g.files[h], Last(g.files[h]);
            Wf(t.(nodes := t.nodes[x := t.nodes[x].(size := TailSize(size, |f.chain|))]),
               g.(files := g.files[h := WithSize(f, size)]))
  {
    hide FilesOk, ChainsOwned, BlocksOwned, InodeBits, BlockBits;
    hide Shaped, NodeOk, KeepsInner, TailSize;
    TailNode(t, g, h);
    var f, f' := g.files[h], WithSize(g.files[h], size);
    ResizeNode(t.nodes[Last(f)], f, size);
    TailRewritten(t, g, h, t.nodes[Last(f)].(size := TailSize(size, |f.chain|)), f');
    SameChain(g, h, f');
    SameBlocks(g, h, f');
  }

  lemma TakeBlockNode(n: Inode, f: File, b: nat, s: nat)
    requires Shaped(f) && NodeOk(n, f, |f.chain| - 1)
    requires |f.blocks| < 4 * |f.chain| && Shaped(WithBlock(f, b, s))
    ensures var u := |f.blocks| - 4 * (|f.chain| - 1);
            && 0 <= u < 4 && |n.blocks| == 4
            && KeepsInner(f, WithBlock(f, b, s))
            && NodeOk(n.(blocks := n.blocks[u := b], size := n.size + s), WithBlock(f, b, s), |f.chain| - 1)
  {
    var f', c := WithBlock(f, b, s), |f.chain|;
    TailRange(f);
    TailRange(f');
    var u := |f.blocks| - 4 * (c - 1);
    var n' := n.(blocks := n.blocks[u := b], size := n.size + s);
    forall j | 0 <= j < 4 ensures n'.blocks[j] == SlotOf(f'.blocks, c - 1, j) {
      assert n.blocks[j] == SlotOf(f.blocks, c - 1, j);
    }
  }

  /** A free block goes into the first unused slot of the last inode, which grows by `s` bytes. */
  lemma TakeBlock(t: Tables, g: Owners, h: nat, b: nat, s: nat)
    requires Wf(t, g) && h in g.files
    requires 2 <= b < 256 && !t.bbm[b]
    requires |g.files[h].blocks| < 4 * |g.files[h].chain|
    requires Shaped(WithBlock(g.files[h], b, s))
    ensures var f, x := g.files[h], Last(g.files[h]);
            var u := |f.blocks| - 4 * (|f.chain| - 1);
            && 0 <= u < 4 && |t.nodes[x].blocks| == 4
            && Wf(Tables(t.bbm[b := true], t.ibm,
                         t.nodes[x := t.nodes[x].(blocks := t.nodes[x].blocks[u := b], size := t.nodes[x].size + s)]),
                  Owners(g.files[h := WithBlock(f, b, s)], g.bown[b := Place(h, |f.blocks|)], g.iown))
  {
    hide FilesOk, ChainsOwned, BlocksOwned, InodeBits, BlockBits;
    hide Shaped, NodeOk, KeepsInner, TailSize;
    TailNode(t, g, h);
    FreeBlockUnowned(t, g, b);
    BlockBitSet(t.bbm, g.bown, b, Place(h, |g.files[h].blocks|));
    var f, f' := g.files[h], WithBlock(g.files[h], b, s);
    var x := Last(f);
    TakeBlockNode(t.nodes[x], f, b, s);
    var u := |f.blocks| - 4 * (|f.chain| - 1);
    TailRewritten(t, g, h, t.nodes[x].(blocks := t.nodes[x].blocks[u := b], size := t.nodes[x].size + s), f');
    SameChain(g, h, f');
    BlockGained(g, h, f', b);
  }

  lemma BlockGained(g: Owners, h: nat, f': File, b: nat)
    requires BlocksOwned(g.files, g.bown) && h in g.files && b !in g.bown
    requires f'.blocks == g.files[h].blocks + [b]
    ensures BlocksOwned(g.files[h := f'], g.bown[b := Place(h, |g.files[h].blocks|)])
  {
    var files', bown' := g.files[h := f'], g.bown[b := Place(h, |g.files[h].blocks|)];
    forall k, i | k in files' && 0 <= i < |files'[k].blocks|
      ensures files'[k].blocks[i] in bown' && bown'[files'[k].blocks[i]] == Place(k, i)
    {
      if !(k == h && i == |g.files[h].blocks|) {
        assert files'[k].blocks[i] == g.files[k].blocks[i];
        assert g.files[k].blocks[i] in g.bown;
      }
    }
    forall y | y in bown' ensures BlockHeld(files', bown'[y], y) {
      if y != b {
        assert BlockHeld(g.files, g.bown[y], y);
      }
    }
  }

  lemma GiveBlockNode(n: Inode, f: File)
    requires Canonical(f) && f.size > 0 && NodeOk(n, f, |f.chain| - 1)
    ensures var u := |f.blocks| - 4 * (|f.chain| - 1);
            && 1 <= u <= 4 && 1 <= |f.blocks| && |n.blocks| == 4
            && n.blocks[u - 1] == f.blocks[|f.blocks| - 1]
            && Shaped(WithoutBlock(f)) && KeepsInner(f, WithoutBlock(f))
            && NodeOk(n.(blocks := n.blocks[u - 1 := -1], size := 4096 * (u - 1)), WithoutBlock(f), |f.chain| - 1)
  {
    var f', c := WithoutBlock(f), |f.chain|;
    TailRange(f);
    var u := |f.blocks| - 4 * (c - 1);
    assert n.blocks[u - 1] == SlotOf(f.blocks, c - 1, u - 1);
    assert Shaped(f');
    TailRange(f');
    var n' := n.(blocks := n.blocks[u - 1 := -1], size := 4096 * (u - 1));
    forall j | 0 <= j < 4 ensures n'.blocks[j] == SlotOf(f'.blocks, c - 1, j) {
      assert n.blocks[j] == SlotOf(f.blocks, c - 1, j);
    }
  }

  /** The last block of a file is given back. */
  lemma GiveBlock(t: Tables, g: Owners, h: nat)
    requires Wf(t, g) && h in g.files && Canonical(g.files[h]) && g.files[h].size > 0
    ensures var f, x := g.files[h], Last(g.files[h]);
            var b, u := f.blocks[|f.blocks| - 1], |f.blocks| - 4 * (|f.chain| - 1);
            && 1 <= u <= 4 && |t.nodes[x].blocks| == 4 && t.nodes[x].blocks[u - 1] == b && 2 <= b < 256
            && Shaped(WithoutBlock(f))
            && Wf(Tables(t.bbm[b := false], t.ibm,
                         t.nodes[x := t.nodes[x].(blocks := t.nodes[x].blocks[u - 1 := -1], size := 4096 * (u - 1))]),
                  Owners(g.files[h := WithoutBlock(f)], g.bown - {b}, g.iown))
  {
    hide FilesOk, ChainsOwned, BlocksOwned, InodeBits, BlockBits;
    hide Shaped, NodeOk, KeepsInner, TailSize;
    TailNode(t, g, h);
    GiveBlockNode(t.nodes[Last(g.files[h])], g.files[h]);
    HeldBlockInRange(t, g, h, |g.files[h].blocks| - 1);
    BlockBitSet(t.bbm, g.bown, g.files[h].blocks[|g.files[h].blocks| - 1], Place(h, 0));
    var f, f' := g.files[h], WithoutBlock(g.files[h]);
    var x := Last(f);
    var u := |f.blocks| - 4 * (|f.chain| - 1);
    TailRewritten(t, g, h, t.nodes[x].(blocks := t.nodes[x].blocks[u - 1 := -1], size := 4096 * (u - 1)), f');
    SameChain(g, h, f');
    BlockLost(g, h, f');
  }

  lemma BlockLost(g: Owners, h: nat, f': File)
    requires BlocksOwned(g.files, g.bown) && h in g.files && 1 <= |g.files[h].blocks|
    requires f'.blocks == g.files[h].blocks[..|g.files[h].blocks| - 1]
    ensures BlocksOwned(g.files[h := f'], g.bown - {g.files[h].blocks[|g.files[h].blocks| - 1]})
  {
    var f := g.files[h];
    var b := f.blocks[|f.blocks| - 1];
    var files', bown' := g.files[h := f'], g.bown - {b};
    assert g.bown[b] == Place(h, |f.blocks| - 1);
    forall k, i | k in files' && 0 <= i < |files'[k].blocks|
      ensures files'[k].blocks[i] in bown' && bown'[files'[k].blocks[i]] == Place(k, i)
    {
      assert files'[k].blocks[i] == g.files[k].blocks[i];
      assert g.bown[g.files[k].blocks[i]] == Place(k, i);
    }
    forall y | y in bown' ensures BlockHeld(files', bown'[y], y) {
      assert BlockHeld(g.files, g.bown[y], y);
    }
  }

  // ---- chains change ----

  lemma FreshHead(t: Tables, g: Owners, x: nat)
    requires Wf(t, g) && x < 254 && !t.ibm[x]
    ensures x !in g.iown && x !in g.files
  {
    HeadsOwned(g);
  }

  lemma AddNodeFiles(t: Tables, g: Owners, x: nat)
    requires FilesOk(g.files, t.nodes) && ChainsOwned(g.files, g.iown)
    requires x < 254 && x !in g.iown
    ensures FilesOk(g.files[x := EmptyFile(x)], t.nodes[x := RESET_INODE])
  {
    var files', nodes' := g.files[x := EmptyFile(x)], t.nodes[x := RESET_INODE];
    assert NodeAt(EmptyFile(x), nodes', 0);
    forall k | k in files' ensures FileOk(files'[k], nodes') && files'[k].chain[0] == k {
      if k != x {
        assert FileOk(g.files[k], t.nodes);
        forall i | 0 <= i < |g.files[k].chain| ensures NodeAt(g.files[k], nodes', i) {
          assert NodeAt(g.files[k], t.nodes, i);
          assert g.files[k].chain[i] in g.iown;
        }
      }
    }
  }

  lemma AddNodeOwners(g: Owners, x: nat)
    requires ChainsOwned(g.files, g.iown) && BlocksOwned(g.files, g.bown)
    requires x !in g.iown && x !in g.files
    ensures ChainsOwned(g.files[x := EmptyFile(x)], g.iown[x := Place(x, 0)])
    ensures BlocksOwned(g.files[x := EmptyFile(x)], g.bown)
  {
    var files', iown' := g.files[x := EmptyFile(x)], g.iown[x := Place(x, 0)];
    forall y | y in iown' ensures ChainHolds(files', iown'[y], y) {
      if y != x {
        assert ChainHolds(g.files, g.iown[y], y);
      }
    }
    forall b | b in g.bown ensures BlockHeld(files', g.bown[b], b) {
      assert BlockHeld(g.files, g.bown[b], b);
    }
  }

  /** A free inode is reset and becomes a file of its own. */
  lemma AddNode(t: Tables, g: Owners, x: nat)
    requires Wf(t, g) && x < 254 && !t.ibm[x]
    ensures x !in g.files
    ensures Wf(Tables(t.bbm, t.ibm[x := true], t.nodes[x := RESET_INODE]),
               Owners(g.files[x := EmptyFile(x)], g.bown, g.iown[x := Place(x, 0)]))
  {
    hide FilesOk, ChainsOwned, BlocksOwned, BlockBits;
    FreshHead(t, g, x);
    InodeBitSet(t.ibm, g.iown, x, Place(x, 0));
    AddNodeFiles(t, g, x);
    AddNodeOwners(g, x);
  }

  /** An inode with nothing in it. */
  predicate Bare(f: File, x: nat) {
    f.chain == [x] && f.blocks == [] && f.size == 0 && f.after == -1
  }

  lemma LinkNodeFile(t: Tables, g: Owners, h: nat, x: nat)
    requires FilesOk(g.files, t.nodes) && ChainsOwned(g.files, g.iown)
    requires h in g.files && x in g.files && x != h
    requires g.files[h].size == 16384 * |g.files[h].chain| && Bare(g.files[x], x)
    ensures var f, l := g.files[h], Last(g.files[h]);
            FileOk(f.(chain := f.chain + [x], after := -1), t.nodes[l := t.nodes[l].(next := x)])
  {
    var f := g.files[h];
    var c, l := |f.chain|, Last(f);
    var f' := f.(chain := f.chain + [x], after := -1);
    var nodes := t.nodes[l := t.nodes[l].(next := x)];
    forall i | 0 <= i < |f'.chain| ensures NodeAt(f', nodes, i) {
      if i < c {
        assert NodeAt(f, t.nodes, i);
        if i < c - 1 {
          ChainDistinct(g, h, i, c - 1);
        }
      } else {
        ChainsDisjoint(g, x, 0, h);
        assert l in f.chain;
        BareSlots(t, g, h, x);
      }
    }
  }

  /** A file whose inodes are all full gets a bare inode chained to its end. */
  lemma LinkNode(t: Tables, g: Owners, h: nat, x: nat)
    requires Wf(t, g) && h in g.files && x in g.files && x != h
    requires g.files[h].size == 16384 * |g.files[h].chain| && Bare(g.files[x], x)
    ensures var f, l := g.files[h], Last(g.files[h]);
            Wf(t.(nodes := t.nodes[l := t.nodes[l].(next := x)]),
               Owners((g.files - {x})[h := f.(chain := f.chain + [x], after := -1)], g.bown, g.iown[x := Place(h, |f.chain|)]))
  {
    hide FilesOk, ChainsOwned, BlocksOwned, InodeBits, BlockBits;
    hide Shaped, NodeOk, KeepsInner, TailSize;
    TailNode(t, g, h);
    HeadInUse(t, g, x);
    InodeBitSet(t.ibm, g.iown, x, Place(h, |g.files[h].chain|));
    var f := g.files[h];
    var f' := f.(chain := f.chain + [x], after := -1);
    var nodes := t.nodes[Last(f) := t.nodes[Last(f)].(next := x)];
    LinkNodeFile(t, g, h, x);
    OtherFilesKeepNodes(t, g, h, nodes, f');
    FewerFilesOk(g.files[h := f'], nodes, x);
    assert g.files[h := f'] - {x} == (g.files - {x})[h := f'];
    LinkOwners(g, h, x, (g.files - {x})[h := f'], g.iown[x := Place(h, |f.chain|)]);
  }

  lemma BareSlots(t: Tables, g: Owners, h: nat, x: nat)
    requires FilesOk(g.files, t.nodes) && h in g.files && x in g.files && x != h
    requires g.files[h].size == 16384 * |g.files[h].chain| && Bare(g.files[x], x)
    ensures t.nodes[x].size == 0 && t.nodes[x].next == -1
    ensures SlotsOk(t.nodes[x], g.files[h].blocks, |g.files[h].chain|)
  {
    var n := t.nodes[g.files[x].chain[0]];
    assert NodeAt(g.files[x], t.nodes, 0);
    forall j | 0 <= j < 4 ensures n.blocks[j] == SlotOf(g.files[h].blocks, |g.files[h].chain|, j) {
      assert n.blocks[j] == SlotOf(g.files[x].blocks, 0, j);
    }
  }

  lemma LinkOwners(g: Owners, h: nat, x: nat, files': map<nat, File>, iown': map<nat, Place>)
    requires ChainsOwned(g.files, g.iown) && BlocksOwned(g.files, g.bown)
    requires h in g.files && x in g.files && x != h && Bare(g.files[x], x)
    requires files'.Keys == g.files.Keys - {x} && h in files'
    requires forall k :: k in files' && k != h ==> files'[k] == g.files[k]
    requires files'[h].chain == g.files[h].chain + [x] && files'[h].blocks == g.files[h].blocks
    requires iown' == g.iown[x := Place(h, |g.files[h].chain|)]
    ensures ChainsOwned(files', iown') && BlocksOwned(files', g.bown)
  {
    assert g.iown[g.files[x].chain[0]] == Place(x, 0);
    forall k, i | k in files' && 0 <= i < |files'[k].chain|
      ensures files'[k].chain[i] in iown' && iown'[files'[k].chain[i]] == Place(k, i)
    {
      if !(k == h && i == |g.files[h].chain|) {
        assert files'[k].chain[i] == g.files[k].chain[i];
        assert g.iown[g.files[k].chain[i]] == Place(k, i);
      }
    }
    forall y | y in iown' ensures ChainHolds(files', iown'[y], y) {
      if y != x {
        assert ChainHolds(g.files, g.iown[y], y);
      }
    }
    forall b | b in g.bown ensures BlockHeld(files', g.bown[b], b) {
      assert BlockHeld(g.files, g.bown[b], b);
    }
  }

  /** The owners after the empty last inode of `h` is looked at as a file of its own. */
  function SplitOwners(t: Tables, g: Owners, h: nat): Owners
    requires h in g.files && 1 <= |g.files[h].chain| && Last(g.files[h]) < |t.nodes|
  {
    var f := g.files[h];
    var x := Last(f);
    g.(files := g.files[h := f.(chain := f.chain[..|f.chain| - 1], after := x)]
                       [x := File([x], [], 0, -1, t.nodes[x].refs, t.nodes[x].mode)],
       iown := g.iown[x := Place(x, 0)])
  }

  lemma SplitTailFiles(t: Tables, g: Owners, h: nat)
    requires FilesOk(g.files, t.nodes) && h in g.files && EmptyTail(g.files[h]) && g.files[h].after == -1
    requires Last(g.files[h]) !in g.files
    ensures FilesOk(SplitOwners(t, g, h).files, t.nodes)
  {
    var f := g.files[h];
    var c, x := |f.chain|, Last(f);
    var g' := SplitOwners(t, g, h);
    var f', e := g'.files[h], g'.files[x];
    assert NodeAt(f, t.nodes, c - 1);
    forall j | 0 <= j < 4 ensures t.nodes[x].blocks[j] == SlotOf([], 0, j) {
      assert t.nodes[x].blocks[j] == SlotOf(f.blocks, c - 1, j);
    }
    assert NodeAt(e, t.nodes, 0);
    forall i | 0 <= i < |f'.chain| ensures NodeAt(f', t.nodes, i) {
      assert NodeAt(f, t.nodes, i);
    }
  }

  lemma SplitTail(t: Tables, g: Owners, h: nat)
    requires Wf(t, g) && h in g.files && EmptyTail(g.files[h]) && g.files[h].after == -1
    ensures |g.files[h].chain| >= 2 && Last(g.files[h]) < 254 && Last(g.files[h]) !in g.files
    ensures Wf(t, SplitOwners(t, g, h))
  {
    hide FilesOk, ChainsOwned, BlocksOwned, InodeBits, BlockBits, Shaped, NodeOk;
    TailNode(t, g, h);
    LastIsNoHead(t, g, h);
    InodeBitSet(t.ibm, g.iown, Last(g.files[h]), Place(Last(g.files[h]), 0));
    SplitTailFiles(t, g, h);
    SplitOwned(g, h, SplitOwners(t, g, h));
  }

  lemma LastIsNoHead(t: Tables, g: Owners, h: nat)
    requires ChainsOwned(g.files, g.iown) && FilesOk(g.files, t.nodes)
    requires h in g.files && |g.files[h].chain| >= 2
    ensures Last(g.files[h]) !in g.files && Last(g.files[h]) in g.iown
  {
    var f := g.files[h];
    assert g.iown[f.chain[|f.chain| - 1]] == Place(h, |f.chain| - 1);
    HeadsOwned(g);
  }

  lemma SplitOwned(g: Owners, h: nat, g': Owners)
    requires ChainsOwned(g.files, g.iown) && BlocksOwned(g.files, g.bown)
    requires h in g.files && 2 <= |g.files[h].chain| && Last(g.files[h]) !in g.files
    requires IsSplit(g, h, g')
    ensures ChainsOwned(g'.files, g'.iown) && BlocksOwned(g'.files, g'.bown)
  {
    SplitChains(g, h, g');
    SplitBlocks(g, h, g');
  }

  ghost predicate IsSplit(g: Owners, h: nat, g': Owners)
    requires h in g.files && 1 <= |g.files[h].chain|
  {
    var f, x := g.files[h], Last(g.files[h]);
    && g'.files.Keys == g.files.Keys + {x}
    && (forall k :: k in g.files && k != h && k != x ==> g'.files[k] == g.files[k])
    && (h != x ==> g'.files[h].chain == f.chain[..|f.chain| - 1] && g'.files[h].blocks == f.blocks)
    && g'.files[x].chain == [x] && g'.files[x].blocks == []
    && g'.iown == g.iown[x := Place(x, 0)] && g'.bown == g.bown
  }

  lemma SplitChains(g: Owners, h: nat, g': Owners)
    requires ChainsOwned(g.files, g.iown)
    requires h in g.files && 2 <= |g.files[h].chain| && Last(g.files[h]) !in g.files
    requires IsSplit(g, h, g')
    ensures ChainsOwned(g'.files, g'.iown)
  {
    var f, x := g.files[h], Last(g.files[h]);
    assert g.iown[f.chain[|f.chain| - 1]] == Place(h, |f.chain| - 1);
    forall k, i | k in g'.files && 0 <= i < |g'.files[k].chain|
      ensures g'.files[k].chain[i] in g'.iown && g'.iown[g'.files[k].chain[i]] == Place(k, i)
    {
      if k != x {
        assert g'.files[k].chain[i] == g.files[k].chain[i];
        assert g.iown[g.files[k].chain[i]] == Place(k, i);
      }
    }
    forall y | y in g'.iown ensures ChainHolds(g'.files, g'.iown[y], y) {
      if y != x {
        assert ChainHolds(g.files, g.iown[y], y);
      }
    }
  }

  lemma SplitBlocks(g: Owners, h: nat, g': Owners)
    requires BlocksOwned(g.files, g.bown)
    requires h in g.files && 2 <= |g.files[h].chain| && Last(g.files[h]) !in g.files
    requires IsSplit(g, h, g')
    ensures BlocksOwned(g'.files, g'.bown)
  {
    forall b | b in g.bown ensures BlockHeld(g'.files, g.bown[b], b) {
      assert BlockHeld(g.files, g.bown[b], b);
    }
  }

  lemma DropOwners(g: Owners, x: nat)
    requires ChainsOwned(g.files, g.iown) && BlocksOwned(g.files, g.bown)
    requires x in g.files && g.files[x].chain == [x] && g.files[x].blocks == []
    ensures ChainsOwned(g.files - {x}, g.iown - {x}) && BlocksOwned(g.files - {x}, g.bown)
  {
    var files', iown' := g.files - {x}, g.iown - {x};
    assert g.iown[g.files[x].chain[0]] == Place(x, 0);
    forall k, i | k in files' && 0 <= i < |files'[k].chain|
      ensures files'[k].chain[i] in iown' && iown'[files'[k].chain[i]] == Place(k, i)
    {
      assert g.iown[g.files[k].chain[i]] == Place(k, i);
    }
    forall y | y in iown' ensures ChainHolds(files', iown'[y], y) {
      assert ChainHolds(g.files, g.iown[y], y);
    }
    forall b | b in g.bown ensures BlockHeld(files', g.bown[b], b) {
      assert BlockHeld(g.files, g.bown[b], b);
    }
  }

  /** A bare inode that no chain leads to is freed. */
  lemma DropFile(t: Tables, g: Owners, x: nat)
    requires Wf(t, g) && x in g.files && g.files[x].chain == [x] && g.files[x].blocks == []
    ensures x < 254
    ensures Wf(t.(ibm := t.ibm[x := false]), Owners(g.files - {x}, g.bown, g.iown - {x}))
  {
    assert g.files[x].chain[0] in g.iown;
    InodeBitSet(t.ibm, g.iown, x, Place(x, 0));
    DropOwners(g, x);
  }

  lemma EndChainNode(n: Inode, f: File)
    requires Shaped(f) && NodeOk(n, f, |f.chain| - 1)
    ensures Shaped(f.(after := -1)) && KeepsInner(f, f.(after := -1))
    ensures NodeOk(n.(next := -1), f.(after := -1), |f.chain| - 1)
  {
    TailRange(f);
  }

  /** The last inode of a file no longer names the one that was freed behind it. */
  lemma EndChain(t: Tables, g: Owners, h: nat)
    requires Wf(t, g) && h in g.files
    ensures 1 <= |g.files[h].chain| && Last(g.files[h]) < |t.nodes|
    ensures var f, l := g.files[h], Last(g.files[h]);
            Wf(t.(nodes := t.nodes[l := t.nodes[l].(next := -1)]), g.(files := g.files[h := f.(after := -1)]))
  {
    hide FilesOk, ChainsOwned, BlocksOwned, InodeBits, BlockBits;
    hide Shaped, NodeOk, KeepsInner, TailSize;
    TailNode(t, g, h);
    var f, f' := g.files[h], g.files[h].(after := -1);
    EndChainNode(t.nodes[Last(f)], f);
    TailRewritten(t, g, h, t.nodes[Last(f)].(next := -1), f');
    SameChain(g, h, f');
    SameBlocks(g, h, f');
  }

  /** The link count and the mode of a head inode are set. */
  lemma Relabel(t: Tables, g: Owners, h: nat, refs: int, mode: int)
    requires Wf(t, g) && h in g.files
    ensures Wf(t.(nodes := t.nodes[h := t.nodes[h].(refs := refs, mode := mode)]),
               g.(files := g.files[h := g.files[h].(refs := refs, mode := mode)]))
  {
    var f, f' := g.files[h], g.files[h].(refs := refs, mode := mode);
    var nodes := t.nodes[h := t.nodes[h].(refs := refs, mode := mode)];
    forall i | 0 <= i < |f'.chain| ensures NodeAt(f', nodes, i) {
      assert NodeAt(f, t.nodes, i);
      if i > 0 {
        ChainDistinct(g, h, 0, i);
      }
    }
    assert f.chain[0] in f.chain;
    OtherFilesKeepNodes(t, g, h, nodes, f');
    SameChain(g, h, f');
    SameBlocks(g, h, f');
  }

  // ---- how large a file can be ----

  lemma {:induction false} DistinctBounded(s: seq<nat>, n: nat)
    requires forall i :: 0 <= i < |s| ==> s[i] < n
    requires forall i, j :: 0 <= i < j < |s| ==> s[i] != s[j]
    ensures |s| <= n
  {
    var used := set i | 0 <= i < |s| :: s[i];
    SetOfSeqSize(s);
    assert used <= Below(n);
    SubsetSize(used, Below(n));
  }

  function Below(n: nat): (s: set<nat>)
    ensures |s| == n
    ensures forall x: nat :: x in s <==> x < n
  {
    if n == 0 then {} else Below(n - 1) + {n - 1}
  }

  lemma {:induction false} SetOfSeqSize(s: seq<nat>)
    requires forall i, j :: 0 <= i < j < |s| ==> s[i] != s[j]
    ensures |set i | 0 <= i < |s| :: s[i]| == |s|
  {
    if s != [] {
      var n := |s| - 1;
      SetOfSeqSize(s[..n]);
      assert (set i | 0 <= i < |s| :: s[i]) == (set i | 0 <= i < n :: s[..n][i]) + {s[n]};
    }
  }

  lemma {:induction false} SubsetSize(a: set<nat>, b: set<nat>)
    requires a <= b
    ensures |a| <= |b|
  {
    assert |b| == |a| + |b - a| by {
      assert b == a + (b - a);
    }
  }

  /** No file has more than 254 inodes, so every size fits an int by far. */
  lemma FileSizeBound(t: Tables, g: Owners, h: nat)
    requires Wf(t, g) && h in g.files
    ensures |g.files[h].chain| <= 254 && g.files[h].size <= 254 * 16384
  {
    var f := g.files[h];
    forall i, j | 0 <= i < j < |f.chain| ensures f.chain[i] != f.chain[j] {
      ChainDistinct(g, h, i, j);
    }
    DistinctBounded(f.chain, 254);
  }
}
