/** What growing and shrinking do to a file, as closed forms, and the laws that connect them.

  `fb` and `fi` are the free blocks and the free inodes, lowest first: growth consumes both lists
  from the front.
  */
module Sizing {
  import opened Specs
  import opened Layout

  // ---- amounts: t bytes in c inodes and b blocks grow by k, with nb blocks and ni inodes free ----

  predicate Fits(t: nat, c: nat, k: int, nb: nat, ni: nat) {
    k < 1 || (Blocks(t + k) - Blocks(t) <= nb && Nodes(t + k) - c <= ni)
  }

  /** Blocks used up by a growth; when it fails, every block that the inodes have room for. */
  function BlocksTaken(t: nat, c: nat, k: int, nb: nat, ni: nat): int {
    if k < 1 then 0
    else if Fits(t, c, k, nb, ni) then Blocks(t + k) - Blocks(t)
    else Min(nb, 4 * (c + ni) - Blocks(t))
  }

  /** Inodes used up by a growth; when it fails, one more each time all slots are full. */
  function NodesTaken(t: nat, c: nat, k: int, nb: nat, ni: nat): int {
    if k < 1 then 0
    else if Fits(t, c, k, nb, ni) then Max(c, Nodes(t + k)) - c
    else if Blocks(t) + nb < 4 * c then 0
    else Min(ni, (Blocks(t) + nb) / 4 + 1 - c)
  }

  /** The size after a growth; a failed one stops where the blocks or the inodes ran out. */
  function NewSize(t: nat, c: nat, k: int, nb: nat, ni: nat): nat {
    if k < 1 then t
    else if Fits(t, c, k, nb, ni) then t + k
    else if Blocks(t) + nb < 4 * c then t + 4096 * nb
    else Min(4096 * (Blocks(t) + nb), 16384 * (c + ni))
  }

  /** `t` bytes may lie in `c` inodes: either as many as needed, or one empty one more. */
  predicate ShapedCount(t: nat, c: nat) {
    c == Nodes(t) || (t > 0 && t == 16384 * (c - 1))
  }

  lemma TakenInRange(t: nat, c: nat, k: int, nb: nat, ni: nat)
    requires ShapedCount(t, c)
    ensures 0 <= BlocksTaken(t, c, k, nb, ni) <= nb
    ensures 0 <= NodesTaken(t, c, k, nb, ni) <= ni
    ensures t <= NewSize(t, c, k, nb, ni)
    ensures !Fits(t, c, k, nb, ni) ==> NewSize(t, c, k, nb, ni) < t + k
    ensures Blocks(NewSize(t, c, k, nb, ni)) == Blocks(t) + BlocksTaken(t, c, k, nb, ni)
    ensures ShapedCount(NewSize(t, c, k, nb, ni), c + NodesTaken(t, c, k, nb, ni))
  {
    hide Blocks, Nodes;
    if k >= 1 {
      BlocksBounds(t);
      BlocksBounds(t + k);
      NodesBounds(t);
      NodesBounds(t + k);
      var t' := NewSize(t, c, k, nb, ni);
      BlocksBounds(t');
      NodesBounds(t');
    }
  }

  /** A successful growth leaves no empty inode behind. */
  lemma GrowthFillsTail(t: nat, c: nat, k: int, nb: nat, ni: nat)
    requires ShapedCount(t, c) && 1 <= k && Fits(t, c, k, nb, ni)
    ensures c + NodesTaken(t, c, k, nb, ni) == Nodes(NewSize(t, c, k, nb, ni))
  {
    hide Blocks, Nodes;
    NodesBounds(t);
    NodesBounds(t + k);
  }

  /** The bytes in the last inode. */
  function TailSize(t: nat, c: nat): int {
    t - 16384 * (c - 1)
  }

  lemma BlocksShift(n: nat, j: nat)
    ensures Blocks(n + 16384 * j) == Blocks(n) + 4 * j
  {
    assert n + 16384 * j + 4095 == n + 4095 + 4096 * (4 * j);
  }

  /** The last inode holds at most 16384 bytes, and its blocks are those of the file beyond the full
    inodes before it. */
  lemma TailBounds(t: nat, c: nat)
    requires ShapedCount(t, c)
    ensures 1 <= c && 0 <= TailSize(t, c) <= 16384 && t <= 16384 * c
    ensures Blocks(t) == Blocks(TailSize(t, c)) + 4 * (c - 1) && Blocks(TailSize(t, c)) <= 4
  {
    hide Blocks, Nodes;
    NodesBounds(t);
    BlocksBounds(TailSize(t, c));
    BlocksShift(TailSize(t, c), c - 1);
  }

  lemma BlocksAfter(t: nat, c: nat, k: nat)
    requires ShapedCount(t, c)
    ensures TailSize(t, c) >= 0 && Blocks(t + k) == Blocks(TailSize(t, c) + k) + 4 * (c - 1)
  {
    hide Blocks, Nodes;
    TailBounds(t, c);
    BlocksShift(TailSize(t, c) + k, c - 1);
    assert TailSize(t, c) + k + 16384 * (c - 1) == t + k;
  }

  /** A failed growth by one directory slot leaves the size alone. */
  lemma FailedSlotGrowth(t: nat, c: nat, nb: nat, ni: nat)
    requires ShapedCount(t, c) && t % 64 == 0 && !Fits(t, c, 64, nb, ni)
    ensures NewSize(t, c, 64, nb, ni) == t
    ensures t == 0 ==> NodesTaken(t, c, 64, nb, ni) == 0
  {
    hide Blocks, Nodes;
    TailBounds(t, c);
    BlocksAfter(t, c, 64);
    SlotFits(t, c);
    NodesBounds(t + 64);
    BlocksBounds(t);
  }

  /** Aligned bytes: either another slot fits in the last block or that block is full. */
  lemma SlotFits(t: nat, c: nat)
    requires ShapedCount(t, c) && t % 64 == 0
    ensures Blocks(t + 64) <= Blocks(t) + 1
    ensures Blocks(t + 64) != Blocks(t) ==> t == 4096 * Blocks(t)
    ensures 16384 * c < t + 64 ==> t == 16384 * c
  {
    hide Blocks, Nodes;
    NodesBounds(t);
    BlocksBounds(t);
    BlocksBounds(t + 64);
    var q, b := t / 64, Blocks(t);
    assert t == 64 * q;
    assert q <= 64 * b;
    assert q <= 256 * c;
  }

  /** No block is needed: only the size changes. */
  lemma GrowInBlock(t: nat, c: nat, k: int, nb: nat, ni: nat)
    requires ShapedCount(t, c) && 1 <= k
    requires TailSize(t, c) >= 0 && Blocks(TailSize(t, c) + k) == Blocks(TailSize(t, c))
    ensures Fits(t, c, k, nb, ni)
    ensures BlocksTaken(t, c, k, nb, ni) == 0 && NodesTaken(t, c, k, nb, ni) == 0
  {
    hide Blocks, Nodes;
    TailBounds(t, c);
    BlocksAfter(t, c, k);
    BlocksBounds(TailSize(t, c) + k);
    NodesBounds(t + k);
  }

  lemma GrowByBlockShape(t: nat, c: nat, k: int)
    requires ShapedCount(t, c) && 1 <= k
    requires TailSize(t, c) >= 0 && Blocks(TailSize(t, c) + k) != Blocks(TailSize(t, c)) < 4
    ensures ShapedCount(t + Min(4096, k), c) && Blocks(t + Min(4096, k)) == Blocks(t) + 1
    ensures Blocks(t) < 4 * c && Blocks(t) + 1 <= Blocks(t + k)
  {
    hide Blocks, Nodes;
    TailBounds(t, c);
    BlocksAfter(t, c, Min(4096, k));
    BlocksAfter(t, c, k);
    var s, m := TailSize(t, c), Min(4096, k);
    BlocksBounds(s);
    BlocksBounds(s + k);
    BlocksBounds(s + m);
    assert Blocks(s) + 1 <= Blocks(s + k);
    assert Blocks(s + m) == Blocks(s) + 1;
    assert t + m <= 16384 * c;
    NodesBounds(t + m);
    assert Nodes(t + m) == c;
  }

  lemma GrowByBlockNone(t: nat, c: nat, k: int, ni: nat)
    requires ShapedCount(t, c) && 1 <= k
    requires TailSize(t, c) >= 0 && Blocks(TailSize(t, c) + k) != Blocks(TailSize(t, c)) < 4
    ensures !Fits(t, c, k, 0, ni) && BlocksTaken(t, c, k, 0, ni) == 0
    ensures NodesTaken(t, c, k, 0, ni) == 0 && NewSize(t, c, k, 0, ni) == t
  {
    hide Blocks, Nodes;
    GrowByBlockShape(t, c, k);
  }

  /** One block is taken for the last inode. */
  lemma GrowByBlock(t: nat, c: nat, k: int, nb: nat, ni: nat, t': nat)
    requires ShapedCount(t, c) && 1 <= k && 0 < nb
    requires TailSize(t, c) >= 0 && Blocks(TailSize(t, c) + k) != Blocks(TailSize(t, c)) < 4
    requires t' == t + Min(4096, k)
    ensures Fits(t, c, k, nb, ni) <==> Fits(t', c, k - 4096, nb - 1, ni)
    ensures BlocksTaken(t, c, k, nb, ni) == 1 + BlocksTaken(t', c, k - 4096, nb - 1, ni)
    ensures NodesTaken(t, c, k, nb, ni) == NodesTaken(t', c, k - 4096, nb - 1, ni)
    ensures NewSize(t, c, k, nb, ni) == NewSize(t', c, k - 4096, nb - 1, ni)
  {
    hide Blocks, Nodes;
    GrowByBlockShape(t, c, k);
    if k <= 4096 {
      GrowWithinOneBlock(t, c, k);
    } else {
      GrowPastOneBlock(t, c, k, nb, ni, Blocks(t + k), Nodes(t + k));
    }
  }

  lemma GrowWithinOneBlock(t: nat, c: nat, k: int)
    requires ShapedCount(t, c) && 1 <= k <= 4096
    requires TailSize(t, c) >= 0 && Blocks(TailSize(t, c)) < 4
    ensures Nodes(t + k) <= c
  {
    hide Blocks, Nodes;
    BlocksBounds(TailSize(t, c));
    NodesBounds(t);
    NodesBounds(t + k);
  }

  lemma GrowPastOneBlock(t: nat, c: nat, k: int, nb: nat, ni: nat, b: nat, n: nat)
    requires ShapedCount(t, c) && 4096 < k && 0 < nb
    requires b == Blocks(t + k) && n == Nodes(t + k)
    requires Blocks(t + 4096) == Blocks(t) + 1 && Blocks(t) < 4 * c
    ensures Fits(t, c, k, nb, ni) <==> Fits(t + 4096, c, k - 4096, nb - 1, ni)
    ensures BlocksTaken(t, c, k, nb, ni) == 1 + BlocksTaken(t + 4096, c, k - 4096, nb - 1, ni)
    ensures NodesTaken(t, c, k, nb, ni) == NodesTaken(t + 4096, c, k - 4096, nb - 1, ni)
    ensures NewSize(t, c, k, nb, ni) == NewSize(t + 4096, c, k - 4096, nb - 1, ni)
  {
    hide Blocks, Nodes;
    assert t + 4096 + (k - 4096) == t + k;
    var d := Blocks(t);
    assert Blocks(t + 4096) == d + 1;
    assert d + nb == d + 1 + (nb - 1);
  }

  /** The last inode is filled up and a new one is chained to it. */
  lemma GrowByInode(t: nat, c: nat, k: int, nb: nat, ni: nat)
    requires ShapedCount(t, c) && 1 <= k
    requires TailSize(t, c) >= 0 && Blocks(TailSize(t, c) + k) != Blocks(TailSize(t, c)) == 4
    ensures 1 <= k - (16384 * c - t) <= k
    ensures ni == 0 ==> !Fits(t, c, k, nb, ni) && BlocksTaken(t, c, k, nb, ni) == 0 &&
                        NodesTaken(t, c, k, nb, ni) == 0 && NewSize(t, c, k, nb, ni) == 16384 * c
    ensures ni > 0 ==>
              var k' := k - (16384 * c - t);
              && (Fits(t, c, k, nb, ni) <==> Fits(16384 * c, c + 1, k', nb, ni - 1))
              && BlocksTaken(t, c, k, nb, ni) == BlocksTaken(16384 * c, c + 1, k', nb, ni - 1)
              && NodesTaken(t, c, k, nb, ni) == 1 + NodesTaken(16384 * c, c + 1, k', nb, ni - 1)
              && NewSize(t, c, k, nb, ni) == NewSize(16384 * c, c + 1, k', nb, ni - 1)
  {
    hide Blocks, Nodes;
    TailBounds(t, c);
    BlocksAfter(t, c, k);
    BlocksBounds(TailSize(t, c));
    BlocksBounds(TailSize(t, c) + k);
    assert Blocks(t) == 4 * c;
    BlocksShift(0, c);
    BlocksBounds(0);
    assert Blocks(16384 * c) == 4 * c;
    NodesBounds(t + k);
    assert Nodes(t + k) >= c + 1;
    assert 16384 * c + (k - (16384 * c - t)) == t + k;
  }

  // ---- whole files ----

  predicate FileFits(f: File, k: int, nb: nat, ni: nat) {
    Fits(f.size, |f.chain|, k, nb, ni)
  }

  function BlocksFor(f: File, k: int, fb: seq<nat>, fi: seq<nat>): (n: nat)
    requires Shaped(f)
    ensures n <= |fb|
  {
    TakenInRange(f.size, |f.chain|, k, |fb|, |fi|);
    BlocksTaken(f.size, |f.chain|, k, |fb|, |fi|)
  }

  function NodesFor(f: File, k: int, fb: seq<nat>, fi: seq<nat>): (n: nat)
    requires Shaped(f)
    ensures n <= |fi|
  {
    TakenInRange(f.size, |f.chain|, k, |fb|, |fi|);
    NodesTaken(f.size, |f.chain|, k, |fb|, |fi|)
  }

  /** The file after a growth by `k` bytes, whether the growth succeeds or not. */
  function Grown(f: File, k: int, fb: seq<nat>, fi: seq<nat>): (r: File)
    requires Shaped(f)
    ensures Shaped(r)
    ensures f.size <= r.size && f.chain <= r.chain && f.blocks <= r.blocks
    ensures k >= 1 ==> (r.size == f.size + k <==> FileFits(f, k, |fb|, |fi|))
    ensures k >= 1 ==> r.size <= f.size + k
    ensures Canonical(f) && FileFits(f, k, |fb|, |fi|) ==> Canonical(r)
  {
    TakenInRange(f.size, |f.chain|, k, |fb|, |fi|);
    f.(chain := f.chain + fi[..NodesFor(f, k, fb, fi)],
       blocks := f.blocks + fb[..BlocksFor(f, k, fb, fi)],
       size := NewSize(f.size, |f.chain|, k, |fb|, |fi|))
  }

  /** The file after a shrink by `k` bytes. */
  function Shrunk(f: File, k: int): (r: File)
    requires Canonical(f)
    ensures Canonical(r)
    ensures k >= 1 ==> r.size == Max(0, f.size - k)
    ensures r.chain <= f.chain && r.blocks <= f.blocks
  {
    if k < 1 then f else
    var size := Max(0, f.size - k);
    f.(chain := f.chain[..Nodes(size)], blocks := f.blocks[..Blocks(size)], size := size)
  }

  /** Shrinking by what was grown gives the file back: same size, same chain, same blocks. */
  lemma ShrinkUndoesGrow(f: File, k: int, fb: seq<nat>, fi: seq<nat>)
    requires Canonical(f) && FileFits(f, k, |fb|, |fi|)
    ensures Shrunk(Grown(f, k, fb, fi), k) == f
  {
  }

  /** A growth of a canonical file leaves an inode with nothing in it exactly when it fails because the
    blocks run out at an inode boundary that it reaches while an inode is still free. */
  lemma EmptyTailIff(f: File, k: int, fb: seq<nat>, fi: seq<nat>)
    requires Canonical(f) && 1 <= k
    ensures EmptyTail(Grown(f, k, fb, fi)) <==>
              && !FileFits(f, k, |fb|, |fi|)
              && (|f.blocks| + |fb|) % 4 == 0
              && 4 * |f.chain| <= |f.blocks| + |fb| < 4 * (|f.chain| + |fi|)
  {
    hide Blocks, Nodes, Fits;
    var t, c, b := f.size, |f.chain|, |f.blocks| + |fb|;
    NodesBounds(t);
    BlocksBounds(t);
    TakenInRange(t, c, k, |fb|, |fi|);
    if FileFits(f, k, |fb|, |fi|) {
      GrowthFillsTail(t, c, k, |fb|, |fi|);
      NodesBounds(t + k);
    } else if b >= 4 * c {
      var q := b / 4;
      assert b == 4 * q + b % 4;
    }
  }

  /** Such a failure: a full inode, no block left, one inode left. */
  lemma EmptyTailHappens()
    ensures var f := File([5], [2, 3, 4, 5], 16384, -1, 1, 33188);
            && Canonical(f) && !FileFits(f, 1, 0, 1)
            && EmptyTail(Grown(f, 1, [], [6])) && Grown(f, 1, [], [6]).size == f.size
  {
  }

  // ---- one step of the recursion ----

  /** A block number and the bytes it adds to the last inode. */
  function WithBlock(f: File, b: nat, s: nat): File {
    f.(blocks := f.blocks + [b], size := f.size + s)
  }

  function WithSize(f: File, size: nat): File {
    f.(size := size)
  }

  function WithNode(f: File, x: nat): File {
    f.(chain := f.chain + [x], size := 16384 * |f.chain|)
  }

  lemma GrownInBlock(f: File, k: int, fb: seq<nat>, fi: seq<nat>)
    requires Shaped(f) && 1 <= k
    requires Blocks(TailSize(f.size, |f.chain|) + k) == Blocks(TailSize(f.size, |f.chain|))
    ensures FileFits(f, k, |fb|, |fi|) && BlocksFor(f, k, fb, fi) == 0 && NodesFor(f, k, fb, fi) == 0
    ensures Grown(f, k, fb, fi) == WithSize(f, f.size + k)
  {
    GrowInBlock(f.size, |f.chain|, k, |fb|, |fi|);
  }

  lemma GrownNoBlock(f: File, k: int, fi: seq<nat>)
    requires Shaped(f) && 1 <= k
    requires Blocks(TailSize(f.size, |f.chain|) + k) != Blocks(TailSize(f.size, |f.chain|)) < 4
    ensures !FileFits(f, k, 0, |fi|) && BlocksFor(f, k, [], fi) == 0 && NodesFor(f, k, [], fi) == 0
    ensures Grown(f, k, [], fi) == f
  {
    GrowByBlockNone(f.size, |f.chain|, k, |fi|);
  }

  lemma TakeOneThenMore(s: seq<nat>, free: seq<nat>, n: nat)
    requires 0 < |free| && n <= |free[1..]|
    ensures s + free[..1 + n] == s + [free[0]] + free[1..][..n]
  {
  }

  lemma FileCount(f: File)
    requires Shaped(f)
    ensures ShapedCount(f.size, |f.chain|)
  {
  }

  lemma WithBlockShaped(f: File, b: nat, s: nat)
    requires Shaped(f) && 1 <= s && ShapedCount(f.size + s, |f.chain|) && Blocks(f.size + s) == Blocks(f.size) + 1
    ensures Shaped(WithBlock(f, b, s))
  {
  }

  /** A file whose last inode uses all four slots has a block in every slot. */
  lemma FullNode(f: File)
    requires Shaped(f) && TailSize(f.size, |f.chain|) >= 0 && Blocks(TailSize(f.size, |f.chain|)) == 4
    ensures |f.blocks| == Blocks(16384 * |f.chain|)
  {
    hide Blocks, Nodes;
    FileCount(f);
    TailBounds(f.size, |f.chain|);
    BlocksShift(0, |f.chain|);
    BlocksBounds(0);
  }

  lemma GrownByBlock(f: File, k: int, fb: seq<nat>, fi: seq<nat>)
    requires Shaped(f) && 1 <= k && 0 < |fb|
    requires Blocks(TailSize(f.size, |f.chain|) + k) != Blocks(TailSize(f.size, |f.chain|)) < 4
    ensures var f' := WithBlock(f, fb[0], Min(4096, k));
            && Shaped(f')
            && (FileFits(f, k, |fb|, |fi|) <==> FileFits(f', k - 4096, |fb[1..]|, |fi|))
            && BlocksFor(f, k, fb, fi) == 1 + BlocksFor(f', k - 4096, fb[1..], fi)
            && NodesFor(f, k, fb, fi) == NodesFor(f', k - 4096, fb[1..], fi)
            && Grown(f, k, fb, fi) == Grown(f', k - 4096, fb[1..], fi)
  {
    hide Blocks, Nodes, Fits, BlocksTaken, NodesTaken, NewSize, ShapedCount;
    var f' := WithBlock(f, fb[0], Min(4096, k));
    FileCount(f);
    TailBounds(f.size, |f.chain|);
    GrowByBlockShape(f.size, |f.chain|, k);
    assert Shaped(f') by { WithBlockShaped(f, fb[0], Min(4096, k)); }
    GrowByBlock(f.size, |f.chain|, k, |fb|, |fi|, f'.size);
    TakeOneThenMore(f.blocks, fb, BlocksFor(f', k - 4096, fb[1..], fi));
  }

  lemma GrownNoNode(f: File, k: int, fb: seq<nat>)
    requires Shaped(f) && 1 <= k
    requires Blocks(TailSize(f.size, |f.chain|) + k) != Blocks(TailSize(f.size, |f.chain|)) == 4
    ensures !FileFits(f, k, |fb|, 0) && BlocksFor(f, k, fb, []) == 0 && NodesFor(f, k, fb, []) == 0
    ensures Grown(f, k, fb, []) == WithSize(f, 16384 * |f.chain|)
  {
    GrowByInode(f.size, |f.chain|, k, |fb|, 0);
  }

  lemma GrownByNode(f: File, k: int, fb: seq<nat>, fi: seq<nat>)
    requires Shaped(f) && 1 <= k && 0 < |fi|
    requires Blocks(TailSize(f.size, |f.chain|) + k) != Blocks(TailSize(f.size, |f.chain|)) == 4
    ensures var f', k' := WithNode(f, fi[0]), k - (16384 - TailSize(f.size, |f.chain|));
            && 1 <= k' <= k
            && Shaped(f')
            && (FileFits(f, k, |fb|, |fi|) <==> FileFits(f', k', |fb|, |fi[1..]|))
            && BlocksFor(f, k, fb, fi) == BlocksFor(f', k', fb, fi[1..])
            && NodesFor(f, k, fb, fi) == 1 + NodesFor(f', k', fb, fi[1..])
            && Grown(f, k, fb, fi) == Grown(f', k', fb, fi[1..])
  {
    hide Blocks, Nodes, Fits, BlocksTaken, NodesTaken, NewSize, ShapedCount;
    FileCount(f);
    TailBounds(f.size, |f.chain|);
    GrowByInode(f.size, |f.chain|, k, |fb|, |fi|);
    FullNode(f);
    var f', k' := WithNode(f, fi[0]), k - (16384 - TailSize(f.size, |f.chain|));
    assert Shaped(f');
    TakeOneThenMore(f.chain, fi, NodesFor(f', k', fb, fi[1..]));
  }

  /** The last block is given back; an inode left with nothing stays in the chain for now. */
  function WithoutBlock(f: File): File
    requires Canonical(f) && f.size > 0
  {
    f.(blocks := f.blocks[..|f.blocks| - 1], size := 4096 * (|f.blocks| - 1))
  }

  /** ... and is then dropped, unless it is the head. */
  function WithoutEmptyTail(f: File): File
    requires |f.chain| >= 1
  {
    if EmptyTail(f) then f.(chain := f.chain[..|f.chain| - 1]) else f
  }

  lemma ShrunkInBlock(f: File, k: int)
    requires Canonical(f) && f.size > 0 && 1 <= k
    requires 4096 * (Blocks(TailSize(f.size, |f.chain|)) - 1) < TailSize(f.size, |f.chain|) - k
    ensures k < f.size && Shrunk(f, k) == WithSize(f, f.size - k)
  {
    hide Blocks, Nodes;
    var n, size := |f.chain|, f.size - k;
    TailBounds(f.size, n);
    BlocksBounds(TailSize(f.size, n));
    NodesBounds(f.size);
    assert 16384 * (n - 1) < size;
    NodesBounds(size);
    BlocksBounds(f.size);
    BlocksBounds(size);
    assert f.chain[..Nodes(size)] == f.chain;
    assert f.blocks[..Blocks(size)] == f.blocks;
  }

  lemma ShrunkByBlock(f: File, k: int)
    requires Canonical(f) && f.size > 0 && 1 <= k
    requires TailSize(f.size, |f.chain|) - k <= 4096 * (Blocks(TailSize(f.size, |f.chain|)) - 1)
    ensures var f' := WithoutEmptyTail(WithoutBlock(f));
            && Shaped(WithoutBlock(f))
            && Canonical(f')
            && 0 < f.size - f'.size <= k
            && Shrunk(f, k) == Shrunk(f', k - (f.size - f'.size))
  {
    hide Blocks, Nodes;
    var b, left := WithoutBlock(f), Max(0, f.size - k);
    TailBounds(f.size, |f.chain|);
    BlocksBounds(f.size);
    NodesBounds(f.size);
    BlocksBounds(b.size);
    NodesBounds(b.size);
    BlocksBounds(left);
    NodesBounds(left);
    var f' := WithoutEmptyTail(b);
    assert Nodes(left) <= |f'.chain| && Blocks(left) <= |f'.blocks|;
    assert f'.chain[..Nodes(left)] == f.chain[..Nodes(left)];
    assert f'.blocks[..Blocks(left)] == f.blocks[..Blocks(left)];
  }
}
