/** Constants of the disk image, error codes, and the C arithmetic the allocator relies on.

  The image has 256 blocks of 4096 bytes, of which blocks 0 and 1 are reserved, and 254 inodes with
  four block slots each, so one inode holds at most 16384 bytes.  The sizes are written as literals
  so that divisions by them stay linear.
  */
module Specs {

  /** One byte of disk content. */
  newtype byte = x: int | 0 <= x < 256

  const ENOENT := 2
  const EEXIST := 17
  const ENOTDIR := 20
  const EISDIR := 21
  const ENOSPC := 28
  const ENAMETOOLONG := 36
  const ENOTEMPTY := 39

  /** The largest growth request whose intermediate sums stay inside a 32-bit int. */
  const MAX_REQUEST := 0x7fff_ffff - 4095 - 16384

  predicate FitsInt(x: int) {
    -0x8000_0000 <= x <= 0x7fff_ffff
  }

  function Min(a: int, b: int): int {
    if a < b then a else b
  }

  function Max(a: int, b: int): int {
    if a > b then a else b
  }

  /** Division as C does it: the quotient is truncated toward zero. */
  function CDiv(a: int, b: int): int
    requires 0 < b
  {
    if 0 <= a then a / b else -((-a) / b)
  }

  function BytesToBlocks(bytes: int): int
    requires FitsInt(bytes + 4095)
  {
    CDiv(bytes + 4095, 4096)
  }

  /** The number of blocks that hold `n` bytes. */
  function Blocks(n: nat): nat {
    (n + 4095) / 4096
  }

  /** The number of inodes in the chain of a file of `n` bytes. */
  function Nodes(n: nat): nat {
    if n == 0 then 1 else (n + 16383) / 16384
  }

  lemma BlocksBounds(n: nat)
    ensures 4096 * Blocks(n) - 4096 < n <= 4096 * Blocks(n)
  {
  }

  lemma NodesBounds(n: nat)
    ensures n <= 16384 * Nodes(n) && 1 <= Nodes(n) && (0 < n ==> 16384 * Nodes(n) - 16384 < n)
    ensures n == 0 ==> Nodes(n) == 1
  {
  }

  /** How many of the `size` bytes of a file lie in the `i`th inode of its chain. */
  function LocalSize(size: nat, i: nat): nat {
    if size <= 16384 * i then 0 else if 16384 * (i + 1) <= size then 16384 else size - 16384 * i
  }

  lemma BytesToBlocksIsCeiling(n: nat)
    requires FitsInt(n + 4095)
    ensures BytesToBlocks(n) == Blocks(n)
  {
  }

  /** The shrink guard compares block counts of `size` and `size - k`, and the second argument may be
    negative, where C rounds the other way.  With at least one byte in the node the guard is right:
    it holds exactly when the shrink keeps the last block.  With no byte in the node it is wrong
    exactly for the requests up to 8190, and those make the node's size negative. */
  lemma ShrinkGuard(size: nat, k: nat)
    requires size <= 16384 && 1 <= k <= MAX_REQUEST
    ensures 0 < size ==>
              (BytesToBlocks(size - k) == BytesToBlocks(size) <==> 4096 * (Blocks(size) - 1) < size - k)
    ensures size == 0 ==> (BytesToBlocks(size - k) == BytesToBlocks(size) <==> k <= 8190)
  {
  }
}
