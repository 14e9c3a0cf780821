/** Block constants of include/blocks.h and a disk of blocks. */
module Blocks {
  import opened Store

  const BLOCK_SIZE := 1024
  const INODES_PER_BITMAP := 8 * BLOCK_SIZE

  /** Where the mount code looks for the data bitmaps. */
  const DATA_BITMAP_OFFSET := 2 + INODES_PER_BITMAP

  type Block = b: Bytes | |b| == BLOCK_SIZE witness Zeros(BLOCK_SIZE)

  /** Blocks never written read as zeros. */
  type Disk = map<nat, Block>

  function BlockAt(d: Disk, b: nat): Block {
    if b in d then d[b] else Zeros(BLOCK_SIZE)
  }
}
