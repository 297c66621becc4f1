/** Disk geometry: the constants and macros of inode_layer.h. */
module Layout {

  const BLOCK_SIZE := 512
  const BLOCK_NUM := 32768
  const BITS_PER_BLOCK := 4096
  const INODE_NUM := 1024
  const INODE_WORDS := 14
  const INODES_PER_BLOCK := 9
  const NDIRECT := 8
  const NINDIRECT := 128
  const MAX_BLOCKS := 136
  const MAX_BYTES := 69632
  /** Bytes that the direct slots of an inode can hold. */
  const DIRECT_BYTES := 4096
  const FIRST_DATA := 123
  const DATA_BLOCKS := 32645

  /** Block that holds inode i. */
  function InodeBlock(i: nat): nat {
    BLOCK_NUM / BITS_PER_BLOCK + i / INODES_PER_BLOCK + 1
  }

  /** Block that holds the allocation bit of block b. */
  function BitmapBlock(b: nat): nat {
    b / BITS_PER_BLOCK + 1
  }

  /**
   * The literals above are what the macros expand to.  sizeof(struct inode) is 56: a short, two bytes of
   * padding and 13 four-byte fields.
   */
  lemma Geometry()
    ensures BLOCK_NUM == 1024 * 1024 * 16 / BLOCK_SIZE && BITS_PER_BLOCK == BLOCK_SIZE * 8
    ensures INODE_WORDS * 4 == 2 + 2 + 4 * 4 + 4 * (NDIRECT + 1)
    ensures INODES_PER_BLOCK == BLOCK_SIZE / (INODE_WORDS * 4) && NINDIRECT == BLOCK_SIZE / 4
    ensures MAX_BLOCKS == NDIRECT + NINDIRECT && MAX_BYTES == BLOCK_SIZE * MAX_BLOCKS
    ensures DIRECT_BYTES == NDIRECT * BLOCK_SIZE
    ensures FIRST_DATA == InodeBlock(INODE_NUM - 1) + 1 && DATA_BLOCKS == BLOCK_NUM - FIRST_DATA
  {
  }

  /** The superblock, the bitmap, the inode table and the data area do not overlap. */
  lemma RegionsDisjoint(b: nat, i: nat)
    requires b < BLOCK_NUM && i < INODE_NUM
    ensures 1 <= BitmapBlock(b) <= 8
    ensures 9 <= InodeBlock(i) < FIRST_DATA
  {
  }

  /** Blocks 1 to 8 hold 4096 allocation bits each, and blocks 9 to 122 hold nine inodes each. */
  lemma Places(b: nat, i: nat)
    ensures BITS_PER_BLOCK * (BitmapBlock(b) - 1) <= b < BITS_PER_BLOCK * BitmapBlock(b)
    ensures INODES_PER_BLOCK * (InodeBlock(i) - 9) <= i < INODES_PER_BLOCK * (InodeBlock(i) - 8)
  {
  }

  /** Two inodes never share a position: the pair (block, place in the block) determines the inode number. */
  lemma InodePlaceInjective(i: nat, j: nat)
    requires i < INODE_NUM && j < INODE_NUM
    requires InodeBlock(i) == InodeBlock(j)
    requires i % INODES_PER_BLOCK == j % INODES_PER_BLOCK
    ensures i == j
  {
  }
}
