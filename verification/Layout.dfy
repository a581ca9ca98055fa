/** Where things lie on the device (fs/testfs.h, fs/super.c, fs/inode.c). */
module Layout {
  import opened Words
  import opened Store
  import opened InodeCache

  const SUPER_BLOCK_SIZE: int := 1
  const INODE_FREEMAP_SIZE: int := 1
  const BLOCK_FREEMAP_SIZE: int := 16

  const INODE_FREEMAP_START: int := SUPER_BLOCK_SIZE
  const BLOCK_FREEMAP_START: int := INODE_FREEMAP_START + INODE_FREEMAP_SIZE
  const INODE_BLOCKS_START: int := BLOCK_FREEMAP_START + BLOCK_FREEMAP_SIZE

  /** The data area begins where the inode blocks end, each free map has a bit for everything
      it is a map of, and no inode block is a data block. */
  lemma AreasAreApart(nr: int, b: int)
    ensures DATA_BLOCKS_START == INODE_BLOCKS_START + NR_INODE_BLOCKS
    ensures NR_FREEMAP_BITS == BLOCK_SIZE * BLOCK_FREEMAP_SIZE * 8
    ensures NR_INODES == NR_INODE_BLOCKS * (BLOCK_SIZE / DINODE_SIZE) && NR_INODES <= BLOCK_SIZE * INODE_FREEMAP_SIZE * 8
    ensures IsInode(nr) && InDataArea(b) ==> INODE_BLOCKS_START <= INODE_BLOCKS_START + BlockNr(nr) < b
    ensures MAX_FILE_SIZE == MAX_FILE_BLOCKS * BLOCK_SIZE
    ensures MAX_FILE_BLOCKS == NR_DIRECT + NR_INDIRECT + NR_INDIRECT * NR_INDIRECT && NR_INDIRECT == BLOCK_SIZE / 4
  {
  }

  /** Byte `k` of the inode area. */
  function AreaByte(blocks: InodeBlocks, k: int): byte
    requires 0 <= k < NR_INODE_BLOCKS * BLOCK_SIZE
  {
    blocks[k / BLOCK_SIZE][k % BLOCK_SIZE]
  }

  /** Inode `nr` is the 64 bytes from byte 64 nr of the inode area on. */
  lemma InodeLies(blocks: InodeBlocks, nr: int, k: int)
    requires IsInode(nr) && 0 <= k < DINODE_SIZE
    ensures 0 <= nr * DINODE_SIZE + k < NR_INODE_BLOCKS * BLOCK_SIZE
    ensures InodeCache.Slot(blocks, nr)[k] == AreaByte(blocks, nr * DINODE_SIZE + k)
    ensures BlockNr(nr) * BLOCK_SIZE + BlockOffset(nr) == nr * DINODE_SIZE
  {
    var p := nr * DINODE_SIZE + k;
    assert p == (nr / INODES_PER_BLOCK) * BLOCK_SIZE + (nr % INODES_PER_BLOCK * DINODE_SIZE + k);
    assert p / BLOCK_SIZE == BlockNr(nr) && p % BLOCK_SIZE == BlockOffset(nr) + k;
  }
}
