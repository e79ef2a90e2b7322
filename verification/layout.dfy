/** Sizing constants of the inode table, the descriptor table and the
    block store they live beside. */
module Layout {

  /** Bytes per block of the block store. */
  const BlockBytes: nat := 1024
  /** Blocks in the block store; block indices are therefore 16-bit. */
  const NumBlocks: nat := 65536

  const NumberInodes: nat := 256
  const InodeSize: nat := 64
  const InodeBitmapBlocks: nat := 1
  const InodeTableBlocks: nat := 16

  const NumFd: nat := 256
  const FdSize: nat := 6

  /** Pointer fields of an inode. */
  const DirectPointers: nat := 6
  const PointerBytes: nat := 2
  /** 16-bit block pointers held by one pointer block. */
  const PointersPerBlock: nat := BlockBytes / PointerBytes

  /** Where inode `id` lives inside the inode-table region: the index of
      the table block that holds it and the byte offset within that block.
      Every record lies wholly inside one of the 16 table blocks. */
  function InodeLocation(id: nat): (loc: (nat, nat))
    requires id < NumberInodes
    ensures loc.0 < InodeTableBlocks
    ensures loc.1 + InodeSize <= BlockBytes
    ensures loc.0 * BlockBytes + loc.1 == id * InodeSize
  {
    (id / 16, (id % 16) * InodeSize)
  }

  /** Conversely, every 64-byte slot of every inode-table block holds one
      inode record: 256 records of 64 bytes exactly fill 16 blocks of
      1024 bytes. */
  lemma InodeLocationCovers(blk: nat, off: nat)
    requires blk < InodeTableBlocks && off < BlockBytes && off % InodeSize == 0
    ensures exists id :: 0 <= id < NumberInodes && InodeLocation(id) == (blk, off)
  {
    var id := blk * 16 + off / InodeSize;
    assert InodeLocation(id) == (blk, off);
  }
}
