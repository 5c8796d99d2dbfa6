/** Disk layout and fixed-width integer types of the journaled disk image. */
module Layout {

  /** Fixed-width unsigned integers and bytes, as stored on disk. */
  type Byte = b: int | 0 <= b < 0x100
  type U16 = x: int | 0 <= x < 0x1_0000
  type U32 = x: int | 0 <= x < 0x1_0000_0000

  const BLOCK_SIZE: nat := 4096
  const TOTAL_BLOCKS: nat := 85
  const DISK_BYTES: nat := TOTAL_BLOCKS * BLOCK_SIZE

  const SUPERBLOCK_BLK: nat := 0
  const JOURNAL_START_BLK: nat := 1
  const JOURNAL_NBLOCKS: nat := 16
  const JOURNAL_BYTES: nat := JOURNAL_NBLOCKS * BLOCK_SIZE
  const INODE_BMAP_BLK: nat := 17
  const DATA_BMAP_BLK: nat := 18
  const INODE_TBL_START_BLK: nat := 19
  const DATA_START_BLK: nat := 21

  /** Byte offset of the journal region in the disk image, and of its end. */
  const JOURNAL_BASE: nat := JOURNAL_START_BLK * BLOCK_SIZE
  const JOURNAL_END: nat := JOURNAL_BASE + JOURNAL_BYTES

  const JOURNAL_MAGIC: U32 := 0x4A52_4E4C
  const REC_DATA: U16 := 1
  const REC_COMMIT: U16 := 2

  /** Encoded sizes: journal header {magic, nbytes_used}, record header {type, size},
      DATA record = record header + home block number + block image, COMMIT record = record header. */
  const HEADER_SIZE: nat := 8
  const REC_HEADER_SIZE: nat := 4
  const DATA_REC_SIZE: nat := REC_HEADER_SIZE + 4 + BLOCK_SIZE
  const COMMIT_REC_SIZE: nat := REC_HEADER_SIZE

  /** Everything that can go wrong in the journal, each a fatal exit in the C code. */
  datatype JournalError =
    | JournalFull          // an append would run past the 16-block region
    | ReadOutOfBounds      // a journal read would run past the 16-block region
    | ShortRead            // a block read beyond the end of the disk image
    | BadHeader            // nbytes_used is smaller than the journal header
    | RecordOverrun        // a record runs past nbytes_used
    | SizeMismatch         // a record's declared size disagrees with its kind
    | UnknownRecordKind    // a record header whose type is neither DATA nor COMMIT
    | HomeBlockOutOfRange  // a DATA record names a block outside the disk image
    | HomeBlockInJournal   // a DATA record names a block of the journal region itself

  /** A block a DATA record may name as its home: inside the disk image and outside the
      journal region, which holds the log and is not a home location. */
  predicate IsHomeBlock(b: int)
  {
    0 <= b < TOTAL_BLOCKS && !(JOURNAL_START_BLK <= b < JOURNAL_START_BLK + JOURNAL_NBLOCKS)
  }

  /** Byte offset of block `blkno`, computed in a 64-bit signed offset. */
  function BlockOffset(blkno: U32): (off: nat)
    ensures off % BLOCK_SIZE == 0 && off / BLOCK_SIZE == blkno
    ensures off < 0x8000_0000_0000_0000
  {
    blkno * BLOCK_SIZE
  }

  /** The journal region starts at block JOURNAL_START_BLK and ends where the inode bitmap begins. */
  function JournalBaseOffset(): (off: nat)
    ensures off == BlockOffset(JOURNAL_START_BLK) == JOURNAL_BASE
    ensures off + JOURNAL_BYTES == BlockOffset(INODE_BMAP_BLK)
  {
    BlockOffset(JOURNAL_START_BLK)
  }

  /** Distinct blocks occupy disjoint byte ranges. */
  lemma BlocksDisjoint(a: U32, b: U32)
    requires a != b
    ensures BlockOffset(a) + BLOCK_SIZE <= BlockOffset(b) || BlockOffset(b) + BLOCK_SIZE <= BlockOffset(a)
  {
  }
}
