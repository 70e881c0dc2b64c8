/** Disk blocks as the log sees them: 512 bytes read as 128 unsigned ints. */
module DiskBlocks {
  import opened Params

  const WORDS_PER_BLOCK: nat := BSIZE / 4

  type uint32 = x: int | 0 <= x < 0x1_0000_0000
  type Block = b: seq<uint32> | |b| == WORDS_PER_BLOCK witness seq(WORDS_PER_BLOCK, _ => 0)

  const ZeroBlock: Block := seq(WORDS_PER_BLOCK, _ => 0)
}
