/** Sizes that the file system is built with. */
module Params {

  const BSIZE: nat := 512
  /** The blocks that one operation may log, and those that the log holds. */
  const MAXOPBLOCKS: nat := 10
  const LOGSIZE: nat := MAXOPBLOCKS * 3
}
