/** What several components share. */
module Common {

  datatype Option<+T> = None | Some(value: T)

  /** One more than the largest 32-bit number. */
  const UINT32: nat := 0x1_0000_0000

  /** The console splitter's buffers grow by this many entries at a time. */
  const ALLOC_UNIT: nat := 32
}
