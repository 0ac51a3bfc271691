/** What every module uses: the optional value, in place of std::optional and of thrown errors, and the word size. */
module Wrappers {
  datatype Option<+T> = None | Some(value: T)

  /** The unsigned 64-bit counters and sizes of the source wrap at this. */
  const U64: nat := 0x1_0000_0000_0000_0000
}
