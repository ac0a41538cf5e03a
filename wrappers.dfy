/** Option type shared by every module: `None` stands for the C `NULL` / "not found" results. */
module Wrappers {
  datatype Option<+T> = None | Some(value: T)
}

/** The C `size_t` of an LP64 target. */
module SizeT {
  /** 2^64: every size_t value is below it and size_t arithmetic wraps modulo it. */
  const WORD: nat := 0x1_0000_0000_0000_0000
  /** SIZE_MAX, the "not found" index of the search functions. */
  const SIZE_MAX: nat := WORD - 1
}
