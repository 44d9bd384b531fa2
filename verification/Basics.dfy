/** Types shared by the models. */
module Basics {

  datatype Option<+T> = None | Some(value: T)

  /** Unsigned 64-bit values. */
  const WORD: int := 0x1_0000_0000_0000_0000

  type Word = w: int | 0 <= w < 0x1_0000_0000_0000_0000
}
