/** Option and Result values shared by the modules of this model: a null
    pointer becomes None, a thrown exception or error return becomes Failure. */
module Wrappers {

  datatype Option<+T> = None | Some(value: T)

  datatype Result<+R, +E> = Success(value: R) | Failure(error: E)

  /** An unsigned byte. */
  type Byte = b: nat | b < 0x100

  /** An unsigned 32-bit word (C++ `unsigned int`, `UINT32`). */
  type Word = w: nat | w < 0x1_0000_0000

  /** A 32-bit float, by its bit pattern: the model stores and compares
      floats but never computes with them. */
  datatype Float = Float(bits: Word)
}
