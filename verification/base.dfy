/** Vocabulary shared by the session model and the socket model. */
module Base {

  type byte = bv8

  type Bytes = seq<byte>

  /** A value that may be absent, standing in for the source's `null()`. */
  datatype Option<+T> = None | Some(value: T)

  /** True of the values a 32-bit C++ `int` can hold. */
  predicate IsInt32(n: int) {
    -0x8000_0000 <= n < 0x8000_0000
  }
}
