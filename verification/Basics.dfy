/** Small types used throughout. */
module Basics {

  datatype Option<T> = None | Some(value: T)

  /** A limit that may be switched off (the source's largest size_t). */
  datatype Limit = Unlimited | AtMost(n: nat) {
    predicate Allows(m: nat) { AtMost? ==> m <= n }
  }

  type Byte = n: nat | n < 256

  const U32: nat := 0x1_0000_0000
  const U64: nat := 0x1_0000_0000_0000_0000
}
