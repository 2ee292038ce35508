/** Machine-level vocabulary shared by the models of the kernel's C files
    (i386: 32-bit words, 32-bit size_t and pointers). */
module Machine {

  /** 2^32: the modulus of a uint32_t / size_t on the target. */
  const WORD_MOD: nat := 0x1_0000_0000

  /** INT32_MIN and INT32_MAX of an int32_t. */
  const INT_MIN: int := -0x8000_0000
  const INT_MAX: int := 0x7FFF_FFFF

  predicate IsU32(x: int) { 0 <= x < WORD_MOD }

  predicate IsI32(x: int) { INT_MIN <= x <= INT_MAX }

  datatype Option<T> = None | Some(value: T)

  /** A pointer into the heap arena: NULL, or the byte offset of a payload
      from the first byte of the arena. */
  datatype Ptr = Null | At(off: nat)
}
